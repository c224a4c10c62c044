# ipty input-side edit buffer, in Dafny

ipty runs a shell on a pseudo-terminal and passes every chunk it reads from the
real terminal through a chain of input modifiers before the chunk reaches the
child. To let the modifiers erase or rewrite what has already been echoed, the
`PTY` object keeps an edit buffer. `user_input` is the line typed so far and
`cursor_offset` is moved by the arrow keys.

This project models that engine:

- `PyStr` (`pystr.dfy`) holds the Python 2 string operations the engine relies
  on: slices with negative and clamped bounds, `str.strip()`, `str.find()` and
  `'c' * n`.
- `Modifiers` (`modifiers.dfy`) has the three modifiers as functions on the
  buffer and the master log, with lemmas about each:
  - `InputFilter`, both with an abstract matcher and with the installed
    pattern `.*(?:^|\W)(nsa$)` (case-insensitive).
  - `InputEval`, with the leftmost `~~X~~` search and an arbitrary evaluator function.
  - `InputCompletition`. Its loops are kept as the methods `ShortestCut` and
    `FindCompletion`, which are proved against a declarative definition.
- `Terminal` (`terminal.dfy`) holds the class `Pty`:
  - Its fields are `userInput`, `cursorOffset`, the list of modifiers, and
    `master`, the log of every byte written to the pty master.
  - `HandleStdinRead` (`_handle_stdin_read`) and `WriteMaster`
    (`_write_master`) change those fields in place.
  - The modifier methods reach the buffer through `this`, which stands in for
    their back-reference to the `PTY`.
  - Each method is proved against a specification function: `HandleStdin`,
    `FilterStep`, `EvalStep`, `CompletionStep`, and `RunChain` for the
    modifier loop.
  - The lemmas state what one chunk of each kind does.
- `Cache` (`cache.dfy`) holds `FileCacher`: `reset`, `write` and `flush`,
  using `Join` (`'\n'.join`). `Split` is its partner, and the two round-trip
  lemmas relate them.

`os.write` may accept any non-empty part of what is left on each call. The
`WriteMaster` loop picks that amount nondeterministically and is proved, for
every possible sequence of partial writes, to append exactly `data` to the log.

## Behaviour as written

In these places the code does something other than its purpose suggests, and the model does what the code does:

- **Insertion index.** With a non-zero `cursor_offset` k, text is inserted at
  `ui[:k] + data + ui[k:]`. A positive k counts from the start of the line,
  not back from its end. A negative k counts from the end. Both are clamped
  to the line (`Terminal.InsertAt`).
- **No bound on the offset.** Nothing keeps `cursor_offset` within
  `0..len(user_input)`. The arrows move it without bound, and Enter/^C are
  the only resets (`Terminal.ArrowsMoveOffset`).
- **Escape clears the line but keeps the offset.** An unrecognised ESC
  sequence empties the buffer and leaves `cursor_offset` as it was
  (`Terminal.OtherEscapeClears`).
- **Completion.** Prefixes of each term are tried from the shortest up, and a
  prefix counts only if its leftmost occurrence (`find`) in the buffer is at
  the buffer's end. After the keystroke has been typed into the buffer the
  rule appends `data` again, so a completed line holds the keystroke twice
  (`Terminal.CompletionDoublesKeystroke`).
- **Eval removes the buffer's tail, not the span.** Eval drops the last
  `len(X)+4` characters wherever the span is. This is exactly the span only
  when the span ends the buffer (`Modifiers.EvalFirstSpan`,
  `Modifiers.EvalSpanAtEnd`).
- **Filter group lengths.** A filter match with group length 0 empties the
  buffer, because `ui[:-0]` is `ui[:0]` (`Modifiers.FilterMatch`). The
  installed pattern also matches `nsa` before a final newline, since Python's
  `$` allows one.

## Model

| member | source | states |
|---|---|---|
| `PyStr.SliceIndex` | ipty.py:172 | the definition of Python's rule for a slice bound (negative counts from the end, then clamped); its contract says only that the index lies within the sequence |
| `PyStr.Repeat` | ipty.py:203 | `c * n` has max(n, 0) characters, all c |
| `PyStr.Strip` | ipty.py:269 | `strip()` is a contiguous piece with only whitespace around it, starting and ending with non-whitespace, empty exactly for an all-whitespace string |
| `PyStr.Take` | ipty.py:204 | `s[:k]` is a prefix of s, of length min(k, len) for k >= 0 and of length len + k, at least 0, for a negative k |
| `PyStr.TakeNegative` | ipty.py:268 | `s[:-n]` is empty for n = 0, drops the last n characters for 0 < n <= len, and is empty for n > len |
| `PyStr.Drop` | ipty.py:172 | `s[k:]` is exactly what `s[:k]` leaves: the two together give s back |
| `PyStr.Find` | ipty.py:294 | `find` returns the leftmost occurrence, or -1 exactly when there is none |
| `Modifiers.ApplyModifier` | ipty.py:174 | a modifier call that returns true has changed neither the buffer nor the master, and no call removes anything from the master |
| `Modifiers.FilterStep` | ipty.py:199-206 | the filter returns true exactly when the matcher finds nothing, then changes nothing, and only ever appends to the master |
| `Modifiers.FilterNoMatch` | ipty.py:199-206 | without a match the filter returns true and changes neither the buffer nor the master |
| `Modifiers.FilterMatch` | ipty.py:199-206 | a match with group length n writes n-1 backspaces, removes the buffer's last n characters (everything for n = 0 or n > length) and returns false |
| `Modifiers.LowerMatches` | ipty.py:310 | under `re.I` a byte matches a lower-case pattern letter exactly when it is that letter or its upper-case form |
| `Modifiers.NsaGroup` | ipty.py:310 | the installed pattern matches exactly when `nsa` (any case) sits at the start or after a non-word character and ends the buffer or precedes a final newline; the group has length 3 |
| `Modifiers.NsaFilterErases` | ipty.py:199-205 | typing the forbidden word after a non-word character removes it from the buffer, sends two backspaces and vetoes |
| `Modifiers.FindSpan` | ipty.py:263 | the search returns the leftmost `~~X~~` with X non-empty and free of `~`, or nothing exactly when there is no such span |
| `Modifiers.SpanAtRun` | ipty.py:259 | a span is `~~`, then the whole run of non-`~` characters that follows, then `~~`, so at most one span starts at each index |
| `Modifiers.NoTildeNoSpan` | ipty.py:259 | a buffer without `~` holds no span |
| `Modifiers.EvalStep` | ipty.py:262-273 | eval returns true exactly when the search finds no span, then changes nothing, and only ever appends to the master |
| `Modifiers.EvalWithoutTilde` | ipty.py:262-273 | without a `~` in the buffer, eval returns true and changes nothing |
| `Modifiers.EvalStepOn` | ipty.py:266-272 | for the span the search returns, the span fits in the buffer; len(X)+3 backspaces then the stripped result go to the master, and the buffer loses its last len(X)+4 characters and gains the result |
| `Modifiers.EvalNoSpan` | ipty.py:262-273 | without a span, eval returns true and changes nothing |
| `Modifiers.EvalFirstSpan` | ipty.py:262-273 | with leftmost span `~~X~~`: len(X)+3 backspaces then the stripped result go to the master, the buffer loses its last len(X)+4 characters and gains the result, and eval returns false |
| `Modifiers.EvalSpanAtEnd` | ipty.py:266-270 | when the span ends the buffer exactly the span is replaced by the result |
| `Modifiers.EvalEcho` | ipty.py:262-272 | `echo ~~1+1~~` becomes `echo 2` for an evaluator printing `2` |
| `Modifiers.QualifiesMeans` | ipty.py:291-294 | a prefix qualifies iff it ends the buffer and occurs nowhere earlier in it |
| `Modifiers.ShortestFrom` | ipty.py:289-299 | the shortest qualifying prefix length in [min, len(term)), or none when no length there qualifies |
| `Modifiers.ShortestCut` | ipty.py:289-299 | the `while cut > 0` loop finds exactly the shortest qualifying prefix of a term |
| `Modifiers.CandidatesMeans` | ipty.py:288-298 | the candidate list holds, in strictly increasing order, exactly the indices of the terms whose shortest-first search finds a qualifying prefix |
| `Modifiers.OffersIffShortest` | ipty.py:288-298 | a term has a qualifying prefix of length at least the minimum and short of the whole term exactly when the shortest-first search finds one |
| `Modifiers.CompletionOf` | ipty.py:283-300 | a completion is offered only for a buffer that is neither blank nor shorter than the minimum, and it is never empty |
| `Modifiers.IsBlank` | ipty.py:283 | `not ui.strip()` holds exactly for an empty or all-whitespace buffer |
| `Modifiers.FindCompletion` | ipty.py:283-300 | the source's checks and loops yield exactly the completion of the declarative definition |
| `Modifiers.CompletionExactlyWhen` | ipty.py:282-304 | a completion c is offered iff the buffer is neither blank nor shorter than the minimum and exactly one term completes it with c, after its shortest qualifying prefix |
| `Modifiers.CompletionAmbiguous` | ipty.py:295-296 | two different entries that both offer a completion (a qualifying prefix of at least the minimum length, short of the whole term) prevent any completion |
| `Modifiers.CompletionSpellsTerm` | ipty.py:297 | the buffer's tail followed by the completion spells a whole term |
| `Modifiers.CompletionStep` | ipty.py:282-304 | completion returns true exactly when no completion is offered, then changes nothing, and only ever appends to the master |
| `Modifiers.CompletesVolume` | ipty.py:311 | with the installed term `-af volume=` and the default minimum of 4, the buffer `-af ` is completed with `volume=` |
| `Terminal.Classify` | ipty.py:152-166 | a chunk is a submit exactly when it is CR or ^C, an escape chunk exactly when it starts with ESC, and an erase exactly when it is BS or DEL; anything else is text |
| `Terminal.Insert` | ipty.py:169-172 | typing makes the buffer longer by exactly the chunk's length |
| `Terminal.InsertAt` | ipty.py:169-172 | typed text is inserted whole at the position Python's slicing gives the offset, and the buffer grows by its length |
| `Terminal.RunChain` | ipty.py:173-175 | definition without a contract: each modifier in list order on the buffer and master its predecessors left, the verdict being the conjunction of their results; stated by the chain lemmas below |
| `Terminal.HandleStdin` | ipty.py:146-177 | definition without a contract: the effect of a chunk on buffer, offset and master, one case per branch of `_handle_stdin_read`; stated by the lemmas below, one per kind of chunk |
| `Terminal.ChainExtend` | ipty.py:173-175 | the chain up to and including modifier i is the chain up to i followed by a call of modifier i |
| `Terminal.ChainSingle` | ipty.py:173-175 | a one-modifier chain is one call |
| `Terminal.ChainAppend` | ipty.py:173-175 | the modifiers run in order, each on the state the previous ones left, and the verdict is the conjunction |
| `Terminal.ChainForwardIffAll` | ipty.py:173-177 | the chunk is forwarded iff every modifier, called on its predecessors' state, returned true; all modifiers run after a veto |
| `Terminal.ForwardedChainKeepsState` | ipty.py:173-175 | when every modifier returned true, none of them changed the buffer or the master |
| `Terminal.ChainMasterGrows` | ipty.py:173-175 | the modifiers only ever append to the master |
| `Terminal.MasterOnlyGrows` | ipty.py:146-177 | no chunk takes back anything written to the master; a forwarded text chunk leaves the typed buffer and writes only the chunk |
| `Terminal.SubmitResets` | ipty.py:152-155 | Enter or ^C empties the buffer, zeroes the offset and forwards the chunk, whatever the modifiers |
| `Terminal.ArrowsMoveOffset` | ipty.py:157-162 | `ESC O C` decrements and `ESC O D` increments the offset without bound, keeping the buffer and forwarding the chunk |
| `Terminal.OtherEscapeClears` | ipty.py:157-164 | any other ESC chunk empties the buffer, keeps the offset and is forwarded |
| `Terminal.EraseDropsLast` | ipty.py:166-167 | backspace or DEL drops the last character (none of an empty buffer), keeps the offset and is forwarded |
| `Terminal.TextWithoutModifiers` | ipty.py:168-177 | with no modifiers typed text is inserted (appended at offset 0) and forwarded |
| `Terminal.TextForwardedIffAllAgree` | ipty.py:168-177 | for typed text the new buffer is the chain's and the raw chunk follows the modifiers' output iff every modifier returned true |
| `Terminal.CompletionDoublesKeystroke` | ipty.py:168-177 | a unique completion leaves the keystroke twice in the buffer and sends keystroke plus completion once |
| `Terminal.TypingNsaIsErased` | ipty.py:168-177 | with the installed filter, typing the `a` of `nsa` restores the buffer before the word and sends two backspaces instead of the keystroke |
| `Terminal.Installed` | ipty.py:310-312 | definition: the list of ipty.py:310-312 in order, the `nsa` filter, completion of `-af volume=` from four characters on, and eval; its contract says only that there are three |
| `Terminal.InstalledCompletesVolume` | ipty.py:310-312 | with the installed chain and the cursor at the end, typing a space after `-af` leaves `-af  volume=` in the buffer and sends ` volume=` to the master |
| `Terminal.Pty.constructor` | ipty.py:40-46 | a new session has an empty buffer, offset 0 and the given modifiers |
| `Terminal.Pty.WriteMaster` | ipty.py:184-191 | for any sequence of partial writes, `data` is appended to the master log |
| `Terminal.Pty.InputFilter` | ipty.py:199-206 | the filter changes buffer and master and returns as `FilterStep` says |
| `Terminal.Pty.InputEval` | ipty.py:262-273 | eval changes buffer and master and returns as `EvalStep` says |
| `Terminal.Pty.InputCompletion` | ipty.py:282-304 | completion changes buffer and master and returns as `CompletionStep` says |
| `Terminal.Pty.CallModifier` | ipty.py:174 | one modifier call is that modifier's step |
| `Terminal.Pty.RunModifiers` | ipty.py:173-175 | the `for m in self.input_modifiers` loop leaves the buffer and master, and computes `write_out`, as `RunChain` says |
| `Terminal.Pty.HandleStdinRead` | ipty.py:146-177 | buffer, offset and master log change as `HandleStdin` says for the chunk |
| `Cache.Join` | ipty.py:221 | definition without a contract: `'\n'.join`, the lines with one newline between neighbours; its partner `Split` and the two round-trip lemmas below state it |
| `Cache.SplitJoin` | ipty.py:221 | splitting the newline-join of a non-empty list of newline-free lines gives the lines back |
| `Cache.JoinSplit` | ipty.py:221 | joining the split of a string gives the string back |
| `Cache.FileCacher.constructor` | ipty.py:211-212 | a new cacher holds nothing |
| `Cache.FileCacher.Reset` | ipty.py:214-215 | reset empties the cache |
| `Cache.FileCacher.Write` | ipty.py:217-218 | write appends the string after those already held |
| `Cache.FileCacher.Flush` | ipty.py:220-223 | flush returns the newline-join of the strings written since the last reset, in order, and empties the cache |

## Left out

- `PTY._spawn`, `_set_pty_size`, `_signal_winch`, `_copy`, `_handle_master_read`, `_write_stdout`, `run` and `reset_terminal` are left out. They fork, exec, install signal handlers, change terminal modes, call ioctl, run the select loop and write to stdout: all OS process and terminal I/O.
- `Shell` is not modelled. The evaluator is an arbitrary function `evaluate: string -> string`, fixed for the session. The real console is not a function of its input: its namespace holds `time`, `math` and `random` (ipty.py:231-234), so the same text can print different results, and the state an `InteractiveConsole` keeps between calls (earlier definitions) changes later results too. Because `Pty.inputModifiers` holds one `evaluate` for the whole session, the model's evaluator is deterministic across chunks where the real one is not; no lemma relies on this, since each lemma is about one chunk or holds for every evaluator. That namespace is also the module's own `globals()` (ipty.py:231), which holds the `PTY` object `p`, so evaluated code can change `p.user_input` before ipty.py:270 appends the result to it. The model's evaluator cannot touch the session, so that effect is not modelled.
- The `re` engine is not modelled. The filter takes a matcher function that returns the group length, and only the two patterns ipty uses are modelled: `NsaGroup` for `.*(?:^|\W)(nsa$)` with `re.I` on byte strings, and `FindSpan` for `~~([^~]+)~~`.
- The `assert self.master_fd is not None` checks are not modelled. The master is taken to be open whenever a chunk is handled.
- `Terminal.Pty.WriteMaster`: each `os.write` is assumed to accept between 1 and all of the remaining bytes. A write error, or a zero-length write on which the source would loop forever, is not modelled.
- The `command`, `master_fd` and `output_modifiers` fields of `PTY` are not modelled, because nothing in the edit-buffer engine reads them. The module-level shell lookup and the `PTY([shell])`/`p.run()` part of the `__main__` block are not modelled either. The modifiers that block installs are modelled as `Terminal.Installed`.
- `Cache.FileCacher.Write`: `str(line)` is modelled only for strings. Other objects' string conversion is outside the model.
- `Modifiers.FindCompletion`: `min_match_length` is a natural number. A negative minimum, which the source would accept, is not modelled.
- `Modifiers.ShortestCut`: the source returns `True` from inside the `while cut > 0` loop when a second term qualifies. The model finds the term's shortest qualifying prefix first and returns to the caller, which then gives up. No input can tell the two apart.
