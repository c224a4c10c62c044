/** The input side of ipty's `PTY` object: the edit buffer (`user_input`,
    `cursor_offset`) that `_handle_stdin_read` keeps for every chunk read
    from the real terminal, the list of input modifiers it runs, and the
    master side of the pseudo-terminal as the log of bytes written to it. */
module Terminal {
  import opened PyStr
  import opened Modifiers

  const CR: char := '\r'
  /** ^C */
  const ETX: char := '\U{3}'
  const ESC: char := '\U{1b}'
  const DEL: char := '\U{7f}'

  /** The arrow keys `_handle_stdin_read` recognises: `ESC O C` decrements
      `cursor_offset` and `ESC O D` increments it; where typed text then lands
      is decided by the slicing in `Insert`. */
  const ARROW_RIGHT: seq<char> := [ESC, 'O', 'C']
  const ARROW_LEFT: seq<char> := [ESC, 'O', 'D']

  /** The classes of a stdin chunk, told apart in the order of the source. */
  datatype Key = Submit | ArrowRight | ArrowLeft | OtherEscape | Erase | Text

  function Classify(data: seq<char>): (k: Key)
    ensures k == Submit <==> data == [CR] || data == [ETX]
    ensures (k == ArrowRight || k == ArrowLeft || k == OtherEscape) <==> |data| > 0 && data[0] == ESC
    ensures k == Erase <==> data == [BS] || data == [DEL]
  {
    if data == [CR] || data == [ETX] then Submit
    else if |data| > 0 && data[0] == ESC then
      (if data == ARROW_RIGHT then ArrowRight
       else if data == ARROW_LEFT then ArrowLeft
       else OtherEscape)
    else if data == [BS] || data == [DEL] then Erase
    else Text
  }

  /** The buffer after typing `data` with the cursor offset k: appended when
      k is 0, otherwise `ui[:k] + data + ui[k:]`. */
  function Insert(ui: seq<char>, k: int, data: seq<char>): (r: seq<char>)
    ensures |r| == |ui| + |data|
  {
    if k == 0 then ui + data else Take(ui, k) + data + Drop(ui, k)
  }

  /** Typing puts `data` into the buffer whole, at one position p that
      Python's slicing derives from the offset: the end for 0, k itself (at
      most the length) for a positive k, k from the end (at least 0) for a
      negative one; the rest of the buffer is kept in order around it. */
  lemma InsertAt(ui: seq<char>, k: int, data: seq<char>)
    ensures var p := if k == 0 then |ui| else if k > 0 then (if k <= |ui| then k else |ui|)
                     else (if -k <= |ui| then |ui| + k else 0);
            && Insert(ui, k, data) == ui[..p] + data + ui[p..]
            && |Insert(ui, k, data)| == |ui| + |data|
  {
  }

  /** What `_handle_stdin_read` tracks, plus the master log. */
  datatype Session = Session(userInput: seq<char>, cursorOffset: int, master: seq<char>)

  /** A modifier call on the chunk `data`: the state it leaves and its result. */
  function Step(data: seq<char>): (Modifier, Io) -> Verdict {
    (m: Modifier, io: Io) => ApplyModifier(m, data, io)
  }

  /** The modifier loop of `_handle_stdin_read`: every modifier in order on the
      buffer and master its predecessors left, the verdict being the
      conjunction of their results. */
  function RunChain(step: (Modifier, Io) -> Verdict, mods: seq<Modifier>, io: Io): Verdict
    decreases |mods|
  {
    if mods == [] then Verdict(io, true)
    else
      var before := RunChain(step, mods[..|mods| - 1], io);
      var last := step(mods[|mods| - 1], before.io);
      Verdict(last.io, before.forward && last.forward)
  }

  /** The effect of one stdin chunk on the session. */
  function HandleStdin(mods: seq<Modifier>, s: Session, data: seq<char>): Session {
    match Classify(data)
    case Submit => Session([], 0, s.master + data)
    case ArrowRight => Session(s.userInput, s.cursorOffset - 1, s.master + data)
    case ArrowLeft => Session(s.userInput, s.cursorOffset + 1, s.master + data)
    case OtherEscape => Session([], s.cursorOffset, s.master + data)
    case Erase => Session(Take(s.userInput, -1), s.cursorOffset, s.master + data)
    case Text =>
      var v := RunChain(Step(data), mods, Io(Insert(s.userInput, s.cursorOffset, data), s.master));
      Session(v.io.userInput, s.cursorOffset, if v.forward then v.io.master + data else v.io.master)
  }

  /** A one-element list is one call. */
  lemma ChainSingle(step: (Modifier, Io) -> Verdict, m: Modifier, io: Io)
    ensures RunChain(step, [m], io) == step(m, io)
  {
    assert [m][..0] == [];
  }

  /** The chain up to modifier i, then modifier i itself. */
  lemma ChainExtend(step: (Modifier, Io) -> Verdict, mods: seq<Modifier>, i: nat, io: Io)
    requires i < |mods|
    ensures var before := RunChain(step, mods[..i], io);
            var last := step(mods[i], before.io);
            RunChain(step, mods[..i + 1], io) == Verdict(last.io, before.forward && last.forward)
  {
    assert mods[..i + 1][..i] == mods[..i];
  }

  /** Running two lists one after the other is running their concatenation. */
  lemma {:induction false} ChainAppend(step: (Modifier, Io) -> Verdict, m1: seq<Modifier>,
                                       m2: seq<Modifier>, io: Io)
    ensures var o1 := RunChain(step, m1, io);
            var o2 := RunChain(step, m2, o1.io);
            RunChain(step, m1 + m2, io) == Verdict(o2.io, o1.forward && o2.forward)
    decreases |m2|
  {
    if m2 == [] {
      assert m1 + m2 == m1;
    } else {
      var init := m2[..|m2| - 1];
      assert (m1 + m2)[..|m1 + m2| - 1] == m1 + init;
      assert (m1 + m2)[|m1 + m2| - 1] == m2[|m2| - 1];
      ChainAppend(step, m1, init, io);
    }
  }

  /** Modifier i of the list returns true when called on the state the
      modifiers before it left. */
  predicate Agrees(step: (Modifier, Io) -> Verdict, mods: seq<Modifier>, io: Io, i: int)
    requires 0 <= i < |mods|
  {
    step(mods[i], RunChain(step, mods[..i], io).io).forward
  }

  /** The chunk is forwarded exactly when every modifier, each called on the
      state its predecessors left, returned true: a veto does not stop the
      modifiers after it from running. */
  lemma {:induction false} ChainForwardIffAll(step: (Modifier, Io) -> Verdict,
                                              mods: seq<Modifier>, io: Io)
    ensures RunChain(step, mods, io).forward <==>
            forall i :: 0 <= i < |mods| ==> Agrees(step, mods, io, i)
    decreases |mods|
  {
    if mods != [] {
      var n := |mods| - 1;
      var init := mods[..n];
      ChainForwardIffAll(step, init, io);
      forall i | 0 <= i < n ensures Agrees(step, init, io, i) == Agrees(step, mods, io, i) {
        assert init[..i] == mods[..i];
      }
      assert Agrees(step, mods, io, n) == step(mods[n], RunChain(step, init, io).io).forward;
    }
  }

  /** A forwarded chunk went through the chain untouched: when every
      modifier returned true, none of them changed the buffer or the master. */
  lemma {:induction false} ForwardedChainKeepsState(data: seq<char>, mods: seq<Modifier>, io: Io)
    ensures RunChain(Step(data), mods, io).forward ==> RunChain(Step(data), mods, io).io == io
    decreases |mods|
  {
    if mods != [] {
      ForwardedChainKeepsState(data, mods[..|mods| - 1], io);
    }
  }

  /** The modifiers only ever append to the master: what the chain leaves
      there starts with what was there before. */
  lemma {:induction false} ChainMasterGrows(data: seq<char>, mods: seq<Modifier>, io: Io)
    ensures io.master <= RunChain(Step(data), mods, io).io.master
    decreases |mods|
  {
    if mods != [] {
      ChainMasterGrows(data, mods[..|mods| - 1], io);
    }
  }

  /** Nothing once written to the master is taken back by a chunk, and a
      forwarded chunk that reaches the modifiers is the only thing written. */
  lemma MasterOnlyGrows(mods: seq<Modifier>, s: Session, data: seq<char>)
    ensures s.master <= HandleStdin(mods, s, data).master
    ensures Classify(data) == Text && RunChain(Step(data), mods, Io(Insert(s.userInput, s.cursorOffset, data), s.master)).forward
            ==> HandleStdin(mods, s, data)
                == Session(Insert(s.userInput, s.cursorOffset, data), s.cursorOffset, s.master + data)
  {
    var io := Io(Insert(s.userInput, s.cursorOffset, data), s.master);
    ChainMasterGrows(data, mods, io);
    ForwardedChainKeepsState(data, mods, io);
  }

  /** Enter and ^C empty the buffer, reset the offset and are forwarded, and
      no modifier takes part, whatever the modifiers are. */
  lemma SubmitResets(mods: seq<Modifier>, s: Session, data: seq<char>)
    requires data == [CR] || data == [ETX]
    ensures HandleStdin(mods, s, data) == Session([], 0, s.master + data)
  {
  }

  /** The arrow keys move the offset by one in either direction, with no
      bound, keep the buffer, and are forwarded; no modifier takes part. */
  lemma ArrowsMoveOffset(mods: seq<Modifier>, s: Session)
    ensures HandleStdin(mods, s, ARROW_RIGHT)
            == Session(s.userInput, s.cursorOffset - 1, s.master + ARROW_RIGHT)
    ensures HandleStdin(mods, s, ARROW_LEFT)
            == Session(s.userInput, s.cursorOffset + 1, s.master + ARROW_LEFT)
  {
  }

  /** Any other chunk starting with ESC empties the buffer but keeps the
      offset, and is forwarded; no modifier takes part. */
  lemma OtherEscapeClears(mods: seq<Modifier>, s: Session, data: seq<char>)
    requires |data| > 0 && data[0] == ESC && data != ARROW_RIGHT && data != ARROW_LEFT
    ensures HandleStdin(mods, s, data) == Session([], s.cursorOffset, s.master + data)
  {
  }

  /** Backspace and DEL drop the last character of the buffer (nothing when
      it is empty), keep the offset, and are forwarded; no modifier takes part. */
  lemma EraseDropsLast(mods: seq<Modifier>, s: Session, data: seq<char>)
    requires data == [BS] || data == [DEL]
    ensures HandleStdin(mods, s, data).userInput
            == (if s.userInput == [] then [] else s.userInput[..|s.userInput| - 1])
    ensures HandleStdin(mods, s, data).cursorOffset == s.cursorOffset
    ensures HandleStdin(mods, s, data).master == s.master + data
  {
  }

  /** Any other chunk is typed into the buffer at the offset, the offset is
      kept, and the modifiers decide the rest: with an empty list the buffer
      is exactly the typed one and the chunk is forwarded. */
  lemma TextWithoutModifiers(s: Session, data: seq<char>)
    requires Classify(data) == Text
    ensures HandleStdin([], s, data)
            == Session(Insert(s.userInput, s.cursorOffset, data), s.cursorOffset, s.master + data)
    ensures s.cursorOffset == 0 ==> HandleStdin([], s, data).userInput == s.userInput + data
  {
  }

  /** For typed text the forwarding decision is the chain's: the raw chunk
      reaches the master, after whatever the modifiers wrote, exactly when
      every modifier returned true. */
  lemma TextForwardedIffAllAgree(mods: seq<Modifier>, s: Session, data: seq<char>)
    requires Classify(data) == Text
    ensures var io := Io(Insert(s.userInput, s.cursorOffset, data), s.master);
            var v := RunChain(Step(data), mods, io);
            && HandleStdin(mods, s, data)
               == Session(v.io.userInput, s.cursorOffset, v.io.master + (if v.forward then data else []))
            && (v.forward <==> forall i :: 0 <= i < |mods| ==> Agrees(Step(data), mods, io, i))
  {
    var io := Io(Insert(s.userInput, s.cursorOffset, data), s.master);
    ChainForwardIffAll(Step(data), mods, io);
    var v := RunChain(Step(data), mods, io);
    assert v.io.master + [] == v.io.master;
  }

  /** A unique completion with the cursor at the end: the buffer holds the
      keystroke twice (typed, then again before the completion), and the
      master gets the keystroke once, followed by the completion. */
  lemma CompletionDoublesKeystroke(terms: seq<seq<char>>, minLen: nat, s: Session,
                                   data: seq<char>, c: seq<char>)
    requires Classify(data) == Text && s.cursorOffset == 0
    requires CompletionOf(s.userInput + data, terms, minLen) == Some(c)
    ensures HandleStdin([Modifier.Completion(terms, minLen)], s, data)
            == Session(s.userInput + data + data + c, 0, s.master + data + c)
  {
    var io := Io(s.userInput + data, s.master);
    assert Insert(s.userInput, 0, data) == s.userInput + data;
    ChainSingle(Step(data), Modifier.Completion(terms, minLen), io);
    assert CompletionStep(terms, minLen, data, io)
           == Verdict(Io(s.userInput + data + data + c, s.master + data + c), false);
  }

  /** With the installed filter alone, typing the last letter of the
      forbidden word at the end of the line leaves the buffer as it was
      before the word, and the master gets two backspaces instead of the
      keystroke. */
  lemma TypingNsaIsErased(s: Session, prefix: seq<char>)
    requires s.cursorOffset == 0
    requires |s.userInput| >= 2
    requires prefix == s.userInput[..|s.userInput| - 2]
    requires prefix == [] || !IsWordChar(prefix[|prefix| - 1])
    requires Lower(s.userInput[|s.userInput| - 2]) == 'n' && Lower(s.userInput[|s.userInput| - 1]) == 's'
    ensures HandleStdin([Filter(NsaGroup)], s, "a") == Session(prefix, 0, s.master + [BS, BS])
  {
    NsaChainErases(s.userInput, prefix, s.master);
    TypedText([Filter(NsaGroup)], s, "a");
  }

  /** The chain of the filter alone on the buffer with `a` typed after `ns`. */
  lemma NsaChainErases(ui: seq<char>, prefix: seq<char>, master: seq<char>)
    requires |ui| >= 2 && prefix == ui[..|ui| - 2]
    requires prefix == [] || !IsWordChar(prefix[|prefix| - 1])
    requires Lower(ui[|ui| - 2]) == 'n' && Lower(ui[|ui| - 1]) == 's'
    ensures RunChain(Step("a"), [Filter(NsaGroup)], Io(Insert(ui, 0, "a"), master))
            == Verdict(Io(prefix, master + [BS, BS]), false)
  {
    var w := [ui[|ui| - 2], ui[|ui| - 1], 'a'];
    assert Insert(ui, 0, "a") == prefix + w;
    NsaFilterErases(prefix, w, master);
    ChainSingle(Step("a"), Filter(NsaGroup), Io(prefix + w, master));
  }

  /** A chunk of text goes through the chain on the typed buffer. */
  lemma TypedText(mods: seq<Modifier>, s: Session, data: seq<char>)
    requires |data| == 1 && data[0] !in {CR, ETX, ESC, BS, DEL}
    ensures var v := RunChain(Step(data), mods, Io(Insert(s.userInput, s.cursorOffset, data), s.master));
            HandleStdin(mods, s, data)
            == Session(v.io.userInput, s.cursorOffset, if v.forward then v.io.master + data else v.io.master)
  {
    assert Classify(data) == Text;
  }

  /** The input modifiers ipty's main program installs, in order: the filter
      of the word `nsa`, completion of `-af volume=` from four characters on,
      and the evaluator. */
  function Installed(evaluate: seq<char> -> seq<char>): (mods: seq<Modifier>)
    ensures |mods| == 3
  {
    [Filter(NsaGroup), Completion(["-af volume="], 4), Eval(evaluate)]
  }

  /** A chain of three modifiers is three calls in a row. */
  lemma ChainOfThree(step: (Modifier, Io) -> Verdict, m0: Modifier, m1: Modifier, m2: Modifier, io: Io)
    ensures var v0 := step(m0, io);
            var v1 := step(m1, v0.io);
            var v2 := step(m2, v1.io);
            RunChain(step, [m0, m1, m2], io) == Verdict(v2.io, v0.forward && v1.forward && v2.forward)
  {
    ChainSingle(step, m0, io);
    assert [m0, m1, m2][..2] == [m0, m1];
    assert [m0, m1][..1] == [m0];
  }

  /** With the installed modifiers and the cursor at the end, typing a space
      after `-af` completes the option: the buffer gets the space twice and
      the rest of the term, and the master gets one space and the rest. */
  lemma InstalledCompletesVolume(evaluate: seq<char> -> seq<char>, master: seq<char>)
    ensures HandleStdin(Installed(evaluate), Session("-af", 0, master), " ")
            == Session("-af  volume=", 0, master + " volume=")
  {
    assert Classify(" ") == Text;
    assert Insert("-af", 0, " ") == "-af ";
    InstalledChainOnAf(evaluate, master);
  }

  /** The three installed modifiers on the buffer `-af `, one after the other. */
  lemma InstalledChainOnAf(evaluate: seq<char> -> seq<char>, master: seq<char>)
    ensures RunChain(Step(" "), Installed(evaluate), Io("-af ", master))
            == Verdict(Io("-af  volume=", master + " volume="), false)
  {
    AfPassesFilter(master);
    AfCompletes(master);
    AfPassesEval(evaluate, master);
    ChainOfThree(Step(" "), Filter(NsaGroup), Completion(["-af volume="], 4), Eval(evaluate), Io("-af ", master));
  }

  /** The filter lets `-af ` through. */
  lemma AfPassesFilter(master: seq<char>)
    ensures Step(" ")(Filter(NsaGroup), Io("-af ", master)) == Verdict(Io("-af ", master), true)
  {
    assert !NsaAt("-af ", 1);
  }

  /** Completion appends the space once more and `volume=`, and vetoes. */
  lemma AfCompletes(master: seq<char>)
    ensures Step(" ")(Completion(["-af volume="], 4), Io("-af ", master))
            == Verdict(Io("-af  volume=", master + " volume="), false)
  {
    CompletesVolume();
    assert "-af " + " " + "volume=" == "-af  volume=";
    assert master + " " + "volume=" == master + " volume=";
  }

  /** Eval finds no span in the completed buffer. */
  lemma AfPassesEval(evaluate: seq<char> -> seq<char>, master: seq<char>)
    ensures Step(" ")(Eval(evaluate), Io("-af  volume=", master + " volume="))
            == Verdict(Io("-af  volume=", master + " volume="), true)
  {
    assert NoTilde("-af  volume=") by { CompletedHasNoTilde(); }
    EvalWithoutTilde(evaluate, Io("-af  volume=", master + " volume="));
  }

  lemma CompletedHasNoTilde()
    ensures NoTilde("-af  volume=")
  {
  }

  class Pty {
    var inputModifiers: seq<Modifier>
    /** `user_input` */
    var userInput: seq<char>
    /** `cursor_offset` */
    var cursorOffset: int
    /** Everything written to the pty master, in order. */
    var master: seq<char>

    constructor (modifiers: seq<Modifier>)
      ensures inputModifiers == modifiers
      ensures userInput == [] && cursorOffset == 0 && master == []
    {
      inputModifiers := modifiers;
      userInput := [];
      cursorOffset := 0;
      master := [];
    }

    function State(): Session
      reads this
    {
      Session(userInput, cursorOffset, master)
    }

    /** `_write_master`: the OS may accept any non-empty part of what is left
        on each write; the loop resubmits the rest until all is written. */
    method WriteMaster(data: seq<char>)
      modifies this`master
      ensures master == old(master) + data
    {
      var rest := data;
      while rest != []
        invariant master + rest == old(master) + data
        decreases |rest|
      {
        var n :| 1 <= n <= |rest|;
        assert rest == rest[..n] + rest[n..];
        master := master + rest[..n];
        rest := rest[n..];
      }
    }

    /** `InputFilter.__call__` */
    method InputFilter(matcher: seq<char> -> Option<nat>) returns (forward: bool)
      modifies this`userInput, this`master
      ensures Verdict(Io(userInput, master), forward)
              == FilterStep(matcher, Io(old(userInput), old(master)))
    {
      var m := matcher(userInput);
      if m.Some? {
        var matchLen := m.value;
        WriteMaster(Repeat(BS, matchLen as int - 1));
        userInput := Take(userInput, -(matchLen as int));
        return false;
      }
      return true;
    }

    /** `InputEval.__call__` */
    method InputEval(evaluate: seq<char> -> seq<char>) returns (forward: bool)
      modifies this`userInput, this`master
      ensures Verdict(Io(userInput, master), forward)
              == EvalStep(evaluate, Io(old(userInput), old(master)))
    {
      var m := FindSpan(userInput);
      if m.Some? {
        var matchStr := m.value.body;
        var matchLen := |matchStr|;
        WriteMaster(Repeat(BS, matchLen + 3));
        userInput := Take(userInput, -(matchLen + 4));
        var ret := Strip(evaluate(Strip(matchStr)));
        userInput := userInput + ret;
        WriteMaster(ret);
        return false;
      }
      return true;
    }

    /** `InputCompletition.__call__` */
    method InputCompletion(terms: seq<seq<char>>, minMatchLength: nat, data: seq<char>)
      returns (forward: bool)
      modifies this`userInput, this`master
      ensures Verdict(Io(userInput, master), forward)
              == CompletionStep(terms, minMatchLength, data, Io(old(userInput), old(master)))
    {
      var completion := FindCompletion(userInput, terms, minMatchLength);
      if completion.Some? {
        WriteMaster(data + completion.value);
        userInput := userInput + data + completion.value;
        return false;
      }
      return true;
    }

    /** `m(data)` for one entry of the modifier list. */
    method CallModifier(m: Modifier, data: seq<char>) returns (forward: bool)
      modifies this`userInput, this`master
      ensures Verdict(Io(userInput, master), forward)
              == ApplyModifier(m, data, Io(old(userInput), old(master)))
    {
      match m
      case Filter(matcher) => forward := InputFilter(matcher);
      case Completion(terms, minMatchLength) => forward := InputCompletion(terms, minMatchLength, data);
      case Eval(evaluate) => forward := InputEval(evaluate);
    }

    /** The `for m in self.input_modifiers` loop of `_handle_stdin_read`:
        every modifier is called in order, a veto does not stop the later
        ones, and the result is whether none vetoed. */
    method RunModifiers(data: seq<char>) returns (writeOut: bool)
      modifies this`userInput, this`master
      ensures Verdict(Io(userInput, master), writeOut)
              == RunChain(Step(data), inputModifiers, Io(old(userInput), old(master)))
    {
      writeOut := true;
      var i := 0;
      while i < |inputModifiers|
        invariant 0 <= i <= |inputModifiers|
        invariant RunChain(Step(data), inputModifiers[..i], Io(old(userInput), old(master)))
                  == Verdict(Io(userInput, master), writeOut)
      {
        ChainExtend(Step(data), inputModifiers, i, Io(old(userInput), old(master)));
        var ok := CallModifier(inputModifiers[i], data);
        if !ok {
          writeOut := false;
        }
        i := i + 1;
      }
      assert inputModifiers[..i] == inputModifiers;
    }

    /** `_handle_stdin_read` */
    method HandleStdinRead(data: seq<char>)
      modifies this`userInput, this`cursorOffset, this`master
      ensures State() == HandleStdin(inputModifiers, old(State()), data)
    {
      var writeOut := true;
      if data == [CR] || data == [ETX] {
        userInput := [];
        cursorOffset := 0;
      } else if |data| > 0 && data[0] == ESC {
        if data == ARROW_RIGHT {
          cursorOffset := cursorOffset - 1;
        } else if data == ARROW_LEFT {
          cursorOffset := cursorOffset + 1;
        } else {
          userInput := [];
        }
      } else if data == [BS] || data == [DEL] {
        userInput := Take(userInput, -1);
      } else {
        if cursorOffset == 0 {
          userInput := userInput + data;
        } else {
          userInput := Take(userInput, cursorOffset) + data + Drop(userInput, cursorOffset);
        }
        writeOut := RunModifiers(data);
      }
      if writeOut {
        WriteMaster(data);
      }
    }
  }
}
