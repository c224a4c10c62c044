/** The three input modifiers of ipty: the filter that erases a forbidden
    trailing word, the inline evaluator of `~~code~~` spans and the inline
    completion of known terms.  Each is given here as a function from the part
    of the session it touches (the edit buffer and what has been written to the
    pty master) to its new value and its forwarding verdict; `Terminal.Pty`
    runs them in place through its own fields. */
module Modifiers {
  import opened PyStr

  /** The backspace byte a modifier emits to erase echoed input. */
  const BS: char := '\U{8}'

  /** What a modifier reads and changes through its back-reference to the
      session: the line being typed and the log of bytes sent to the master. */
  datatype Io = Io(userInput: seq<char>, master: seq<char>)

  /** A modifier's effect and its return value: `forward` is false when it
      vetoes forwarding of the raw keystroke. */
  datatype Verdict = Verdict(io: Io, forward: bool)

  /** An entry of the input-modifier list.  A filter is given by the length
      of the group its pattern captures in the buffer, when it matches; the
      evaluator is an arbitrary function from source text to its printed output. */
  datatype Modifier =
    | Filter(matcher: seq<char> -> Option<nat>)
    | Completion(terms: seq<seq<char>>, minMatchLength: nat)
    | Eval(evaluate: seq<char> -> seq<char>)

  /** One call of a modifier on the keystroke `data`. */
  function ApplyModifier(m: Modifier, data: seq<char>, io: Io): (r: Verdict)
    ensures r.forward ==> r.io == io
    ensures io.master <= r.io.master
  {
    match m
    case Filter(matcher) => FilterStep(matcher, io)
    case Completion(terms, minMatchLength) => CompletionStep(terms, minMatchLength, data, io)
    case Eval(evaluate) => EvalStep(evaluate, io)
  }

  // ---------------------------------------------------------------------
  // InputFilter

  /** On a match whose group has length n: emit n-1 backspaces, cut the
      buffer to `user_input[:-n]` and veto. */
  function FilterStep(matcher: seq<char> -> Option<nat>, io: Io): (r: Verdict)
    ensures r.forward <==> matcher(io.userInput).None?
    ensures r.forward ==> r.io == io
    ensures io.master <= r.io.master
  {
    match matcher(io.userInput)
    case None => Verdict(io, true)
    case Some(n) =>
      Verdict(Io(Take(io.userInput, -(n as int)), io.master + Repeat(BS, n as int - 1)), false)
  }

  /** Without a match the filter forwards and changes nothing. */
  lemma FilterNoMatch(matcher: seq<char> -> Option<nat>, io: Io)
    requires matcher(io.userInput) == None
    ensures FilterStep(matcher, io) == Verdict(io, true)
  {
  }

  /** With a match of group length n the filter vetoes, sends exactly n-1
      backspaces and nothing else, and removes the last n characters of the
      buffer; a zero-length group (`user_input[:-0]`) empties the buffer. */
  lemma FilterMatch(matcher: seq<char> -> Option<nat>, io: Io, n: nat)
    requires matcher(io.userInput) == Some(n)
    ensures var v := FilterStep(matcher, io);
            && !v.forward
            && v.io.master == io.master + Repeat(BS, n - 1)
            && (1 <= n <= |io.userInput| ==> v.io.userInput == io.userInput[..|io.userInput| - n])
            && (n == 0 || |io.userInput| < n ==> v.io.userInput == [])
  {
    TakeNegative(io.userInput, n);
  }

  /** The characters of `\w` for a byte string without the LOCALE or UNICODE flags. */
  predicate IsWordChar(c: char) {
    'a' <= c <= 'z' || 'A' <= c <= 'Z' || '0' <= c <= '9' || c == '_'
  }

  /** ASCII lower case, all that `re.I` folds for a byte string: the result is
      never an upper-case letter, and only upper-case letters change. */
  function Lower(c: char): (l: char)
    ensures !('A' <= l <= 'Z')
    ensures l != c ==> 'A' <= c <= 'Z'
  {
    if 'A' <= c <= 'Z' then (c as int + 32) as char else c
  }

  /** Under `re.I` a character matches the lower-case letter x of a pattern
      exactly when it is x or the upper-case form of x. */
  lemma LowerMatches(c: char, x: char)
    requires 'a' <= x <= 'z'
    ensures Lower(c) == x <==> c == x || c as int + 32 == x as int
  {
  }

  /** The group `(nsa)` of `.*(?:^|\W)(nsa$)`, case-insensitive, can start at
      index p: at the start of s or just after a non-word character. */
  predicate NsaAt(s: seq<char>, p: int) {
    && 0 <= p && p + 3 <= |s|
    && Lower(s[p]) == 'n' && Lower(s[p + 1]) == 's' && Lower(s[p + 2]) == 'a'
    && (p == 0 || !IsWordChar(s[p - 1]))
  }

  /** Python's `$` without MULTILINE: the end of s, or just before a final newline. */
  predicate DollarAt(s: seq<char>, e: int) {
    e == |s| || (e == |s| - 1 && 0 <= e && s[e] == '\n')
  }

  /** The matcher of the filter that ipty installs: `re.search` succeeds
      exactly when some group position fits both anchors, and the group is
      then three characters long. */
  function NsaGroup(s: seq<char>): (r: Option<nat>)
    ensures r.Some? <==> exists p :: NsaAt(s, p) && DollarAt(s, p + 3)
    ensures r.Some? ==> r.value == 3
  {
    if NsaAt(s, |s| - 3) then Some(3)
    else if |s| >= 1 && s[|s| - 1] == '\n' && NsaAt(s, |s| - 4) then Some(3)
    else None
  }

  /** Typing the forbidden word after the start of the line or a non-word
      character: the word leaves the buffer, the two characters of it already
      forwarded are erased with two backspaces, and the last keystroke is
      vetoed. */
  lemma NsaFilterErases(t: seq<char>, w: seq<char>, master: seq<char>)
    requires t == [] || !IsWordChar(t[|t| - 1])
    requires |w| == 3 && Lower(w[0]) == 'n' && Lower(w[1]) == 's' && Lower(w[2]) == 'a'
    ensures FilterStep(NsaGroup, Io(t + w, master)) == Verdict(Io(t, master + [BS, BS]), false)
  {
    var s := t + w;
    assert s[|t|..] == w;
    assert s[|t|] == w[0] && s[|t| + 1] == w[1] && s[|t| + 2] == w[2];
    assert |t| > 0 ==> s[|t| - 1] == t[|t| - 1];
    assert NsaAt(s, |s| - 3);
    assert NsaGroup(s) == Some(3);
    assert Take(s, -3) == t;
    assert Repeat(BS, 2) == [BS, BS];
  }

  // ---------------------------------------------------------------------
  // InputEval

  predicate NoTilde(x: seq<char>) {
    forall k :: 0 <= k < |x| ==> x[k] != '~'
  }

  /** `~~([^~]+)~~` matches s at index i with group x. */
  predicate SpanAt(s: seq<char>, i: int, x: seq<char>) {
    && 0 <= i && i + |x| + 4 <= |s|
    && |x| > 0 && NoTilde(x)
    && s[i..i + |x| + 4] == "~~" + x + "~~"
  }

  /** A match of the eval pattern: where it starts and its group. */
  datatype Span = Span(start: nat, body: seq<char>)

  /** The end of the run of non-`~` characters that starts at j. */
  function RunEnd(s: seq<char>, j: nat): (e: nat)
    requires j <= |s|
    ensures j <= e <= |s|
    ensures forall k :: j <= k < e ==> s[k] != '~'
    ensures e < |s| ==> s[e] == '~'
    decreases |s| - j
  {
    if j < |s| && s[j] != '~' then RunEnd(s, j + 1) else j
  }

  /** A match starts with `~`. */
  lemma SpanOpens(s: seq<char>, i: nat, x: seq<char>)
    requires SpanAt(s, i, x)
    ensures s[i] == '~'
  {
    assert s[i] == s[i..i + |x| + 4][0];
  }

  /** The group of a match at i is the whole run of non-`~` characters after
      the opening marker, so there is at most one match at each index. */
  lemma SpanAtRun(s: seq<char>, i: nat, x: seq<char>)
    requires SpanAt(s, i, x)
    ensures s[i] == '~' && s[i + 1] == '~'
    ensures RunEnd(s, i + 2) == i + 2 + |x|
    ensures s[i + |x| + 2] == '~' && s[i + |x| + 3] == '~'
    ensures x == s[i + 2..i + 2 + |x|]
  {
    var w := s[i..i + |x| + 4];
    assert w == "~~" + x + "~~";
    assert w[0] == '~' && w[1] == '~' && w[|x| + 2] == '~' && w[|x| + 3] == '~';
    assert w[2..|x| + 2] == x;
    forall k | 0 <= k < |x| ensures s[i + 2 + k] == x[k] {
      assert s[i + 2 + k] == w[k + 2];
    }
    assert x == s[i + 2..i + 2 + |x|];
    assert s[i] == w[0] && s[i + 1] == w[1];
    assert s[i + |x| + 2] == w[|x| + 2] && s[i + |x| + 3] == w[|x| + 3];
    assert x == w[2..|x| + 2];
    forall k | i + 2 <= k < i + 2 + |x| ensures s[k] != '~' {
      assert s[k] == w[k - i] == x[k - i - 2];
    }
    RunEndExact(s, i + 2, i + 2 + |x|);
  }

  lemma {:induction false} RunEndExact(s: seq<char>, j: nat, e: nat)
    requires j <= e < |s| && s[e] == '~'
    requires forall k :: j <= k < e ==> s[k] != '~'
    ensures RunEnd(s, j) == e
    decreases e - j
  {
    if j < e { RunEndExact(s, j + 1, e); }
  }

  /** The leftmost match of the eval pattern at or after index i. */
  function SpanFrom(s: seq<char>, i: nat): (r: Option<Span>)
    ensures r.Some? ==> i <= r.value.start && SpanAt(s, r.value.start, r.value.body)
    ensures r.Some? ==> forall j, x :: i <= j < r.value.start ==> !SpanAt(s, j, x)
    ensures r.None? ==> forall j, x :: i <= j ==> !SpanAt(s, j, x)
    decreases |s| - i
  {
    if i + 5 > |s| then None
    else if s[i] == '~' && s[i + 1] == '~' && RunEnd(s, i + 2) > i + 2
            && RunEnd(s, i + 2) + 2 <= |s| && s[RunEnd(s, i + 2) + 1] == '~'
    then
      SpanHere(s, i);
      Some(Span(i, s[i + 2..RunEnd(s, i + 2)]))
    else
      NoSpanHere(s, i);
      SpanFrom(s, i + 1)
  }

  lemma SpanHere(s: seq<char>, i: nat)
    requires i + 5 <= |s| && s[i] == '~' && s[i + 1] == '~'
    requires RunEnd(s, i + 2) > i + 2 && RunEnd(s, i + 2) + 2 <= |s| && s[RunEnd(s, i + 2) + 1] == '~'
    ensures SpanAt(s, i, s[i + 2..RunEnd(s, i + 2)])
  {
    var e := RunEnd(s, i + 2);
    var x := s[i + 2..e];
    assert |x| + i + 4 == e + 2;
    assert s[i..i + |x| + 4] == "~~" + x + "~~";
  }

  lemma NoSpanHere(s: seq<char>, i: nat)
    requires !(i + 5 <= |s| && s[i] == '~' && s[i + 1] == '~' && RunEnd(s, i + 2) > i + 2
               && RunEnd(s, i + 2) + 2 <= |s| && s[RunEnd(s, i + 2) + 1] == '~')
    ensures forall x :: !SpanAt(s, i, x)
  {
    forall x | SpanAt(s, i, x) ensures false {
      SpanAtRun(s, i, x);
    }
  }

  /** `re.search('~~([^~]+)~~', s)`: the leftmost match, if any. */
  function FindSpan(s: seq<char>): (r: Option<Span>)
    ensures r.Some? ==> SpanAt(s, r.value.start, r.value.body)
    ensures r.Some? ==> forall j, x :: 0 <= j < r.value.start ==> !SpanAt(s, j, x)
    ensures r.None? <==> forall j, x :: !SpanAt(s, j, x)
  {
    SpanFrom(s, 0)
  }

  /** The text spliced in for a group x: the evaluator's output on the
      stripped group, stripped. */
  function EvalResult(evaluate: seq<char> -> seq<char>, x: seq<char>): seq<char> {
    Strip(evaluate(Strip(x)))
  }

  /** On the first match with group x: emit |x|+3 backspaces, cut the buffer
      to `user_input[:-(|x|+4)]`, append the evaluation to the buffer and to
      the master, and veto. */
  function EvalStep(evaluate: seq<char> -> seq<char>, io: Io): (r: Verdict)
    ensures r.forward <==> FindSpan(io.userInput).None?
    ensures r.forward ==> r.io == io
    ensures io.master <= r.io.master
  {
    match FindSpan(io.userInput)
    case None => Verdict(io, true)
    case Some(sp) =>
      var ret := EvalResult(evaluate, sp.body);
      Verdict(Io(Take(io.userInput, -(|sp.body| + 4)) + ret,
                 io.master + Repeat(BS, |sp.body| + 3) + ret), false)
  }

  /** Without a complete `~~code~~` span the evaluator forwards and changes nothing. */
  lemma EvalNoSpan(evaluate: seq<char> -> seq<char>, io: Io)
    requires forall j, x :: !SpanAt(io.userInput, j, x)
    ensures EvalStep(evaluate, io) == Verdict(io, true)
  {
  }

  /** With the leftmost span `~~x~~`: |x|+3 backspaces and then the result
      go to the master, the buffer loses its last |x|+4 characters (wherever
      the span is) and gains the result, and the keystroke is vetoed. */
  lemma EvalFirstSpan(evaluate: seq<char> -> seq<char>, io: Io, i: nat, x: seq<char>)
    requires SpanAt(io.userInput, i, x)
    requires forall j, y :: 0 <= j < i ==> !SpanAt(io.userInput, j, y)
    ensures var ret := Strip(evaluate(Strip(x)));
            EvalStep(evaluate, io) ==
            Verdict(Io(io.userInput[..|io.userInput| - (|x| + 4)] + ret,
                       io.master + Repeat(BS, |x| + 3) + ret), false)
  {
    FindSpanIs(io.userInput, i, x);
    EvalStepFound(evaluate, io, i, x);
  }

  /** The effect of eval once the search has found the span `~~x~~` at i. */
  lemma EvalStepFound(evaluate: seq<char> -> seq<char>, io: Io, i: nat, x: seq<char>)
    requires FindSpan(io.userInput) == Some(Span(i, x))
    ensures var ret := Strip(evaluate(Strip(x)));
            EvalStep(evaluate, io) ==
            Verdict(Io(io.userInput[..|io.userInput| - (|x| + 4)] + ret,
                       io.master + Repeat(BS, |x| + 3) + ret), false)
  {
    EvalStepOn(evaluate, io, Span(i, x));
  }

  /** The same, for the span as the search returns it. */
  lemma EvalStepOn(evaluate: seq<char> -> seq<char>, io: Io, sp: Span)
    requires FindSpan(io.userInput) == Some(sp)
    ensures |sp.body| + 4 <= |io.userInput|
    ensures var ret := Strip(evaluate(Strip(sp.body)));
            EvalStep(evaluate, io) ==
            Verdict(Io(io.userInput[..|io.userInput| - (|sp.body| + 4)] + ret,
                       io.master + Repeat(BS, |sp.body| + 3) + ret), false)
  {
    assert SpanAt(io.userInput, sp.start, sp.body);
    TakeNegative(io.userInput, |sp.body| + 4);
  }

  /** The leftmost match determines the search result. */
  lemma FindSpanIs(s: seq<char>, i: nat, x: seq<char>)
    requires SpanAt(s, i, x)
    requires forall j, y :: 0 <= j < i ==> !SpanAt(s, j, y)
    ensures FindSpan(s) == Some(Span(i, x))
  {
    var sp := FindSpan(s).value;
    assert sp.start == i;
    SpanAtRun(s, i, x);
    SpanAtRun(s, i, sp.body);
  }

  /** When the leftmost span is what the buffer ends with (the closing `~`
      was just typed), exactly the span is replaced by the result. */
  lemma EvalSpanAtEnd(evaluate: seq<char> -> seq<char>, io: Io, i: nat, x: seq<char>)
    requires SpanAt(io.userInput, i, x) && i + |x| + 4 == |io.userInput|
    requires forall j, y :: 0 <= j < i ==> !SpanAt(io.userInput, j, y)
    ensures EvalStep(evaluate, io).io.userInput == io.userInput[..i] + Strip(evaluate(Strip(x)))
  {
    EvalFirstSpan(evaluate, io, i, x);
  }

  /** The buffer `echo ~~1+1~~` with an evaluator printing `2` for `1+1`
      becomes `echo 2`. */
  lemma EvalEcho(evaluate: seq<char> -> seq<char>, master: seq<char>)
    requires evaluate("1+1") == "2"
    ensures EvalStep(evaluate, Io("echo ~~1+1~~", master)).io.userInput == "echo 2"
  {
    var s := "echo ~~1+1~~";
    assert SpanAt(s, 5, "1+1") by {
      assert s[5..12] == "~~" + "1+1" + "~~";
    }
    assert forall j, y :: 0 <= j < 5 ==> !SpanAt(s, j, y) by {
      forall j, y | 0 <= j < 5 ensures !SpanAt(s, j, y) {
        assert s[j] != '~';
        if SpanAt(s, j, y) {
          SpanOpens(s, j, y);
        }
      }
    }
    assert Strip(evaluate(Strip("1+1"))) == "2" by {
      StripPlain("1+1");
      StripPlain("2");
    }
    assert s[..5] == "echo ";
    EvalSpanAtEnd(evaluate, Io(s, master), 5, "1+1");
  }

  /** A string with no whitespace at either end is its own strip. */
  lemma StripPlain(s: seq<char>)
    requires s != [] && !IsSpace(s[0]) && !IsSpace(s[|s| - 1])
    ensures Strip(s) == s
  {
    var r := Strip(s);
    var a, b :| 0 <= a <= b <= |s| && r == s[a..b]
               && (forall k :: 0 <= k < a ==> IsSpace(s[k]))
               && (forall k :: b <= k < |s| ==> IsSpace(s[k]));
    assert a == 0 && b == |s|;
  }

  // ---------------------------------------------------------------------
  // InputCompletition

  /** The prefix of length k of `term` qualifies in buffer ui: its leftmost
      occurrence (`ui.find`) is at the very end of ui. */
  predicate Qualifies(ui: seq<char>, term: seq<char>, k: int) {
    0 <= k <= |term| && k <= |ui| && Find(ui, term[..k]) == |ui| - k
  }

  /** A qualifying prefix ends the buffer and occurs nowhere before. */
  lemma QualifiesMeans(ui: seq<char>, term: seq<char>, k: nat)
    requires k <= |term|
    ensures Qualifies(ui, term, k) <==>
            k <= |ui| && ui[|ui| - k..] == term[..k]
            && forall j :: 0 <= j < |ui| - k ==> !OccursAt(ui, term[..k], j)
  {
    if k <= |ui| && ui[|ui| - k..] == term[..k] {
      assert OccursAt(ui, term[..k], |ui| - k);
    }
  }

  /** The shortest qualifying prefix length of `term` from k up to |term|-1. */
  function ShortestFrom(ui: seq<char>, term: seq<char>, k: nat): (r: Option<nat>)
    ensures r.Some? ==> k <= r.value < |term| && Qualifies(ui, term, r.value)
    ensures r.Some? ==> forall j :: k <= j < r.value ==> !Qualifies(ui, term, j)
    ensures r.None? ==> forall j :: k <= j < |term| ==> !Qualifies(ui, term, j)
    decreases |term| - k
  {
    if k >= |term| then None
    else if Qualifies(ui, term, k) then Some(k)
    else ShortestFrom(ui, term, k + 1)
  }

  /** `term` offers a completion: one of its prefixes of length at least
      `minLen` but short of the whole term qualifies. */
  predicate Offers(ui: seq<char>, term: seq<char>, minLen: nat) {
    exists k :: minLen <= k < |term| && Qualifies(ui, term, k)
  }

  /** The indices below n, in increasing order, of the terms whose shortest-first
      search finds a qualifying prefix: those that offer a completion (`OffersIffShortest`). */
  function Candidates(ui: seq<char>, terms: seq<seq<char>>, minLen: nat, n: nat): (q: seq<nat>)
    requires n <= |terms|
    ensures forall a :: 0 <= a < |q| ==> q[a] < n
  {
    if n == 0 then []
    else
      var q := Candidates(ui, terms, minLen, n - 1);
      if ShortestFrom(ui, terms[n - 1], minLen).Some? then q + [n - 1] else q
  }

  /** The list holds exactly the terms whose search finds a prefix, each once
      and in increasing order. */
  lemma {:induction false} CandidatesMeans(ui: seq<char>, terms: seq<seq<char>>, minLen: nat, n: nat)
    requires n <= |terms|
    ensures forall a :: 0 <= a < |Candidates(ui, terms, minLen, n)| ==>
              ShortestFrom(ui, terms[Candidates(ui, terms, minLen, n)[a]], minLen).Some?
    ensures forall j :: 0 <= j < n && ShortestFrom(ui, terms[j], minLen).Some? ==>
              j in Candidates(ui, terms, minLen, n)
    ensures forall a, b :: 0 <= a < b < |Candidates(ui, terms, minLen, n)| ==>
              Candidates(ui, terms, minLen, n)[a] < Candidates(ui, terms, minLen, n)[b]
    decreases n
  {
    if n > 0 {
      CandidatesMeans(ui, terms, minLen, n - 1);
      CandidatesStep(ui, terms, minLen, n, Candidates(ui, terms, minLen, n - 1), Candidates(ui, terms, minLen, n));
    }
  }

  /** The list for the first n terms extends the one for the first n-1 by
      term n-1 exactly when that term offers a completion. */
  lemma CandidatesStep(ui: seq<char>, terms: seq<seq<char>>, minLen: nat, n: nat, q: seq<nat>, r: seq<nat>)
    requires 0 < n <= |terms|
    requires forall a :: 0 <= a < |q| ==> q[a] < n - 1
    requires forall a :: 0 <= a < |q| ==> ShortestFrom(ui, terms[q[a]], minLen).Some?
    requires forall j :: 0 <= j < n - 1 && ShortestFrom(ui, terms[j], minLen).Some? ==> j in q
    requires forall a, b :: 0 <= a < b < |q| ==> q[a] < q[b]
    requires r == if ShortestFrom(ui, terms[n - 1], minLen).Some? then q + [n - 1] else q
    ensures forall a :: 0 <= a < |r| ==> ShortestFrom(ui, terms[r[a]], minLen).Some?
    ensures forall j :: 0 <= j < n && ShortestFrom(ui, terms[j], minLen).Some? ==> j in r
    ensures forall a, b :: 0 <= a < b < |r| ==> r[a] < r[b]
  {
    if ShortestFrom(ui, terms[n - 1], minLen).Some? {
      CandidatesAppend(ui, terms, minLen, n, q, r);
    } else {
      forall j | 0 <= j < n && ShortestFrom(ui, terms[j], minLen).Some? ensures j in r {
        assert j < n - 1;
      }
    }
  }

  /** The step of `CandidatesStep` when term n-1 is a candidate. */
  lemma CandidatesAppend(ui: seq<char>, terms: seq<seq<char>>, minLen: nat, n: nat, q: seq<nat>, r: seq<nat>)
    requires 0 < n <= |terms| && ShortestFrom(ui, terms[n - 1], minLen).Some?
    requires forall a :: 0 <= a < |q| ==> q[a] < n - 1
    requires forall a :: 0 <= a < |q| ==> ShortestFrom(ui, terms[q[a]], minLen).Some?
    requires forall j :: 0 <= j < n - 1 && ShortestFrom(ui, terms[j], minLen).Some? ==> j in q
    requires forall a, b :: 0 <= a < b < |q| ==> q[a] < q[b]
    requires r == q + [n - 1]
    ensures forall a :: 0 <= a < |r| ==> ShortestFrom(ui, terms[r[a]], minLen).Some?
    ensures forall j :: 0 <= j < n && ShortestFrom(ui, terms[j], minLen).Some? ==> j in r
    ensures forall a, b :: 0 <= a < b < |r| ==> r[a] < r[b]
  {
    assert r[|q|] == n - 1;
    forall a | 0 <= a < |r| ensures ShortestFrom(ui, terms[r[a]], minLen).Some? {
      if a < |q| { assert r[a] == q[a]; }
    }
    forall j | 0 <= j < n && ShortestFrom(ui, terms[j], minLen).Some? ensures j in r {
      if j < n - 1 { assert j in q; }
    }
    forall a, b | 0 <= a < b < |r| ensures r[a] < r[b] {
      assert r[a] == q[a];
      if b < |q| { assert r[b] == q[b]; }
    }
  }

  /** A term offers a completion exactly when the shortest-first search finds a prefix. */
  lemma OffersIffShortest(ui: seq<char>, term: seq<char>, minLen: nat)
    ensures Offers(ui, term, minLen) <==> ShortestFrom(ui, term, minLen).Some?
  {
    if Offers(ui, term, minLen) {
      var k :| minLen <= k < |term| && Qualifies(ui, term, k);
    }
  }

  /** The completion the rule offers for buffer ui: none when ui is blank or
      shorter than `minLen`, or unless exactly one term offers one; from that
      term, what follows its shortest qualifying prefix. */
  function CompletionOf(ui: seq<char>, terms: seq<seq<char>>, minLen: nat): (r: Option<seq<char>>)
    ensures r.Some? ==> !AllSpace(ui) && minLen <= |ui| && r.value != []
  {
    if AllSpace(ui) || |ui| < minLen then None
    else
      var q := Candidates(ui, terms, minLen, |terms|);
      CandidatesMeans(ui, terms, minLen, |terms|);
      if |q| == 1 then Some(terms[q[0]][ShortestFrom(ui, terms[q[0]], minLen).value..])
      else None
  }

  lemma {:induction false} CandidatesGrow(ui: seq<char>, terms: seq<seq<char>>, minLen: nat, n: nat, m: nat)
    requires n <= m <= |terms|
    ensures |Candidates(ui, terms, minLen, n)| <= |Candidates(ui, terms, minLen, m)|
    decreases m - n
  {
    if n < m { CandidatesGrow(ui, terms, minLen, n, m - 1); }
  }

  /** Entry i of `terms` completes buffer ui with c: k is the shortest
      qualifying prefix length of term i, c the rest of the term, and no
      other entry offers a completion. */
  predicate CompletesWith(ui: seq<char>, terms: seq<seq<char>>, minLen: nat, i: int, k: int, c: seq<char>) {
    && 0 <= i < |terms| && minLen <= k < |terms[i]|
    && Qualifies(ui, terms[i], k)
    && (forall j :: minLen <= j < k ==> !Qualifies(ui, terms[i], j))
    && c == terms[i][k..]
    && (forall t :: 0 <= t < |terms| && t != i ==> !Offers(ui, terms[t], minLen))
  }

  /** The completion is offered exactly when the buffer is not blank, is at
      least `minLen` long, and exactly one entry completes it. */
  lemma CompletionExactlyWhen(ui: seq<char>, terms: seq<seq<char>>, minLen: nat, c: seq<char>)
    ensures CompletionOf(ui, terms, minLen) == Some(c) <==>
      && !AllSpace(ui) && minLen <= |ui|
      && exists i, k :: CompletesWith(ui, terms, minLen, i, k, c)
  {
    if CompletionOf(ui, terms, minLen) == Some(c) {
      CompletionSound(ui, terms, minLen, c);
    }
    if && !AllSpace(ui) && minLen <= |ui|
       && exists i, k :: CompletesWith(ui, terms, minLen, i, k, c)
    {
      var i, k :| CompletesWith(ui, terms, minLen, i, k, c);
      CompletionComplete(ui, terms, minLen, i, k, c);
    }
  }

  lemma CompletionSound(ui: seq<char>, terms: seq<seq<char>>, minLen: nat, c: seq<char>)
    requires CompletionOf(ui, terms, minLen) == Some(c)
    ensures !AllSpace(ui) && minLen <= |ui|
    ensures exists i, k :: CompletesWith(ui, terms, minLen, i, k, c)
  {
    var q := Candidates(ui, terms, minLen, |terms|);
    CandidatesMeans(ui, terms, minLen, |terms|);
    var i := q[0];
    var k := ShortestFrom(ui, terms[i], minLen).value;
    forall t | 0 <= t < |terms| && t != i ensures !Offers(ui, terms[t], minLen) {
      OffersIffShortest(ui, terms[t], minLen);
    }
    assert CompletesWith(ui, terms, minLen, i, k, c);
  }

  lemma CompletionComplete(ui: seq<char>, terms: seq<seq<char>>, minLen: nat, i: int, k: int, c: seq<char>)
    requires !AllSpace(ui) && minLen <= |ui|
    requires CompletesWith(ui, terms, minLen, i, k, c)
    ensures CompletionOf(ui, terms, minLen) == Some(c)
  {
    var q := Candidates(ui, terms, minLen, |terms|);
    CandidatesMeans(ui, terms, minLen, |terms|);
    ShortestIs(ui, terms[i], minLen, k);
    assert i in q;
    forall a | 0 <= a < |q| ensures q[a] == i {
      OffersIffShortest(ui, terms[q[a]], minLen);
    }
    OnlyElement(q, i);
    ShortestIs(ui, terms[i], minLen, k);
  }

  /** A strictly increasing sequence all of whose elements are i, and that
      holds i, is [i]. */
  lemma OnlyElement(q: seq<nat>, i: nat)
    requires i in q
    requires forall a :: 0 <= a < |q| ==> q[a] == i
    requires forall a, b :: 0 <= a < b < |q| ==> q[a] < q[b]
    ensures q == [i]
  {
    FirstTwoIncrease(q);
  }

  lemma FirstTwoIncrease(q: seq<nat>)
    requires forall a, b :: 0 <= a < b < |q| ==> q[a] < q[b]
    ensures |q| >= 2 ==> q[0] < q[1]
  {
  }

  lemma ShortestIs(ui: seq<char>, term: seq<char>, minLen: nat, k: nat)
    requires minLen <= k < |term| && Qualifies(ui, term, k)
    requires forall j :: minLen <= j < k ==> !Qualifies(ui, term, j)
    ensures ShortestFrom(ui, term, minLen) == Some(k)
  {
  }

  /** Two different entries that both offer a completion make the rule give up. */
  lemma CompletionAmbiguous(ui: seq<char>, terms: seq<seq<char>>, minLen: nat, i: nat, j: nat)
    requires i < |terms| && j < |terms| && i != j
    requires Offers(ui, terms[i], minLen) && Offers(ui, terms[j], minLen)
    ensures CompletionOf(ui, terms, minLen) == None
  {
    var q := Candidates(ui, terms, minLen, |terms|);
    CandidatesMeans(ui, terms, minLen, |terms|);
    OffersIffShortest(ui, terms[i], minLen);
    OffersIffShortest(ui, terms[j], minLen);
    assert i in q && j in q;
  }

  /** What the buffer ends with, followed by the completion, spells out the
      completed term. */
  lemma CompletionSpellsTerm(ui: seq<char>, terms: seq<seq<char>>, minLen: nat, c: seq<char>)
    requires CompletionOf(ui, terms, minLen) == Some(c)
    ensures exists i, k :: && 0 <= i < |terms| && minLen <= k <= |ui| && k < |terms[i]|
                           && ui[|ui| - k..] == terms[i][..k] && c == terms[i][k..]
  {
    CompletionExactlyWhen(ui, terms, minLen, c);
    var i, k :| CompletesWith(ui, terms, minLen, i, k, c);
    QualifiesMeans(ui, terms[i], k);
  }

  /** The completion ipty installs, `-af volume=` from four characters on,
      is offered once the buffer is `-af `. */
  lemma CompletesVolume()
    ensures CompletionOf("-af ", ["-af volume="], 4) == Some("volume=")
  {
    var ui: seq<char>, term: seq<char> := "-af ", "-af volume=";
    assert term[..4] == ui;
    assert FindFrom(ui, ui, 0) == 0;
    assert Qualifies(ui, term, 4);
    ShortestIs(ui, term, 4, 4);
    assert Candidates(ui, [term], 4, 0) == [];
    assert Candidates(ui, [term], 4, 1) == [0];
    assert !AllSpace(ui) by { assert !IsSpace(ui[0]); }
    assert term[4..] == "volume=";
  }

  /** Without a `~` in the buffer, eval forwards and changes nothing. */
  lemma EvalWithoutTilde(evaluate: seq<char> -> seq<char>, io: Io)
    requires NoTilde(io.userInput)
    ensures EvalStep(evaluate, io) == Verdict(io, true)
  {
    NoTildeNoSpan(io.userInput);
  }

  /** A buffer without `~` holds no eval span. */
  lemma NoTildeNoSpan(s: seq<char>)
    requires NoTilde(s)
    ensures FindSpan(s) == None
  {
    forall j, x | SpanAt(s, j, x) ensures false {
      SpanAtRun(s, j, x);
    }
  }

  /** The `while cut > 0` loop of `InputCompletition.__call__` for one term:
      prefixes of `term` from length `minLen` up, shortest first, stopping once
      a prefix no longer fits in the buffer; the first qualifying length. */
  method ShortestCut(ui: seq<char>, term: seq<char>, minLen: nat) returns (found: Option<nat>)
    ensures found == ShortestFrom(ui, term, minLen)
  {
    var cut := |term| - minLen;
    while cut > 0
      invariant cut <= |term| - minLen
      invariant forall j :: minLen <= j < |term| - cut && j < |term| ==> !Qualifies(ui, term, j)
      decreases cut
    {
      var k := |term| - cut;
      var validPos := |ui| - k;
      if validPos < 0 {
        return None;
      }
      if Find(ui, term[..k]) == validPos {
        ShortestIs(ui, term, minLen, k);
        return Some(k);
      }
      cut := cut - 1;
    }
    return None;
  }

  /** The body of `InputCompletition.__call__` up to its write, on the
      current buffer `ui`: `None` where the source returns `True` without
      emitting anything, `Some(c)` where it goes on to emit `data + c`. */
  method FindCompletion(ui: seq<char>, terms: seq<seq<char>>, minMatchLength: nat)
    returns (completion: Option<seq<char>>)
    ensures completion == CompletionOf(ui, terms, minMatchLength)
  {
    var blank := IsBlank(ui);
    if blank {
      return None;
    }
    if |ui| < minMatchLength {
      return None;
    }
    var comp: seq<char> := [];
    var t := 0;
    while t < |terms|
      invariant 0 <= t <= |terms|
      invariant SoFar(ui, terms, minMatchLength, t, comp)
    {
      var found := ShortestCut(ui, terms[t], minMatchLength);
      SoFarStep(ui, terms, minMatchLength, t, comp);
      if found.Some? {
        if comp != [] {
          TwoCandidatesNone(ui, terms, minMatchLength, t + 1);
          return None;
        }
        comp := terms[t][found.value..];
      }
      t := t + 1;
    }
    SoFarFinal(ui, terms, minMatchLength, comp);
    if comp != [] {
      return Some(comp);
    }
    return None;
  }

  /** `not ui.strip()`: the buffer is empty or all whitespace. */
  method IsBlank(ui: seq<char>) returns (blank: bool)
    ensures blank <==> AllSpace(ui)
  {
    blank := Strip(ui) == [];
  }

  /** Once two of the first t terms offer a completion, none is given. */
  lemma TwoCandidatesNone(ui: seq<char>, terms: seq<seq<char>>, minLen: nat, t: nat)
    requires t <= |terms| && |Candidates(ui, terms, minLen, t)| == 2
    ensures CompletionOf(ui, terms, minLen) == None
  {
    CandidatesGrow(ui, terms, minLen, t, |terms|);
  }

  /** After the last term, what was collected is the completion. */
  lemma SoFarFinal(ui: seq<char>, terms: seq<seq<char>>, minLen: nat, comp: seq<char>)
    requires !AllSpace(ui) && minLen <= |ui|
    requires SoFar(ui, terms, minLen, |terms|, comp)
    ensures CompletionOf(ui, terms, minLen) == if comp != [] then Some(comp) else None
  {
  }

  /** The completion collected after the first t terms: none while no term
      offered one, that term's rest after exactly one. */
  predicate SoFar(ui: seq<char>, terms: seq<seq<char>>, minLen: nat, t: nat, comp: seq<char>)
    requires t <= |terms|
  {
    var q := Candidates(ui, terms, minLen, t);
    CandidatesMeans(ui, terms, minLen, t);
    && |q| <= 1
    && (|q| == 0 ==> comp == [])
    && (|q| == 1 ==> comp != [] && comp == terms[q[0]][ShortestFrom(ui, terms[q[0]], minLen).value..])
  }

  lemma SoFarStep(ui: seq<char>, terms: seq<seq<char>>, minLen: nat, t: nat, comp: seq<char>)
    requires t < |terms| && SoFar(ui, terms, minLen, t, comp)
    ensures var f := ShortestFrom(ui, terms[t], minLen);
            && (f.None? ==> SoFar(ui, terms, minLen, t + 1, comp))
            && (f.Some? && comp == [] ==> SoFar(ui, terms, minLen, t + 1, terms[t][f.value..]))
            && (f.Some? && comp != [] ==> |Candidates(ui, terms, minLen, t + 1)| == 2)
  {
  }

  /** A unique completion c is appended, behind the keystroke `data` once
      more, to both the buffer and the master, and the keystroke is vetoed. */
  function CompletionStep(terms: seq<seq<char>>, minLen: nat, data: seq<char>, io: Io): (r: Verdict)
    ensures r.forward <==> CompletionOf(io.userInput, terms, minLen).None?
    ensures r.forward ==> r.io == io
    ensures io.master <= r.io.master
  {
    match CompletionOf(io.userInput, terms, minLen)
    case None => Verdict(io, true)
    case Some(c) => Verdict(Io(io.userInput + data + c, io.master + data + c), false)
  }
}
