/** ipty's `FileCacher`: the stand-in for `sys.stdout` that collects what
    the embedded evaluator prints, so that it can be handed back as one
    string. */
module Cache {

  const NL: char := '\n'

  predicate NoNewline(s: seq<char>) {
    forall k :: 0 <= k < |s| ==> s[k] != NL
  }

  /** `'\n'.join(lines)` */
  function Join(lines: seq<seq<char>>): seq<char>
    decreases |lines|
  {
    if lines == [] then []
    else if |lines| == 1 then lines[0]
    else lines[0] + [NL] + Join(lines[1..])
  }

  /** `s.split('\n')`, which gives back what `Join` glued together. */
  function Split(s: seq<char>): (r: seq<seq<char>>)
    ensures |r| >= 1
    decreases |s|
  {
    if s == [] then [[]]
    else
      var rest := Split(s[1..]);
      if s[0] == NL then [[]] + rest else [[s[0]] + rest[0]] + rest[1..]
  }

  /** A piece without newlines followed by a newline is one line of the split. */
  lemma {:induction false} SplitAfterLine(a: seq<char>, b: seq<char>)
    requires NoNewline(a)
    ensures Split(a + [NL] + b) == [a] + Split(b)
    decreases |a|
  {
    if a == [] {
      assert a + [NL] + b == [NL] + b;
      assert ([NL] + b)[1..] == b;
    } else {
      var s := a + [NL] + b;
      assert s[1..] == a[1..] + [NL] + b;
      SplitAfterLine(a[1..], b);
      assert [a[0]] + a[1..] == a;
    }
  }

  /** A piece without newlines is a single line. */
  lemma {:induction false} SplitLine(a: seq<char>)
    requires NoNewline(a)
    ensures Split(a) == [a]
    decreases |a|
  {
    if a != [] {
      SplitLine(a[1..]);
      assert [a[0]] + a[1..] == a;
    }
  }

  /** Splitting the joined lines gives the lines back, when there is at
      least one and none holds a newline. */
  lemma {:induction false} SplitJoin(lines: seq<seq<char>>)
    requires lines != []
    requires forall i :: 0 <= i < |lines| ==> NoNewline(lines[i])
    ensures Split(Join(lines)) == lines
    decreases |lines|
  {
    if |lines| == 1 {
      SplitLine(lines[0]);
    } else {
      SplitJoin(lines[1..]);
      SplitAfterLine(lines[0], Join(lines[1..]));
      assert [lines[0]] + lines[1..] == lines;
    }
  }

  /** Joining the split lines gives the string back. */
  lemma {:induction false} JoinSplit(s: seq<char>)
    ensures Join(Split(s)) == s
    decreases |s|
  {
    if s != [] {
      var rest := Split(s[1..]);
      JoinSplit(s[1..]);
      if s[0] == NL {
        assert ([[]] + rest)[1..] == rest;
        assert s == [NL] + s[1..];
      } else {
        var r := [[s[0]] + rest[0]] + rest[1..];
        assert r[1..] == rest[1..];
        if |rest| == 1 {
          assert Join(rest) == rest[0];
        } else {
          assert Join(rest) == rest[0] + [NL] + Join(rest[1..]);
        }
        assert s == [s[0]] + s[1..];
      }
    }
  }

  class FileCacher {
    /** The strings written since the last reset, in order. */
    var out: seq<seq<char>>

    constructor ()
      ensures out == []
    {
      out := [];
    }

    /** `reset` */
    method Reset()
      modifies this
      ensures out == []
    {
      out := [];
    }

    /** `write`: one more string, after the ones already held. */
    method Write(line: seq<char>)
      modifies this
      ensures out == old(out) + [line]
    {
      out := out + [line];
    }

    /** `flush`: everything written since the last reset, newline-joined;
        the cache is empty again afterwards. */
    method Flush() returns (output: seq<char>)
      modifies this
      ensures output == Join(old(out))
      ensures out == []
    {
      output := Join(out);
      Reset();
    }
  }
}
