/** The parts of Python 2 byte-string semantics that the edit-buffer engine
    relies on: slices with clamped and negative indices, `str.strip()`,
    `str.find()` and `'c' * n`.  Byte strings are modelled as `seq<char>`. */
module PyStr {

  datatype Option<+T> = None | Some(value: T)

  /** Python's rule for the index a slice bound `k` denotes in a sequence of
      length `n`: a negative bound counts from the end, and the result is
      clamped to [0, n]. */
  function SliceIndex(k: int, n: nat): (p: nat)
    ensures p <= n
  {
    if k < 0 then (if n + k < 0 then 0 else n + k)
    else if k > n then n else k
  }

  /** `s[:k]`: a prefix of s, of length k (at most |s|) for a bound k >= 0 and
      of length |s| + k (at least 0) for a negative one. */
  function Take(s: seq<char>, k: int): (r: seq<char>)
    ensures r <= s
    ensures 0 <= k ==> |r| == (if k <= |s| then k else |s|)
    ensures k < 0 ==> |r| == (if -k <= |s| then |s| + k else 0)
  {
    s[..SliceIndex(k, |s|)]
  }

  /** `s[k:]`: what `s[:k]` leaves, so that the two together give s back. */
  function Drop(s: seq<char>, k: int): (r: seq<char>)
    ensures Take(s, k) + r == s
  {
    s[SliceIndex(k, |s|)..]
  }

  /** `s[:-n]` for 0 < n removes the last n characters, or everything when
      there are fewer; `s[:-0]` is `s[:0]`, the empty string. */
  lemma TakeNegative(s: seq<char>, n: int)
    requires 0 <= n
    ensures n == 0 ==> Take(s, -n) == []
    ensures 0 < n <= |s| ==> Take(s, -n) == s[..|s| - n]
    ensures |s| < n ==> Take(s, -n) == []
  {
  }

  /** `c * n`: n copies of c, none when n is not positive. */
  function Repeat(c: char, n: int): (r: seq<char>)
    ensures |r| == (if n <= 0 then 0 else n)
    ensures forall i :: 0 <= i < |r| ==> r[i] == c
  {
    if n <= 0 then [] else [c] + Repeat(c, n - 1)
  }

  /** The characters `str.isspace()` accepts in a Python 2 byte string. */
  predicate IsSpace(c: char) {
    c == ' ' || c == '\t' || c == '\n' || c == '\r' || c == '\U{b}' || c == '\U{c}'
  }

  predicate AllSpace(s: seq<char>) {
    forall i :: 0 <= i < |s| ==> IsSpace(s[i])
  }

  /** The first index from i on that holds no whitespace, or |s|. */
  function SkipSpace(s: seq<char>, i: nat): (a: nat)
    requires i <= |s|
    ensures i <= a <= |s|
    ensures forall k :: i <= k < a ==> IsSpace(s[k])
    ensures a < |s| ==> !IsSpace(s[a])
    decreases |s| - i
  {
    if i < |s| && IsSpace(s[i]) then SkipSpace(s, i + 1) else i
  }

  /** The end of s[a..b] once trailing whitespace is dropped from it. */
  function SkipSpaceBack(s: seq<char>, a: nat, b: nat): (e: nat)
    requires a <= b <= |s|
    ensures a <= e <= b
    ensures forall k :: e <= k < b ==> IsSpace(s[k])
    ensures a < e ==> !IsSpace(s[e - 1])
    decreases b
  {
    if a < b && IsSpace(s[b - 1]) then SkipSpaceBack(s, a, b - 1) else b
  }

  /** `s.strip()`: the piece of `s` between its leading and its trailing
      whitespace; it neither starts nor ends with whitespace, and it is empty
      exactly when `s` is all whitespace. */
  function Strip(s: seq<char>): (r: seq<char>)
    ensures r == [] <==> AllSpace(s)
    ensures r != [] ==> !IsSpace(r[0]) && !IsSpace(r[|r| - 1])
    ensures exists a, b :: 0 <= a <= b <= |s| && r == s[a..b]
              && (forall k :: 0 <= k < a ==> IsSpace(s[k]))
              && (forall k :: b <= k < |s| ==> IsSpace(s[k]))
  {
    var a := SkipSpace(s, 0);
    var b := SkipSpaceBack(s, a, |s|);
    assert a == b ==> forall k :: 0 <= k < |s| ==> IsSpace(s[k]) by {
      if a == b {
        forall k | 0 <= k < |s| ensures IsSpace(s[k]) {
          if k < a { } else { }
        }
      }
    }
    s[a..b]
  }

  /** The needle `p` occurs in `s` starting at index `j`. */
  predicate OccursAt(s: seq<char>, p: seq<char>, j: int) {
    0 <= j && j + |p| <= |s| && s[j..j + |p|] == p
  }

  /** `s.find(p, i)` for 0 <= i: the least index from i on where p occurs, or -1. */
  function FindFrom(s: seq<char>, p: seq<char>, i: nat): (r: int)
    ensures r == -1 || (i <= r && OccursAt(s, p, r))
    ensures r != -1 ==> forall j :: i <= j < r ==> !OccursAt(s, p, j)
    ensures r == -1 ==> forall j :: i <= j ==> !OccursAt(s, p, j)
    decreases |s| - i
  {
    if i + |p| > |s| then -1
    else if s[i..i + |p|] == p then i
    else FindFrom(s, p, i + 1)
  }

  /** `s.find(p)`: the leftmost occurrence of p in s, or -1 when there is none. */
  function Find(s: seq<char>, p: seq<char>): (r: int)
    ensures r == -1 || OccursAt(s, p, r)
    ensures r != -1 ==> forall j :: 0 <= j < r ==> !OccursAt(s, p, j)
    ensures r == -1 <==> forall j :: !OccursAt(s, p, j)
  {
    FindFrom(s, p, 0)
  }
}
