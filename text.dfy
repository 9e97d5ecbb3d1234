/**
 * The Python string builtins the two scripts rely on: `str.strip()`,
 * `str.join`, `str.lower()` and `str.endswith`, written out over `seq<char>`.
 */
module Text {

  /** The characters for which Python's `str.isspace()` holds. */
  predicate IsSpace(c: char)
  {
    || ('\U{0009}' <= c <= '\U{000D}')
    || ('\U{001C}' <= c <= '\U{0020}')
    || c == '\U{0085}' || c == '\U{00A0}' || c == '\U{1680}'
    || ('\U{2000}' <= c <= '\U{200A}')
    || c == '\U{2028}' || c == '\U{2029}' || c == '\U{202F}' || c == '\U{205F}' || c == '\U{3000}'
  }

  /** `s.lstrip()`: the suffix of `s` left once the leading whitespace is dropped. */
  function StripLeft(s: string): (r: string)
    ensures |r| <= |s| && r == s[|s| - |r|..]
    ensures forall i :: 0 <= i < |s| - |r| ==> IsSpace(s[i])
    ensures r != [] ==> !IsSpace(r[0])
  {
    if s != [] && IsSpace(s[0]) then StripLeft(s[1..]) else s
  }

  /** `s.rstrip()`: the prefix of `s` left once the trailing whitespace is dropped. */
  function StripRight(s: string): (r: string)
    ensures |r| <= |s| && r == s[..|r|]
    ensures forall i :: |r| <= i < |s| ==> IsSpace(s[i])
    ensures r != [] ==> !IsSpace(r[|r| - 1])
  {
    if s != [] && IsSpace(s[|s| - 1]) then StripRight(s[..|s| - 1]) else s
  }

  /**
   * `s.strip()`: the slice of `s` between the first and the last
   * non-whitespace character; everything cut off on either side is whitespace.
   */
  function Strip(s: string): (r: string)
    ensures |s| - |StripLeft(s)| + |r| <= |s|
    ensures r == s[|s| - |StripLeft(s)|..|s| - |StripLeft(s)| + |r|]
    ensures forall i :: 0 <= i < |s| - |StripLeft(s)| ==> IsSpace(s[i])
    ensures forall i :: |s| - |StripLeft(s)| + |r| <= i < |s| ==> IsSpace(s[i])
    ensures r != [] ==> !IsSpace(r[0]) && !IsSpace(r[|r| - 1])
  {
    StripRight(StripLeft(s))
  }

  /** A string with no whitespace at either end is left as it is by `strip()`. */
  lemma StripKeepsTrimmed(s: string)
    requires s == [] || (!IsSpace(s[0]) && !IsSpace(s[|s| - 1]))
    ensures Strip(s) == s
  {
    assert StripLeft(s) == s;
    assert StripRight(s) == s;
  }

  /** A string made only of whitespace strips to the empty string. */
  lemma StripAllSpace(s: string)
    requires forall i :: 0 <= i < |s| ==> IsSpace(s[i])
    ensures Strip(s) == ""
  {
  }

  /** Stripping twice is stripping once. */
  lemma StripIdempotent(s: string)
    ensures Strip(Strip(s)) == Strip(s)
  {
    StripKeepsTrimmed(Strip(s));
  }

  /** `sep.join(xs)`: the strings of `xs` in order, with `sep` between neighbours. */
  function Join(sep: string, xs: seq<string>): string
  {
    if |xs| == 0 then ""
    else if |xs| == 1 then xs[0]
    else xs[0] + sep + Join(sep, xs[1..])
  }

  /** Where the `k`-th string of `xs` starts inside `Join(sep, xs)`. */
  function JoinOffset(sep: string, xs: seq<string>, k: nat): nat
    requires k < |xs|
  {
    if k == 0 then 0 else |xs[0]| + |sep| + JoinOffset(sep, xs[1..], k - 1)
  }

  /** A slice that lies inside the second part of a concatenation is a slice of that part. */
  lemma SliceOfSecond(a: string, b: string, i: nat, j: nat)
    requires |a| <= i <= j <= |a| + |b|
    ensures (a + b)[i..j] == b[i - |a|..j - |a|]
  {
  }

  /** A slice that lies inside the first part of a concatenation is a slice of that part. */
  lemma SliceOfFirst(a: string, b: string, i: nat, j: nat)
    requires i <= j <= |a|
    ensures (a + b)[i..j] == a[i..j]
  {
  }

  /** A join of two or more pieces is the first piece, the separator, and the join of the rest. */
  lemma JoinUnfold(sep: string, xs: seq<string>)
    requires |xs| > 1
    ensures Join(sep, xs) == (xs[0] + sep) + Join(sep, xs[1..])
  {
  }

  /** Each piece of `xs` sits in the joined string at its offset. */
  lemma {:induction false} JoinPieceAt(sep: string, xs: seq<string>, k: nat)
    requires k < |xs|
    ensures JoinOffset(sep, xs, k) + |xs[k]| <= |Join(sep, xs)|
    ensures Join(sep, xs)[JoinOffset(sep, xs, k)..JoinOffset(sep, xs, k) + |xs[k]|] == xs[k]
  {
    if |xs| > 1 {
      var head := xs[0] + sep;
      var rest := Join(sep, xs[1..]);
      JoinUnfold(sep, xs);
      if k == 0 {
        SliceOfFirst(head, rest, 0, |xs[0]|);
        assert head[0..|xs[0]|] == xs[0];
      } else {
        JoinPieceAt(sep, xs[1..], k - 1);
        assert xs[1..][k - 1] == xs[k];
        var o := JoinOffset(sep, xs[1..], k - 1);
        SliceOfSecond(head, rest, |head| + o, |head| + o + |xs[k]|);
      }
    }
  }

  /** The next piece starts one separator after the end of this one. */
  lemma {:induction false} JoinOffsetNext(sep: string, xs: seq<string>, k: nat)
    requires k + 1 < |xs|
    ensures JoinOffset(sep, xs, k + 1) == JoinOffset(sep, xs, k) + |xs[k]| + |sep|
  {
    if k > 0 {
      JoinOffsetNext(sep, xs[1..], k - 1);
      assert xs[1..][k - 1] == xs[k];
    }
  }

  /** The separator follows each piece but the last. */
  lemma {:induction false} JoinSeparatorAt(sep: string, xs: seq<string>, k: nat)
    requires k + 1 < |xs|
    ensures JoinOffset(sep, xs, k) + |xs[k]| + |sep| <= |Join(sep, xs)|
    ensures Join(sep, xs)[JoinOffset(sep, xs, k) + |xs[k]|..JoinOffset(sep, xs, k) + |xs[k]| + |sep|] == sep
  {
    var head := xs[0] + sep;
    var rest := Join(sep, xs[1..]);
    JoinUnfold(sep, xs);
    if k == 0 {
      SliceOfFirst(head, rest, |xs[0]|, |head|);
      assert head[|xs[0]|..|head|] == sep;
    } else {
      JoinSeparatorAt(sep, xs[1..], k - 1);
      assert xs[1..][k - 1] == xs[k];
      var e := JoinOffset(sep, xs[1..], k - 1) + |xs[k]|;
      SliceOfSecond(head, rest, |head| + e, |head| + e + |sep|);
    }
  }

  /**
   * Each piece of `xs` sits in the joined string at its offset, and the
   * separator follows it unless it is the last one.
   */
  lemma JoinPieces(sep: string, xs: seq<string>, k: nat)
    requires k < |xs|
    ensures JoinOffset(sep, xs, k) + |xs[k]| <= |Join(sep, xs)|
    ensures Join(sep, xs)[JoinOffset(sep, xs, k)..JoinOffset(sep, xs, k) + |xs[k]|] == xs[k]
    ensures k + 1 < |xs| ==> JoinOffset(sep, xs, k + 1) == JoinOffset(sep, xs, k) + |xs[k]| + |sep|
    ensures k + 1 < |xs| ==> JoinOffset(sep, xs, k + 1) <= |Join(sep, xs)|
    ensures k + 1 < |xs| ==>
              Join(sep, xs)[JoinOffset(sep, xs, k) + |xs[k]|..JoinOffset(sep, xs, k + 1)] == sep
  {
    JoinPieceAt(sep, xs, k);
    if k + 1 < |xs| {
      JoinOffsetNext(sep, xs, k);
      JoinSeparatorAt(sep, xs, k);
    }
  }

  /** The last piece ends the joined string. */
  lemma {:induction false} JoinEndsWithLast(sep: string, xs: seq<string>)
    requires |xs| > 0
    ensures JoinOffset(sep, xs, |xs| - 1) + |xs[|xs| - 1]| == |Join(sep, xs)|
  {
    if |xs| > 1 {
      JoinEndsWithLast(sep, xs[1..]);
      assert xs[1..][|xs| - 2] == xs[|xs| - 1];
    }
  }

  /**
   * A join whose first piece starts and whose last piece ends with
   * something other than whitespace is left as it is by `strip()`.
   */
  lemma JoinTrimmedEnds(sep: string, xs: seq<string>)
    requires |xs| > 0 && xs[0] != "" && xs[|xs| - 1] != ""
    requires !IsSpace(xs[0][0]) && !IsSpace(xs[|xs| - 1][|xs[|xs| - 1]| - 1])
    ensures Strip(Join(sep, xs)) == Join(sep, xs)
  {
    var j := Join(sep, xs);
    var n := |xs| - 1;
    JoinPieces(sep, xs, 0);
    JoinPieces(sep, xs, n);
    JoinEndsWithLast(sep, xs);
    assert j[0] == xs[0][0];
    var o := JoinOffset(sep, xs, n);
    assert j[|j| - 1] == j[o..o + |xs[n]|][|xs[n]| - 1];
    StripKeepsTrimmed(j);
  }

  /** Python's `str.lower()` on one character, restricted to ASCII letters. */
  function LowerChar(c: char): char
  {
    if 'A' <= c <= 'Z' then (c as int + 32) as char else c
  }

  function Lower(s: string): string
  {
    seq(|s|, i requires 0 <= i < |s| => LowerChar(s[i]))
  }

  /** `s.endswith(suffix)`. */
  predicate EndsWith(s: string, suffix: string)
  {
    |suffix| <= |s| && s[|s| - |suffix|..] == suffix
  }
}
