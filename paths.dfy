/**
 * The Windows flavour of Python's `os.path` functions that the ingestion
 * script uses: `basename`, `splitext` and `join`. The script locates its
 * articles under `~\Desktop`, a path written for Windows, where `os.path`
 * is `ntpath`. Both `\` and `/` separate path components there (POSIX
 * `basename` splits at `/` only); drive prefixes are not treated specially.
 */
module Paths {

  /** A path separator of `ntpath`. */
  predicate IsSep(c: char)
  {
    c == '\\' || c == '/'
  }

  /** The index just past the last separator in `s`, or 0 when `s` has none. */
  function AfterLastSep(s: string): (r: nat)
    ensures r <= |s|
    ensures r > 0 ==> IsSep(s[r - 1])
  {
    if s == [] then 0
    else if IsSep(s[|s| - 1]) then |s|
    else AfterLastSep(s[..|s| - 1])
  }

  /** No separator comes after the last one. */
  lemma {:induction false} AfterLastSepIsLast(s: string)
    ensures forall i :: AfterLastSep(s) <= i < |s| ==> !IsSep(s[i])
  {
    if s != [] && !IsSep(s[|s| - 1]) {
      AfterLastSepIsLast(s[..|s| - 1]);
    }
  }

  /**
   * `os.path.basename(p)`: the longest suffix of `p` free of separators;
   * whatever precedes it ends in a separator.
   */
  function Basename(p: string): string
  {
    p[AfterLastSep(p)..]
  }

  /** A base name is a suffix of its path, and what precedes it ends in a separator. */
  lemma BasenameIsLastComponent(p: string)
    ensures |Basename(p)| <= |p| && Basename(p) == p[|p| - |Basename(p)|..]
    ensures |Basename(p)| < |p| ==> IsSep(p[|p| - |Basename(p)| - 1])
    ensures forall i :: 0 <= i < |Basename(p)| ==> !IsSep(Basename(p)[i])
  {
    BasenameHasNoSep(p);
  }

  /** A base name holds no separator. */
  lemma BasenameHasNoSep(p: string)
    ensures forall i :: 0 <= i < |Basename(p)| ==> !IsSep(Basename(p)[i])
  {
    var k := AfterLastSep(p);
    AfterLastSepIsLast(p);
    assert forall i :: 0 <= i < |p| - k ==> Basename(p)[i] == p[k + i];
  }

  /** The index of the last `.` in `s`, or -1 when `s` has none. */
  function LastDot(s: string): (r: int)
    ensures -1 <= r < |s|
    ensures r >= 0 ==> s[r] == '.'
  {
    if s == [] then -1
    else if s[|s| - 1] == '.' then |s| - 1
    else LastDot(s[..|s| - 1])
  }

  /** No `.` comes after the one `LastDot` finds. */
  lemma {:induction false} LastDotIsLast(s: string)
    ensures forall i :: LastDot(s) < i < |s| ==> s[i] != '.'
  {
    if s != [] && s[|s| - 1] != '.' {
      LastDotIsLast(s[..|s| - 1]);
    }
  }

  /**
   * No `.` in the last component of `p` comes after a character other than
   * `.`: its dots, if any, all lead it (so `.bashrc` and `..` have no
   * extension).
   */
  predicate OnlyLeadingDots(p: string)
  {
    forall j, i :: AfterLastSep(p) <= j < i < |p| && p[j] != '.' ==> p[i] != '.'
  }

  /** Whether `s` has a character other than `.`. */
  predicate HasNonDot(s: string)
  {
    s != [] && (s[0] != '.' || HasNonDot(s[1..]))
  }

  /** The position of a character other than `.` in `s`. */
  function NonDotIndex(s: string): (i: nat)
    requires HasNonDot(s)
    ensures i < |s| && s[i] != '.'
  {
    if s[0] != '.' then 0 else 1 + NonDotIndex(s[1..])
  }

  lemma {:induction false} NoNonDot(s: string)
    requires !HasNonDot(s)
    ensures forall i :: 0 <= i < |s| ==> s[i] == '.'
  {
    if s != [] {
      NoNonDot(s[1..]);
      assert forall i :: 1 <= i < |s| ==> s[i] == s[1..][i - 1];
    }
  }

  /**
   * `os.path.splitext(p)`: splits off the final extension, which runs from
   * the last `.` to the end and holds no other `.` and no separator.
   */
  function SplitExt(p: string): (string, string)
  {
    var start := AfterLastSep(p);
    var dot := LastDot(p);
    if start <= dot && HasNonDot(p[start..dot]) then
      (p[..dot], p[dot..])
    else
      (p, "")
  }

  /**
   * The two parts of `splitext` put back together give the path, and a
   * non-empty extension is a `.` followed by neither a `.` nor a separator.
   */
  lemma SplitExtParts(p: string)
    ensures SplitExt(p).0 + SplitExt(p).1 == p
    ensures SplitExt(p).1 != "" ==> SplitExt(p).1[0] == '.'
    ensures forall i :: 1 <= i < |SplitExt(p).1| ==> SplitExt(p).1[i] != '.' && !IsSep(SplitExt(p).1[i])
  {
    LastDotIsLast(p);
    AfterLastSepIsLast(p);
  }

  /** `splitext` finds no extension exactly when every dot of the last component leads it. */
  lemma SplitExtNoExtension(p: string)
    ensures SplitExt(p).1 == "" <==> OnlyLeadingDots(p)
  {
    var start := AfterLastSep(p);
    var dot := LastDot(p);
    LastDotIsLast(p);
    AfterLastSepIsLast(p);
    if start <= dot && HasNonDot(p[start..dot]) {
      var i := NonDotIndex(p[start..dot]);
      assert p[start + i] != '.';
      assert !OnlyLeadingDots(p);
    } else if start <= dot {
      NoNonDot(p[start..dot]);
      assert forall i :: start <= i < dot ==> p[i] == p[start..dot][i - start];
    }
  }

  /**
   * `os.path.join(root, name)` for a relative `name`: a backslash is put in
   * between unless the root is empty or already ends in a separator.
   */
  function JoinPath(root: string, name: string): string
  {
    if root == [] || IsSep(root[|root| - 1]) then root + name else root + "\\" + name
  }

  /** The base name of a joined path is the name that was joined on. */
  lemma BasenameOfJoin(root: string, name: string)
    requires forall i :: 0 <= i < |name| ==> !IsSep(name[i])
    ensures Basename(JoinPath(root, name)) == name
  {
    var p := JoinPath(root, name);
    var b := Basename(p);
    var k := |p| - |name|;
    assert p[k..] == name;
    assert k > 0 ==> IsSep(p[k - 1]);
    BasenameHasNoSep(p);
  }

  /**
   * The file title the ingestion script derives from a source path:
   * `os.path.splitext(os.path.basename(path))[0]`.
   */
  function Stem(path: string): string
  {
    SplitExt(Basename(path)).0
  }

  /** A file title holds no separator. */
  lemma StemHasNoSep(path: string)
    ensures forall i :: 0 <= i < |Stem(path)| ==> !IsSep(Stem(path)[i])
  {
    var base := Basename(path);
    var split := SplitExt(base);
    BasenameHasNoSep(path);
    SplitExtParts(base);
    assert forall i :: 0 <= i < |split.0| ==> split.0[i] == base[i];
  }

  /** The title is the base name with at most its final extension cut off. */
  lemma StemDropsFinalExtension(path: string)
    ensures |Stem(path)| <= |Basename(path)|
    ensures Basename(path) == Stem(path) + Basename(path)[|Stem(path)|..]
    ensures |Stem(path)| == |Basename(path)| <==> OnlyLeadingDots(Basename(path))
    ensures forall i :: |Stem(path)| < i < |Basename(path)| ==> Basename(path)[i] != '.'
    ensures |Stem(path)| < |Basename(path)| ==> Basename(path)[|Stem(path)|] == '.'
  {
    var b := Basename(path);
    var r := SplitExt(b);
    SplitExtParts(b);
    SplitExtNoExtension(b);
    assert b[|r.0|..] == r.1;
  }
}
