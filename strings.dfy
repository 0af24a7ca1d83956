/**
 * The string helpers of common.go and util.go (`isStringEmpty`), together with
 * the two functions of Go's `strings` package the example migrations rely on:
 * `strings.TrimSpace` and `strings.Split` with a one-character separator.
 * Strings are sequences of Unicode code points.
 */
module Strings {

  /** Go's `unicode.IsSpace`: the white space that `strings.TrimSpace` removes. */
  predicate IsSpace(c: char) {
    var n := c as int;
    || n == 0x09 || n == 0x0A || n == 0x0B || n == 0x0C || n == 0x0D || n == 0x20
    || n == 0x85 || n == 0xA0 || n == 0x1680
    || (0x2000 <= n <= 0x200A)
    || n == 0x2028 || n == 0x2029 || n == 0x202F || n == 0x205F || n == 0x3000
  }

  predicate AllSpace(s: string) {
    forall i :: 0 <= i < |s| ==> IsSpace(s[i])
  }

  /** Drops leading white space: the result is a suffix of `s` preceded only by spaces. */
  function TrimLeft(s: string): (r: string)
    ensures |r| <= |s| && r == s[|s| - |r|..]
    ensures forall i :: 0 <= i < |s| - |r| ==> IsSpace(s[i])
    ensures r == [] || !IsSpace(r[0])
  {
    if s != [] && IsSpace(s[0]) then
      var r := TrimLeft(s[1..]);
      assert forall i :: 1 <= i < |s| - |r| ==> s[i] == s[1..][i - 1];
      r
    else
      s
  }

  /** Drops trailing white space: the result is a prefix of `s` followed only by spaces. */
  function TrimRight(s: string): (r: string)
    ensures |r| <= |s| && r == s[..|r|]
    ensures forall i :: |r| <= i < |s| ==> IsSpace(s[i])
    ensures r == [] || !IsSpace(r[|r| - 1])
  {
    if s != [] && IsSpace(s[|s| - 1]) then
      var r := TrimRight(s[..|s| - 1]);
      assert forall i :: |r| <= i < |s| - 1 ==> s[i] == s[..|s| - 1][i];
      r
    else
      s
  }

  /** `strings.TrimSpace`: neither end of the result is white space. */
  function TrimSpace(s: string): (r: string)
    ensures |r| <= |s|
    ensures r == [] || (!IsSpace(r[0]) && !IsSpace(r[|r| - 1]))
    ensures r == [] <==> AllSpace(s)
  {
    var l := TrimLeft(s);
    var r := TrimRight(l);
    assert r == [] ==> l[|r|..] == l;
    assert l != [] ==> s[|s| - |l|] == l[0];
    r
  }

  /** What `TrimSpace` keeps is `s` with a white-space prefix and a white-space suffix cut off. */
  lemma TrimSpaceStripsEnds(s: string)
    ensures exists i, j :: 0 <= i <= j <= |s| && TrimSpace(s) == s[i..j] && AllSpace(s[..i]) && AllSpace(s[j..])
  {
    var l := TrimLeft(s);
    var r := TrimRight(l);
    LeftSpaces(s);
    RightSpaces(l);
    StripsEnds(s, l, r);
    assert TrimSpace(s) == r;
  }

  /**
   * A prefix `r` of a suffix `l` of `s`, where `s` is white space before `l`
   * and `l` is white space after `r`, is a slice of `s` with white space on
   * both sides.
   */
  lemma StripsEnds(s: string, l: string, r: string)
    requires |l| <= |s| && l == s[|s| - |l|..] && AllSpace(s[..|s| - |l|])
    requires |r| <= |l| && r == l[..|r|] && AllSpace(l[|r|..])
    ensures exists i, j :: 0 <= i <= j <= |s| && r == s[i..j] && AllSpace(s[..i]) && AllSpace(s[j..])
  {
    var i, j := |s| - |l|, |s| - |l| + |r|;
    assert r == s[i..j] && s[j..] == l[|r|..];
  }

  /** The part `TrimLeft` drops is white space. */
  lemma LeftSpaces(s: string)
    ensures AllSpace(s[..|s| - |TrimLeft(s)|])
  {
    var n := |s| - |TrimLeft(s)|;
    forall k | 0 <= k < n ensures IsSpace(s[..n][k]) {
      assert s[..n][k] == s[k];
    }
  }

  /** The part `TrimRight` drops is white space. */
  lemma RightSpaces(s: string)
    ensures AllSpace(s[|TrimRight(s)|..])
  {
    var n := |TrimRight(s)|;
    forall k | 0 <= k < |s| - n ensures IsSpace(s[n..][k]) {
      assert s[n..][k] == s[n + k];
    }
  }

  /** Trimming leaves a string whose ends are not white space unchanged. */
  lemma TrimSpaceKeepsTrimmed(s: string)
    requires s != [] && !IsSpace(s[0]) && !IsSpace(s[|s| - 1])
    ensures TrimSpace(s) == s
  {
  }

  /** `isStringEmpty` (common.go, util.go): blank after trimming white space. */
  function IsStringEmpty(s: string): (empty: bool)
    ensures empty <==> AllSpace(s)
    ensures s == [] ==> empty
  {
    |TrimSpace(s)| == 0
  }

  /** Joins `parts` with `sep` between neighbours (the inverse of `Split`). */
  function Join(parts: seq<string>, sep: char): (s: string)
    requires |parts| >= 1
  {
    if |parts| == 1 then parts[0] else parts[0] + [sep] + Join(parts[1..], sep)
  }

  /**
   * `strings.Split(s, sep)` for a one-character separator: the pieces between
   * separators, always at least one (`Split("", sep) == [""]`).
   */
  function Split(s: string, sep: char): (parts: seq<string>)
    ensures |parts| >= 1
    ensures forall i :: 0 <= i < |parts| ==> sep !in parts[i]
    ensures Join(parts, sep) == s
  {
    if s == [] then
      [""]
    else
      var rest := Split(s[1..], sep);
      if s[0] == sep then
        [""] + rest
      else
        var parts := [[s[0]] + rest[0]] + rest[1..];
        assert parts[1..] == rest[1..];
        parts
  }

  /** Splitting a join of separator-free pieces gives the pieces back. */
  lemma {:induction false} SplitJoin(parts: seq<string>, sep: char)
    requires |parts| >= 1
    requires forall i :: 0 <= i < |parts| ==> sep !in parts[i]
    ensures Split(Join(parts, sep), sep) == parts
  {
    if |parts| == 1 {
      SplitPiece(parts[0], [], sep);
    } else {
      SplitJoin(parts[1..], sep);
      SplitPiece(parts[0], Join(parts[1..], sep), sep);
      assert [""] + parts[1..] == [[]] + parts[1..];
    }
  }

  /** Splitting `p` followed by `tail` (tail empty or starting after a separator) extends the first piece. */
  lemma {:induction false} SplitPiece(p: string, tail: string, sep: char)
    requires sep !in p
    ensures tail == [] ==> Split(p, sep) == [p]
    ensures Split(p + [sep] + tail, sep) == [p] + Split(tail, sep)
  {
    if p == [] {
      assert [sep] + tail == p + [sep] + tail;
      assert ([sep] + tail)[1..] == tail;
    } else {
      assert (p + [sep] + tail)[1..] == p[1..] + [sep] + tail;
      SplitPiece(p[1..], tail, sep);
      assert [p[0]] + p[1..] == p;
    }
  }
}
