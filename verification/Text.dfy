/**
 Character sequences as the C code handles them: memmem, and strings that end at a NUL.
 A `char` stands for one byte.
 */
module Text {

  const CRLF := "\r\n"
  const NUL := 0 as char

  /** `pat` occurs in `s` at position `i`. */
  predicate At(s: string, pat: string, i: int) {
    0 <= i && i + |pat| <= |s| && s[i..i + |pat|] == pat
  }

  lemma AtTail(s: string, pat: string, i: int)
    requires s != "" && i >= 1
    ensures At(s, pat, i) <==> At(s[1..], pat, i - 1)
  {
    if i + |pat| <= |s| {
      assert s[1..][i - 1..i - 1 + |pat|] == s[i..i + |pat|];
    }
  }

  /** memmem: the first place where `pat` occurs in `s`, or -1. */
  function IndexOf(s: string, pat: string): (i: int)
    ensures -1 <= i <= |s|
    ensures i >= 0 ==> At(s, pat, i)
    ensures forall j :: At(s, pat, j) ==> 0 <= i <= j
  {
    hide At;
    AtStart(s, pat);
    if At(s, pat, 0) then 0
    else if s == "" then -1
    else
      var r := IndexOf(s[1..], pat);
      AtTail(s, pat, if r < 0 then 1 else r + 1);
      assert forall j :: At(s, pat, j) ==> 0 <= r <= j - 1 by {
        forall j | At(s, pat, j)
          ensures 0 <= r <= j - 1
        {
          AtTail(s, pat, if j >= 1 then j else 1);
        }
      }
      if r < 0 then -1 else r + 1
  }

  lemma AtStart(s: string, pat: string)
    ensures forall j :: At(s, pat, j) ==> j >= 0 && j + |pat| <= |s|
  {
  }

  lemma AtStarts(s: string, pat: string, i: int)
    requires At(s, pat, i) && pat != ""
    ensures s[i] == pat[0]
  {
    assert s[i..i + |pat|][0] == s[i];
  }

  lemma AtSuffix(a: string, b: string, pat: string, i: int)
    requires At(a + b, pat, i) && i >= |a|
    ensures At(b, pat, i - |a|)
  {
    assert b[i - |a|..i - |a| + |pat|] == (a + b)[i..i + |pat|];
  }

  /** What is found stays found when more text arrives. */
  lemma IndexOfAppend(s: string, more: string, pat: string)
    requires IndexOf(s, pat) >= 0
    ensures IndexOf(s + more, pat) == IndexOf(s, pat)
  {
    var i, k := IndexOf(s, pat), IndexOf(s + more, pat);
    assert (s + more)[i..i + |pat|] == s[i..i + |pat|];
    assert At(s + more, pat, i);
    assert (s + more)[k..k + |pat|] == s[k..k + |pat|];
    assert At(s, pat, k);
  }

  predicate Contains(s: string, pat: string) {
    IndexOf(s, pat) >= 0
  }

  /** A text without one of the characters of the pattern does not contain it. */
  lemma Lacks(s: string, pat: string, k: nat)
    requires k < |pat| && pat[k] !in s
    ensures !Contains(s, pat)
  {
    var i := IndexOf(s, pat);
    if i >= 0 {
      CharAt(s, pat, i, k);
    }
  }

  lemma CharAt(s: string, pat: string, i: int, k: nat)
    requires At(s, pat, i) && k < |pat|
    ensures s[i + k] == pat[k]
  {
    assert s[i..i + |pat|][k] == s[i + k];
  }

  /** A part of the text that contains the pattern makes the whole contain it. */
  lemma ContainsPart(a: string, s: string, b: string, pat: string)
    requires Contains(s, pat)
    ensures Contains(a + s + b, pat)
  {
    var i := IndexOf(s, pat);
    assert (a + s + b)[|a| + i..|a| + i + |pat|] == s[i..i + |pat|];
    assert At(a + s + b, pat, |a| + i);
  }

  /** A one-character separator is found right after text that does not hold it. */
  lemma SeparatorAfter(s: string, c: char, rest: string)
    ensures c !in s ==> IndexOf(s + [c] + rest, [c]) == |s|
    ensures c in s ==> 0 <= IndexOf(s + [c] + rest, [c]) < |s|
  {
    var t := s + [c] + rest;
    assert At(t, [c], |s|);
    var i := IndexOf(t, [c]);
    assert t[i..i + 1][0] == t[i];
    if c in s {
      var k :| 0 <= k < |s| && s[k] == c;
      assert At(t, [c], k);
    }
  }

  lemma NoStraddle(s: string, pat: string, rest: string, i: nat)
    requires |pat| == 2 && pat[0] != pat[1]
    requires At(s + pat + rest, pat, i) && i < |s|
    ensures At(s, pat, i)
  {
    var t := s + pat + rest;
    assert t[i..i + 2][1] == t[i + 1] && t[|s|] == pat[0];
    assert s[i..] + pat + rest == t[i..];
    assert t[i..i + 2] == t[i..][..2];
  }

  /**
   A two-character separator whose characters differ is found right after text that does
   not contain it: it cannot straddle the end of that text.
   */
  lemma PairAfter(s: string, pat: string, rest: string)
    requires |pat| == 2 && pat[0] != pat[1]
    ensures !Contains(s, pat) ==> IndexOf(s + pat + rest, pat) == |s|
    ensures Contains(s, pat) ==> IndexOf(s + pat + rest, pat) == IndexOf(s, pat)
  {
    var t := s + pat + rest;
    if Contains(s, pat) {
      IndexOfAppend(s, pat + rest, pat);
      assert s + (pat + rest) == t;
    } else {
      assert At(t, pat, |s|);
      var i := IndexOf(t, pat);
      if i < |s| {
        NoStraddle(s, pat, rest, i);
      }
    }
  }

  /** A C string ends at its first NUL: the part in front of the first `end`. */
  function UpTo<T(==)>(s: seq<T>, end: T): (t: seq<T>)
    ensures |t| <= |s| && t <= s
    ensures end !in t
    ensures t == s <==> end !in s
  {
    if s == [] || s[0] == end then [] else [s[0]] + UpTo(s[1..], end)
  }

  /** The only text without `end` that is the whole or is followed by `end`. */
  lemma {:induction false} UpToIs<T>(s: seq<T>, end: T, t: seq<T>)
    requires t <= s && end !in t && (t == s || s[|t|] == end)
    ensures UpTo(s, end) == t
    decreases |s|
  {
    if t != [] {
      UpToIs(s[1..], end, t[1..]);
      assert t == [t[0]] + t[1..];
    }
  }
}
