/** The few string operations of Python that the dashboard relies on. */
module Strings {

  /** `pat` stands at position `i` of `s`. */
  ghost predicate OccursAt(pat: string, s: string, i: int)
  {
    0 <= i <= |s| - |pat| && s[i..i + |pat|] == pat
  }

  /** Python's `pat in s` for strings: `pat` is a contiguous slice of `s`. */
  ghost predicate Occurs(pat: string, s: string)
  {
    exists i :: OccursAt(pat, s, i)
  }

  /** Executable substring test, scanning `s` from the left. */
  function Contains(s: string, pat: string): (b: bool)
    ensures b <==> Occurs(pat, s)
    decreases |s|
  {
    if |s| < |pat| then
      false
    else if s[..|pat|] == pat then
      assert OccursAt(pat, s, 0);
      true
    else
      OccursShift(pat, s);
      Contains(s[1..], pat)
  }

  /** When `pat` is not a prefix of `s`, it occurs in `s` exactly when it occurs in `s[1..]`. */
  lemma OccursShift(pat: string, s: string)
    requires |s| >= |pat| && s[..|pat|] != pat
    ensures Occurs(pat, s) <==> Occurs(pat, s[1..])
  {
    if Occurs(pat, s) {
      var i :| OccursAt(pat, s, i);
      assert i != 0;
      assert s[1..][i - 1..i - 1 + |pat|] == s[i..i + |pat|];
      assert OccursAt(pat, s[1..], i - 1);
    }
    if Occurs(pat, s[1..]) {
      var i :| OccursAt(pat, s[1..], i);
      assert s[1..][i..i + |pat|] == s[i + 1..i + 1 + |pat|];
      assert OccursAt(pat, s, i + 1);
    }
  }

  /** The characters Python's `str.strip()` removes (those for which `str.isspace()` holds). */
  predicate IsSpace(c: char)
  {
    || c == ' ' || c == '\t' || c == '\n' || c == '\r'
    || c == '\U{0B}' || c == '\U{0C}'
    || ('\U{1C}' <= c <= '\U{1F}')
    || c == '\U{85}' || c == '\U{A0}' || c == '\U{1680}'
    || ('\U{2000}' <= c <= '\U{200A}')
    || c == '\U{2028}' || c == '\U{2029}' || c == '\U{202F}' || c == '\U{205F}' || c == '\U{3000}'
  }

  /** The first index at or after `i` that does not hold white space, or `|s|` when there is none:
      the left end of what `str.strip()` keeps. */
  function SkipSpace(s: string, i: nat): (k: nat)
    requires i <= |s|
    ensures i <= k <= |s|
    ensures k == |s| || !IsSpace(s[k])
    decreases |s| - i
  {
    if i < |s| && IsSpace(s[i]) then SkipSpace(s, i + 1) else i
  }

  /** SkipSpace passes over white space only. */
  lemma {:induction false} SkipSpaceSkipsOnlySpace(s: string, i: nat)
    requires i <= |s|
    ensures forall j :: i <= j < SkipSpace(s, i) ==> IsSpace(s[j])
    decreases |s| - i
  {
    if i < |s| && IsSpace(s[i]) {
      SkipSpaceSkipsOnlySpace(s, i + 1);
    }
  }

  /** Walking back from `hi` no further than `lo`, the first position whose preceding character is
      not white space: the right end of what `str.strip()` keeps. */
  function BackOverSpace(s: string, lo: nat, hi: nat): (k: nat)
    requires lo <= hi <= |s|
    ensures lo <= k <= hi
    ensures k == lo || !IsSpace(s[k - 1])
  {
    if lo < hi && IsSpace(s[hi - 1]) then BackOverSpace(s, lo, hi - 1) else hi
  }

  /** BackOverSpace passes over white space only. */
  lemma {:induction false} BackOverSpaceSkipsOnlySpace(s: string, lo: nat, hi: nat)
    requires lo <= hi <= |s|
    ensures forall j :: BackOverSpace(s, lo, hi) <= j < hi ==> IsSpace(s[j])
  {
    if lo < hi && IsSpace(s[hi - 1]) {
      BackOverSpaceSkipsOnlySpace(s, lo, hi - 1);
    }
  }

  /** No white space at either end: what `str.strip()` leaves unchanged. */
  predicate IsStripped(s: string)
  {
    s == [] || (!IsSpace(s[0]) && !IsSpace(s[|s| - 1]))
  }

  /** Where the part `str.strip()` keeps begins. */
  function StripStart(s: string): nat
  {
    SkipSpace(s, 0)
  }

  /** Where the part `str.strip()` keeps ends. */
  function StripEnd(s: string): (k: nat)
    ensures StripStart(s) <= k <= |s|
  {
    BackOverSpace(s, StripStart(s), |s|)
  }

  /** Python's `s.strip()`: the slice between the first and the last character that is not white
      space; what it keeps has no white space at either end. */
  function Strip(s: string): (r: string)
    ensures IsStripped(r)
  {
    s[StripStart(s)..StripEnd(s)]
  }

  /** Strip keeps the middle slice of `s` and everything it drops, on either side, is white space. */
  lemma StripIsMaximalTrim(s: string)
    ensures Strip(s) == s[StripStart(s)..StripEnd(s)]
    ensures forall j :: 0 <= j < StripStart(s) ==> IsSpace(s[j])
    ensures forall j :: StripEnd(s) <= j < |s| ==> IsSpace(s[j])
  {
    SkipSpaceSkipsOnlySpace(s, 0);
    BackOverSpaceSkipsOnlySpace(s, StripStart(s), |s|);
  }

  /** A string without white space at either end is left alone by Strip. */
  lemma StripTrimmed(s: string)
    requires IsStripped(s)
    ensures Strip(s) == s
  {
  }

  /** Stripping twice is stripping once. */
  lemma StripIdempotent(s: string)
    ensures Strip(Strip(s)) == Strip(s)
  {
    StripTrimmed(Strip(s));
  }

  /** Python's `s.split(sep)[0]`: the part of `s` before the first `sep`, or all of `s`. */
  function BeforeFirst(s: string, sep: char): (r: string)
    ensures r <= s
    ensures sep !in r
    ensures |r| < |s| ==> s[|r|] == sep
  {
    if s == [] || s[0] == sep then [] else [s[0]] + BeforeFirst(s[1..], sep)
  }

  /** Splitting `a + b` where `a` holds no separator keeps all of `a` and continues into `b`. */
  lemma {:induction false} BeforeFirstConcat(a: string, b: string, sep: char)
    requires sep !in a
    ensures BeforeFirst(a + b, sep) == a + BeforeFirst(b, sep)
  {
    if a != [] {
      assert (a + b)[1..] == a[1..] + b;
      BeforeFirstConcat(a[1..], b, sep);
    } else {
      assert a + b == b;
    }
  }

  /** A string without the separator is its own first split part. */
  lemma {:induction false} BeforeFirstAll(s: string, sep: char)
    requires sep !in s
    ensures BeforeFirst(s, sep) == s
  {
    if s != [] {
      BeforeFirstAll(s[1..], sep);
    }
  }
}
