// util.h: whitespace trimming, in the C locale.

module Util {

  /** `isspace` in the C locale: space, \t, \n, \v, \f, \r. */
  predicate IsSpace(c: char)
  {
    c == ' ' || c == '\t' || c == '\n' || c == '\U{000B}' || c == '\U{000C}' || c == '\r'
  }

  predicate AllSpace(s: string)
  {
    forall k :: 0 <= k < |s| ==> IsSpace(s[k])
  }

  /** Every character of `s` in positions `lo` to `hi - 1` is whitespace. */
  predicate SpacesBetween(s: string, lo: nat, hi: nat)
    requires lo <= hi <= |s|
  {
    forall k :: lo <= k < hi ==> IsSpace(s[k])
  }

  /** Where the forward scan of `trim` stops when started at `i`: the first
      position from `i` on that is the end or holds a non-space. */
  function SkipLeading(s: string, i: nat): (k: nat)
    requires i <= |s|
    ensures i <= k <= |s|
    ensures SpacesBetween(s, i, k)
    ensures k < |s| ==> !IsSpace(s[k])
    decreases |s| - i
  {
    if i == |s| || !IsSpace(s[i]) then i else SkipLeading(s, i + 1)
  }

  /** Where the backward scan of `trim` stops when started at `j` and bounded
      below by `lo`: the last position down to `lo` that is `lo` itself or
      follows a non-space. */
  function SkipTrailing(s: string, lo: nat, j: nat): (k: nat)
    requires lo <= j <= |s|
    ensures lo <= k <= j
    ensures SpacesBetween(s, k, j)
    ensures k > lo ==> !IsSpace(s[k - 1])
    decreases j
  {
    if j == lo || !IsSpace(s[j - 1]) then j
    else SkipTrailing(s, lo, j - 1)
  }

  /** The value `trim(s)` returns: `s` without its leading and trailing
      whitespace. The result neither starts nor ends with a space. */
  function Trimmed(s: string): (r: string)
    ensures |r| <= |s|
    ensures r != [] ==> !IsSpace(r[0]) && !IsSpace(r[|r| - 1])
  {
    var i := SkipLeading(s, 0);
    s[i..SkipTrailing(s, i, |s|)]
  }

  /** `trim` removes only whitespace: the input is the result with a run of
      whitespace before it and a run after it. */
  lemma TrimmedSplit(s: string) returns (lead: string, trail: string)
    ensures s == lead + Trimmed(s) + trail
    ensures AllSpace(lead) && AllSpace(trail)
  {
    var i := SkipLeading(s, 0);
    var k := SkipTrailing(s, i, |s|);
    lead, trail := s[..i], s[k..];
    assert s == s[..i] + s[i..k] + s[k..];
    forall m | 0 <= m < |lead| ensures IsSpace(lead[m]) { assert lead[m] == s[m]; }
    forall m | 0 <= m < |trail| ensures IsSpace(trail[m]) { assert trail[m] == s[k + m]; }
  }

  /** Empty or all-whitespace input, and only such input, trims to "". */
  lemma TrimmedEmptyIffAllSpace(s: string)
    ensures Trimmed(s) == [] <==> AllSpace(s)
  {
    var i := SkipLeading(s, 0);
    var k := SkipTrailing(s, i, |s|);
    if Trimmed(s) == [] {
      assert k == i;
      assert i == |s|;
      assert SpacesBetween(s, 0, |s|);
    }
  }

  /** The result is determined by the split: any way of writing `s` as
      whitespace, a core that neither starts nor ends with a space, and
      whitespace has `trim(s)` as that core. */
  lemma TrimmedUnique(lead: string, core: string, trail: string)
    requires AllSpace(lead) && AllSpace(trail)
    requires core != [] ==> !IsSpace(core[0]) && !IsSpace(core[|core| - 1])
    ensures Trimmed(lead + core + trail) == core
  {
    var s := lead + core + trail;
    if core == [] {
      assert AllSpace(s) by {
        forall m | 0 <= m < |s| ensures IsSpace(s[m]) {
          if m < |lead| { assert s[m] == lead[m]; } else { assert s[m] == trail[m - |lead|]; }
        }
      }
      TrimmedEmptyIffAllSpace(s);
    } else {
      LeadingStopsAt(s, 0, |lead|);
      TrailingStopsAt(s, |lead|, |s|, |lead| + |core|);
      assert s[|lead|..|lead| + |core|] == core;
    }
  }

  lemma {:induction false} LeadingStopsAt(s: string, i: nat, k: nat)
    requires i <= k < |s| && !IsSpace(s[k])
    requires forall m :: i <= m < k ==> IsSpace(s[m])
    ensures SkipLeading(s, i) == k
    decreases k - i
  {
    if i < k {
      LeadingStopsAt(s, i + 1, k);
    }
  }

  lemma {:induction false} TrailingStopsAt(s: string, lo: nat, j: nat, k: nat)
    requires lo < k <= j <= |s| && !IsSpace(s[k - 1])
    requires forall m :: k <= m < j ==> IsSpace(s[m])
    ensures SkipTrailing(s, lo, j) == k
    decreases j - k
  {
    if k < j {
      TrailingStopsAt(s, lo, j - 1, k);
    }
  }

  /** `trim` is idempotent. */
  lemma TrimmedIdempotent(s: string)
    ensures Trimmed(Trimmed(s)) == Trimmed(s)
  {
    var r := Trimmed(s);
    assert r == [] + r + [];
    TrimmedUnique([], r, []);
  }

  /** `trim` (util.h): a forward scan past leading whitespace, then a backward
      scan from the end that stops at the forward iterator, then the slice
      between them. */
  method Trim(s: string) returns (r: string)
    ensures r == Trimmed(s)
  {
    var it := 0;
    while it < |s| && IsSpace(s[it])
      invariant it <= |s|
      invariant SkipLeading(s, it) == SkipLeading(s, 0)
    {
      it := it + 1;
    }
    var rit := |s|;
    while rit != it && IsSpace(s[rit - 1])
      invariant it <= rit <= |s|
      invariant SkipTrailing(s, it, rit) == SkipTrailing(s, it, |s|)
    {
      rit := rit - 1;
    }
    r := s[it..rit];
  }

  /** A `std::string` that is changed in place. */
  class MutableString {
    var chars: string

    constructor (s: string)
      ensures chars == s
    {
      chars := s;
    }
  }

  /** `InplaceTrim` (util.h): erase the leading whitespace, then erase the
      trailing whitespace of what is left. */
  method InplaceTrim(s: MutableString)
    modifies s
    ensures s.chars == Trimmed(old(s.chars))
  {
    ghost var s0 := s.chars;
    var it := 0;
    while it < |s.chars| && IsSpace(s.chars[it])
      invariant it <= |s.chars|
      invariant s.chars == s0
      invariant SkipLeading(s0, it) == SkipLeading(s0, 0)
    {
      it := it + 1;
    }
    if it != 0 {
      s.chars := s.chars[it..];
    }
    ghost var t := s.chars;
    assert t == s0[it..];
    var rit := 0;
    while rit != |s.chars| && IsSpace(s.chars[|s.chars| - 1 - rit])
      invariant rit <= |s.chars|
      invariant s.chars == t
      invariant SkipTrailing(s0, it, |s0| - rit) == SkipTrailing(s0, it, |s0|)
    {
      assert s.chars[|s.chars| - 1 - rit] == s0[|s0| - 1 - rit];
      rit := rit + 1;
    }
    if rit != 0 {
      s.chars := s.chars[..|s.chars| - rit];
    }
    assert rit < |t| ==> t[|t| - 1 - rit] == s0[|s0| - 1 - rit];
    assert s.chars == s0[it..|s0| - rit];
  }
}
