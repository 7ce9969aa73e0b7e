/** Rearranging a stretch of a sequence and nothing else of it. */
module Permutations {

  /** `t` is `s` with the elements at `lo..hi` (inclusive) rearranged. */
  ghost predicate SegPerm(t: seq<int>, s: seq<int>, lo: int, hi: int) {
    && |t| == |s|
    && multiset(t) == multiset(s)
    && forall p :: 0 <= p < |s| && (p < lo || hi < p) ==> t[p] == s[p]
  }

  lemma SwapSeg(s: seq<int>, lo: int, hi: int, i: int, j: int)
    requires 0 <= lo <= i <= j <= hi < |s|
    ensures SegPerm(s[i := s[j]][j := s[i]], s, lo, hi)
  {
  }

  lemma SegPermTwice(u: seq<int>, t: seq<int>, s: seq<int>, lo: int, hi: int)
    requires SegPerm(u, t, lo, hi) && SegPerm(t, s, lo, hi)
    ensures SegPerm(u, s, lo, hi)
  {
  }

  lemma SegPermSlice(t: seq<int>, s: seq<int>, lo: int, hi: int)
    requires 0 <= lo <= hi + 1 <= |s|
    requires SegPerm(t, s, lo, hi)
    ensures multiset(t[lo..hi + 1]) == multiset(s[lo..hi + 1])
  {
    SplitMultiset(t, lo, hi);
    SplitMultiset(s, lo, hi);
    assert t[..lo] == s[..lo];
    assert t[hi + 1..] == s[hi + 1..];
  }

  lemma SplitMultiset(s: seq<int>, lo: int, hi: int)
    requires 0 <= lo <= hi + 1 <= |s|
    ensures multiset(s[lo..hi + 1]) == multiset(s) - multiset(s[..lo]) - multiset(s[hi + 1..])
  {
    assert s == s[..lo] + s[lo..hi + 1] + s[hi + 1..];
  }

  lemma SegPermSource(t: seq<int>, s: seq<int>, lo: int, hi: int, p: int) returns (p': int)
    requires 0 <= lo <= p <= hi < |s|
    requires SegPerm(t, s, lo, hi)
    ensures lo <= p' <= hi && s[p'] == t[p]
  {
    SegPermSlice(t, s, lo, hi);
    assert t[p] == t[lo..hi + 1][p - lo];
    assert t[p] in multiset(s[lo..hi + 1]);
    var k :| 0 <= k < hi + 1 - lo && s[lo..hi + 1][k] == t[p];
    p' := lo + k;
  }
}
