/**
 * "The array was only rearranged inside [lo, hi]": every mutation of the
 * selection core is a swap or a sort of indices inside the range it was
 * given, so each operation leaves everything outside that range alone and
 * keeps the multiset of the range.
 */
module Permutation {

  /**
   * s1 is s0 with the elements of the inclusive range [lo, hi] rearranged
   * and every other position unchanged.  Since the positions outside the
   * range keep their values, "same multiset overall" is "same multiset of
   * the range" (PermutesWithinRange).
   */
  ghost predicate PermutesWithin(s0: seq<int>, s1: seq<int>, lo: int, hi: int) {
    && |s1| == |s0|
    && 0 <= lo <= hi < |s0|
    && (forall i :: 0 <= i < |s0| && !(lo <= i <= hi) ==> s1[i] == s0[i])
    && multiset(s1) == multiset(s0)
  }

  /** The range [lo, hi] itself keeps its multiset of elements. */
  lemma PermutesWithinRange(s0: seq<int>, s1: seq<int>, lo: int, hi: int)
    requires PermutesWithin(s0, s1, lo, hi)
    ensures multiset(s1[lo..hi + 1]) == multiset(s0[lo..hi + 1])
  {
    assert s0 == s0[..lo] + s0[lo..hi + 1] + s0[hi + 1..];
    assert s1 == s0[..lo] + s1[lo..hi + 1] + s0[hi + 1..] by {
      assert s1[..lo] == s0[..lo];
      assert s1[hi + 1..] == s0[hi + 1..];
      assert s1 == s1[..lo] + s1[lo..hi + 1] + s1[hi + 1..];
    }
    MultisetCancel(s0[..lo], s0[lo..hi + 1], s1[lo..hi + 1], s0[hi + 1..]);
  }

  lemma MultisetCancel(a: seq<int>, b: seq<int>, b': seq<int>, c: seq<int>)
    requires multiset(a + b + c) == multiset(a + b' + c)
    ensures multiset(b) == multiset(b')
  {
    assert multiset(a + b + c) == multiset(a) + multiset(b) + multiset(c);
    assert multiset(a + b' + c) == multiset(a) + multiset(b') + multiset(c);
    forall x ensures multiset(b)[x] == multiset(b')[x] {
      assert multiset(a + b + c)[x] == multiset(a + b' + c)[x];
    }
  }

  lemma PermutesWithinTransitive(s0: seq<int>, s1: seq<int>, s2: seq<int>, lo: int, hi: int)
    requires PermutesWithin(s0, s1, lo, hi)
    requires PermutesWithin(s1, s2, lo, hi)
    ensures PermutesWithin(s0, s2, lo, hi)
  {
  }

  /** A rearrangement of a sub-range is a rearrangement of any range holding it. */
  lemma PermutesWithinWiden(s0: seq<int>, s1: seq<int>, lo: int, hi: int, lo': int, hi': int)
    requires PermutesWithin(s0, s1, lo, hi)
    requires 0 <= lo' <= lo && hi <= hi' < |s0|
    ensures PermutesWithin(s0, s1, lo', hi')
  {
  }

  /** Every element now in [lo, hi] was somewhere in [lo, hi] before. */
  lemma CameFromRange(s0: seq<int>, s1: seq<int>, lo: int, hi: int, j: int) returns (j': int)
    requires PermutesWithin(s0, s1, lo, hi)
    requires lo <= j <= hi
    ensures lo <= j' <= hi && s0[j'] == s1[j]
  {
    PermutesWithinRange(s0, s1, lo, hi);
    assert s1[j] == s1[lo..hi + 1][j - lo];
    assert s1[j] in multiset(s1[lo..hi + 1]);
    var x :| 0 <= x < hi + 1 - lo && s0[lo..hi + 1][x] == s1[j];
    j' := lo + x;
  }

  /** The sequence after exchanging positions i and j. */
  function Swapped(s: seq<int>, i: int, j: int): (r: seq<int>)
    requires 0 <= i < |s| && 0 <= j < |s|
    ensures |r| == |s| && r[i] == s[j] && r[j] == s[i]
    ensures forall m :: 0 <= m < |s| && m != i && m != j ==> r[m] == s[m]
  {
    s[i := s[j]][j := s[i]]
  }

  /** Exchanging two positions inside [lo, hi] rearranges [lo, hi]. */
  lemma SwappedPermutesWithin(s: seq<int>, i: int, j: int, lo: int, hi: int)
    requires 0 <= lo <= i <= hi < |s| && lo <= j <= hi
    ensures PermutesWithin(s, Swapped(s, i, j), lo, hi)
  {
  }
}
