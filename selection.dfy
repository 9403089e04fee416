/**
 * The selection core of src/main.rs: quickselect driven by a
 * median-of-medians pivot, working in place on one array.
 *
 * Every method rearranges only the inclusive range [left, right] it is
 * given (PermutesWithin); QuickSelect leaves the (k-left)-th smallest value
 * of the original range at index k, with nothing larger before it and
 * nothing smaller after it.
 */
module Selection {
  import opened Order
  import opened Permutation
  import opened Arith

  /** Exchanges a[i] and a[j]; i == j is allowed and changes nothing. */
  method Swap(a: array<int>, i: nat, j: nat)
    requires i < a.Length && j < a.Length
    modifies a
    ensures a[..] == Swapped(old(a[..]), i, j)
  {
    var t := a[i];
    a[i] := a[j];
    a[j] := t;
  }

  /** s[lo..=hi] is in ascending order. */
  ghost predicate SortedBetween(s: seq<int>, lo: int, hi: int) {
    && 0 <= lo && hi < |s|
    && forall p, q :: lo <= p < q <= hi ==> s[p] <= s[q]
  }

  /** A range sorted in place equals the reference sort of what it held. */
  lemma SortedBetweenIsSort(s0: seq<int>, s: seq<int>, lo: int, hi: int)
    requires PermutesWithin(s0, s, lo, hi)
    requires SortedBetween(s, lo, hi)
    ensures s[lo..hi + 1] == Sort(s0[lo..hi + 1])
  {
    var r := s[lo..hi + 1];
    assert Sorted(r) by {
      forall p, q | 0 <= p < q < |r| ensures r[p] <= r[q] {
        assert r[p] == s[lo + p] && r[q] == s[lo + q];
      }
    }
    PermutesWithinRange(s0, s, lo, hi);
    SortIsSortedPermutation(s0[lo..hi + 1]);
    SortedUnique(r, Sort(s0[lo..hi + 1]));
  }

  /**
   * While s[j] sinks into the sorted s[lo..=i]: that range is in order once
   * position j is ignored, and s[j] is at most everything after it.
   */
  ghost predicate SinkingAt(s: seq<int>, lo: int, j: int, i: int) {
    && 0 <= lo <= j <= i < |s|
    && (forall p, q :: lo <= p < q <= i && p != j && q != j ==> s[p] <= s[q])
    && (forall q :: j < q <= i ==> s[j] <= s[q])
  }

  lemma SinkingStarts(s: seq<int>, lo: int, i: int)
    requires 0 <= lo <= i < |s| && SortedBetween(s, lo, i - 1)
    ensures SinkingAt(s, lo, i, i)
  {
  }

  lemma SinkingStep(s: seq<int>, lo: int, j: int, i: int)
    requires SinkingAt(s, lo, j, i) && lo < j && s[j] < s[j - 1]
    ensures SinkingAt(Swapped(s, j - 1, j), lo, j - 1, i)
  {
  }

  lemma SinkingStops(s: seq<int>, lo: int, j: int, i: int)
    requires SinkingAt(s, lo, j, i) && (j == lo || s[j - 1] <= s[j])
    ensures SortedBetween(s, lo, i)
  {
    forall p, q | lo <= p < q <= i ensures s[p] <= s[q] {
      if q == j && p < j - 1 {
        assert s[p] <= s[j - 1];
      }
    }
  }

  /** Sorts a[lo..=hi] in place (insertion sort); nothing else changes. */
  method SortRange(a: array<int>, lo: nat, hi: nat)
    requires lo <= hi < a.Length
    modifies a
    ensures a[lo..hi + 1] == Sort(old(a[lo..hi + 1]))
    ensures PermutesWithin(old(a[..]), a[..], lo, hi)
  {
    ghost var orig := a[..];
    var i := lo + 1;
    while i <= hi
      invariant lo + 1 <= i <= hi + 1
      invariant PermutesWithin(orig, a[..], lo, hi)
      invariant SortedBetween(a[..], lo, i - 1)
    {
      SinkingStarts(a[..], lo, i);
      var j := i;
      while j > lo && a[j] < a[j - 1]
        invariant lo <= j <= i
        invariant PermutesWithin(orig, a[..], lo, hi)
        invariant SinkingAt(a[..], lo, j, i)
      {
        ghost var before := a[..];
        SwappedPermutesWithin(before, j - 1, j, lo, hi);
        SinkingStep(before, lo, j, i);
        Swap(a, j - 1, j);
        PermutesWithinTransitive(orig, before, a[..], lo, hi);
        j := j - 1;
      }
      SinkingStops(a[..], lo, j, i);
      i := i + 1;
    }
    SortedBetweenIsSort(orig, a[..], lo, hi);
  }

  /**
   * median_by_sort: sorts a[left..=right] and returns the midpoint index,
   * which then holds the lower median of the original range.
   */
  method MedianBySort(a: array<int>, left: nat, right: nat) returns (m: nat)
    requires left <= right < a.Length
    modifies a
    ensures left <= m <= right && m == (left + right) / 2
    ensures a[left..right + 1] == Sort(old(a[left..right + 1]))
    ensures a[m] == Median(old(a[left..right + 1]))
    ensures PermutesWithin(old(a[..]), a[..], left, right)
  {
    SortRange(a, left, right);
    m := (left + right) / 2;
    MidpointOffset(left, right);
    assert a[m] == a[left..right + 1][m - left];
    ghost var o := old(a[left..right + 1]);
    assert |o| - 1 == right - left;
    assert (|o| - 1) / 2 == m - left;
    assert Median(o) == a[left..right + 1][m - left];
  }

  /**
   * Lomuto's split: nothing in [lo, p) reaches s[p] and nothing in (p, hi]
   * is below it.
   */
  ghost predicate SplitAt(s: seq<int>, lo: int, p: int, hi: int) {
    && 0 <= lo <= p <= hi < |s|
    && (forall i :: lo <= i < p ==> s[i] < s[p])
    && (forall i :: p < i <= hi ==> s[p] <= s[i])
  }

  /**
   * Lomuto scan state: the pivot value waits at s[right], s[left..store) is
   * below it and s[store..i) is not.
   */
  ghost predicate LomutoScan(s: seq<int>, left: int, store: int, i: int, right: int, pivot: int) {
    && 0 <= left <= store <= i <= right < |s|
    && s[right] == pivot
    && (forall x :: left <= x < store ==> s[x] < pivot)
    && (forall x :: store <= x < i ==> pivot <= s[x])
  }

  lemma LomutoScanStep(s: seq<int>, left: int, store: int, i: int, right: int, pivot: int)
    requires LomutoScan(s, left, store, i, right, pivot) && i < right
    ensures s[i] < pivot ==> LomutoScan(Swapped(s, store, i), left, store + 1, i + 1, right, pivot)
    ensures pivot <= s[i] ==> LomutoScan(s, left, store, i + 1, right, pivot)
  {
  }

  lemma LomutoScanDone(s: seq<int>, left: int, store: int, right: int, pivot: int)
    requires LomutoScan(s, left, store, right, right, pivot)
    ensures SplitAt(Swapped(s, right, store), left, store, right)
    ensures Swapped(s, right, store)[store] == pivot
  {
  }

  /**
   * partition: moves the pivot to the right end, gathers the elements below
   * it at the front, and puts the pivot after them.
   */
  method Partition(a: array<int>, left: nat, right: nat, pivotIndex: nat) returns (storeIndex: nat)
    requires left <= pivotIndex <= right < a.Length
    modifies a
    ensures left <= storeIndex <= right
    ensures a[storeIndex] == old(a[pivotIndex])
    ensures SplitAt(a[..], left, storeIndex, right)
    ensures PermutesWithin(old(a[..]), a[..], left, right)
  {
    ghost var orig := a[..];
    var pivotValue := a[pivotIndex];
    SwappedPermutesWithin(orig, pivotIndex, right, left, right);
    Swap(a, pivotIndex, right);
    storeIndex := left;
    for i := left to right
      invariant LomutoScan(a[..], left, storeIndex, i, right, pivotValue)
      invariant PermutesWithin(orig, a[..], left, right)
    {
      ghost var before := a[..];
      LomutoScanStep(before, left, storeIndex, i, right, pivotValue);
      if a[i] < pivotValue {
        SwappedPermutesWithin(before, storeIndex, i, left, right);
        Swap(a, storeIndex, i);
        PermutesWithinTransitive(orig, before, a[..], left, right);
        storeIndex := storeIndex + 1;
      }
    }
    ghost var before := a[..];
    LomutoScanDone(before, left, storeIndex, right, pivotValue);
    SwappedPermutesWithin(before, right, storeIndex, left, right);
    Swap(a, right, storeIndex);
    PermutesWithinTransitive(orig, before, a[..], left, right);
  }

  /**
   * The median of chunk number x of [left, right]: the chunks are the
   * consecutive runs of groupSize elements starting at left, and the last
   * one stops at right.
   */
  ghost function ChunkMedian(s: seq<int>, left: int, right: int, groupSize: nat, x: nat): int
    requires 0 <= left && right < |s| && groupSize >= 1 && left + Mul(x, groupSize) <= right
  {
    var lo := left + Mul(x, groupSize);
    var hi := if lo + groupSize - 1 > right then right else lo + groupSize - 1;
    Median(s[lo..hi + 1])
  }

  /** The medians of all the chunks of [left, right], in order. */
  ghost function ChunkMedians(s: seq<int>, left: int, right: int, groupSize: nat): (r: seq<int>)
    requires 0 <= left <= right < |s| && groupSize >= 1
    ensures |r| == (right - left) / groupSize + 1
  {
    MulBelowAll(right - left, groupSize);
    var n := (right - left) / groupSize + 1;
    seq(n, x requires 0 <= x < n => ChunkMedian(s, left, right, groupSize, x))
  }

  /** Entry x of ChunkMedians is the median of chunk number x. */
  lemma ChunkMediansAt(s: seq<int>, left: int, right: int, groupSize: nat, x: nat)
    requires 0 <= left <= right < |s| && groupSize >= 1
    requires x <= (right - left) / groupSize
    ensures left + Mul(x, groupSize) <= right
    ensures ChunkMedians(s, left, right, groupSize)[x] == ChunkMedian(s, left, right, groupSize, x)
  {
    MulBelow(x, right - left, groupSize);
  }

  /**
   * State of the gathering loop of median_of_medians after c chunks, the
   * next chunk starting at i: only [left, right] was rearranged, nothing
   * from i on was touched, and the c slots from left hold the medians of
   * the first c chunks of the original range.
   */
  ghost predicate Gathered(orig: seq<int>, s: seq<int>, left: int, right: int, groupSize: nat, i: int, c: nat) {
    && 0 <= left <= right < |orig| && groupSize >= 1 && c <= i - left && left + c <= right + 1
    && i == left + Mul(c, groupSize)
    && PermutesWithin(orig, s, left, right)
    && (forall x :: i <= x < |s| ==> s[x] == orig[x])
    && (forall x: nat :: x < c ==> left + Mul(x, groupSize) <= right)
    && (forall x: nat {:trigger ChunkMedian(orig, left, right, groupSize, x)} :: x < c ==>
          s[left + x] == ChunkMedian(orig, left, right, groupSize, x))
  }

  lemma GatherStart(orig: seq<int>, left: int, right: int, groupSize: nat)
    requires 0 <= left <= right < |orig| && groupSize >= 1
    ensures Gathered(orig, orig, left, right, groupSize, left, 0)
  {
  }

  /**
   * One round of the gathering loop of median_of_medians: sorts the chunk
   * a[i..=subRight] and swaps its midpoint into slot, which lies at or
   * before the chunk.  Only [slot, subRight] is rearranged.
   */
  method GatherChunk(a: array<int>, i: nat, subRight: nat, slot: nat)
    requires slot <= i <= subRight < a.Length
    modifies a
    ensures PermutesWithin(old(a[..]), a[..], slot, subRight)
    ensures a[slot] == Median(old(a[i..subRight + 1]))
  {
    ghost var before := a[..];
    var median := MedianBySort(a, i, subRight);
    ghost var sorted := a[..];
    Swap(a, median, slot);
    PermutesWithinWiden(before, sorted, i, subRight, slot, subRight);
    SwappedPermutesWithin(sorted, median, slot, slot, subRight);
    PermutesWithinTransitive(before, sorted, a[..], slot, subRight);
  }

  /**
   * After one round the slots from left hold one more chunk median, and the
   * chunks not yet visited are still as they were.
   */
  lemma GatherStep(orig: seq<int>, before: seq<int>, after: seq<int>,
                   left: int, right: int, groupSize: nat, i: int, c: nat, subRight: int)
    requires Gathered(orig, before, left, right, groupSize, i, c) && i <= right
    requires subRight == if i + groupSize - 1 > right then right else i + groupSize - 1
    requires PermutesWithin(before, after, left + c, subRight)
    requires after[left + c] == Median(before[i..subRight + 1])
    ensures Gathered(orig, after, left, right, groupSize, i + groupSize, c + 1)
  {
    GatherStepPermutes(orig, before, after, left, right, left + c, subRight);
    GatherStepMedians(orig, before, after, left, right, groupSize, i, c, subRight);
  }

  lemma GatherStepPermutes(orig: seq<int>, before: seq<int>, after: seq<int>,
                           left: int, right: int, slot: int, subRight: int)
    requires PermutesWithin(orig, before, left, right)
    requires left <= slot && subRight <= right
    requires PermutesWithin(before, after, slot, subRight)
    ensures PermutesWithin(orig, after, left, right)
  {
    PermutesWithinWiden(before, after, slot, subRight, left, right);
  }

  lemma GatherStepMedians(orig: seq<int>, before: seq<int>, after: seq<int>,
                          left: int, right: int, groupSize: nat, i: int, c: nat, subRight: int)
    requires Gathered(orig, before, left, right, groupSize, i, c) && i <= right
    requires subRight == if i + groupSize - 1 > right then right else i + groupSize - 1
    requires PermutesWithin(before, after, left + c, subRight)
    requires after[left + c] == Median(before[i..subRight + 1])
    ensures forall x: nat :: x < c + 1 ==> left + Mul(x, groupSize) <= right
    ensures forall x: nat {:trigger ChunkMedian(orig, left, right, groupSize, x)} :: x < c + 1 ==>
      after[left + x] == ChunkMedian(orig, left, right, groupSize, x)
  {
    assert before[i..subRight + 1] == orig[i..subRight + 1];
    assert after[left + c] == ChunkMedian(orig, left, right, groupSize, c);
    forall x: nat | x < c
      ensures after[left + x] == ChunkMedian(orig, left, right, groupSize, x)
    {
      assert after[left + x] == before[left + x] == ChunkMedian(orig, left, right, groupSize, x);
    }
  }

  /** When the loop has passed right, the slots hold all the chunk medians. */
  lemma GatherDone(orig: seq<int>, s: seq<int>, left: int, right: int, groupSize: nat, i: int, c: nat)
    requires Gathered(orig, s, left, right, groupSize, i, c) && i > right
    ensures c == (right - left) / groupSize + 1
    ensures s[left..left + c] == ChunkMedians(orig, left, right, groupSize)
  {
    assert c > 0;
    assert left + Mul(c - 1, groupSize) <= right;
    QuotientBetween(right - left, c - 1, groupSize);
    var r := ChunkMedians(orig, left, right, groupSize);
    assert |r| == c;
    forall x: nat | x < c ensures s[left..left + c][x] == r[x] {
      ChunkMediansAt(orig, left, right, groupSize, x);
      assert s[left..left + c][x] == s[left + x];
    }
  }

  /**
   * The gathering loop of median_of_medians: walks the chunks of
   * [left, right] and swaps the median of chunk number j into slot left + j.
   * Afterwards a[left..=left + (right-left)/groupSize] holds the chunk
   * medians in order, and only [left, right] was rearranged.
   */
  method GatherMedians(a: array<int>, left: nat, right: nat, groupSize: nat)
    requires left <= right < a.Length
    requires groupSize >= 1
    modifies a
    ensures PermutesWithin(old(a[..]), a[..], left, right)
    ensures a[left..left + (right - left) / groupSize + 1] == ChunkMedians(old(a[..]), left, right, groupSize)
  {
    ghost var orig := a[..];
    var i := left;
    ghost var c: nat := 0;
    GatherStart(orig, left, right, groupSize);
    while i <= right
      invariant Gathered(orig, a[..], left, right, groupSize, i, c)
      decreases right + 1 - i
    {
      var subRight := i + groupSize - 1;
      if subRight > right {
        subRight := right;
      }
      ghost var before := a[..];
      QuotientOf(i - left, c, groupSize);
      GatherChunk(a, i, subRight, left + (i - left) / groupSize);
      GatherStep(orig, before, a[..], left, right, groupSize, i, c, subRight);
      i := i + groupSize;
      c := c + 1;
    }
    GatherDone(orig, a[..], left, right, groupSize, i, c);
  }

  /**
   * median_of_medians: for a range shorter than the group size, the
   * midpoint of the sorted range; otherwise it gathers one median per chunk
   * into a[left..=left + (right-left)/groupSize] and selects, among those
   * chunk medians, the one of rank (right-left)/groupSize/2 + 1.
   */
  method MedianOfMedians(a: array<int>, left: nat, right: nat, groupSize: nat) returns (p: nat)
    requires left <= right < a.Length
    requires groupSize >= 2
    modifies a
    ensures left <= p <= right
    ensures PermutesWithin(old(a[..]), a[..], left, right)
    ensures right - left < groupSize ==>
      p == (left + right) / 2 && a[p] == Median(old(a[left..right + 1]))
    ensures groupSize <= right - left ==>
      && left < p <= left + (right - left) / groupSize
      && p == (right - left) / groupSize / 2 + left + 1
      && IsKthSmallest(ChunkMedians(old(a[..]), left, right, groupSize), p - left, a[p])
    decreases right - left, 0
  {
    if right - left < groupSize {
      p := MedianBySort(a, left, right);
      return;
    }
    ghost var orig := a[..];
    GatherMedians(a, left, right, groupSize);
    var m := (right - left) / groupSize;
    QuotientShrinks(right - left, groupSize);
    var mid := m / 2 + left + 1;
    ghost var medians := a[..];
    assert medians[left..left + m + 1] == ChunkMedians(orig, left, right, groupSize);
    p := QuickSelect(a, left, left + m, mid, groupSize);
    MedianOfMediansDone(orig, medians, a[..], left, right, groupSize, m, mid);
  }

  /**
   * Selecting among the gathered chunk medians picks the one of the
   * requested rank, and the whole call only rearranged [left, right].
   */
  lemma MedianOfMediansDone(orig: seq<int>, medians: seq<int>, s: seq<int>,
                            left: int, right: int, groupSize: nat, m: int, mid: int)
    requires 0 <= left <= right < |orig| && groupSize >= 1
    requires m == (right - left) / groupSize && left <= mid <= left + m <= right
    requires PermutesWithin(orig, medians, left, right)
    requires medians[left..left + m + 1] == ChunkMedians(orig, left, right, groupSize)
    requires PermutesWithin(medians, s, left, left + m)
    requires IsKthSmallest(medians[left..left + m + 1], mid - left, s[mid])
    ensures PermutesWithin(orig, s, left, right)
    ensures IsKthSmallest(ChunkMedians(orig, left, right, groupSize), mid - left, s[mid])
  {
    PermutesWithinWiden(medians, s, left, left + m, left, right);
  }

  /**
   * s0 restricted to [lo, hi] is bracketed inside [left, right]: what lies
   * in [left, lo) is at most everything in [lo, hi], and everything in
   * [lo, hi] is at most what lies in (hi, right].
   */
  ghost predicate Bracketed(s: seq<int>, left: int, lo: int, hi: int, right: int) {
    && 0 <= left <= lo <= hi <= right < |s|
    && (forall i, j :: left <= i < lo <= j <= hi ==> s[i] <= s[j])
    && (forall i, j :: lo <= i <= hi < j <= right ==> s[i] <= s[j])
  }

  /**
   * quick_select: narrows [lo, hi] around k until the pivot lands on k or
   * the range is a single element; returns k.
   */
  method QuickSelect(a: array<int>, left: nat, right: nat, k: nat, groupSize: nat) returns (r: nat)
    requires left <= k <= right < a.Length
    requires groupSize >= 2
    modifies a
    ensures r == k
    ensures PermutesWithin(old(a[..]), a[..], left, right)
    ensures PartitionedAt(a[..], left, k, right)
    ensures IsKthSmallest(old(a[left..right + 1]), k - left, a[k])
    decreases right - left, 1
  {
    ghost var orig := a[..];
    var lo, hi := left, right;
    while true
      invariant left <= lo <= k <= hi <= right
      invariant PermutesWithin(orig, a[..], left, right)
      invariant Bracketed(a[..], left, lo, hi, right)
      decreases hi - lo
    {
      if lo == hi {
        BracketedSettles(a[..], left, lo, lo, hi, right);
        SelectedIsOrderStatistic(orig, a[..], left, k, right);
        return lo;
      }
      ghost var before := a[..];
      var pivotIndex := MedianOfMedians(a, lo, hi, groupSize);
      ghost var pivoted := a[..];
      pivotIndex := Partition(a, lo, hi, pivotIndex);
      SelectRound(orig, before, pivoted, a[..], left, lo, pivotIndex, hi, right);
      if k == pivotIndex {
        SelectedIsOrderStatistic(orig, a[..], left, k, right);
        return k;
      } else if k < pivotIndex {
        hi := pivotIndex - 1;
      } else {
        lo := pivotIndex + 1;
      }
    }
  }

  /**
   * One round of quick_select: choosing the pivot and partitioning only
   * rearranged [lo, hi], so the array is still a rearrangement of the
   * original range, it is now partitioned at the pivot's index p, and the
   * side of p that the loop continues on is bracketed.
   */
  lemma SelectRound(orig: seq<int>, before: seq<int>, pivoted: seq<int>, after: seq<int>,
                    left: int, lo: int, p: int, hi: int, right: int)
    requires PermutesWithin(orig, before, left, right)
    requires Bracketed(before, left, lo, hi, right)
    requires PermutesWithin(before, pivoted, lo, hi)
    requires PermutesWithin(pivoted, after, lo, hi)
    requires SplitAt(after, lo, p, hi)
    ensures PermutesWithin(orig, after, left, right)
    ensures PartitionedAt(after, left, p, right)
    ensures lo < p ==> Bracketed(after, left, lo, p - 1, right)
    ensures p < hi ==> Bracketed(after, left, p + 1, hi, right)
  {
    PermutesWithinTransitive(before, pivoted, after, lo, hi);
    BracketedPermuted(before, after, left, lo, hi, right);
    PermutesWithinWiden(before, after, lo, hi, left, right);
    BracketedSettles(after, left, lo, p, hi, right);
  }

  /**
   * What the fuzz test of src/main.rs compares: the value left at k is the
   * one at index k - left of the original range once sorted.
   */
  lemma SelectedMatchesSort(orig: seq<int>, s: seq<int>, left: int, k: int, right: int)
    requires PermutesWithin(orig, s, left, right)
    requires PartitionedAt(s, left, k, right)
    ensures s[k] == Sort(orig[left..right + 1])[k - left]
  {
    SelectedIsOrderStatistic(orig, s, left, k, right);
    KthSmallestIffSortedAt(orig[left..right + 1], k - left, s[k]);
  }

  /** Rearranging [lo, hi] keeps it bracketed. */
  lemma BracketedPermuted(s0: seq<int>, s1: seq<int>, left: int, lo: int, hi: int, right: int)
    requires Bracketed(s0, left, lo, hi, right)
    requires PermutesWithin(s0, s1, lo, hi)
    ensures Bracketed(s1, left, lo, hi, right)
  {
    forall i, j | left <= i < lo <= j <= hi ensures s1[i] <= s1[j] {
      var j' := CameFromRange(s0, s1, lo, hi, j);
    }
    forall i, j | lo <= i <= hi < j <= right ensures s1[i] <= s1[j] {
      var i' := CameFromRange(s0, s1, lo, hi, i);
    }
  }

  /**
   * Once [lo, hi] is bracketed and split at p, the whole of [left, right]
   * is partitioned at p, and each side of p is still bracketed.
   */
  lemma BracketedSettles(s: seq<int>, left: int, lo: int, p: int, hi: int, right: int)
    requires Bracketed(s, left, lo, hi, right)
    requires SplitAt(s, lo, p, hi)
    ensures PartitionedAt(s, left, p, right)
    ensures lo < p ==> Bracketed(s, left, lo, p - 1, right)
    ensures p < hi ==> Bracketed(s, left, p + 1, hi, right)
  {
  }

  /**
   * A range that was only rearranged and is now partitioned at k holds at k
   * the (k-left)-th smallest value of the original range.
   */
  lemma SelectedIsOrderStatistic(orig: seq<int>, s: seq<int>, left: int, k: int, right: int)
    requires PermutesWithin(orig, s, left, right)
    requires PartitionedAt(s, left, k, right)
    ensures IsKthSmallest(orig[left..right + 1], k - left, s[k])
  {
    PartitionedIsKthSmallest(s, left, k, right);
    PermutesWithinRange(orig, s, left, right);
    KthSmallestPermutation(s[left..right + 1], orig[left..right + 1], k - left, s[k]);
  }
}
