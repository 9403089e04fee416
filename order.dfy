/**
 * Order statistics over sequences of element values.
 *
 * The selection core only ever compares elements with `<`, so element values
 * are modelled as unbounded integers.  This module gives two independent
 * descriptions of "the j-th smallest value of s":
 *   - by counting: fewer than j+1 elements lie strictly below it and more
 *     than j lie at or below it (IsKthSmallest);
 *   - by a reference sort: the value at index j of Sort(s).
 * KthSmallestIffSortedAt shows that the two agree.
 */
module Order {

  /** Ascending order (duplicates allowed). */
  ghost predicate Sorted(s: seq<int>) {
    forall i, j :: 0 <= i < j < |s| ==> s[i] <= s[j]
  }

  /** Number of elements of s strictly below v. */
  function CountBelow(s: seq<int>, v: int): (n: nat)
    ensures n <= |s|
  {
    if s == [] then 0 else (if s[0] < v then 1 else 0) + CountBelow(s[1..], v)
  }

  /** v is the j-th smallest (0-based, duplicates counted) element of s. */
  ghost predicate IsKthSmallest(s: seq<int>, j: int, v: int) {
    0 <= j && CountBelow(s, v) <= j < CountBelow(s, v + 1)
  }

  /**
   * s is split at position p: nothing before p is above s[p] and nothing
   * after p is below it.
   */
  ghost predicate PartitionedAt(s: seq<int>, left: int, p: int, right: int) {
    && 0 <= left <= p <= right < |s|
    && (forall i :: left <= i < p ==> s[i] <= s[p])
    && (forall i :: p < i <= right ==> s[p] <= s[i])
  }

  /** Reference sort: insert x into an ascending sequence. */
  function Insert(x: int, s: seq<int>): (r: seq<int>)
    ensures |r| == |s| + 1
  {
    if s == [] then [x]
    else if x <= s[0] then [x] + s
    else [s[0]] + Insert(x, s[1..])
  }

  /** Reference sort: insertion sort as a function. */
  function InsertionSort(s: seq<int>): (r: seq<int>)
    ensures |r| == |s|
  {
    if s == [] then [] else Insert(s[0], InsertionSort(s[1..]))
  }

  /**
   * The ascending rearrangement of s.  InsertionSort shows that one exists,
   * and SortedUnique that there is only one.
   */
  ghost function Sort(s: seq<int>): (r: seq<int>)
    ensures |r| == |s|
  {
    InsertionSortIsSortedPermutation(s);
    var t :| Sorted(t) && multiset(t) == multiset(s);
    assert |t| == |multiset(t)| == |multiset(s)| == |s|;
    t
  }

  /**
   * The lower median: the value at index (|s|-1)/2 once s is in ascending
   * order, which is its ((|s|-1)/2)-th smallest element (MedianIsKthSmallest).
   */
  ghost function Median(s: seq<int>): int
    requires s != []
  {
    Sort(s)[(|s| - 1) / 2]
  }

  lemma {:induction false} InsertPermutation(x: int, s: seq<int>)
    ensures multiset(Insert(x, s)) == multiset(s) + multiset{x}
  {
    if s != [] && x > s[0] {
      InsertPermutation(x, s[1..]);
      assert Insert(x, s) == [s[0]] + Insert(x, s[1..]);
      assert s == [s[0]] + s[1..];
      assert multiset(s) == multiset{s[0]} + multiset(s[1..]);
    }
  }

  /** Putting a value no larger than the head in front keeps a sequence ascending. */
  lemma SortedCons(h: int, r: seq<int>)
    requires Sorted(r) && (r == [] || h <= r[0])
    ensures Sorted([h] + r)
  {
    var q := [h] + r;
    forall i, j | 0 <= i < j < |q| ensures q[i] <= q[j] {
      if i == 0 {
        assert q[j] == r[j - 1] && r[0] <= r[j - 1];
      } else {
        assert q[i] == r[i - 1] && q[j] == r[j - 1];
      }
    }
  }

  lemma {:induction false} InsertSorted(x: int, s: seq<int>)
    requires Sorted(s)
    ensures Sorted(Insert(x, s))
    ensures Insert(x, s)[0] == x || (s != [] && Insert(x, s)[0] == s[0])
  {
    if s == [] {
    } else if x <= s[0] {
      SortedCons(x, s);
    } else {
      var r := Insert(x, s[1..]);
      assert Sorted(s[1..]);
      InsertSorted(x, s[1..]);
      assert r[0] == x || r[0] == s[1];
      SortedCons(s[0], r);
    }
  }

  lemma {:induction false} InsertionSortIsSortedPermutation(s: seq<int>)
    ensures multiset(InsertionSort(s)) == multiset(s)
    ensures Sorted(InsertionSort(s))
  {
    if s != [] {
      InsertionSortIsSortedPermutation(s[1..]);
      InsertPermutation(s[0], InsertionSort(s[1..]));
      InsertSorted(s[0], InsertionSort(s[1..]));
      assert s == [s[0]] + s[1..];
    }
  }

  lemma SortIsSortedPermutation(s: seq<int>)
    ensures multiset(Sort(s)) == multiset(s)
    ensures Sorted(Sort(s))
  {
  }

  /** The reference insertion sort computes the ascending rearrangement. */
  lemma InsertionSortIsSort(s: seq<int>)
    ensures InsertionSort(s) == Sort(s)
  {
    InsertionSortIsSortedPermutation(s);
    SortIsSortedPermutation(s);
    SortedUnique(InsertionSort(s), Sort(s));
  }

  /** Two ascending sequences with the same elements are equal. */
  lemma {:induction false} SortedUnique(s: seq<int>, t: seq<int>)
    requires Sorted(s) && Sorted(t)
    requires multiset(s) == multiset(t)
    ensures s == t
  {
    if s == [] {
      assert |t| == |multiset(t)| == 0;
    } else {
      assert |t| == |multiset(t)| == |multiset(s)| == |s|;
      assert s[0] in multiset(t);
      assert t[0] in multiset(s);
      assert s[0] == t[0];
      assert s == [s[0]] + s[1..];
      assert t == [t[0]] + t[1..];
      assert multiset(s[1..]) == multiset(s) - multiset{s[0]};
      assert multiset(t[1..]) == multiset(t) - multiset{t[0]};
      SortedUnique(s[1..], t[1..]);
    }
  }

  lemma {:induction false} CountBelowAppend(s: seq<int>, t: seq<int>, v: int)
    ensures CountBelow(s + t, v) == CountBelow(s, v) + CountBelow(t, v)
  {
    if s == [] {
      assert s + t == t;
    } else {
      assert (s + t)[1..] == s[1..] + t;
      CountBelowAppend(s[1..], t, v);
    }
  }

  /** Taking out position i removes one copy of s[i], in count and in multiset. */
  lemma CountBelowRemove(s: seq<int>, i: int, v: int)
    requires 0 <= i < |s|
    ensures CountBelow(s, v) == CountBelow(s[..i] + s[i + 1..], v) + (if s[i] < v then 1 else 0)
    ensures multiset(s[..i] + s[i + 1..]) == multiset(s) - multiset{s[i]}
  {
    var front, back := s[..i], s[i + 1..];
    assert s == front + ([s[i]] + back);
    assert ([s[i]] + back)[1..] == back;
    CountBelowAppend(front, [s[i]] + back, v);
    CountBelowAppend(front, back, v);
    assert multiset(s) == multiset(front) + multiset{s[i]} + multiset(back);
  }

  /** The count depends only on the multiset of elements. */
  lemma {:induction false} CountBelowPermutation(s: seq<int>, t: seq<int>, v: int)
    requires multiset(s) == multiset(t)
    ensures CountBelow(s, v) == CountBelow(t, v)
    decreases |s|
  {
    if s == [] {
      assert |t| == |multiset(t)| == 0;
    } else {
      assert s[0] in multiset(t);
      var i :| 0 <= i < |t| && t[i] == s[0];
      var rest := t[..i] + t[i + 1..];
      CountBelowRemove(t, i, v);
      assert multiset(s[1..]) == multiset(rest) by {
        assert s == [s[0]] + s[1..];
      }
      CountBelowPermutation(s[1..], rest, v);
    }
  }

  lemma {:induction false} CountBelowAll(s: seq<int>, v: int)
    requires forall i :: 0 <= i < |s| ==> s[i] < v
    ensures CountBelow(s, v) == |s|
  {
    if s != [] {
      CountBelowAll(s[1..], v);
    }
  }

  lemma {:induction false} CountBelowNone(s: seq<int>, v: int)
    requires forall i :: 0 <= i < |s| ==> v <= s[i]
    ensures CountBelow(s, v) == 0
  {
    if s != [] {
      CountBelowNone(s[1..], v);
    }
  }

  /** Being the j-th smallest depends only on the multiset of elements. */
  lemma KthSmallestPermutation(s: seq<int>, t: seq<int>, j: int, v: int)
    requires multiset(s) == multiset(t)
    requires IsKthSmallest(s, j, v)
    ensures IsKthSmallest(t, j, v)
  {
    CountBelowPermutation(s, t, v);
    CountBelowPermutation(s, t, v + 1);
  }

  /**
   * A range split at p holds, at p, the (p-left)-th smallest value of the
   * range.
   */
  lemma PartitionedIsKthSmallest(s: seq<int>, left: int, p: int, right: int)
    requires PartitionedAt(s, left, p, right)
    ensures IsKthSmallest(s[left..right + 1], p - left, s[p])
  {
    var r := s[left..right + 1];
    var v := s[p];
    var before, after := s[left..p], s[p + 1..right + 1];
    assert r == before + [v] + after;
    CountBelowAppend(before + [v], after, v);
    CountBelowAppend(before, [v], v);
    CountBelowNone(after, v);
    CountBelowAppend(before + [v], after, v + 1);
    CountBelowAppend(before, [v], v + 1);
    CountBelowAll(before, v + 1);
  }

  /** In an ascending sequence the j-th smallest value sits at index j. */
  lemma SortedKthSmallest(t: seq<int>, j: int, v: int)
    requires Sorted(t)
    requires IsKthSmallest(t, j, v)
    ensures j < |t| && t[j] == v
  {
    if t[j] < v {
      assert t == t[..j + 1] + t[j + 1..];
      CountBelowAppend(t[..j + 1], t[j + 1..], v);
      CountBelowAll(t[..j + 1], v);
    } else if v < t[j] {
      assert t == t[..j] + t[j..];
      CountBelowAppend(t[..j], t[j..], v + 1);
      CountBelowNone(t[j..], v + 1);
    }
  }

  /**
   * The counting definition and the sorting definition of the j-th smallest
   * value agree, in both directions.
   */
  lemma KthSmallestIffSortedAt(s: seq<int>, j: int, v: int)
    ensures IsKthSmallest(s, j, v) <==> 0 <= j < |s| && v == Sort(s)[j]
  {
    SortIsSortedPermutation(s);
    var t := Sort(s);
    if IsKthSmallest(s, j, v) {
      KthSmallestPermutation(s, t, j, v);
      SortedKthSmallest(t, j, v);
    }
    if 0 <= j < |s| && v == t[j] {
      PartitionedIsKthSmallest(t, 0, j, |t| - 1);
      assert t[0..|t|] == t;
      KthSmallestPermutation(t, s, j, v);
    }
  }

  /** The j-th smallest value is unique. */
  lemma KthSmallestUnique(s: seq<int>, j: int, v: int, w: int)
    requires IsKthSmallest(s, j, v) && IsKthSmallest(s, j, w)
    ensures v == w
  {
    KthSmallestIffSortedAt(s, j, v);
    KthSmallestIffSortedAt(s, j, w);
  }

  /** The median is the ((|s|-1)/2)-th smallest element. */
  lemma MedianIsKthSmallest(s: seq<int>)
    requires s != []
    ensures IsKthSmallest(s, (|s| - 1) / 2, Median(s))
  {
    KthSmallestIffSortedAt(s, (|s| - 1) / 2, Median(s));
  }
}
