# Quickselect with a median-of-medians pivot, in Dafny

This project models the selection core of `src/main.rs`. The core is an in-place
quickselect over one mutable slice of `u32`:

- `quick_select` narrows `[left, right]` around the wanted rank `k`;
- `median_of_medians` picks its pivot;
- `median_by_sort` sorts a small sub-range and returns its midpoint;
- `partition` is Lomuto's split.

`quick_select` and `median_of_medians` call each other. `median_of_medians`
gathers one median per chunk of `group_size` elements into a prefix of the
range. It then runs `quick_select` on that prefix.

The slice is an `array<int>`. Element values are unbounded integers, because
the core only compares them with `<`. Indices are `nat`, so every `- 1` in
the source is a proof obligation that it cannot underflow. Each function of
the core is a `method` with `modifies a`. Its loops carry invariants, and
the recursion between `QuickSelect` and `MedianOfMedians` has a shared
`decreases` measure: the length of the range, then which of the two is
running.

The modules are:

- `Order`: what "the j-th smallest value" of a sequence means. It has two
  definitions:
  - `IsKthSmallest` counts the elements below a value;
  - `Sort(s)[j]` indexes the ascending rearrangement.

  The reference `InsertionSort` computes that rearrangement, and
  `KthSmallestIffSortedAt` proves that the two definitions agree.
- `Permutation`: `PermutesWithin(s0, s1, lo, hi)` says that only `[lo, hi]`
  was rearranged. The multiset is unchanged and every position outside the
  range is untouched.
- `Arith`: facts about division by the group size that chunk indexing needs.
- `Selection`: the four operations, their loops, and the lemmas that close
  each step.

What is proved about `quick_select` is what the fuzz test in `src/main.rs`
checks. Given `left <= k <= right`, it:

- returns `k`;
- only rearranges `[left, right]`;
- leaves the array partitioned at `k`;
- leaves at `k` the `(k-left)`-th smallest value of the original range,
  which is the value at index `k - left` of that range once sorted.

## Model

| member | source | states |
|---|---|---|
| Selection.QuickSelect | src/main.rs:60-77 | For `left <= k <= right`, it returns exactly `k`. Only `[left, right]` is rearranged. The array ends up partitioned at `k`, and `a[k]` is the `(k-left)`-th smallest value of the original range. Termination is proved jointly with `MedianOfMedians` by the measure `right - left`. |
| Selection.SelectRound | src/main.rs:68-75 | One pass of the loop. Choosing a pivot and partitioning `[lo, hi]` keeps the array a rearrangement of `[left, right]`. It partitions the whole range at the pivot's index. Whichever side the loop continues on stays bracketed: nothing before it is larger, and nothing after it is smaller. |
| Selection.BracketedSettles | src/main.rs:71-75 | A bracketed sub-range that is split at `p` partitions the whole range at `p`. Either side of `p` is again bracketed, so `right = pivot_index - 1` and `left = pivot_index + 1` keep the loop invariant. |
| Selection.BracketedPermuted | src/main.rs:68-69 | Rearranging only the current sub-range keeps it bracketed inside the whole range. |
| Selection.SelectedIsOrderStatistic | src/main.rs:60-77 | A rearrangement of `[left, right]` that is partitioned at `k` holds the `(k-left)`-th smallest value of the original range at `k`. |
| Selection.SelectedMatchesSort | src/main.rs:146-155 | In the same situation, the value at `k` equals the value at index `k - left` of the sorted original range. This is the comparison the fuzz test makes. |
| Selection.MedianOfMedians | src/main.rs:80-102 | The result lies in `[left, right]`, and only `[left, right]` is rearranged. If `right - left < group_size`, the result is `(left+right)/2` and holds the lower median of the original range. Otherwise the result is `mid = (right-left)/group_size/2 + left + 1`, which lies inside the medians prefix. It holds the chunk median of rank `mid - left` among all the chunk medians of the original range. |
| Selection.MedianOfMediansDone | src/main.rs:94-101 | Selecting rank `mid - left` in the gathered prefix picks that rank among the chunk medians of the original range. A rearrangement of the prefix is a rearrangement of `[left, right]`. |
| Selection.ChunkMedians | src/main.rs:85-92 | There are exactly `(right-left)/group_size + 1` chunk medians, one per chunk. |
| Selection.ChunkMediansAt | src/main.rs:85-90 | Entry `x` of the chunk medians is the median of chunk `x`. That chunk starts at `left + x*group_size`, no later than `right`, and stops at `right` if it would pass it. |
| Selection.GatherMedians | src/main.rs:85-92 | The `step_by` loop only rearranges `[left, right]`. Afterwards `a[left..=left + (right-left)/group_size]` holds the chunk medians of the original range, in chunk order. |
| Selection.GatherChunk | src/main.rs:86-91 | One round sorts the chunk `[i, sub_right]` and swaps its midpoint into a slot at or before `i`. Only `[slot, sub_right]` changes, and the slot receives the chunk's median. |
| Selection.GatherStep | src/main.rs:85-92 | After round `c` the first `c + 1` slots hold the first `c + 1` chunk medians. Nothing from the next chunk onward has changed, and the array is still a rearrangement of `[left, right]`. |
| Selection.GatherStepMedians | src/main.rs:90-91 | The slot `left + c` that one round fills receives chunk `c`'s median. The earlier slots keep theirs, because the round only touches `[left + c, sub_right]`. |
| Selection.GatherDone | src/main.rs:85 | When `i` has passed `right`, exactly `(right-left)/group_size + 1` chunks were visited, and the prefix equals the chunk medians. |
| Arith.QuotientOf | src/main.rs:91 | At chunk number `c`, where `i = left + c*group_size`, the slot `left + (i - left)/group_size` is `left + c`. |
| Arith.QuotientShrinks | src/main.rs:98 | For `2 <= group_size <= right - left`, the prefix end `(right-left)/group_size` is at least 1 and below `right - left`. So `mid` fits and the recursive call works on a shorter range. |
| Selection.MedianBySort | src/main.rs:104-108 | It sorts `a[left..=right]` into the ascending rearrangement of what it held, and changes nothing else. It returns `(left+right)/2`, which lies in `[left, right]` and now holds the lower median of the original range. |
| Arith.MidpointOffset | src/main.rs:107 | The midpoint `(left+right)/2` lies `(right-left)/2` past `left`, which is the lower-median index of the sorted sub-range. |
| Order.MedianIsKthSmallest | src/main.rs:104-108 | The value at the sorted midpoint is the `((n-1)/2)`-th smallest of the `n` values. |
| Selection.SortRange | src/main.rs:105 | The in-place sort of `a[lo..=hi]` leaves exactly the reference sort `Sort` of the old contents there, and touches nothing outside the range. |
| Selection.SortedBetweenIsSort | src/main.rs:105 | A range that was only rearranged and is now ascending equals `Sort` of its old contents. |
| Order.InsertionSortIsSort | src/main.rs:105 | The reference insertion sort computes `Sort`, the unique ascending rearrangement. |
| Order.SortIsSortedPermutation | src/main.rs:105 | `Sort(s)` is ascending and has the same multiset as `s`. |
| Order.SortedUnique | src/main.rs:105 | Two ascending sequences with the same multiset are equal. |
| Selection.Partition | src/main.rs:111-125 | For `left <= pivot_index <= right`, it returns `store_index` in `[left, right]` holding the original pivot value. Everything in `[left, store_index)` is below that value and everything in `(store_index, right]` is at least it. Only `[left, right]` is rearranged. |
| Selection.LomutoScanStep | src/main.rs:116-121 | One scan step keeps the invariant. `[left, store)` is below the pivot, `[store, i)` is at least the pivot, and the pivot waits at `right`. This holds both when `list[i]` is swapped to `store` and when it is skipped. |
| Selection.LomutoScanDone | src/main.rs:122-124 | After the scan, swapping `right` with `store_index` puts the pivot value at `store_index` and splits the range there. |
| Selection.Swap | src/main.rs:113 | It exchanges `a[i]` and `a[j]`. |
| Permutation.SwappedPermutesWithin | src/main.rs:118 | A swap of two indices inside `[lo, hi]` only rearranges `[lo, hi]`. |
| Permutation.PermutesWithinRange | src/main.rs:60-102 | When only `[lo, hi]` was rearranged, the multiset of `list[lo..=hi]` is unchanged. |
| Permutation.CameFromRange | src/main.rs:60-102 | After a rearrangement of `[lo, hi]`, every value in the range was somewhere in the range before. |
| Order.KthSmallestIffSortedAt | src/main.rs:146-155 | The counting definition of the `j`-th smallest value and the sorted reference `Sort(s)[j]` agree, in both directions. |
| Order.KthSmallestUnique | src/main.rs:155 | Only one value can be the `j`-th smallest. |
| Order.PartitionedIsKthSmallest | src/main.rs:71-72 | A range split at `p` holds at `p` its `(p-left)`-th smallest value. |
| Order.KthSmallestPermutation | src/main.rs:60-77 | Being the `j`-th smallest depends only on the multiset of the range. |
| Order.CountBelowPermutation | src/main.rs:60-77 | The number of elements below a value depends only on the multiset. |

## Left out

- `main` and `elapsed_for_group_size` are not modelled. They do I/O, random array generation, wall-clock timing, floating point and file output, and have no functional contract.
- The fuzz test's randomness is left out. Its `unique()` deduplication is left out too: the order-statistic property matches the deduplicated reference only when all values are distinct.
- The standard library's slice `sort` is replaced by an in-place insertion sort. `Selection.SortRange` is proved to produce the ascending rearrangement, which is all `median_by_sort` relies on.
- Machine integers are not modelled. Values are unbounded integers and indices are unbounded naturals, so `u32` values, `usize` overflow of `i + group_size - 1` and `left + (right - left) / group_size` are left out. `pivot_index - 1` is still checked never to go below zero.
- Selection.QuickSelect: requires `left <= k <= right`, which every caller in the source establishes. With `k` outside the range the source would not return `k`.
- Selection.MedianOfMedians: requires `group_size >= 2`. With `group_size == 1` the recursive call covers the same range and never terminates, and with 0 `step_by` panics. The source only ever uses 5, 7, 9, 11 and 13.
- Selection.MedianOfMedians: the contract gives the pivot's rank among the chunk medians, not the 30–70 percentile guarantee within the whole range. The linear worst-case running time is also left out. Correctness needs neither; only termination is proved.
- Selection.MedianOfMedians: `mid` is the chunk median of rank `m/2 + 1` among the `m + 1` medians, where `m = (right-left)/group_size`. That is one past the median position `m/2`. It is modelled as written, since any index in the prefix keeps the selection correct.
- Selection.GatherMedians and Selection.GatherChunk: the body of the `step_by` loop is a separate method. The loop's invariant then only sees what one round changed.
