// The sorting engine: bubble, Lomuto quick, top-down merge and heap sort,
// each working in place on an array of integers and counting its steps in a
// shared counter. The printed step lines are kept as a ghost trace of events.
module Sorting {
  import opened SortSpec

  /** One counted step of a sort, in the order the sort performs it. */
  datatype SortEvent =
    | Swapped(index: int, larger: int, smaller: int)   // bubble sort exchanged cells index and index+1
    | Partitioned(low: int, high: int, pivotIndex: int)
    | MergedRuns(left: int, mid: int, right: int)
    | HeapBuilt
    | MovedMax(position: int)
    | Reheaped(size: int)

  /** `before` is the start of `after`: a trace only ever grows. */
  ghost predicate IsPrefix(before: seq<SortEvent>, after: seq<SortEvent>)
  {
    before <= after
  }

  lemma PrefixTransitive(t0: seq<SortEvent>, t1: seq<SortEvent>, t2: seq<SortEvent>)
    requires IsPrefix(t0, t1) && IsPrefix(t1, t2)
    ensures IsPrefix(t0, t2)
  {
    assert t2[..|t0|] == t2[..|t1|][..|t0|];
  }

  /** Every event of t from index `from` on is a partition of a sub-range of
      low..high. */
  ghost predicate PartitionsWithin(t: seq<SortEvent>, from: int, low: int, high: int)
  {
    forall k :: 0 <= from <= k < |t| ==>
      t[k].Partitioned? && low <= t[k].low <= t[k].pivotIndex <= t[k].high <= high
  }

  /** Every event of t from index `from` on is a swap of an out-of-order pair. */
  ghost predicate SwapsOnly(t: seq<SortEvent>, from: int)
  {
    forall k :: 0 <= from <= k < |t| ==> t[k].Swapped? && t[k].larger > t[k].smaller
  }

  /** A prefix that is out of order stays out of order when it is extended. */
  lemma UnsortedPrefixGrows(s: seq<int>, m: int, m2: int)
    requires 0 <= m <= m2 <= |s|
    requires !Sorted(s[..m])
    ensures !Sorted(s[..m2])
  {
    var i, j :| 0 <= i < j < m && s[..m][i] > s[..m][j];
    assert s[..m2][i] > s[..m2][j];
  }

  /** Between two bubble passes: the cells are a permutation of `a0`, the
      cells from `sorted` on are in final place, and the trace has grown from
      `t0` by swaps only. */
  ghost predicate BubbleState(a0: seq<int>, t0: seq<SortEvent>, s: seq<int>, t: seq<SortEvent>, sorted: int)
  {
    && IsPrefix(t0, t) && SwapsOnly(t, |t0|)
    && multiset(s) == multiset(a0) && SortedFrom(s, sorted)
  }

  /** One more pass keeps the state, and a pass without a swap leaves the
      whole array sorted. */
  lemma BubbleRound(a0: seq<int>, tStart: seq<SortEvent>, s: seq<int>, t: seq<SortEvent>,
                    s': seq<int>, t': seq<SortEvent>, limit: int, swapped: bool)
    requires 0 <= limit < |s|
    requires BubbleState(a0, tStart, s, t, limit + 1)
    requires IsPrefix(t, t') && SwapsOnly(t', |t|)
    requires multiset(s') == multiset(s) && SortedFrom(s', limit)
    requires swapped == !Sorted(s[..limit + 1])
    requires !swapped ==> s' == s
    ensures BubbleState(a0, tStart, s', t', limit)
    ensures !swapped ==> Sorted(s')
  {
    SwapsOnlyJoin(tStart, t, t');
    if !swapped {
      SortedPrefixAndTail(s, limit + 1);
    }
  }

  /** Part way through a bubble pass over cells 0..limit: the largest of
      cells 0..j is at j, the cells after `limit` stay in final place, the
      flag says whether cells 0..j of the original `a0` were out of order (and
      nothing has moved while it is clear), and every step so far is a swap. */
  ghost predicate PassState(a0: seq<int>, t0: seq<SortEvent>, s: seq<int>, t: seq<SortEvent>,
                            j: int, limit: int, swapped: bool)
  {
    && j + 1 <= |a0| == |s|
    && LargestAt(s, j) && SortedFrom(s, limit + 1)
    && swapped == !Sorted(a0[..j + 1]) && (!swapped ==> s == a0)
    && IsPrefix(t0, t) && SwapsOnly(t, |t0|) && multiset(s) == multiset(a0)
  }

  /** Comparing cells j and j+1 and swapping them as they are out of order. */
  lemma PassSwaps(a0: seq<int>, t0: seq<SortEvent>, s: seq<int>, t: seq<SortEvent>,
                  s': seq<int>, t': seq<SortEvent>, j: int, limit: int, was: bool)
    requires 0 <= j < limit < |s|
    requires PassState(a0, t0, s, t, j, limit, was) && s[j] > s[j + 1]
    requires |s'| == |s| && s'[j] == s[j + 1] && s'[j + 1] == s[j]
    requires forall k :: 0 <= k < |s'| && k != j && k != j + 1 ==> s'[k] == s[k]
    requires multiset(s') == multiset(s)
    requires t' == t + [Swapped(j, s'[j + 1], s'[j])]
    ensures PassState(a0, t0, s', t', j + 1, limit, true)
  {
    SortingAlgorithms.BubbleSwapStep(s, s', j, limit);
    assert t'[..|t|] == t;
    SwapsOnlyAppend(t0, t, t');
    SortingAlgorithms.SwapFlagStep(a0, s, j, was, true);
  }

  /** Comparing cells j and j+1 and keeping them as they are in order. */
  lemma PassKeeps(a0: seq<int>, t0: seq<SortEvent>, s: seq<int>, t: seq<SortEvent>,
                  j: int, limit: int, was: bool)
    requires 0 <= j < limit < |s|
    requires PassState(a0, t0, s, t, j, limit, was) && s[j] <= s[j + 1]
    ensures PassState(a0, t0, s, t, j + 1, limit, was)
  {
    SortingAlgorithms.BubbleKeepStep(s, j);
    SortingAlgorithms.SwapFlagStep(a0, s, j, was, was);
  }

  /** At the end of a pass the largest of cells 0..limit is at limit, so the
      cells from limit on are in final place. */
  lemma PassEnds(s: seq<int>, limit: int)
    requires LargestAt(s, limit) && SortedFrom(s, limit + 1)
    ensures SortedFrom(s, limit)
  {
  }

  /** `a` is `a0` with cells left..k-1 overwritten by the start of `m`. */
  ghost predicate WrittenFrom(a: seq<int>, a0: seq<int>, left: int, k: int, m: seq<int>)
  {
    && |a| == |a0| && 0 <= left <= k <= |a| && k - left <= |m|
    && (forall t :: left <= t < k ==> a[t] == m[t - left])
    && (forall t :: 0 <= t < |a| && !(left <= t < k) ==> a[t] == a0[t])
  }

  /** Part way through the merge's first loop: i cells of `l` and j of `r`
      are used, the rest of the merge `m` is the merge of what is left, and
      its first i+j cells are written from `left` on. */
  ghost predicate MergeProgress(l: seq<int>, r: seq<int>, a: seq<int>, a0: seq<int>, left: int,
                                i: int, j: int, m: seq<int>)
  {
    && 0 <= i <= |l| && 0 <= j <= |r| && |m| == |l| + |r|
    && MergedFrom(l, r, i, j) == m[i + j..]
    && WrittenFrom(a, a0, left, left + i + j, m)
  }

  /** One step of the merge's first loop: the smaller head, the left one on
      a tie, is written at the next cell. */
  lemma MergeStep(l: seq<int>, r: seq<int>, s: seq<int>, s': seq<int>, a0: seq<int>, left: int,
                  i: int, j: int, m: seq<int>)
    requires MergeProgress(l, r, s, a0, left, i, j, m)
    requires i < |l| && j < |r| && left + i + j < |s|
    requires s' == s[left + i + j := if l[i] <= r[j] then l[i] else r[j]]
    ensures l[i] <= r[j] ==> MergeProgress(l, r, s', a0, left, i + 1, j, m)
    ensures r[j] < l[i] ==> MergeProgress(l, r, s', a0, left, i, j + 1, m)
  {
    if l[i] <= r[j] {
      MergeTakeLeft(l, r, s, s', a0, left, i, j, m);
    } else {
      MergeTakeRight(l, r, s, s', a0, left, i, j, m);
    }
  }

  /** The merge writes the head of `l` when it is not larger. */
  lemma MergeTakeLeft(l: seq<int>, r: seq<int>, s: seq<int>, s': seq<int>, a0: seq<int>, left: int,
                      i: int, j: int, m: seq<int>)
    requires MergeProgress(l, r, s, a0, left, i, j, m)
    requires i < |l| && (j == |r| || l[i] <= r[j]) && left + i + j < |s|
    requires s' == s[left + i + j := l[i]]
    ensures MergeProgress(l, r, s', a0, left, i + 1, j, m)
  {
    MergedTakesLeft(l, r, i, j, m);
    WrittenStep(s, s', a0, left, left + i + j, m);
  }

  /** The merge writes the head of `r` when it is smaller. */
  lemma MergeTakeRight(l: seq<int>, r: seq<int>, s: seq<int>, s': seq<int>, a0: seq<int>, left: int,
                       i: int, j: int, m: seq<int>)
    requires MergeProgress(l, r, s, a0, left, i, j, m)
    requires j < |r| && (i == |l| || r[j] < l[i]) && left + i + j < |s|
    requires s' == s[left + i + j := r[j]]
    ensures MergeProgress(l, r, s', a0, left, i, j + 1, m)
  {
    MergedTakesRight(l, r, i, j, m);
    WrittenStep(s, s', a0, left, left + i + j, m);
  }

  /** Writing the next cell of the merge extends the written stretch. */
  lemma WrittenStep(s: seq<int>, s': seq<int>, a0: seq<int>, left: int, k: int, m: seq<int>)
    requires WrittenFrom(s, a0, left, k, m) && k < |s| && k - left < |m|
    requires s' == s[k := m[k - left]]
    ensures WrittenFrom(s', a0, left, k + 1, m)
  {
  }

  /** Two stretches of swaps, one after the other, are one stretch of swaps. */
  lemma SwapsOnlyJoin(t0: seq<SortEvent>, t1: seq<SortEvent>, t2: seq<SortEvent>)
    requires IsPrefix(t0, t1) && IsPrefix(t1, t2)
    requires SwapsOnly(t1, |t0|) && SwapsOnly(t2, |t1|)
    ensures IsPrefix(t0, t2) && SwapsOnly(t2, |t0|)
  {
    forall k | |t0| <= k < |t1|
      ensures t2[k].Swapped? && t2[k].larger > t2[k].smaller
    {
      assert t2[k] == t1[k];
    }
  }

  /** Appending a swap of an out-of-order pair keeps a stretch of swaps. */
  lemma SwapsOnlyAppend(t0: seq<SortEvent>, t1: seq<SortEvent>, t2: seq<SortEvent>)
    requires IsPrefix(t0, t1) && SwapsOnly(t1, |t0|)
    requires |t2| == |t1| + 1 && t2[..|t1|] == t1
    requires t2[|t1|].Swapped? && t2[|t1|].larger > t2[|t1|].smaller
    ensures IsPrefix(t0, t2) && SwapsOnly(t2, |t0|)
  {
    forall k | |t0| <= k < |t1|
      ensures t2[k] == t1[k]
    {
      assert t2[..|t1|][k] == t2[k];
    }
  }

  /** The sorting algorithms with their shared step counter. */
  class SortingAlgorithms {
    /** Number of counted steps since the last reset. */
    var stepCount: int
    /** The counted steps themselves (what the step lines print). */
    ghost var trace: seq<SortEvent>

    ghost predicate Valid()
      reads this
    {
      stepCount == |trace|
    }

    /** The counter starts at zero. */
    constructor ()
      ensures Valid() && stepCount == 0 && trace == []
    {
      stepCount := 0;
      trace := [];
    }

    method ResetStepCount()
      modifies this
      ensures Valid() && stepCount == 0 && trace == []
    {
      stepCount := 0;
      trace := [];
    }

    method IncrementStep(ghost e: SortEvent)
      requires Valid()
      modifies this
      ensures Valid() && stepCount == old(stepCount) + 1 && trace == old(trace) + [e]
    {
      stepCount := stepCount + 1;
      trace := trace + [e];
    }

    /** Exchanges two cells (std::swap); i and j may coincide. */
    static method Swap(arr: array<int>, i: int, j: int)
      requires 0 <= i < arr.Length && 0 <= j < arr.Length
      modifies arr
      ensures arr[i] == old(arr[j]) && arr[j] == old(arr[i])
      ensures forall k :: 0 <= k < arr.Length && k != i && k != j ==> arr[k] == old(arr[k])
      ensures multiset(arr[..]) == multiset(old(arr[..]))
    {
      arr[i], arr[j] := arr[j], arr[i];
    }

    // ------------------------------------------------------------ bubble sort

    /** Sort by a full bubble sort with the step counter reset first. */
    method BubbleSort(arr: array<int>)
      modifies this, arr
      ensures Valid()
      ensures Sorted(arr[..]) && multiset(arr[..]) == multiset(old(arr[..]))
      ensures Sorted(old(arr[..])) ==> stepCount == 0
    {
      ResetStepCount();
      ghost var passes := BubbleSortVisualized(arr);
    }

    /** Bubble passes over a shrinking prefix, stopping after a pass without
        a swap. `passes` counts the passes made. */
    method BubbleSortVisualized(arr: array<int>) returns (ghost passes: nat)
      requires Valid()
      modifies this, arr
      ensures Valid() && IsPrefix(old(trace), trace)
      ensures Sorted(arr[..])
      ensures multiset(arr[..]) == multiset(old(arr[..]))
      ensures SwapsOnly(trace, |old(trace)|)
      ensures passes <= if arr.Length < 2 then 0 else arr.Length - 1
      ensures Sorted(old(arr[..])) ==>
                stepCount == old(stepCount) && passes == (if arr.Length < 2 then 0 else 1)
    {
      var n := arr.Length;
      passes := 0;
      ghost var a0 := arr[..];
      ghost var wasSorted := Sorted(a0);
      var i := 0;
      while i < n - 1
        invariant 0 <= i <= if n == 0 then 0 else n - 1
        invariant passes == i
        invariant Valid() && BubbleState(a0, old(trace), arr[..], trace, n - i)
        invariant wasSorted ==> i == 0 && arr[..] == a0 && stepCount == old(stepCount)
      {
        ghost var s0, t0 := arr[..], trace;
        if wasSorted {
          SortedPrefix(a0, n - i);
        }
        var swapped := BubblePass(arr, n - i - 1);
        BubbleRound(a0, old(trace), s0, t0, arr[..], trace, n - i - 1, swapped);
        passes := passes + 1;
        if !swapped {
          break;
        }
        i := i + 1;
      }
    }

    /** One pass of bubble sort over arr[0..limit]: compares each cell with the
        next and swaps them when the first is strictly larger, counting each
        swap. The largest cell of the range ends at `limit`; a swap happens
        exactly when the range was not sorted. */
    method BubblePass(arr: array<int>, limit: int) returns (swapped: bool)
      requires Valid()
      requires 0 <= limit < arr.Length
      requires SortedFrom(arr[..], limit + 1)
      modifies this, arr
      ensures Valid() && IsPrefix(old(trace), trace)
      ensures SwapsOnly(trace, |old(trace)|)
      ensures multiset(arr[..]) == multiset(old(arr[..]))
      ensures SortedFrom(arr[..], limit)
      ensures swapped == !Sorted(old(arr[..limit + 1]))
      ensures !swapped ==> arr[..] == old(arr[..]) && stepCount == old(stepCount)
    {
      swapped := false;
      ghost var a0 := arr[..];
      var j := 0;
      while j < limit
        invariant 0 <= j <= limit
        invariant Valid() && PassState(a0, old(trace), arr[..], trace, j, limit, swapped)
        invariant !swapped ==> stepCount == old(stepCount)
      {
        ghost var s, t, was := arr[..], trace, swapped;
        if arr[j] > arr[j + 1] {
          Swap(arr, j, j + 1);
          IncrementStep(Swapped(j, arr[j + 1], arr[j]));
          swapped := true;
          PassSwaps(a0, old(trace), s, t, arr[..], trace, j, limit, was);
        } else {
          PassKeeps(a0, old(trace), s, t, j, limit, was);
        }
        j := j + 1;
      }
      PassEnds(arr[..], limit);
    }

    /** The pass's flag after comparing cells j and j+1: set exactly when
        the cells 0..j+1 of the original array were out of order. */
    static lemma SwapFlagStep(a0: seq<int>, s: seq<int>, j: int, was: bool, now: bool)
      requires 0 <= j && j + 1 < |a0| == |s|
      requires was == !Sorted(a0[..j + 1])
      requires !was ==> s == a0
      requires now == (was || s[j] > s[j + 1])
      ensures now == !Sorted(a0[..j + 2])
    {
      if was {
        UnsortedPrefixGrows(a0, j + 1, j + 2);
      } else if s[j] > s[j + 1] {
        assert a0[..j + 2][j] > a0[..j + 2][j + 1];
      } else {
        var p, q := a0[..j + 1], a0[..j + 2];
        forall i, k | 0 <= i < k < j + 2
          ensures q[i] <= q[k]
        {
          if k == j + 1 && i < j {
            assert p[i] <= p[j];
          } else if k < j + 1 {
            assert p[i] <= p[k];
          }
        }
      }
    }

    /** One comparison of a pass that swaps: afterwards cell j+1 holds the
        largest of cells 0..j+1, and the cells after `limit` are untouched. */
    static lemma BubbleSwapStep(s: seq<int>, t: seq<int>, j: int, limit: int)
      requires 0 <= j < limit < |s| == |t|
      requires LargestAt(s, j) && SortedFrom(s, limit + 1) && s[j] > s[j + 1]
      requires t[j] == s[j + 1] && t[j + 1] == s[j]
      requires forall k :: 0 <= k < |t| && k != j && k != j + 1 ==> t[k] == s[k]
      ensures LargestAt(t, j + 1)
      ensures SortedFrom(t, limit + 1)
    {
    }

    /** One comparison of a pass that keeps the pair: cell j+1 already holds
        the largest of cells 0..j+1. */
    static lemma BubbleKeepStep(s: seq<int>, j: int)
      requires 0 <= j && j + 1 < |s|
      requires LargestAt(s, j) && s[j] <= s[j + 1]
      ensures LargestAt(s, j + 1)
    {
    }

    // ------------------------------------------------------------- quick sort

    /** Sort by quick sort over the whole array with the step counter reset
        first; an empty array gives an empty range (high is -1). */
    method QuickSort(arr: array<int>)
      modifies this, arr
      ensures Valid()
      ensures Sorted(arr[..]) && multiset(arr[..]) == multiset(old(arr[..]))
      ensures stepCount <= if arr.Length < 2 then 0 else arr.Length - 1
    {
      ResetStepCount();
      QuickSortVisualized(arr, 0, arr.Length - 1);
      SortsWhole(old(arr[..]), arr[..]);
    }

    /** Sorts arr[low..high] (both ends included) by recursive Lomuto
        partitioning; does nothing when low >= high. Counts one step per
        partition, at most high - low of them. */
    method QuickSortVisualized(arr: array<int>, low: int, high: int)
      requires Valid()
      requires low < high ==> 0 <= low && high < arr.Length
      modifies this, arr
      ensures Valid() && IsPrefix(old(trace), trace)
      ensures PartitionsWithin(trace, |old(trace)|, low, high)
      ensures stepCount - old(stepCount) <= if low < high then high - low else 0
      ensures SortsRange(old(arr[..]), arr[..], low, high)
      decreases high - low
    {
      if low < high {
        var p := Partition(arr, low, high);
        ghost var a0, t0 := arr[..], trace;
        IncrementStep(Partitioned(low, high, p));
        ghost var t1 := trace;
        assert arr[..] == a0;
        QuickSortVisualized(arr, low, p - 1);
        ghost var a1, t2 := arr[..], trace;
        QuickSortVisualized(arr, p + 1, high);
        QuickSortCombine(old(arr[..]), a0, a1, arr[..], low, p, high);
        QuickSortTrace(t0, t1, t2, trace, low, p, high);
      }
    }

    /** The events of one quick sort call: its own partition, then those of
        the two recursive calls, all within low..high. */
    static lemma QuickSortTrace(t0: seq<SortEvent>, t1: seq<SortEvent>, t2: seq<SortEvent>, t3: seq<SortEvent>,
                                low: int, p: int, high: int)
      requires low <= p <= high
      requires t1 == t0 + [Partitioned(low, high, p)]
      requires IsPrefix(t1, t2) && PartitionsWithin(t2, |t1|, low, p - 1)
      requires IsPrefix(t2, t3) && PartitionsWithin(t3, |t2|, p + 1, high)
      ensures IsPrefix(t0, t3) && PartitionsWithin(t3, |t0|, low, high)
    {
      assert IsPrefix(t0, t1) by { assert t1[..|t0|] == t0; }
      PrefixTransitive(t0, t1, t2);
      PrefixTransitive(t0, t2, t3);
      PrefixTransitive(t1, t2, t3);
      forall k | |t0| <= k < |t3|
        ensures t3[k].Partitioned? && low <= t3[k].low <= t3[k].pivotIndex <= t3[k].high <= high
      {
        if k < |t1| {
          assert t3[k] == t3[..|t1|][k] == t1[k];
        } else if k < |t2| {
          assert t3[k] == t3[..|t2|][k] == t2[k];
        }
      }
    }

    /** The bookkeeping of one quick sort call: partitioned around p, then the
        two sides sorted in place, gives a sorted permutation of the range. */
    static lemma QuickSortCombine(a: seq<int>, a0: seq<int>, a1: seq<int>, a2: seq<int>, low: int, p: int, high: int)
      requires PartitionedAround(a, a0, low, p, high) && |a1| == |a2| == |a|
      requires SortsRange(a0, a1, low, p - 1)
      requires SortsRange(a1, a2, p + 1, high)
      ensures RangeSortedIn(a, a2, low, high)
    {
      SortsRangeSlices(a0, a1, low, p - 1);
      SortsRangeSlices(a1, a2, p + 1, high);
      QuickSortFrame(a, a0, a1, a2, low, p, high);
      QuickSortRuns(a0, a2, low, p, high);
    }

    /** Both sides of the pivot sorted in place, the pivot between them: the
        range is a sorted permutation of the partitioned one. */
    static lemma QuickSortRuns(a0: seq<int>, a2: seq<int>, low: int, p: int, high: int)
      requires 0 <= low <= p <= high < |a0| == |a2|
      requires AllBelow(a0[low..p], a0[p]) && AllAtLeast(a0[p + 1..high + 1], a0[p])
      requires a2[p] == a0[p]
      requires Sorted(a2[low..p]) && multiset(a2[low..p]) == multiset(a0[low..p])
      requires Sorted(a2[p + 1..high + 1]) && multiset(a2[p + 1..high + 1]) == multiset(a0[p + 1..high + 1])
      ensures Sorted(a2[low..high + 1]) && multiset(a2[low..high + 1]) == multiset(a0[low..high + 1])
    {
      SliceAround(a2, low, p, high + 1);
      SliceAround(a0, low, p, high + 1);
      PartitionedRunsSorted(a2[low..p], a0[p], a2[p + 1..high + 1], a0[low..p], a0[p + 1..high + 1],
                            a2[low..high + 1], a0[low..high + 1]);
    }

    /** How the cells around each side carry over through the two recursive
        calls of one quick sort call. */
    static lemma QuickSortFrame(a: seq<int>, a0: seq<int>, a1: seq<int>, a2: seq<int>, low: int, p: int, high: int)
      requires 0 <= low <= p <= high < |a| == |a0| == |a1| == |a2|
      requires a0[..low] == a[..low] && a0[high + 1..] == a[high + 1..]
      requires a1[..low] == a0[..low] && a1[p..] == a0[p..]
      requires a2[..p + 1] == a1[..p + 1] && a2[high + 1..] == a1[high + 1..]
      ensures a2[..low] == a[..low] && a2[high + 1..] == a[high + 1..]
      ensures a2[low..p] == a1[low..p] && a2[p] == a0[p] && a1[p + 1..high + 1] == a0[p + 1..high + 1]
    {
      assert a2[..low] == a2[..p + 1][..low];
      assert a1[..low] == a1[..p + 1][..low];
      assert a2[low..p] == a2[..p + 1][low..p];
      assert a1[low..p] == a1[..p + 1][low..p];
      assert a2[p] == a2[..p + 1][p] == a1[..p + 1][p] == a1[p..][0] == a0[p..][0];
      assert a1[high + 1..] == a1[p..][high + 1 - p..];
      assert a0[high + 1..] == a0[p..][high + 1 - p..];
      SliceOfSuffix(a1, p, 1, high + 1 - p);
      SliceOfSuffix(a0, p, 1, high + 1 - p);
    }

    /** A sorted permutation of the cells below the pivot, the pivot, and a
        sorted permutation of the cells not below it make a sorted
        permutation of the partitioned range. */
    static lemma PartitionedRunsSorted(l: seq<int>, pivot: int, r: seq<int>, l0: seq<int>, r0: seq<int>,
                                       w: seq<int>, w0: seq<int>)
      requires Sorted(l) && Sorted(r)
      requires multiset(l) == multiset(l0) && multiset(r) == multiset(r0)
      requires AllBelow(l0, pivot) && AllAtLeast(r0, pivot)
      requires w == l + [pivot] + r && w0 == l0 + [pivot] + r0
      ensures Sorted(w) && multiset(w) == multiset(w0)
    {
      PermutationKeepsBounds(l0, l, pivot);
      PermutationKeepsBounds(r0, r, pivot);
      SortedAroundPivot(l, pivot, r);
    }

    /** Lomuto partition of arr[low..high] around the pivot arr[high]: returns
        the pivot's final index p; cells before p are below the pivot, cells
        after it up to high are at least the pivot. */
    static method Partition(arr: array<int>, low: int, high: int) returns (p: int)
      requires 0 <= low <= high < arr.Length
      modifies arr
      ensures PartitionedAround(old(arr[..]), arr[..], low, p, high)
      ensures arr[p] == old(arr[high])
    {
      var pivot := arr[high];
      var i := low - 1;
      for j := low to high
        invariant low - 1 <= i < j
        invariant forall k :: low <= k <= i ==> arr[k] < pivot
        invariant forall k :: i < k < j ==> arr[k] >= pivot
        invariant arr[high] == pivot
        invariant multiset(arr[..]) == multiset(old(arr[..]))
        invariant arr[..low] == old(arr[..low]) && arr[high + 1..] == old(arr[high + 1..])
      {
        if arr[j] < pivot {
          i := i + 1;
          Swap(arr, i, j);
        }
      }
      ghost var a1 := arr[..];
      Swap(arr, i + 1, high);
      p := i + 1;
      PivotPlaced(old(arr[..]), a1, arr[..], low, p, high);
    }

    /** The last swap of the partition: moving the pivot from high to p,
        between the cells below it and the cells not below it. */
    static lemma PivotPlaced(a0: seq<int>, a1: seq<int>, a2: seq<int>, low: int, p: int, high: int)
      requires 0 <= low <= p <= high < |a0| == |a1| == |a2|
      requires forall k :: low <= k < p ==> a1[k] < a1[high]
      requires forall k :: p <= k < high ==> a1[k] >= a1[high]
      requires multiset(a1) == multiset(a0)
      requires a1[..low] == a0[..low] && a1[high + 1..] == a0[high + 1..]
      requires a2[p] == a1[high] && a2[high] == a1[p]
      requires forall k :: 0 <= k < |a2| && k != p && k != high ==> a2[k] == a1[k]
      requires multiset(a2) == multiset(a1)
      ensures PartitionedAround(a0, a2, low, p, high)
    {
      assert a2[..low] == a1[..low];
      assert a2[high + 1..] == a1[high + 1..];
      RangeMultiset(a2, a0, low, high + 1);
    }

    // ------------------------------------------------------------- merge sort

    /** Sort by merge sort over the whole array with the step counter reset
        first; n cells take n - 1 merges. */
    method MergeSort(arr: array<int>)
      modifies this, arr
      ensures Valid()
      ensures Sorted(arr[..]) && multiset(arr[..]) == multiset(old(arr[..]))
      ensures stepCount == if arr.Length < 2 then 0 else arr.Length - 1
    {
      ResetStepCount();
      MergeSortVisualized(arr, 0, arr.Length - 1);
      SortsWhole(old(arr[..]), arr[..]);
    }

    /** Sorts arr[left..right] (both ends included) by splitting at
        left + (right - left) / 2, sorting both halves and merging them;
        counts one step per merge, right - left in all. */
    method MergeSortVisualized(arr: array<int>, left: int, right: int)
      requires Valid()
      requires left < right ==> 0 <= left && right < arr.Length
      modifies this, arr
      ensures Valid() && IsPrefix(old(trace), trace)
      ensures stepCount == old(stepCount) + (if left < right then right - left else 0)
      ensures SortsRange(old(arr[..]), arr[..], left, right)
      decreases right - left
    {
      if left < right {
        var mid := left + (right - left) / 2;
        assert left <= mid < right;
        ghost var t0, c0 := trace, stepCount;
        MergeSortVisualized(arr, left, mid);
        assert stepCount == c0 + (mid - left);
        ghost var a1, t1 := arr[..], trace;
        MergeSortVisualized(arr, mid + 1, right);
        assert stepCount == c0 + (right - left - 1);
        ghost var a2, t2 := arr[..], trace;
        Merge(arr, left, mid, right);
        ghost var a3 := arr[..];
        IncrementStep(MergedRuns(left, mid, right));
        SortsRangeSlices(old(arr[..]), a1, left, mid);
        SortsRangeSlices(a1, a2, mid + 1, right);
        MergeSortCombine(old(arr[..]), a1, a2, a3, left, mid, right);
        PrefixTransitive(t0, t1, t2);
        assert IsPrefix(t2, trace) by { assert trace[..|t2|] == t2; }
        PrefixTransitive(t0, t2, trace);
      }
    }

    /** The bookkeeping of one merge sort call: both halves sorted in place and
        then merged gives a sorted permutation of the range. */
    static lemma MergeSortCombine(a: seq<int>, a1: seq<int>, a2: seq<int>, a3: seq<int>, left: int, mid: int, right: int)
      requires 0 <= left <= mid < right < |a| == |a1| == |a2| == |a3|
      requires RangeSortedIn(a, a1, left, mid)
      requires RangeSortedIn(a1, a2, mid + 1, right)
      requires a3[..left] == a2[..left] && a3[right + 1..] == a2[right + 1..]
      requires a3[left..right + 1] == Merged(a2[left..mid + 1], a2[mid + 1..right + 1])
      ensures RangeSortedIn(a, a3, left, right)
    {
      MergeSortFrame(a, a1, a2, a3, left, mid, right);
      MergedRunsSorted(a2[left..mid + 1], a2[mid + 1..right + 1], a[left..mid + 1], a[mid + 1..right + 1]);
      assert a[left..right + 1] == a[left..mid + 1] + a[mid + 1..right + 1];
    }

    /** How the cells around each sorted or merged range carry over from one
        step of merge sort to the next. */
    static lemma MergeSortFrame(a: seq<int>, a1: seq<int>, a2: seq<int>, a3: seq<int>, left: int, mid: int, right: int)
      requires 0 <= left <= mid < right < |a| == |a1| == |a2| == |a3|
      requires a1[..left] == a[..left] && a1[mid + 1..] == a[mid + 1..]
      requires a2[..mid + 1] == a1[..mid + 1] && a2[right + 1..] == a1[right + 1..]
      requires a3[..left] == a2[..left] && a3[right + 1..] == a2[right + 1..]
      ensures a3[..left] == a[..left] && a3[right + 1..] == a[right + 1..]
      ensures a2[left..mid + 1] == a1[left..mid + 1] && a1[mid + 1..right + 1] == a[mid + 1..right + 1]
    {
      assert a2[..left] == a2[..mid + 1][..left];
      assert a1[..left] == a1[..mid + 1][..left];
      assert a1[right + 1..] == a1[mid + 1..][right - mid..];
      assert a[right + 1..] == a[mid + 1..][right - mid..];
      assert a1[mid + 1..right + 1] == a1[mid + 1..][..right - mid];
      assert a[mid + 1..right + 1] == a[mid + 1..][..right - mid];
    }

    /** Merging two sorted runs holding the elements of l0 and r0 gives a sorted
        run holding the elements of l0 + r0. */
    static lemma MergedRunsSorted(l: seq<int>, r: seq<int>, l0: seq<int>, r0: seq<int>)
      requires Sorted(l) && Sorted(r)
      requires multiset(l) == multiset(l0) && multiset(r) == multiset(r0)
      ensures Sorted(Merged(l, r)) && multiset(Merged(l, r)) == multiset(l0 + r0)
    {
      MergedSorted(l, r);
      MergedPermutation(l, r);
    }

    /** Merges the runs arr[left..mid] and arr[mid+1..right] through two
        temporary vectors, taking the left element on ties: first the heads
        of both vectors while both have cells left, then the rest of the left
        vector, then the rest of the right one. */
    static method Merge(arr: array<int>, left: int, mid: int, right: int)
      requires 0 <= left <= mid <= right < arr.Length
      modifies arr
      ensures arr[left..right + 1] == Merged(old(arr[left..mid + 1]), old(arr[mid + 1..right + 1]))
      ensures arr[..left] == old(arr[..left]) && arr[right + 1..] == old(arr[right + 1..])
    {
      var n1 := mid - left + 1;
      var n2 := right - mid;
      var leftArr := seq(n1, _ => 0);
      var rightArr := seq(n2, _ => 0);
      for i := 0 to n1
        invariant |leftArr| == n1 && forall t :: 0 <= t < i ==> leftArr[t] == arr[left + t]
      {
        leftArr := leftArr[i := arr[left + i]];
      }
      for j := 0 to n2
        invariant |rightArr| == n2 && forall t :: 0 <= t < j ==> rightArr[t] == arr[mid + 1 + t]
      {
        rightArr := rightArr[j := arr[mid + 1 + j]];
      }
      ghost var a := arr[..];
      assert leftArr == a[left..mid + 1] && rightArr == a[mid + 1..right + 1];
      MergeBack(arr, leftArr, rightArr, left);
      SpliceSlices(a, Merged(leftArr, rightArr), arr[..], left, right + 1);
    }

    /** The three loops that merge the two vectors back into arr from `left`
        on: the cells left..left+|l|+|r|-1 become the merge of l and r. */
    static method MergeBack(arr: array<int>, leftArr: seq<int>, rightArr: seq<int>, left: int)
      requires 0 <= left && left + |leftArr| + |rightArr| <= arr.Length
      modifies arr
      ensures arr[..] == old(arr[..])[..left] + Merged(leftArr, rightArr) + old(arr[..])[left + |leftArr| + |rightArr|..]
    {
      ghost var a := arr[..];
      var i, j, k := MergeHeads(arr, leftArr, rightArr, left);
      ghost var a0 := arr[..];
      CopyRest(arr, leftArr, i, k);
      ghost var a1 := arr[..];
      var k2 := k + |leftArr| - i;
      CopyRest(arr, rightArr, j, k2);
      MergeAssemble(a, a0, a1, arr[..], leftArr, rightArr, i, j, left, k, k2);
    }

    /** The first loop of the merge: while both vectors have cells left, moves
        the smaller head (the left one on a tie) to arr[k]. It stops with one
        vector used up, having placed the first i + j cells of the merge; the
        rest of the merge is what is left in the two vectors. */
    static method MergeHeads(arr: array<int>, leftArr: seq<int>, rightArr: seq<int>, left: int)
      returns (i: int, j: int, k: int)
      requires 0 <= left && left + |leftArr| + |rightArr| <= arr.Length
      modifies arr
      ensures 0 <= i <= |leftArr| && 0 <= j <= |rightArr| && k == left + i + j
      ensures i == |leftArr| || j == |rightArr|
      ensures arr[..] == old(arr[..])[..left] + Merged(leftArr, rightArr)[..i + j] + old(arr[..])[k..]
      ensures Merged(leftArr, rightArr)[i + j..] == leftArr[i..] + rightArr[j..]
    {
      ghost var M := Merged(leftArr, rightArr);
      assert MergedFrom(leftArr, rightArr, 0, 0) == M[0..];
      i, j, k := 0, 0, left;
      while i < |leftArr| && j < |rightArr|
        invariant k == left + i + j
        invariant MergeProgress(leftArr, rightArr, arr[..], old(arr[..]), left, i, j, M)
      {
        ghost var s, i0, j0 := arr[..], i, j;
        if leftArr[i] <= rightArr[j] {
          arr[k] := leftArr[i];
          i := i + 1;
        } else {
          arr[k] := rightArr[j];
          j := j + 1;
        }
        MergeStep(leftArr, rightArr, s, arr[..], old(arr[..]), left, i0, j0, M);
        k := k + 1;
      }
      MergeHeadsDone(arr[..], old(arr[..]), leftArr, rightArr, i, j, left, M);
    }

    /** When the first loop of the merge stops, the cells it wrote are the
        start of the merge, and the rest of the merge is the rest of the run
        not used up. */
    static lemma MergeHeadsDone(a: seq<int>, a0: seq<int>, l: seq<int>, r: seq<int>, i: int, j: int, left: int, m: seq<int>)
      requires (i == |l| || j == |r|) && left + |l| + |r| <= |a| && m == Merged(l, r)
      requires MergeProgress(l, r, a, a0, left, i, j, m)
      ensures a == a0[..left] + m[..i + j] + a0[left + i + j..]
      ensures m[i + j..] == l[i..] + r[j..]
    {
      assert MergedFrom(l, r, i, j) == l[i..] + r[j..];
      assert a == a0[..left] + m[..i + j] + a0[left + i + j..];
    }

    /** The "copy remaining elements" loops of the merge: copies buf[from..]
        into arr from index k on. */
    static method CopyRest(arr: array<int>, buf: seq<int>, from: int, k: int)
      requires 0 <= from <= |buf| && 0 <= k && k + |buf| - from <= arr.Length
      modifies arr
      ensures arr[..] == old(arr[..])[..k] + buf[from..] + old(arr[..])[k + |buf| - from..]
    {
      var i, p := from, k;
      while i < |buf|
        invariant from <= i <= |buf| && p == k + i - from
        invariant forall t :: k <= t < p ==> arr[t] == buf[t - k + from]
        invariant forall t :: 0 <= t < arr.Length && !(k <= t < p) ==> arr[t] == old(arr[t])
      {
        arr[p] := buf[i];
        i := i + 1;
        p := p + 1;
      }
      assert arr[..] == old(arr[..])[..k] + buf[from..] + old(arr[..])[k + |buf| - from..];
    }

    /** The cells of the merge in place: the merged prefix after the first
        loop, then the rest of l and the rest of r copied after it, make the
        whole merge of l and r, with the cells around it as they were. */
    static lemma MergeAssemble(a: seq<int>, a0: seq<int>, a1: seq<int>, a2: seq<int>, l: seq<int>, r: seq<int>,
                               i: int, j: int, left: int, k: int, k2: int)
      requires 0 <= left && left + |l| + |r| <= |a|
      requires 0 <= i <= |l| && 0 <= j <= |r| && k == left + i + j && k2 == k + |l| - i
      requires a0 == a[..left] + Merged(l, r)[..i + j] + a[k..]
      requires Merged(l, r)[i + j..] == l[i..] + r[j..]
      requires a1 == a0[..k] + l[i..] + a0[k2..]
      requires a2 == a1[..k2] + r[j..] + a1[k2 + |r| - j..]
      ensures a2 == a[..left] + Merged(l, r) + a[left + |l| + |r|..]
    {
      var m, e := Merged(l, r), left + |l| + |r|;
      var p1 := a[..left] + m[..i + j];
      SpliceAfter(a, p1, l[i..], a0, a1, k, k2);
      SpliceAfter(a, p1 + l[i..], r[j..], a1, a2, k2, e);
      Regroup(a[..left], m[..i + j], l[i..], r[j..], a[e..], m, a2);
    }

    /** Writing x over cells k..k2-1 of a sequence made of p followed by
        the cells of `a` from k on. */
    static lemma SpliceAfter(a: seq<int>, p: seq<int>, x: seq<int>, b: seq<int>, b': seq<int>, k: int, k2: int)
      requires |p| == k && k2 == k + |x| <= |a|
      requires b == p + a[k..]
      requires b' == b[..k] + x + b[k2..]
      ensures b' == p + x + a[k2..]
    {
      assert b[..k] == p;
      assert b[k2..] == a[k2..];
    }

    /** Regrouping the merged prefix and the two rests into the merge. */
    static lemma Regroup(pre: seq<int>, mp: seq<int>, x: seq<int>, y: seq<int>, post: seq<int>, m: seq<int>, w: seq<int>)
      requires m == mp + (x + y)
      requires w == pre + mp + x + y + post
      ensures w == pre + m + post
    {
      assert mp + x + y == m;
    }

    /** Cutting the spliced sequence at the ends of the inserted part. */
    static lemma SpliceSlices(a: seq<int>, m: seq<int>, b: seq<int>, lo: int, hi: int)
      requires 0 <= lo <= hi <= |a| && |m| == hi - lo
      requires b == a[..lo] + m + a[hi..]
      ensures b[lo..hi] == m && b[..lo] == a[..lo] && b[hi..] == a[hi..]
    {
    }

    // -------------------------------------------------------------- heap sort

    /** Sort by heap sort with the step counter reset first. */
    method HeapSort(arr: array<int>)
      modifies this, arr
      ensures Valid()
      ensures Sorted(arr[..]) && multiset(arr[..]) == multiset(old(arr[..]))
      ensures stepCount == if arr.Length <= 1 then 1 else 2 * arr.Length - 2
    {
      ResetStepCount();
      HeapSortVisualized(arr);
    }

    /** Builds a max-heap, then repeatedly swaps the root to the end of the
        shrinking heap and sifts the new root down. Counts one step for the
        build, one per extraction and one per re-heapify of more than one cell. */
    method HeapSortVisualized(arr: array<int>)
      requires Valid()
      modifies this, arr
      ensures Valid() && IsPrefix(old(trace), trace)
      ensures Sorted(arr[..])
      ensures multiset(arr[..]) == multiset(old(arr[..]))
      ensures stepCount == old(stepCount) + (if arr.Length <= 1 then 1 else 2 * arr.Length - 2)
    {
      var n := arr.Length;
      BuildMaxHeap(arr);
      IncrementStep(HeapBuilt);
      var i := n - 1;
      while i > 0
        invariant -1 <= i < n && (n > 0 ==> 0 <= i)
        invariant MaxHeap(arr[..], i + 1)
        invariant SortedFrom(arr[..], i + 1)
        invariant multiset(arr[..]) == multiset(old(arr[..]))
        invariant Valid() && IsPrefix(old(trace), trace)
        invariant stepCount == old(stepCount) + 1 + 2 * (n - 1 - i) - (if i == 0 && n >= 2 then 1 else 0)
      {
        ghost var a0, t0 := arr[..], trace;
        Swap(arr, 0, i);
        ghost var a1 := arr[..];
        HeapSortExtract(a0, a1, i);
        IncrementStep(MovedMax(i));
        Heapify(arr, i, 0, 0);
        HeapSortSettle(a1, arr[..], i);
        if i > 1 {
          IncrementStep(Reheaped(i));
        }
        i := i - 1;
      }
      if n > 1 {
        assert SortedFrom(arr[..], 1);
      }
    }

    /** Swapping the root of the heap arr[..i] with its last cell i puts the
        maximum at i, in final position, with everything before it at most it;
        the rest is a heap except at the root. */
    static lemma HeapSortExtract(a0: seq<int>, a1: seq<int>, i: int)
      requires 0 < i < |a0| == |a1|
      requires MaxHeap(a0, i + 1) && SortedFrom(a0, i + 1)
      requires a1[0] == a0[i] && a1[i] == a0[0]
      requires forall k :: 0 <= k < |a0| && k != 0 && k != i ==> a1[k] == a0[k]
      requires multiset(a1) == multiset(a0)
      ensures HeapExcept(a1, i, 0, 0)
      ensures SortedFrom(a1, i + 1)
      ensures AllAtMost(a1[..i], a1[i])
    {
      forall k | 0 <= k <= i
        ensures a0[k] <= a0[0]
      {
        HeapRootIsMax(a0, i + 1, k);
      }
      assert a1[i + 1..] == a0[i + 1..];
      RangeMultiset(a1, a0, 0, i + 1);
      PrefixPermutationKeepsSortedFrom(a0, a1, i + 1);
    }

    /** Re-heapifying the cells before i permutes them only, so the cell at i,
        at least all of them, joins the sorted tail. */
    static lemma HeapSortSettle(a1: seq<int>, a2: seq<int>, i: int)
      requires 0 < i < |a1| == |a2|
      requires SortedFrom(a1, i + 1) && AllAtMost(a1[..i], a1[i])
      requires multiset(a2) == multiset(a1)
      requires forall k :: 0 <= k < |a1| && (k < 0 || i <= k) ==> a2[k] == a1[k]
      ensures SortedFrom(a2, i)
    {
      assert a2[i..] == a1[i..];
      RangeMultiset(a2, a1, 0, i);
      PermutationKeepsBounds(a1[..i], a2[..i], a1[i]);
      assert a2[..i + 1] == a2[..i] + [a2[i]];
      assert a1[..i + 1] == a1[..i] + [a1[i]];
      RangeMultisetWhole(a2[..i + 1], a1[..i + 1], 0, i);
      PrefixPermutationKeepsSortedFrom(a1, a2, i + 1);
      SortedFromExtend(a2, i);
    }

    /** Turns the whole array into a max-heap by sifting down every non-leaf
        node, from the last one (n/2 - 1) back to the root. */
    static method BuildMaxHeap(arr: array<int>)
      modifies arr
      ensures MaxHeap(arr[..], arr.Length)
      ensures multiset(arr[..]) == multiset(old(arr[..]))
    {
      var n := arr.Length;
      var i := n / 2 - 1;
      while i >= 0
        invariant -1 <= i <= n / 2 - 1
        invariant HeapExcept(arr[..], n, i + 1, -1)
        invariant multiset(arr[..]) == multiset(old(arr[..]))
      {
        Heapify(arr, n, i, i);
        i := i - 1;
      }
    }

    /** One exchange of the sift-down: node i takes its larger child's value,
        which dominates both children, so the only place heap order may still
        fail is below the child's old position. */
    static lemma SiftSwap(a0: seq<int>, a1: seq<int>, n: int, lo: int, i: int, largest: int)
      requires 0 <= lo <= i < largest < n <= |a0| == |a1|
      requires largest == 2 * i + 1 || largest == 2 * i + 2
      requires forall c :: 2 * i + 1 <= c <= 2 * i + 2 && c < n ==> a0[largest] >= a0[c]
      requires a0[largest] > a0[i]
      requires HeapExcept(a0, n, lo, i)
      requires i > 0 && lo <= Parent(i) ==>
                 forall c :: 2 * i + 1 <= c <= 2 * i + 2 && c < n ==> a0[Parent(i)] >= a0[c]
      requires a1[i] == a0[largest] && a1[largest] == a0[i]
      requires forall k :: 0 <= k < |a1| && k != i && k != largest ==> a1[k] == a0[k]
      ensures HeapExcept(a1, n, lo, largest)
      ensures forall c :: 2 * largest + 1 <= c <= 2 * largest + 2 && c < n ==> a1[Parent(largest)] >= a1[c]
    {
      forall k | 1 <= k < n && lo <= Parent(k) && Parent(k) != largest
        ensures a1[Parent(k)] >= a1[k]
      {
        if Parent(k) == i {
        } else if k == i {
        } else {
          assert a0[Parent(k)] >= a0[k];
        }
      }
      assert Parent(largest) == i;
      forall c | 2 * largest + 1 <= c <= 2 * largest + 2 && c < n
        ensures a1[i] >= a1[c]
      {
        assert Parent(c) == largest;
        assert a0[largest] >= a0[c];
      }
    }

    /** Node i dominates its children: heap order holds at i as well. */
    static lemma SiftStops(a: seq<int>, n: int, lo: int, i: int)
      requires 0 <= lo <= i < n <= |a|
      requires HeapExcept(a, n, lo, i)
      requires forall c :: 2 * i + 1 <= c <= 2 * i + 2 && c < n ==> a[i] >= a[c]
      ensures HeapExcept(a, n, lo, -1)
    {
      forall k | 1 <= k < n && lo <= Parent(k) && Parent(k) == i
        ensures a[Parent(k)] >= a[k]
      {
        assert 2 * i + 1 <= k <= 2 * i + 2;
      }
    }

    /** Sift-down of node i within the first n cells. If heap order already
        holds below i for every parent at index lo or more (and i's own parent,
        when it counts, dominates i's children), then afterwards it holds for
        every such parent, cells before i and from n on are untouched, and the
        contents are a permutation of the old ones. */
    static method Heapify(arr: array<int>, n: int, i: int, ghost lo: int)
      requires 0 <= lo <= i < n <= arr.Length
      requires HeapExcept(arr[..], n, lo, i)
      requires i > 0 && lo <= Parent(i) ==>
                 forall c :: 2 * i + 1 <= c <= 2 * i + 2 && c < n ==> arr[Parent(i)] >= arr[c]
      modifies arr
      ensures HeapExcept(arr[..], n, lo, -1)
      ensures multiset(arr[..]) == multiset(old(arr[..]))
      ensures forall k :: 0 <= k < arr.Length && (k < i || n <= k) ==> arr[k] == old(arr[k])
      decreases n - i
    {
      var largest := i;
      var left := 2 * i + 1;
      var right := 2 * i + 2;
      if left < n && arr[left] > arr[largest] {
        largest := left;
      }
      if right < n && arr[right] > arr[largest] {
        largest := right;
      }
      if largest != i {
        ghost var a0 := arr[..];
        Swap(arr, i, largest);
        SiftSwap(a0, arr[..], n, lo, i, largest);
        Heapify(arr, n, largest, lo);
      } else {
        SiftStops(arr[..], n, lo, i);
      }
    }
  }
}
