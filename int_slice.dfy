/** The exchange-observable integer sequence and the six hand-written sorts
    built on it. The channel the Go code publishes exchanges on is modelled
    as the append-only event log `log`. */
module Sorting {
  import opened Exchange
  import opened InversionCount
  import opened Heaps
  import opened Chains

  class IntSlice {
    /** The backing slice; the sorts rearrange its elements, never replace it. */
    const values: array<int>
    /** Every event published so far, oldest first. */
    var log: seq<Event>

    constructor (xs: seq<int>)
      ensures fresh(values)
      ensures values[..] == xs && log == []
    {
      values := new int[|xs|](k requires 0 <= k < |xs| => xs[k]);
      log := [];
    }

    /** Number of elements in the sequence. */
    function Len(): (n: nat)
      ensures n == values.Length
    {
      values.Length
    }

    /** Whether the element at i sorts before the element at j. */
    predicate Less(i: int, j: int)
      requires 0 <= i < values.Length && 0 <= j < values.Length
      reads values
      ensures Less(i, j) ==> values[i] < values[j]
      ensures !Less(i, j) ==> values[j] <= values[i]
    {
      values[i] < values[j]
    }

    /** Less is a strict order consistent with the values: irreflexive,
        asymmetric and transitive, and two positions neither of which is
        less than the other hold equal values. */
    lemma LessIsStrictOrder(i: int, j: int, k: int)
      requires 0 <= i < values.Length && 0 <= j < values.Length && 0 <= k < values.Length
      ensures !Less(i, i)
      ensures Less(i, j) ==> !Less(j, i)
      ensures Less(i, j) && Less(j, k) ==> Less(i, k)
      ensures !Less(i, j) && !Less(j, i) ==> values[i] == values[j]
    {
    }

    /** Exchange the elements at i and j, then publish the pair of values
        now at i and j. */
    method Swap(i: int, j: int)
      requires 0 <= i < values.Length && 0 <= j < values.Length
      modifies this, values
      ensures values[i] == old(values[j]) && values[j] == old(values[i])
      ensures forall k :: 0 <= k < values.Length && k != i && k != j ==> values[k] == old(values[k])
      ensures multiset(values[..]) == multiset(old(values[..]))
      ensures Exchanged(values[..], old(values[..]), i, j)
      ensures log == old(log) + [(values[i], values[j])]
    {
      var t := values[i];
      values[i] := values[j];
      values[j] := t;
      assert values[..] == SwapAt(old(values[..]), i, j);
      log := log + [(values[i], values[j])];
    }

    /** Bubble sort: n-1 passes, pass i carrying the largest of the first
        n-i elements to position n-i-1. */
    method BubbleSort()
      modifies this, values
      ensures Sorted(values[..])
      ensures multiset(values[..]) == multiset(old(values[..]))
      ensures old(log) <= log
      ensures |log| == |old(log)| + Inversions(old(values[..]))
      ensures Rising(log[|old(log)|..])
      ensures values.Length <= 1 ==> log == old(log)
      ensures ReplaysTo(old(values[..]), log[|old(log)|..], values[..])
    {
      ghost var s, l := values[..], log;
      var n := values.Length;
      var i := 0;
      assert log[|l|..] == [];
      while i < n - 1
        invariant 0 <= i <= if n == 0 then 0 else n - 1
        invariant l <= log && BubbledFrom(values[..], s, log[|l|..], n - i)
      {
        ghost var mid, midv := log, values[..];
        BubblePass(n - i - 1);
        BubbledMore(s, l, midv, mid, log, values[..], n - i);
        i := i + 1;
      }
      BubbledSorts(values[..], s, l, log, n - i);
    }

    /** One pass of bubble sort over positions 0..last: exchange each
        adjacent pair that is out of order, so that the largest of them
        ends at position last. */
    method BubblePass(last: int)
      requires 0 <= last < values.Length
      requires forall a, b :: 0 <= a <= last < b < values.Length ==> values[a] <= values[b]
      modifies this, values
      ensures BubbleFront(values[..], old(values[..]), last, last)
      ensures old(log) <= log && InversionSteps(old(values[..]), log[|old(log)|..], values[..])
    {
      ghost var s0, l0 := values[..], log;
      ghost var emitted: seq<Event> := [];
      var j := 0;
      BubbleStart(values[..], last);
      while j < last
        invariant 0 <= j <= last
        invariant BubbleProgress(values[..], s0, emitted, j, last)
        invariant log == l0 + emitted
      {
        ghost var before, emittedBefore := values[..], emitted;
        if Less(j + 1, j) {
          Swap(j, j + 1);
          emitted := emitted + [(values[j], values[j + 1])];
        }
        BubbleProgressStep(before, values[..], s0, emittedBefore, emitted, j, last);
        j := j + 1;
      }
      assert log[|old(log)|..] == emitted;
    }

    /** Selection sort: for each position i but the last, exchange it with
        the position of the smallest element from i on, even when that is
        i itself. */
    method SelectionSort()
      modifies this, values
      ensures Sorted(values[..])
      ensures multiset(values[..]) == multiset(old(values[..]))
      ensures old(log) <= log
      ensures |log| == |old(log)| + (if values.Length == 0 then 0 else values.Length - 1)
      ensures forall k :: 0 <= k < |log| - |old(log)| ==> log[|old(log)| + k].0 == values[k]
      ensures NonFalling(log[|old(log)|..])
      ensures ReplaysTo(old(values[..]), log[|old(log)|..], values[..])
    {
      ghost var s0, l0 := values[..], log;
      ghost var emitted: seq<Event> := [];
      var n := values.Length;
      var i := 0;
      SelectionStart(values[..]);
      while i < n - 1
        invariant 0 <= i <= if n == 0 then 0 else n - 1
        invariant SelectionProgress(values[..], s0, emitted, i)
        invariant log == l0 + emitted
      {
        var minIdx := MinFrom(i);
        ghost var before, emittedBefore := values[..], emitted;
        Swap(i, minIdx);
        emitted := emitted + [(values[i], values[minIdx])];
        SelectionStep(before, values[..], s0, emittedBefore, i, minIdx);
        i := i + 1;
      }
      assert log[|old(log)|..] == emitted;
    }

    /** Selection sort's inner loop: the first position from i on that
        holds the smallest of values[i..]. */
    method MinFrom(i: int) returns (m: int)
      requires 0 <= i < values.Length
      ensures i <= m < values.Length
      ensures forall k :: i <= k < values.Length ==> values[m] <= values[k]
      ensures forall k :: i <= k < m ==> values[m] < values[k]
    {
      m := i;
      var j := i + 1;
      while j < values.Length
        invariant i <= m < j <= values.Length
        invariant forall k :: i <= k < j ==> values[m] <= values[k]
        invariant forall k :: i <= k < m ==> values[m] < values[k]
      {
        if values[j] < values[m] {
          m := j;
        }
        j := j + 1;
      }
    }

    /** Insertion sort: for each i from 1, walk the element that was at i
        leftwards by adjacent exchanges while its left neighbour is larger. */
    method InsertionSort()
      modifies this, values
      ensures Sorted(values[..])
      ensures multiset(values[..]) == multiset(old(values[..]))
      ensures old(log) <= log
      ensures |log| == |old(log)| + Inversions(old(values[..]))
      ensures Rising(log[|old(log)|..])
      ensures values.Length <= 1 ==> log == old(log)
      ensures ReplaysTo(old(values[..]), log[|old(log)|..], values[..])
    {
      ghost var s, l := values[..], log;
      var n := values.Length;
      var i := 1;
      assert log[|l|..] == [];
      while i < n
        invariant 1 <= i <= if n == 0 then 1 else n
        invariant SortedPrefix(values[..], i)
        invariant l <= log && InversionSteps(s, log[|l|..], values[..])
      {
        ghost var mid, midv := log, values[..];
        InsertAt(i);
        SplitLog(l, mid, log);
        InversionStepsJoin(s, mid[|l|..], midv, log[|mid|..], values[..]);
        i := i + 1;
      }
      InversionStepsToSorted(s, log[|l|..], values[..]);
    }

    /** One step of insertion sort: with positions 0..i-1 sorted, move the
        element at i leftwards to its place, so that 0..i is sorted. */
    method InsertAt(i: int)
      requires 1 <= i < values.Length
      requires SortedPrefix(values[..], i)
      modifies this, values
      ensures SortedPrefix(values[..], i + 1)
      ensures forall k :: i < k < values.Length ==> values[k] == old(values[k])
      ensures old(log) <= log && InversionSteps(old(values[..]), log[|old(log)|..], values[..])
    {
      ghost var s0, l0 := values[..], log;
      ghost var emitted: seq<Event> := [];
      var key := values[i];
      var j := i - 1;
      InsertStart(values[..], i);
      while j >= 0 && values[j] > key
        invariant -1 <= j <= i - 1
        invariant InsertProgress(values[..], s0, emitted, i, j + 1, key)
        invariant log == l0 + emitted
        decreases j
      {
        ghost var before, emittedBefore := values[..], emitted;
        Swap(j, j + 1);
        emitted := emitted + [(values[j], values[j + 1])];
        InsertProgressStep(before, values[..], s0, emittedBefore, i, j + 1, key);
        j := j - 1;
      }
      InsertDone(values[..], s0, emitted, i, j + 1, key);
      assert log[|old(log)|..] == emitted;
    }

    /** Shell sort: gapped insertion sort for the gaps n/2, n/4, ..., 1. */
    method ShellSort()
      modifies this, values
      ensures Sorted(values[..])
      ensures multiset(values[..]) == multiset(old(values[..]))
      ensures old(log) <= log
      ensures values.Length <= 1 ==> log == old(log)
      ensures Falling(log[|old(log)|..])
      ensures ReplaysTo(old(values[..]), log[|old(log)|..], values[..])
    {
      ghost var s, l := values[..], log;
      var n := values.Length;
      var gap := n / 2;
      assert log[|l|..] == [];
      while gap > 0
        invariant 0 <= gap
        invariant gap == 0 ==> Sorted(values[..])
        invariant l <= log && ShellSteps(s, log[|l|..], values[..])
        invariant n <= 1 ==> log == l
      {
        ghost var mid, midv := log, values[..];
        ShellPass(gap);
        if gap == 1 {
          GapOneSorted(values[..]);
        }
        SplitLog(l, mid, log);
        ShellStepsJoin(s, mid[|l|..], midv, log[|mid|..], values[..]);
        gap := gap / 2;
      }
    }

    /** One gap of shell sort: gapped insertion of every position from gap
        on, leaving each chain k, k+gap, k+2gap, ... sorted. With gap 1
        this is insertion sort. */
    method ShellPass(gap: int)
      requires 1 <= gap
      modifies this, values
      ensures GapSorted(values[..], gap, values.Length)
      ensures ChainsKept(values[..], old(values[..]), gap)
      ensures old(log) <= log && ShellSteps(old(values[..]), log[|old(log)|..], values[..])
      ensures values.Length <= gap ==> log == old(log)
    {
      ghost var s, l := values[..], log;
      var n := values.Length;
      var i := gap;
      assert log[|l|..] == [];
      while i < n
        invariant gap <= i && (gap < n ==> i <= n)
        invariant GapSorted(values[..], gap, i)
        invariant ChainsKept(values[..], s, gap)
        invariant l <= log && ShellSteps(s, log[|l|..], values[..])
        invariant n <= gap ==> log == l
      {
        ghost var mid, midv := log, values[..];
        GapInsertAt(gap, i);
        ChainsKeptJoin(values[..], midv, s, gap);
        SplitLog(l, mid, log);
        ShellStepsJoin(s, mid[|l|..], midv, log[|mid|..], values[..]);
        i := i + 1;
      }
    }

    /** Move the element at i back along its chain in steps of gap while
        the element gap positions before it is larger than it was. With the
        chains sorted below i, this leaves them sorted up to i, and only
        positions i, i-gap, i-2gap, ... change. */
    method GapInsertAt(gap: int, i: int)
      requires 1 <= gap <= i < values.Length
      requires GapSorted(values[..], gap, i)
      modifies this, values
      ensures GapSorted(values[..], gap, i + 1)
      ensures forall k :: 0 <= k < values.Length && !OnChain(k, i, gap) ==> values[k] == old(values[k])
      ensures ChainsKept(values[..], old(values[..]), gap)
      ensures old(log) <= log && ShellSteps(old(values[..]), log[|old(log)|..], values[..])
    {
      ghost var s0, l0 := values[..], log;
      ghost var emitted: seq<Event> := [];
      var temp := values[i];
      var j := i;
      GapHoleStart(values[..], gap, i);
      while j >= gap && values[j - gap] > temp
        invariant GapHole(values[..], s0, emitted, gap, i, j, temp)
        invariant log == l0 + emitted
        decreases j
      {
        ghost var before, emittedBefore := values[..], emitted;
        Swap(j, j - gap);
        emitted := emitted + [(values[j], values[j - gap])];
        GapHoleStep(before, values[..], s0, emittedBefore, gap, i, j, temp);
        j := j - gap;
      }
      GapHoleDone(values[..], s0, emitted, gap, i, j, temp);
      assert log[|old(log)|..] == emitted;
    }

    /** Quick sort of the whole sequence. */
    method QuickSort()
      modifies this, values
      ensures Sorted(values[..])
      ensures multiset(values[..]) == multiset(old(values[..]))
      ensures old(log) <= log && NonFalling(log[|old(log)|..])
      ensures values.Length <= 1 ==> log == old(log)
      ensures ReplaysTo(old(values[..]), log[|old(log)|..], values[..])
    {
      QuickSortRange(0, values.Length - 1);
    }

    /** Sort positions low..high (inclusive) in place; a range of fewer
        than two positions is left as it is. */
    method QuickSortRange(low: int, high: int)
      requires low < high ==> 0 <= low && high < values.Length
      modifies this, values
      ensures forall a, b :: low <= a < b <= high ==> values[a] <= values[b]
      ensures forall k :: 0 <= k < values.Length && !(low <= k <= high) ==> values[k] == old(values[k])
      ensures old(log) <= log && NonFalling(log[|old(log)|..])
      ensures Rearranged(old(values[..]), log[|old(log)|..], values[..])
      ensures low >= high ==> log == old(log)
      decreases high - low
    {
      ghost var s0, l0 := values[..], log;
      if low < high {
        var p := Partition(low, high);
        ghost var s1, l1 := values[..], log;
        QuickSortRange(low, p - 1);
        ghost var s2, l2 := values[..], log;
        QuickSortRange(p + 1, high);
        QuickSortSteps(s0, s1, s2, values[..], l0, l1, l2, log, low, p, high);
      } else {
        assert log[|l0|..] == [];
      }
    }

    /** Lomuto partition of low..high around the pivot values[high]: every
        element below the pivot is exchanged to the front, in scan order,
        and the pivot is then exchanged to just after them. */
    method Partition(low: int, high: int) returns (p: int)
      requires 0 <= low <= high < values.Length
      modifies this, values
      ensures low <= p <= high
      ensures values[p] == old(values[high])
      ensures forall k :: low <= k < p ==> values[k] < values[p]
      ensures forall k :: p < k <= high ==> values[p] <= values[k]
      ensures forall k :: 0 <= k < values.Length && !(low <= k <= high) ==> values[k] == old(values[k])
      ensures old(log) <= log && |log| == |old(log)| + (p - low) + 1
      ensures NonFalling(log[|old(log)|..])
      ensures log[|log| - 1] == (values[p], values[high])
      ensures Rearranged(old(values[..]), log[|old(log)|..], values[..])
    {
      ghost var s0, l0 := values[..], log;
      var i := PartitionScan(low, high);
      ghost var before, l1 := values[..], log;
      Swap(i + 1, high);
      SplitLog(l0, l1, log);
      assert log[|l1|..] == [(values[i + 1], values[high])];
      PartitionDone(before, values[..], s0, l1[|l0|..], low, high, i);
      p := i + 1;
    }

    /** Partition's scan: with the pivot values[high], exchange every
        element of low..high-1 below it to the front, in scan order, and
        return the last position of the front (low - 1 when it is empty). */
    method PartitionScan(low: int, high: int) returns (i: int)
      requires 0 <= low <= high < values.Length
      modifies this, values
      ensures old(log) <= log
      ensures Partitioning(values[..], old(values[..]), log[|old(log)|..], low, high, i, high)
    {
      ghost var s0, l0 := values[..], log;
      ghost var emitted: seq<Event> := [];
      var pivot := values[high];
      i := low - 1;
      var j := low;
      PartitionStart(values[..], low, high);
      while j < high
        invariant Partitioning(values[..], s0, emitted, low, high, i, j)
        invariant log == l0 + emitted
      {
        if values[j] < pivot {
          i := i + 1;
          ghost var before, emittedBefore := values[..], emitted;
          Swap(i, j);
          emitted := emitted + [(values[i], values[j])];
          PartitionSwapStep(before, values[..], s0, emittedBefore, low, high, i - 1, j);
        }
        j := j + 1;
      }
      assert log[|l0|..] == emitted;
    }

    /** Heap sort: build a max-heap bottom-up, then repeatedly exchange the
        root with the last position of the heap and shrink the heap by one. */
    method HeapSort()
      modifies this, values
      ensures Sorted(values[..])
      ensures multiset(values[..]) == multiset(old(values[..]))
      ensures old(log) <= log
      ensures values.Length <= 1 ==> log == old(log)
      ensures |log| >= |old(log)| + values.Length - 1
      ensures ReplaysTo(old(values[..]), log[|old(log)|..], values[..])
    {
      ghost var s, l := values[..], log;
      BuildMaxHeap();
      ghost var mid, midv := log, values[..];
      ExtractAll();
      SplitLog(l, mid, log);
      RearrangedJoin(s, mid[|l|..], midv, log[|mid|..], values[..]);
    }

    /** Heap sort's second loop: with values a max-heap, move the root to
        the end of the heap and sift the new root down, for heaps of size
        n, n-1, ..., 2. */
    method ExtractAll()
      requires HeapFrom(values[..], 0, values.Length)
      modifies this, values
      ensures Sorted(values[..])
      ensures old(log) <= log && Rearranged(old(values[..]), log[|old(log)|..], values[..])
      ensures values.Length <= 1 ==> log == old(log)
      ensures |log| >= |old(log)| + values.Length - 1
    {
      ghost var s, l := values[..], log;
      var n := values.Length;
      var i := n - 1;
      ExtractStart(values[..]);
      assert log[|l|..] == [];
      while i > 0
        invariant l <= log && ExtractProgress(values[..], s, log[|l|..], i)
      {
        ghost var mid, midv := log, values[..];
        ExtractMax(i);
        ExtractStep(s, l, midv, mid, log, values[..], i);
        i := i - 1;
      }
      ExtractDone(values[..], s, log[|l|..], i);
    }

    /** Heap sort's first loop: heapify every node with a child, from the
        last one back to the root, making values a max-heap. */
    method BuildMaxHeap()
      modifies this, values
      ensures HeapFrom(values[..], 0, values.Length)
      ensures old(log) <= log && Rearranged(old(values[..]), log[|old(log)|..], values[..])
      ensures values.Length <= 1 ==> log == old(log)
    {
      ghost var s, l := values[..], log;
      var n := values.Length;
      var i := n / 2 - 1;
      BuildStart(values[..]);
      assert log[|l|..] == [];
      while i >= 0
        invariant -1 <= i <= n / 2 - 1
        invariant l <= log && BuildProgress(values[..], s, log[|l|..], i)
        invariant n <= 1 ==> log == l
        decreases i + 1
      {
        ghost var mid, midv := log, values[..];
        BuildReady(midv, s, mid[|l|..], i);
        Heapify(n, i);
        SplitLog(l, mid, log);
        BuildStep(midv, values[..], s, mid[|l|..], log[|mid|..], i);
        i := i - 1;
      }
    }

    /** One round of heap sort's second loop: move the root of the heap
        values[..i+1] to position i, then sift the new root down the heap
        values[..i]. */
    method ExtractMax(i: int)
      requires 0 < i && ExtractionState(values[..], i)
      modifies this, values
      ensures ExtractionState(values[..], i - 1)
      ensures old(log) <= log && |log| >= |old(log)| + 1
      ensures Rearranged(old(values[..]), log[|old(log)|..], values[..])
    {
      ghost var s0, l0 := values[..], log;
      Swap(0, i);
      ghost var s1, l1 := values[..], log;
      assert Exchanged(s1, s0, 0, i);
      SwapRootKeepsHeapBelow(s0, s1, i);
      Heapify(i, 0);
      ExtractKeepsOrder(s0, s1, values[..], i);
      RearrangedExchangeThen(s0, s1, 0, i, l0, l1, log, values[..]);
    }

    /** Sift the element at i down the heap values[..size]: exchange it with
        its larger child while that child is larger, then continue there. */
    method Heapify(size: int, i: int)
      requires 0 <= i && size <= values.Length
      requires HeapAt(values[..], 2 * i + 1, size) && HeapAt(values[..], 2 * i + 2, size)
      modifies this, values
      ensures HeapAt(values[..], i, size)
      ensures SameOutsideSubtree(values[..], old(values[..]), size, i)
      ensures RootFromTop(values[..], old(values[..]), size, i)
      ensures old(log) <= log && Falling(log[|old(log)|..])
      ensures Rearranged(old(values[..]), log[|old(log)|..], values[..])
      ensures size <= i ==> values[..] == old(values[..]) && log == old(log)
      decreases size - i
    {
      ghost var s0, l0 := values[..], log;
      var largest := i;
      var left := 2 * i + 1;
      var right := 2 * i + 2;
      if left < size && values[left] > values[largest] {
        largest := left;
      }
      if right < size && values[right] > values[largest] {
        largest := right;
      }
      if largest != i {
        Swap(i, largest);
        ghost var s1, l1 := values[..], log;
        assert Exchanged(s1, s0, i, largest);
        ChildHeapsAfterExchange(s0, s1, size, i, largest);
        assert largest < size;
        Heapify(size, largest);
        SiftDownStep(s0, s1, values[..], size, i, largest);
        RearrangedExchangeThen(s0, s1, i, largest, l0, l1, log, values[..]);
      } else {
        assert log[|l0|..] == [];
      }
    }
  }

  ghost predicate SortedPrefix(s: seq<int>, m: int) {
    forall a, b :: 0 <= a < b < m && b < |s| ==> s[a] <= s[b]
  }

  /** t is reached from s0 by exchanges of adjacent out-of-order pairs that
      the events es record: a rearrangement es accounts for, every event
      naming the smaller value first and each removing one inversion. The
      count is stated for every u equal to t, so that a proof unfolds
      Inversions only where it asks about it. */
  ghost predicate InversionSteps(s0: seq<int>, es: seq<Event>, t: seq<int>) {
    Rearranged(s0, es, t) && Rising(es) && forall u :: u == t ==> |es| + Inversions(u) == Inversions(s0)
  }

  /** Exchanging an adjacent out-of-order pair is one more such step. */
  lemma InversionStepsExchange(s0: seq<int>, es: seq<Event>, t: seq<int>, u: seq<int>, j: int)
    requires InversionSteps(s0, es, t) && 0 <= j && j + 1 < |t| && t[j] > t[j + 1]
    requires Exchanged(u, t, j, j + 1)
    ensures InversionSteps(s0, es + [(u[j], u[j + 1])], u)
  {
    AdjacentExchangeRemovesInversion(t, u, j);
    RearrangedExchange(s0, es, t, u, j, j + 1);
  }

  /** Two runs of such steps make one. */
  lemma InversionStepsJoin(s: seq<int>, e1: seq<Event>, t: seq<int>, e2: seq<Event>, u: seq<int>)
    requires InversionSteps(s, e1, t) && InversionSteps(t, e2, u)
    ensures InversionSteps(s, e1 + e2, u)
  {
    RearrangedJoin(s, e1, t, e2, u);
  }

  /** Steps that end sorted have removed every inversion of s, one per
      event; with at most one element there is none to remove. */
  lemma InversionStepsToSorted(s: seq<int>, es: seq<Event>, t: seq<int>)
    requires InversionSteps(s, es, t) && Sorted(t)
    ensures |es| == Inversions(s)
    ensures |s| <= 1 ==> es == []
  {
    SortedHasNoInversions(t);
    if |s| <= 1 {
      SortedHasNoInversions(s);
    }
  }

  /** The state of a bubble pass over 0..last that has reached j: s[j] is
      the largest of 0..j, nothing in 0..last exceeds anything after last,
      and everything after last is as in s0. */
  ghost predicate BubbleFront(s: seq<int>, s0: seq<int>, j: int, last: int) {
    0 <= j <= last < |s| == |s0|
    && (forall k :: 0 <= k <= j ==> s[k] <= s[j])
    && (forall a, b :: 0 <= a <= last < b < |s| ==> s[a] <= s[b])
    && (forall k :: last < k < |s| ==> s[k] == s0[k])
  }

  /** Comparing j with j + 1, and exchanging them when they are out of
      order, carries the largest of 0..j + 1 to j + 1. */
  lemma BubbleFrontStep(s: seq<int>, t: seq<int>, s0: seq<int>, j: int, last: int)
    requires BubbleFront(s, s0, j, last) && j < last && |t| == |s|
    requires t[j] == if s[j + 1] < s[j] then s[j + 1] else s[j]
    requires t[j + 1] == if s[j + 1] < s[j] then s[j] else s[j + 1]
    requires t == s || Exchanged(t, s, j, j + 1)
    ensures BubbleFront(t, s0, j + 1, last)
  {
    forall k | 0 <= k <= j + 1 ensures t[k] <= t[j + 1] {
      if k < j {
        assert s[k] <= s[j];
      }
    }
    forall a, b | 0 <= a <= last < b < |t| ensures t[a] <= t[b] {
      var a' := if a == j then (if s[j + 1] < s[j] then j + 1 else j)
                else if a == j + 1 then (if s[j + 1] < s[j] then j else j + 1)
                else a;
      assert t[a] == s[a'];
    }
  }

  /** Everything a bubble pass from s0 over 0..last has established on
      reaching j with the state t and the events emitted so far. */
  ghost predicate BubbleProgress(t: seq<int>, s0: seq<int>, emitted: seq<Event>, j: int, last: int) {
    BubbleFront(t, s0, j, last) && InversionSteps(s0, emitted, t)
  }

  /** A pass starts with nothing exchanged and position 0 as the front. */
  lemma BubbleStart(s: seq<int>, last: int)
    requires 0 <= last < |s|
    requires forall a, b :: 0 <= a <= last < b < |s| ==> s[a] <= s[b]
    ensures BubbleProgress(s, s, [], 0, last)
  {
    assert ReplaysTo(s, [], s);
  }

  /** One compare-and-exchange at j keeps BubbleProgress, whichever way
      the comparison goes. */
  lemma BubbleProgressStep(s: seq<int>, t: seq<int>, s0: seq<int>, emitted: seq<Event>, emitted': seq<Event>, j: int, last: int)
    requires BubbleProgress(s, s0, emitted, j, last) && j < last
    requires if s[j + 1] < s[j] then Exchanged(t, s, j, j + 1) && emitted' == emitted + [(t[j], t[j + 1])]
             else t == s && emitted' == emitted
    ensures BubbleProgress(t, s0, emitted', j + 1, last)
  {
    if s[j + 1] < s[j] {
      InversionStepsExchange(s0, emitted, s, t, j);
    }
    BubbleFrontStep(s, t, s0, j, last);
  }

  /** The state of bubble sort's outer loop with m positions still to come:
      positions from m on hold the largest elements, in order. */
  ghost predicate BubbledFrom(t: seq<int>, s: seq<int>, es: seq<Event>, m: int) {
    0 <= m <= |t|
    && (forall a, b :: 0 <= a < m <= b < |t| ==> t[a] <= t[b])
    && (forall a, b :: m <= a < b < |t| ==> t[a] <= t[b])
    && InversionSteps(s, es, t)
  }

  /** A bubble pass over 0..m-1 extends the sorted tail by one position. */
  lemma BubbledMore(s: seq<int>, l: seq<Event>, t: seq<int>, mid: seq<Event>, log: seq<Event>, u: seq<int>, m: int)
    requires l <= mid <= log && 1 <= m
    ensures BubbledFrom(t, s, mid[|l|..], m) && BubbleFront(u, t, m - 1, m - 1)
            && InversionSteps(t, log[|mid|..], u)
            ==> BubbledFrom(u, s, log[|l|..], m - 1)
  {
    if BubbledFrom(t, s, mid[|l|..], m) && BubbleFront(u, t, m - 1, m - 1)
       && InversionSteps(t, log[|mid|..], u) {
      SplitLog(l, mid, log);
      InversionStepsJoin(s, mid[|l|..], t, log[|mid|..], u);
      forall a, b | m - 1 <= a < b < |u| ensures u[a] <= u[b] {
        if a >= m {
          assert u[a] == t[a] && u[b] == t[b];
        }
      }
    }
  }

  /** With at most one position left, the whole sequence is sorted, and the
      log holds one event per inversion, falling in count, that replays to
      the result. */
  lemma BubbledSorts(t: seq<int>, s: seq<int>, l: seq<Event>, log: seq<Event>, m: int)
    requires l <= log
    ensures BubbledFrom(t, s, log[|l|..], m) && m <= 1
            ==> Sorted(t) && multiset(t) == multiset(s) && |log| == |l| + Inversions(s)
                && Rising(log[|l|..]) && (|s| <= 1 ==> log == l) && ReplaysTo(s, log[|l|..], t)
  {
    if BubbledFrom(t, s, log[|l|..], m) && m <= 1 {
      InversionStepsToSorted(s, log[|l|..], t);
      if |s| <= 1 {
        assert log == l + log[|l|..];
      }
    }
  }

  /** The state of selection sort's outer loop at i: 0..i-1 hold the i
      smallest elements in order, one event has been published per
      position, naming the value that position now holds, and no event
      names a larger value first. */
  ghost predicate SelectionProgress(t: seq<int>, s0: seq<int>, es: seq<Event>, i: int) {
    0 <= i <= |t|
    && (forall a, b :: 0 <= a < b < |t| && a < i ==> t[a] <= t[b])
    && |es| == i && (forall k :: 0 <= k < i ==> es[k].0 == t[k])
    && NonFalling(es) && Rearranged(s0, es, t)
  }

  /** Selection starts with nothing placed. */
  lemma SelectionStart(s: seq<int>)
    ensures SelectionProgress(s, s, [], 0)
  {
    assert ReplaysTo(s, [], s);
  }

  /** Exchanging i with the position m of a smallest element from i on
      extends the selection by one. */
  lemma SelectionStep(s: seq<int>, t: seq<int>, s0: seq<int>, es: seq<Event>, i: int, m: int)
    requires SelectionProgress(s, s0, es, i) && i <= m < |s|
    requires forall k :: i <= k < |s| ==> s[m] <= s[k]
    requires Exchanged(t, s, i, m)
    ensures SelectionProgress(t, s0, es + [(t[i], t[m])], i + 1)
  {
    RearrangedExchange(s0, es, s, t, i, m);
    forall a, b | 0 <= a < b < |t| && a < i + 1 ensures t[a] <= t[b] {
      var b' := if b == i then m else if b == m then i else b;
      assert t[b] == s[b'];
    }
  }

  /** The state of insertion sort's inner loop: the walking element key at
      h, positions after i untouched, and adjacent exchanges recorded. */
  ghost predicate InsertProgress(t: seq<int>, s0: seq<int>, es: seq<Event>, i: int, h: int, key: int) {
    InsertionHole(t, i, h, key) && |t| == |s0|
    && (forall k :: i < k < |t| ==> t[k] == s0[k])
    && InversionSteps(s0, es, t)
  }

  /** The walk starts with key at i and 0..i-1 sorted. */
  lemma InsertStart(s: seq<int>, i: int)
    requires 1 <= i < |s| && SortedPrefix(s, i)
    ensures InsertProgress(s, s, [], i, i, s[i])
  {
    assert ReplaysTo(s, [], s);
  }

  /** When the walk stops, 0..i is sorted. */
  lemma InsertDone(t: seq<int>, s0: seq<int>, es: seq<Event>, i: int, h: int, key: int)
    ensures InsertProgress(t, s0, es, i, h, key) && (h == 0 || t[h - 1] <= key) ==>
              SortedPrefix(t, i + 1) && (forall k :: i < k < |t| ==> t[k] == s0[k])
              && InversionSteps(s0, es, t)
  {
    if InsertProgress(t, s0, es, i, h, key) && (h == 0 || t[h - 1] <= key) {
      InsertionHoleDone(t, i, h, key);
    }
  }

  /** Exchanging key with a larger left neighbour keeps InsertProgress,
      with the hole one position further left. */
  lemma InsertProgressStep(s: seq<int>, t: seq<int>, s0: seq<int>, es: seq<Event>, i: int, h: int, key: int)
    ensures Exchanged(t, s, h - 1, h) && InsertProgress(s, s0, es, i, h, key) && key < s[h - 1] ==>
              InsertProgress(t, s0, es + [(t[h - 1], t[h])], i, h - 1, key)
  {
    if Exchanged(t, s, h - 1, h) && InsertProgress(s, s0, es, i, h, key) && key < s[h - 1] {
      InsertionHoleStep(s, t, i, h, key);
      InversionStepsExchange(s0, es, s, t, h - 1);
    }
  }

  /** The state of insertion sort's inner loop: the element key sits at h,
      the rest of 0..i is sorted, and everything after h up to i exceeds
      key. */
  ghost predicate InsertionHole(s: seq<int>, i: int, h: int, key: int) {
    0 <= h <= i < |s| && s[h] == key
    && (forall a, b :: 0 <= a < b <= i && a != h && b != h ==> s[a] <= s[b])
    && (forall k :: h < k <= i ==> key < s[k])
  }

  /** Exchanging key with a larger left neighbour moves the hole one left. */
  lemma InsertionHoleStep(s: seq<int>, t: seq<int>, i: int, h: int, key: int)
    requires InsertionHole(s, i, h, key) && 0 < h && key < s[h - 1]
    requires Exchanged(t, s, h - 1, h)
    ensures InsertionHole(t, i, h - 1, key)
  {
  }

  /** Once the left neighbour is no larger than key (or there is none),
      0..i is sorted. */
  lemma InsertionHoleDone(s: seq<int>, i: int, h: int, key: int)
    requires InsertionHole(s, i, h, key) && (h == 0 || s[h - 1] <= key)
    ensures forall a, b :: 0 <= a < b <= i ==> s[a] <= s[b]
  {
    forall a, b | 0 <= a < b <= i ensures s[a] <= s[b] {
      if a == h && h < b {
        assert key < s[b];
      } else if b == h && 0 < h && a < h - 1 {
        assert s[a] <= s[h - 1];
      }
    }
  }

  /** Each chain k, k+gap, k+2gap, ... is sorted below m: every position k
      from gap on below m holds at least the value gap positions before. */
  ghost predicate GapSorted(t: seq<int>, gap: int, m: int) {
    forall k :: 0 <= gap <= k < m && k < |t| ==> t[k - gap] <= t[k]
  }

  /** With gap 1 the single chain is the whole sequence. */
  lemma GapOneSorted(s: seq<int>)
    requires GapSorted(s, 1, |s|)
    ensures Sorted(s)
  {
    forall a, b | 0 <= a < b < |s| ensures s[a] <= s[b] {
      ChainOrdered(s, a, b);
    }
  }

  lemma {:induction false} ChainOrdered(s: seq<int>, a: int, b: int)
    requires GapSorted(s, 1, |s|) && 0 <= a <= b < |s|
    ensures s[a] <= s[b]
    decreases b - a
  {
    if a < b {
      ChainOrdered(s, a, b - 1);
    }
  }

  /** t is a rearrangement of s that es accounts for, every event naming
      the larger value first. */
  ghost predicate ShellSteps(s: seq<int>, es: seq<Event>, t: seq<int>) {
    Rearranged(s, es, t) && Falling(es)
  }

  lemma ShellStepsJoin(s: seq<int>, e1: seq<Event>, t: seq<int>, e2: seq<Event>, u: seq<int>)
    requires ShellSteps(s, e1, t) && ShellSteps(t, e2, u)
    ensures ShellSteps(s, e1 + e2, u)
  {
    RearrangedJoin(s, e1, t, e2, u);
  }

  /** The state of shell sort's inner loop moving temp back from i along
      its chain: temp sits at j, on the chain of i; only positions of that
      chain have changed; the chains are sorted except across the hole at
      j, which they bridge; and the chain position after j holds more than
      temp. */
  ghost predicate GapHole(t: seq<int>, s0: seq<int>, es: seq<Event>, gap: int, i: int, j: int, temp: int) {
    1 <= gap <= i < |t| == |s0| && 0 <= j <= i && OnChain(j, i, gap) && t[j] == temp
    && (forall k :: 0 <= k < |t| && !OnChain(k, i, gap) ==> t[k] == s0[k])
    && (forall k :: gap <= k <= i && k != j && k - gap != j ==> t[k - gap] <= t[k])
    && (j + gap <= i ==> temp < t[j + gap])
    && (gap <= j && j + gap <= i ==> t[j - gap] <= t[j + gap])
    && ChainsKept(t, s0, gap) && ShellSteps(s0, es, t)
  }

  /** k is one of i, i - gap, i - 2gap, ...: a position of the chain that
      ends at i. */
  ghost predicate OnChain(k: int, i: int, gap: int)
    requires 1 <= gap
    decreases i - k
  {
    k == i || (k < i && OnChain(k + gap, i, gap))
  }

  /** Before the first exchange, the hole is at i itself. */
  lemma GapHoleStart(s: seq<int>, gap: int, i: int)
    requires 1 <= gap <= i < |s| && GapSorted(s, gap, i)
    ensures GapHole(s, s, [], gap, i, i, s[i])
  {
    assert ReplaysTo(s, [], s);
  }

  /** Exchanging temp with the larger element gap positions before it keeps
      GapHole, with the hole one chain step back. */
  lemma GapHoleStep(s: seq<int>, t: seq<int>, s0: seq<int>, es: seq<Event>, gap: int, i: int, j: int, temp: int)
    requires Exchanged(t, s, j, j - gap) && gap <= j
    ensures GapHole(s, s0, es, gap, i, j, temp) && temp < s[j - gap] ==>
              GapHole(t, s0, es + [(t[j], t[j - gap])], gap, i, j - gap, temp)
  {
    if GapHole(s, s0, es, gap, i, j, temp) && temp < s[j - gap] {
      assert OnChain(j - gap, i, gap);
      ChainsKeptExchange(s, t, s0, gap, j);
      RearrangedExchange(s0, es, s, t, j, j - gap);
      if gap <= j - gap {
        assert s[j - 2 * gap] <= s[j - gap];
      }
    }
  }

  /** When temp stops, every chain is sorted up to i. */
  lemma GapHoleDone(t: seq<int>, s0: seq<int>, es: seq<Event>, gap: int, i: int, j: int, temp: int)
    ensures GapHole(t, s0, es, gap, i, j, temp) && (j < gap || t[j - gap] <= temp) ==>
              GapSorted(t, gap, i + 1)
              && (forall k :: 0 <= k < |t| && !OnChain(k, i, gap) ==> t[k] == s0[k])
              && ChainsKept(t, s0, gap) && ShellSteps(s0, es, t)
  {
  }

  /** The state of the partition loop: low..i hold the elements below the
      pivot s0[high] and i+1..j-1 those at least it, the pivot is still at
      high, nothing outside low..high has moved, and one non-falling event
      has been published per element moved to the front. */
  ghost predicate Partitioning(t: seq<int>, s0: seq<int>, es: seq<Event>, low: int, high: int, i: int, j: int) {
    0 <= low <= j <= high < |t| == |s0| && low - 1 <= i < j && t[high] == s0[high]
    && (forall k :: low <= k <= i ==> t[k] < s0[high])
    && (forall k :: i < k < j ==> s0[high] <= t[k])
    && (forall k :: 0 <= k < |t| && !(low <= k <= high) ==> t[k] == s0[k])
    && |es| == i - low + 1 && NonFalling(es) && Rearranged(s0, es, t)
  }

  /** The scan starts with both sides empty. */
  lemma PartitionStart(s: seq<int>, low: int, high: int)
    requires 0 <= low <= high < |s|
    ensures Partitioning(s, s, [], low, high, low - 1, low)
  {
    assert ReplaysTo(s, [], s);
  }

  /** Exchanging an element below the pivot to position i + 1 extends the
      front by one: the scan state is preserved. */
  lemma PartitionSwapStep(s: seq<int>, t: seq<int>, s0: seq<int>, es: seq<Event>, low: int, high: int, i: int, j: int)
    requires Exchanged(t, s, i + 1, j) && j < high < |s0| && s[j] < s0[high]
    ensures Partitioning(s, s0, es, low, high, i, j) ==>
              Partitioning(t, s0, es + [(t[i + 1], t[j])], low, high, i + 1, j + 1)
  {
    if Partitioning(s, s0, es, low, high, i, j) {
      RearrangedExchange(s0, es, s, t, i + 1, j);
    }
  }

  /** Exchanging the pivot to i + 1 at the end of the scan gives everything
      Partition promises. */
  lemma PartitionDone(s: seq<int>, t: seq<int>, s0: seq<int>, es: seq<Event>, low: int, high: int, i: int)
    requires Exchanged(t, s, i + 1, high)
    ensures Partitioning(s, s0, es, low, high, i, high) ==>
              low <= i + 1 <= high && t[i + 1] == s0[high]
              && (forall k :: low <= k < i + 1 ==> t[k] < t[i + 1])
              && (forall k :: i + 1 < k <= high ==> t[i + 1] <= t[k])
              && (forall k :: 0 <= k < |t| && !(low <= k <= high) ==> t[k] == s0[k])
              && |es| + 1 == i + 1 - low + 1 && NonFalling(es + [(t[i + 1], t[high])])
              && Rearranged(s0, es + [(t[i + 1], t[high])], t)
  {
    if Partitioning(s, s0, es, low, high, i, high) {
      RearrangedExchange(s0, es, s, t, i + 1, high);
    }
  }

  /** Why quick sort's three steps sort low..high: s1 is partitioned around
      s1[p]; s2 sorts low..p-1 of s1 and s3 sorts p+1..high of s2, each
      keeping its elements and changing nothing else. */
  lemma PartitionedRangesCombine(s1: seq<int>, s2: seq<int>, s3: seq<int>, low: int, p: int, high: int)
    requires 0 <= low <= p <= high < |s1| == |s2| == |s3|
    requires forall k :: low <= k < p ==> s1[k] < s1[p]
    requires forall k :: p < k <= high ==> s1[p] <= s1[k]
    requires multiset(s2) == multiset(s1)
    requires forall k :: 0 <= k < |s1| && !(low <= k <= p - 1) ==> s2[k] == s1[k]
    requires forall a, b :: low <= a < b <= p - 1 ==> s2[a] <= s2[b]
    requires multiset(s3) == multiset(s2)
    requires forall k :: 0 <= k < |s1| && !(p + 1 <= k <= high) ==> s3[k] == s2[k]
    requires forall a, b :: p + 1 <= a < b <= high ==> s3[a] <= s3[b]
    ensures forall a, b :: low <= a < b <= high ==> s3[a] <= s3[b]
  {
    RangeKeepsBounds(s2, s1, low, p, s1[p]);
    RangeKeepsBounds(s3, s2, p + 1, high + 1, s1[p]);
    assert forall k :: p < k <= high ==> s1[p] <= s2[k];
    forall a, b | low <= a < b <= high ensures s3[a] <= s3[b] {
      assert a < p ==> s3[a] == s2[a];
    }
  }

  /** Quick sort's partition and two recursive calls, each with what its
      contract promises, together promise the same for low..high: sorted,
      nothing outside moved, non-falling events that account for the
      rearrangement. */
  lemma QuickSortSteps(s0: seq<int>, s1: seq<int>, s2: seq<int>, s3: seq<int>,
                       l0: seq<Event>, l1: seq<Event>, l2: seq<Event>, l3: seq<Event>,
                       low: int, p: int, high: int)
    requires 0 <= low <= p <= high < |s0| == |s1| == |s2| == |s3|
    requires l0 <= l1 <= l2 <= l3
    requires forall k :: low <= k < p ==> s1[k] < s1[p]
    requires forall k :: p < k <= high ==> s1[p] <= s1[k]
    requires forall k :: 0 <= k < |s0| && !(low <= k <= high) ==> s1[k] == s0[k]
    requires NonFalling(l1[|l0|..]) && Rearranged(s0, l1[|l0|..], s1)
    requires forall a, b :: low <= a < b <= p - 1 ==> s2[a] <= s2[b]
    requires forall k :: 0 <= k < |s0| && !(low <= k <= p - 1) ==> s2[k] == s1[k]
    requires NonFalling(l2[|l1|..]) && Rearranged(s1, l2[|l1|..], s2)
    requires forall a, b :: p + 1 <= a < b <= high ==> s3[a] <= s3[b]
    requires forall k :: 0 <= k < |s0| && !(p + 1 <= k <= high) ==> s3[k] == s2[k]
    requires NonFalling(l3[|l2|..]) && Rearranged(s2, l3[|l2|..], s3)
    ensures forall a, b :: low <= a < b <= high ==> s3[a] <= s3[b]
    ensures forall k :: 0 <= k < |s0| && !(low <= k <= high) ==> s3[k] == s0[k]
    ensures NonFalling(l3[|l0|..]) && Rearranged(s0, l3[|l0|..], s3)
  {
    PartitionedRangesCombine(s1, s2, s3, low, p, high);
    RearrangedSplit(s0, l0, s1, l1, l2, s2);
    RearrangedSplit(s0, l0, s2, l2, l3, s3);
    SplitLog(l0, l1, l2);
    SplitLog(l0, l2, l3);
  }

  /** The state of heap sort's first loop at i: a heap from i + 1 on,
      reached from s by a rearrangement es accounts for. */
  ghost predicate BuildProgress(t: seq<int>, s: seq<int>, es: seq<Event>, i: int) {
    HeapFrom(t, i + 1, |t|) && Rearranged(s, es, t)
  }

  /** Before the first heapify, every node from n/2 on is a leaf, and so a
      heap. */
  lemma BuildStart(s: seq<int>)
    ensures BuildProgress(s, s, [], |s| / 2 - 1)
  {
    LeavesAreHeaps(s, |s|);
    assert ReplaysTo(s, [], s);
  }

  /** With a heap from i + 1 on, both children of i head heaps, as
      heapifying i needs. */
  lemma BuildReady(t: seq<int>, s: seq<int>, es: seq<Event>, i: int)
    requires 0 <= i && BuildProgress(t, s, es, i)
    ensures HeapAt(t, 2 * i + 1, |t|) && HeapAt(t, 2 * i + 2, |t|)
  {
    HeapFromGivesHeapAt(t, i + 1, 2 * i + 1, |t|);
    HeapFromGivesHeapAt(t, i + 1, 2 * i + 2, |t|);
  }

  /** Heapifying at i, which changes only the subtree at i, moves the loop
      state from i to i - 1. */
  lemma BuildStep(t: seq<int>, t': seq<int>, s: seq<int>, es: seq<Event>, e2: seq<Event>, i: int)
    requires 0 <= i && |t'| == |t| && BuildProgress(t, s, es, i)
    requires HeapAt(t', i, |t|) && SameOutsideSubtree(t', t, |t|, i) && Rearranged(t, e2, t')
    ensures BuildProgress(t', s, es + e2, i - 1)
  {
    HeapifiedFrom(t, t', |t|, i);
    RearrangedJoin(s, es, t, e2, t');
  }

  /** The state of heap sort's second loop at i: ExtractionState (or i = -1
      for an empty slice), reached from s by a rearrangement es accounts
      for, with at least one event per extraction so far and none when
      there is nothing to extract. */
  ghost predicate ExtractProgress(t: seq<int>, s: seq<int>, es: seq<Event>, i: int) {
    (if |t| == 0 then i == -1 else ExtractionState(t, i))
    && Rearranged(s, es, t)
    && |es| >= |t| - 1 - i
    && (|t| <= 1 ==> es == [])
  }

  /** Before the first extraction the whole slice is the heap. */
  lemma ExtractStart(s: seq<int>)
    requires HeapFrom(s, 0, |s|)
    ensures ExtractProgress(s, s, [], |s| - 1)
  {
    if |s| > 0 {
      FirstExtractionState(s);
    }
    assert ReplaysTo(s, [], s);
  }

  /** One extraction, publishing at least one event, moves the loop state
      from i to i - 1. */
  lemma ExtractStep(s: seq<int>, l: seq<Event>, t: seq<int>, mid: seq<Event>, log: seq<Event>, u: seq<int>, i: int)
    requires l <= mid <= log && 0 < i
    ensures ExtractProgress(t, s, mid[|l|..], i) && |u| == |t| && ExtractionState(u, i - 1)
            && |log| >= |mid| + 1 && Rearranged(t, log[|mid|..], u)
            ==> ExtractProgress(u, s, log[|l|..], i - 1)
  {
    if ExtractProgress(t, s, mid[|l|..], i) && |u| == |t| && ExtractionState(u, i - 1)
       && |log| >= |mid| + 1 && Rearranged(t, log[|mid|..], u) {
      SplitLog(l, mid, log);
      RearrangedSplit(s, l, t, mid, log, u);
    }
  }

  /** When the second loop stops, the slice is sorted. */
  lemma ExtractDone(t: seq<int>, s: seq<int>, es: seq<Event>, i: int)
    ensures ExtractProgress(t, s, es, i) && i <= 0 ==> Sorted(t)
  {
    if ExtractProgress(t, s, es, i) && i <= 0 && |t| > 0 {
      LastExtractionSorts(t);
    }
  }
}
