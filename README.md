# Sorting core of sortings-visualizer, in Dafny

sortings-visualizer shuffles a list of integers and sorts it with one of six
hand-written algorithms: bubble, selection, insertion, shell, quick and heap
sort. It draws every exchange as it happens. All six algorithms run on
`IntSlice`, a slice of integers paired with a channel. `Swap` is the only
operation that changes the slice. It exchanges two positions, then publishes
the pair of values now at those positions on the channel. The render loop
reads that channel and highlights the bars whose values match the pair.

This project models that core as the class `Sorting.IntSlice`:

- `values: array<int>` is the slice. The sorts rearrange it in place.
- `log: seq<Event>` stands in for the channel: every event ever published,
  oldest first. `Swap` is the only member that extends it, by exactly one
  event.
- Each sort is a method with the loops and recursion of the original.
  - Inner loops are helper methods with their own contracts: `BubblePass`,
    `MinFrom`, `InsertAt`, `ShellPass`, `GapInsertAt`, `PartitionScan`,
    `BuildMaxHeap`, `ExtractAll` and `ExtractMax`.
  - `ExtractAll` is the second loop of heap sort, and `BuildMaxHeap` the
    first.
- Every sort is proved to leave `values` sorted and a permutation of its
  input. It is also proved that the events it publishes replay to the final
  values, starting from the initial ones (`ReplaysTo`).
  - The program shuffles 1..n, so the values are always distinct. With
    distinct values, a consumer that only knows values can redo every
    exchange from its event.
- Where the algorithm fixes it, the events are pinned down further: how many
  there are, and which way each pair faces.

Modules:

- `Exchange` (exchange.dfy): the pure view of exchanges.
  - `SwapAt` is one exchange on a sequence.
  - `ApplySwaps` folds a list of exchanges over a sequence, and `EventsOf`
    gives the events those exchanges publish.
  - `Replay` is what a consumer knowing only values can rebuild from the
    events. `ReplaysTo(s, es, t)` says that, when the values of `s` are
    distinct, replaying `es` from `s` gives exactly `t`.
  - `Rearranged(s, es, t)` is the same elements plus `ReplaysTo`.
  - `ReplayFaithful` is a stand-alone statement about a whole history:
    for any list of exchanges on distinct values (`ApplySwaps`), replaying
    the events they publish (`EventsOf`) reproduces every state. The sorts
    do not go through it; they carry `ReplaysTo` step by step through
    `ReplaysToExchange`, which rests on the same `ReplayStepOfSwap`.
  - It also holds the order predicates (`Sorted`, `Rising`, `NonFalling`,
    `Falling`, ...).
- `InversionCount` (inversions.dfy): the number of out-of-order pairs. Each
  adjacent exchange of bubble and insertion sort removes exactly one.
- `Heaps` (heaps.dfy): the max-heap property in heapify's numbering (the
  children of k are 2k+1 and 2k+2), and the lemmas behind heapify and heap
  sort.
  - `HeapFrom(s, lo, size)` orders every node from lo on.
  - `HeapAt(s, r, size)` orders only the subtree rooted at r.
- `Chains` (chains.dfy): the chains of shell sort. For a gap g, the chain
  from r is the positions r, r + g, r + 2g, ...; `ChainsKept(t, s, g)` says
  each of the g chains of t holds the same elements as in s.
- `Sorting` (int_slice.dfy): the class, plus the pure loop states and the
  lemmas that carry them from one step to the next.

## Model

| member | source | states |
|---|---|---|
| Sorting.IntSlice.constructor | main.go:161-164 | A new slice holds exactly the given values, and nothing has been published yet. |
| Sorting.IntSlice.Len | main.go:33-35 | The length is the number of elements. |
| Sorting.IntSlice.Less | main.go:38-40 | Less(i, j) holds only when the value at i is smaller. When it does not hold, the value at j is no larger than the value at i. |
| Sorting.IntSlice.LessIsStrictOrder | main.go:38-40 | Less is irreflexive, asymmetric and transitive. Two positions neither of which is less than the other hold equal values. |
| Sorting.IntSlice.Swap | main.go:43-47 | The values at i and j are exchanged and every other position is unchanged (`Exchanged`), so the elements are kept. Exactly one event is appended to the log: the pair of values now at i and j. |
| Exchange.SwapAt | main.go:45 | The pure exchange: same length, positions i and j exchanged, everything else unchanged, same elements. |
| Exchange.ExchangedIsSwapAt | main.go:45 | The relation `Exchanged(t, s, i, j)` that Swap ensures holds exactly when t is SwapAt(s, i, j). |
| Exchange.ApplySwaps | main.go:43-47 | Any list of in-bounds exchanges keeps the length and the elements. |
| Exchange.EventsOf | main.go:46 | One event per exchange, in order. The last one is the event of the last exchange. |
| Exchange.EventAfter | main.go:45-46 | The event of the last exchange (i, j) is the pair of values that stood at j and at i before it, which are the values now at i and j. |
| Exchange.RecordSwap | main.go:43-47 | One more exchange extends the state by SwapAt and the event stream by exactly that exchange's event. |
| Exchange.IndexOf | main.go:209-216 | The first position holding a value that occurs in the sequence. |
| Exchange.ReplayStep | main.go:209-216 | Replaying one event succeeds exactly when both of its values are present, and keeps the elements. |
| Exchange.Replay | main.go:209-216 | A successful replay of any event stream keeps the elements. |
| Exchange.ReplayNext | main.go:209-216 | Replaying one more event succeeds only after a successful replay, and keeps the elements. |
| Exchange.ReplayStepOfSwap | main.go:45-46 | On distinct values, the event of one exchange replays to exactly that exchange, and the values stay distinct. |
| Exchange.ReplayFaithful | main.go:43-47 | On distinct initial values, replaying the events of any exchange list reproduces exactly the values those exchanges produce. The published pairs therefore determine the whole history. |
| Exchange.ReplaysToMeans | main.go:209-216 | ReplaysTo(s, es, t) holds exactly when distinct values s replay by es to t. |
| Exchange.DistinctCounts | main.go:166-171 | The values are distinct exactly when each occurs at most once. |
| Exchange.DistinctPermutation | main.go:166-171 | A rearrangement of distinct values is distinct. |
| Exchange.ReplayLast | main.go:209-216 | A non-empty stream replays as its front followed by its last event. |
| Exchange.ReplayAppend | main.go:209-216 | Replaying two streams in a row is replaying the second from where the first led. |
| Exchange.ReplaysToExchange | main.go:43-47 | A faithful replay extended by one more exchange and its event is again faithful, to the exchanged values. |
| Exchange.ReplaysToJoin | main.go:43-47 | Faithful replays s to t and t to u make one from s to u. |
| Exchange.SplitLog | main.go:46 | The events appended since l split at an intermediate log into what came before and after it. |
| Exchange.RearrangedExchange | main.go:43-47 | One more exchange and its event keep a rearrangement accounted for by its events. |
| Exchange.RearrangedJoin | main.go:43-47 | Accounted rearrangements compose. |
| Exchange.RearrangedSplit | main.go:43-47 | In log form: the events since l account for s to u when those up to mid account for s to v and the rest for v to u. |
| Exchange.RearrangedExchangeThen | main.go:43-47 | An exchange, published first, followed by an accounted rearrangement is accounted for as a whole, event by event. |
| Exchange.MultisetKeepsBounds | main.go:103-109 | Sequences with the same elements satisfy the same upper and lower bounds. |
| Exchange.RangeKeepsBounds | main.go:105-107 | Rearranging only one range in place keeps every bound that range satisfied. |
| Exchange.SliceMultiset | main.go:103-109 | Two sequences with the same elements that agree outside a range hold the same elements inside it. |
| InversionCount.CountBelowNone | main.go:50-59 | A value no larger than every element has none below it. |
| InversionCount.SortedHasNoInversions | main.go:50-59 | A sorted sequence has no inversions. |
| InversionCount.CountBelowAdjacentSwap | main.go:55 | An adjacent exchange does not change how many elements lie below a given value. |
| InversionCount.AdjacentSwapRemovesInversion | main.go:54-55 | Exchanging an adjacent out-of-order pair removes exactly one inversion. |
| InversionCount.AdjacentExchangeRemovesInversion | main.go:79-80 | The same, for a result described position by position. |
| Sorting.IntSlice.BubbleSort | main.go:50-59 | Sorted and a permutation. Exactly as many events as the input has inversions, each naming the smaller value first. No events when n <= 1. The events replay from the input to the output. |
| Sorting.IntSlice.BubblePass | main.go:53-57 | One pass over 0..last: the largest of 0..last ends at last, nothing up to last exceeds anything after it, and positions after last are untouched. Each event names the smaller value first and removes one inversion. The events replay to the new values. |
| Sorting.InversionStepsExchange | main.go:54-55 | Exchanging an adjacent out-of-order pair extends a run of inversion-removing, rising, replayable steps by one. |
| Sorting.InversionStepsJoin | main.go:52-58 | Two such runs make one. |
| Sorting.InversionStepsToSorted | main.go:50-59 | A run that ends sorted has exactly as many events as the input had inversions, and none for at most one element. |
| Sorting.BubbleFrontStep | main.go:54-55 | One compare-and-exchange at j carries the largest of 0..j+1 to j+1 and keeps the block after last ordered above the rest. |
| Sorting.BubbleStart | main.go:53 | Before a pass, the front is at 0 and no event has been published. |
| Sorting.BubbleProgressStep | main.go:53-57 | One inner step, exchange or not, moves the front by one and keeps the events accounted for. |
| Sorting.BubbledMore | main.go:52-58 | One more pass grows the sorted tail by one; it stays above everything before it. |
| Sorting.BubbledSorts | main.go:52 | When the outer loop stops, the slice is sorted and the event count is the input's inversion count. |
| Sorting.IntSlice.SelectionSort | main.go:61-72 | Sorted and a permutation. Exactly n-1 events (none when n <= 1), self-exchanges included. The k-th event names the final value at k, and no event names a larger value first. The events replay from the input to the output. |
| Sorting.IntSlice.MinFrom | main.go:64-69 | Returns the first position from i on that holds the smallest of values[i..]. |
| Sorting.SelectionStart | main.go:63 | Before the loop, nothing is placed and no event has been published. |
| Sorting.SelectionStep | main.go:70 | Exchanging i with the position of the smallest from i on places one more element and publishes its non-falling event. |
| Sorting.IntSlice.InsertionSort | main.go:74-84 | Sorted and a permutation. Exactly as many events as the input has inversions, each naming the smaller value first. No events when n <= 1. The events replay from the input to the output. |
| Sorting.IntSlice.InsertAt | main.go:77-82 | With 0..i-1 sorted, walking the element at i left leaves 0..i sorted and positions after i untouched. Each event names the smaller value first and removes one inversion. The events replay to the new values. |
| Sorting.InsertStart | main.go:77-78 | The walk starts with the key at i. |
| Sorting.InsertProgressStep | main.go:79-81 | One exchange with a larger left neighbour keeps the walk's state, with the key one position further left. |
| Sorting.InsertDone | main.go:79 | When the walk stops, 0..i is sorted, positions after i are untouched and every event is accounted for. |
| Sorting.InsertionHoleStep | main.go:79-81 | Exchanging the walking element with a larger left neighbour keeps the rest of 0..i in order. |
| Sorting.InsertionHoleDone | main.go:79 | When the loop stops, 0..i is sorted. |
| Sorting.IntSlice.ShellSort | main.go:86-98 | Sorted and a permutation. Every event names the larger value first. No events when n <= 1. The events replay from the input to the output. |
| Sorting.IntSlice.ShellPass | main.go:89-96 | After one gap, every chain k, k+gap, k+2gap, ... is sorted and holds exactly the elements it held before (`ChainsKept`). Only falling pairs are published, and they replay to the new values. A pass with gap >= n publishes nothing. |
| Sorting.IntSlice.GapInsertAt | main.go:90-95 | With the chains sorted below i, moving the element at i back in steps of gap leaves them sorted up to i. Only positions on i's chain i, i-gap, ... change, and every chain keeps its elements. Only falling pairs are published, and they replay to the new values. |
| Sorting.GapOneSorted | main.go:88 | Sorted chains with gap 1 are a sorted sequence. |
| Sorting.ChainOrdered | main.go:88 | With gap 1, every position holds at most what any later position holds. |
| Sorting.ShellStepsJoin | main.go:88-97 | Two runs of falling, replayable steps make one. |
| Sorting.GapHoleStart | main.go:90-91 | The walk along the chain starts with the element at i. |
| Sorting.GapHoleStep | main.go:92-94 | One exchange with a larger element gap positions back keeps the chain in order except at the hole, which moves gap positions back, and keeps every chain's elements. |
| Sorting.GapHoleDone | main.go:92 | When the walk stops, the chains are sorted up to i, only i's chain changed, and each chain holds its original elements. |
| Chains.ChainSame | main.go:89-96 | Two sequences that agree from r on have the same chain from r. |
| Chains.ChainCons | main.go:92-94 | A chain keeps its elements when its first element is unchanged and the rest keeps its elements. |
| Chains.ChainPair | main.go:93 | Exchanging two neighbours j - gap and j of one chain keeps that chain's elements. |
| Chains.ChainExchange | main.go:93 | Exchanging j with j - gap keeps the elements of every chain not starting at j: the chain through both keeps them as a pair, and every other chain meets neither. |
| Chains.ChainsKeptExchange | main.go:93 | One shell-sort exchange keeps, for each of the gap chains, the elements it held at the start of the pass. |
| Chains.ChainsKeptJoin | main.go:90-95 | Keeping each chain's elements composes across successive walks. |
| Sorting.IntSlice.QuickSort | main.go:100-102 | Sorted and a permutation. No event names a larger value first. No events when n <= 1. The events replay from the input to the output. |
| Sorting.IntSlice.QuickSortRange | main.go:103-109 | Sorts exactly low..high and leaves every other position unchanged. Events are non-falling and replay to the new values. A range of fewer than two positions publishes nothing. Terminates on high - low. |
| Sorting.PartitionedRangesCombine | main.go:105-107 | A partitioned range whose two sides are each sorted in place, their elements kept, is sorted as a whole. |
| Sorting.QuickSortSteps | main.go:104-108 | Partition and the two recursive calls, each with its contract, give low..high sorted, nothing outside moved, and non-falling events that replay from start to end. |
| Sorting.IntSlice.Partition | main.go:110-121 | Returns p with low <= p <= high, holding the original pivot values[high]. Everything in low..p-1 is below it and everything in p+1..high is at least it. Positions outside low..high are unchanged. Exactly p-low+1 events, none falling, the last one the pivot exchange. The events replay to the new values. |
| Sorting.IntSlice.PartitionScan | main.go:111-118 | After the scan, the elements below the pivot fill low..i and the rest of low..high-1 is at least the pivot. The pivot stays at high, nothing outside low..high moves, and there is one non-falling event per element moved to the front. |
| Sorting.PartitionStart | main.go:111-113 | Before the scan, the front is empty and no event has been published. |
| Sorting.PartitionSwapStep | main.go:114-116 | Exchanging an element below the pivot to the front keeps the scan's state, with one more non-falling event. |
| Sorting.PartitionDone | main.go:119-120 | The final exchange puts the pivot between the two sides and publishes its event. |
| Sorting.IntSlice.HeapSort | main.go:123-132 | Sorted and a permutation. At least n-1 events. No events when n <= 1. The events replay from the input to the output. |
| Sorting.IntSlice.BuildMaxHeap | main.go:125-127 | The first loop makes the whole slice a max-heap. Its events replay to the heap. No events when n <= 1. |
| Sorting.BuildStart | main.go:125 | Before the first heapify, every node from n/2 on is a leaf, and so heap-ordered. |
| Sorting.BuildReady | main.go:126 | With every node after i heap-ordered, both children of i root heaps, as heapify needs. |
| Sorting.BuildStep | main.go:125-127 | Heapifying i moves the heap-ordered part down to i and keeps the events accounted for. |
| Sorting.IntSlice.ExtractAll | main.go:128-131 | From a max-heap, the second loop sorts the slice with at least n-1 events, and none when n <= 1. The events replay to the sorted values. |
| Sorting.ExtractStart | main.go:128 | Before the first extraction the whole slice is the heap. |
| Sorting.ExtractStep | main.go:128-131 | One extraction that publishes at least one event moves the loop state from i to i-1. |
| Sorting.ExtractDone | main.go:128 | When the loop stops, the slice is sorted. |
| Sorting.IntSlice.ExtractMax | main.go:129-130 | One extraction: the suffix from i on is sorted and is at least every element of the heap 0..i-1, which is again a max-heap. At least one event, and the events replay to the new values. |
| Sorting.IntSlice.Heapify | main.go:133-148 | With both children's subtrees max-heaps below size, makes the subtree at i a max-heap. Only positions below size in that subtree change. The new root is the old root or one of its children. Every event names the larger value first, and the events replay to the new values. Nothing changes when i >= size. Terminates on size - i. |
| Heaps.HeapRootIsMax | main.go:128-131 | The root of a max-heap is at least every element of the heap. |
| Heaps.LeavesAreHeaps | main.go:125 | Nodes from size/2 on have no children below size. |
| Heaps.SubtreeOfChild | main.go:146 | A child's subtree lies inside its parent's subtree. |
| Heaps.InSubtreeOfRoot | main.go:130 | Every position lies in the root's subtree. |
| Heaps.SiblingSubtreesDisjoint | main.go:145-146 | The two children's subtrees share no position. |
| Heaps.HeapAtAgree | main.go:146 | A subtree that is a heap stays one when nothing in it changes. |
| Heaps.HeapAtSubtree | main.go:146 | Every subtree of a heap subtree is a heap. |
| Heaps.HeapFromGivesHeapAt | main.go:126 | With every node from lo on ordered, each subtree rooted from lo on is a heap. |
| Heaps.HeapAtRootIsHeap | main.go:130 | The root's subtree being a heap makes every node ordered. |
| Heaps.HeapifiedFrom | main.go:126 | Heapifying i, which changes only i's subtree, extends the ordered part from i+1 to i. |
| Heaps.ChildHeapsAfterExchange | main.go:145-146 | After exchanging i with its child l, both children of l still root heaps, as the recursive call needs. |
| Heaps.SiblingUntouched | main.go:145-146 | The sibling subtree of l is not touched by the exchange and the recursive call, so it stays a heap. |
| Heaps.SiftDownStep | main.go:144-147 | After the exchange with the larger child and the recursive heapify, the subtree at i is a max-heap, its new root is the old larger child, and nothing outside it changed. |
| Heaps.SwapRootKeepsHeapBelow | main.go:129 | Moving the root to the end of the heap leaves every node from 1 on a heap over the shrunk range. |
| Heaps.ExtractKeepsOrder | main.go:129-130 | After an extraction the sorted suffix grows by one and stays at least every element before it. |
| Heaps.FirstExtractionState | main.go:128 | A max-heap over the whole slice is the state before the first extraction. |
| Heaps.LastExtractionSorts | main.go:128 | When the loop stops at i = 0, the whole slice is sorted. |

## Left out

- The goroutine and the unbuffered channel: publishing on `informChannel` blocks until the render loop reads, and the channel is closed when a sort ends. The model records each event in `log` and does not model blocking, interleaving or `close`.
- The run loop, window, timing (`timeStop`, sleeps) and the bar drawing (`run`, `shaper`). These are graphics and I/O through an external library. The render loop's matching of event values against `values` is modelled only as `Replay`.
- Input generation with `rand.Shuffle`. The sorts are proved for every input instead; the replay property is stated for distinct inputs, which the program's shuffled 1..n always are.
- The `default` case that calls the standard library's `sort.Sort`, whose algorithm is not part of this model. Flag parsing and the dispatch on the algorithm's name are left out as well.
- Go's 64-bit `int`: the sorts only compare and move values, never compute with them, and every index stays within the slice, so unbounded integers behave the same.
- Sorting.IntSlice.Swap: Go panics when i or j is out of range. The model requires both in range instead, and every call site is proved to meet that.
- Sorting.IntSlice.HeapSort: the number of events is stated only as a lower bound (n-1 root exchanges plus whatever heapify publishes). It depends on the input's heap shape.
- Sorting.IntSlice.ShellSort: the number of events is not stated. Its events are shown to be falling pairs.
- Sorting.IntSlice.QuickSort: the number of events is not stated. Partition's exact count is stated, and the recursion is proved to publish only non-falling pairs.
- ReplaysTo: replay is only claimed for distinct initial values. With repeated values an event no longer determines which positions were exchanged.
