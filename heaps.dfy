/** Binary max-heaps laid out in a sequence: the children of position k are
    2k+1 and 2k+2, as heapify numbers them. */
module Heaps {
  import opened Exchange

  /** Every node at position lo or later, with a child below size, is at
      least as large as that child. HeapFrom(s, 0, size) is a max-heap on
      s[..size]. */
  ghost predicate HeapFrom(s: seq<int>, lo: int, size: int)
    requires size <= |s|
  {
    forall k :: 0 <= lo <= k && 2 * k + 1 < size ==>
      s[2 * k + 1] <= s[k] && (2 * k + 2 < size ==> s[2 * k + 2] <= s[k])
  }

  /** Position k lies in the subtree rooted at position r. */
  predicate InSubtree(r: nat, k: nat)
    decreases k
  {
    k == r || (k > r && InSubtree(r, (k - 1) / 2))
  }

  /** t differs from s at most at positions below size in the subtree at i. */
  predicate SameOutsideSubtree(t: seq<int>, s: seq<int>, size: int, i: nat)
    requires |t| == |s|
  {
    forall k :: 0 <= k < |s| && !(k < size && InSubtree(i, k)) ==> t[k] == s[k]
  }

  /** The new value at i is the old one or one of i's children below size. */
  predicate RootFromTop(t: seq<int>, s: seq<int>, size: int, i: nat)
    requires |t| == |s| && size <= |s|
  {
    i < size ==> t[i] == s[i] || (2 * i + 1 < size && t[i] == s[2 * i + 1])
                              || (2 * i + 2 < size && t[i] == s[2 * i + 2])
  }

  /** The root of a max-heap is its largest element. */
  lemma {:induction false} HeapRootIsMax(s: seq<int>, size: int, k: int)
    requires size <= |s| && HeapFrom(s, 0, size) && 0 <= k < size
    ensures s[k] <= s[0]
    decreases k
  {
    if k > 0 {
      var p := (k - 1) / 2;
      assert 2 * p + 1 == k || 2 * p + 2 == k;
      HeapRootIsMax(s, size, p);
    }
  }

  /** No node at position size / 2 or later has a child below size. */
  lemma LeavesAreHeaps(s: seq<int>, size: int)
    requires 0 <= size <= |s|
    ensures HeapFrom(s, size / 2, size)
  {
  }

  /** The subtree of a child lies inside the subtree of its parent. */
  lemma {:induction false} SubtreeOfChild(i: nat, l: nat, k: nat)
    requires l == 2 * i + 1 || l == 2 * i + 2
    requires InSubtree(l, k)
    ensures InSubtree(i, k)
    decreases k
  {
    if k != l {
      SubtreeOfChild(i, l, (k - 1) / 2);
    }
  }

  /** The subtree rooted at r is a max-heap over the positions below size:
      r is no smaller than its children, and both children's subtrees are
      max-heaps. A root at or beyond size roots an empty subtree. */
  ghost predicate HeapAt(s: seq<int>, r: nat, size: int)
    requires size <= |s|
    decreases size - r
  {
    r >= size ||
      ((2 * r + 1 < size ==> s[2 * r + 1] <= s[r]) && (2 * r + 2 < size ==> s[2 * r + 2] <= s[r])
       && HeapAt(s, 2 * r + 1, size) && HeapAt(s, 2 * r + 2, size))
  }

  /** Every position lies in the subtree of the root. */
  lemma {:induction false} InSubtreeOfRoot(k: nat)
    ensures InSubtree(0, k)
    decreases k
  {
    if k > 0 {
      InSubtreeOfRoot((k - 1) / 2);
    }
  }

  /** The subtrees of two siblings share no position. */
  lemma {:induction false} SiblingSubtreesDisjoint(i: nat, l: nat, o: nat, k: nat)
    requires (l == 2 * i + 1 && o == 2 * i + 2) || (l == 2 * i + 2 && o == 2 * i + 1)
    requires InSubtree(l, k)
    ensures !InSubtree(o, k)
    decreases k
  {
    if k == l {
      assert !InSubtree(o, i);
    } else {
      SiblingSubtreesDisjoint(i, l, o, (k - 1) / 2);
    }
  }

  /** Whether the subtree at r is a max-heap depends only on the values at
      its own positions below size. */
  lemma {:induction false} HeapAtAgree(s: seq<int>, t: seq<int>, r: nat, size: int)
    requires size <= |s| && size <= |t|
    requires forall k: nat :: k < size && InSubtree(r, k) ==> s[k] == t[k]
    requires HeapAt(s, r, size)
    ensures HeapAt(t, r, size)
    decreases size - r
  {
    if r < size {
      assert InSubtree(r, 2 * r + 1) && InSubtree(r, 2 * r + 2);
      forall k: nat | k < size && InSubtree(2 * r + 1, k) ensures s[k] == t[k] {
        SubtreeOfChild(r, 2 * r + 1, k);
      }
      forall k: nat | k < size && InSubtree(2 * r + 2, k) ensures s[k] == t[k] {
        SubtreeOfChild(r, 2 * r + 2, k);
      }
      HeapAtAgree(s, t, 2 * r + 1, size);
      HeapAtAgree(s, t, 2 * r + 2, size);
    }
  }

  /** Inside a max-heap rooted at r, every subtree is a max-heap. */
  lemma {:induction false} HeapAtSubtree(s: seq<int>, r: nat, size: int, k: nat)
    requires size <= |s| && HeapAt(s, r, size) && InSubtree(r, k)
    ensures HeapAt(s, k, size)
    decreases k
  {
    if k != r {
      HeapAtSubtree(s, r, size, (k - 1) / 2);
    }
  }

  /** A heap from lo on makes the subtree of every r >= lo a max-heap. */
  lemma {:induction false} HeapFromGivesHeapAt(s: seq<int>, lo: nat, r: nat, size: int)
    requires size <= |s| && HeapFrom(s, lo, size) && lo <= r
    ensures HeapAt(s, r, size)
    decreases size - r
  {
    if r < size {
      HeapFromGivesHeapAt(s, lo, 2 * r + 1, size);
      HeapFromGivesHeapAt(s, lo, 2 * r + 2, size);
    }
  }

  /** A max-heap rooted at 0 is a max-heap on s[..size]. */
  lemma HeapAtRootIsHeap(s: seq<int>, size: int)
    requires size <= |s| && HeapAt(s, 0, size)
    ensures HeapFrom(s, 0, size)
  {
    forall k | 0 <= k && 2 * k + 1 < size
      ensures s[2 * k + 1] <= s[k] && (2 * k + 2 < size ==> s[2 * k + 2] <= s[k])
    {
      InSubtreeOfRoot(k);
      HeapAtSubtree(s, 0, size, k);
    }
  }

  /** Heapifying at i on top of a heap from i + 1, changing only the
      subtree at i, gives a heap from i: a node outside that subtree has
      its children outside it too. */
  lemma HeapifiedFrom(s0: seq<int>, s1: seq<int>, size: int, i: nat)
    requires size <= |s0| == |s1| && HeapFrom(s0, i + 1, size)
    requires HeapAt(s1, i, size) && SameOutsideSubtree(s1, s0, size, i)
    ensures HeapFrom(s1, i, size)
  {
    forall k | i <= k && 2 * k + 1 < size
      ensures s1[2 * k + 1] <= s1[k] && (2 * k + 2 < size ==> s1[2 * k + 2] <= s1[k])
    {
      if InSubtree(i, k) {
        HeapAtSubtree(s1, i, size, k);
      } else {
        assert !InSubtree(i, 2 * k + 1) && !InSubtree(i, 2 * k + 2);
        assert s0[2 * k + 1] <= s0[k];
      }
    }
  }

  /** Exchanging i with its child l leaves both subtrees below l max-heaps,
      which is what the recursive call needs: none of their positions is i
      or l. */
  lemma ChildHeapsAfterExchange(s0: seq<int>, s1: seq<int>, size: int, i: nat, l: nat)
    requires size <= |s0| && (l == 2 * i + 1 || l == 2 * i + 2)
    requires HeapAt(s0, l, size) && Exchanged(s1, s0, i, l)
    ensures HeapAt(s1, 2 * l + 1, size) && HeapAt(s1, 2 * l + 2, size)
  {
    if l < size {
      HeapAtAgree(s0, s1, 2 * l + 1, size);
      HeapAtAgree(s0, s1, 2 * l + 2, size);
    }
  }

  /** The subtree of i's other child o is untouched by one step of heapify:
      it meets neither i, nor l, nor the subtree at l. */
  lemma SiblingUntouched(s0: seq<int>, s1: seq<int>, s2: seq<int>, size: int, i: nat, l: nat, o: nat)
    requires size <= |s0| == |s1| == |s2|
    requires (l == 2 * i + 1 && o == 2 * i + 2) || (l == 2 * i + 2 && o == 2 * i + 1)
    requires Exchanged(s1, s0, i, l) && SameOutsideSubtree(s2, s1, size, l)
    requires HeapAt(s0, o, size)
    ensures HeapAt(s2, o, size)
  {
    forall k: nat | k < size && InSubtree(o, k) ensures s0[k] == s2[k] {
      SiblingSubtreesDisjoint(i, o, l, k);
      assert InSubtree(l, l);
    }
    HeapAtAgree(s0, s2, o, size);
  }

  /** One step of heapify: both subtrees below i are max-heaps in s0, l is
      the larger child of i and larger than s0[i]; s1 exchanges i and l; s2
      makes the subtree at l a max-heap again, putting at l one of s1[l] and
      its children. Then the subtree at i is a max-heap in s2, with the old
      s0[l] at the root, and nothing outside that subtree changed. */
  lemma SiftDownStep(s0: seq<int>, s1: seq<int>, s2: seq<int>, size: int, i: nat, l: nat)
    requires size <= |s0| == |s1| == |s2|
    requires (l == 2 * i + 1 || l == 2 * i + 2) && l < size
    requires HeapAt(s0, 2 * i + 1, size) && HeapAt(s0, 2 * i + 2, size)
    requires s0[i] < s0[l]
    requires 2 * i + 1 < size ==> s0[2 * i + 1] <= s0[l]
    requires 2 * i + 2 < size ==> s0[2 * i + 2] <= s0[l]
    requires Exchanged(s1, s0, i, l)
    requires HeapAt(s2, l, size)
    requires SameOutsideSubtree(s2, s1, size, l)
    requires RootFromTop(s2, s1, size, l)
    ensures HeapAt(s2, i, size)
    ensures RootFromTop(s2, s0, size, i)
    ensures SameOutsideSubtree(s2, s0, size, i)
  {
    var o := if l == 2 * i + 1 then 2 * i + 2 else 2 * i + 1;
    assert !InSubtree(l, i) && !InSubtree(l, o);
    assert s2[i] == s0[l];
    assert 2 * i + 1 == l ==> s2[i] == s0[2 * i + 1];
    assert 2 * i + 2 == l ==> s2[i] == s0[2 * i + 2];
    forall k | 0 <= k < |s0| && !(k < size && InSubtree(i, k)) ensures s2[k] == s0[k] {
      if k < size && InSubtree(l, k) {
        SubtreeOfChild(i, l, k);
      }
      assert k != i && (k != l || InSubtree(i, l));
    }
    assert s2[l] <= s0[l] by {
      if 2 * l + 1 < size {
        assert s0[2 * l + 1] <= s0[l];
      }
      if 2 * l + 2 < size {
        assert s0[2 * l + 2] <= s0[l];
      }
    }
    SiblingUntouched(s0, s1, s2, size, i, l, o);
  }

  /** Exchanging the root of the heap s0[..i+1] with its last position i
      leaves every node from 1 on a heap over s1[..i], so both subtrees
      below the root are max-heaps. */
  lemma SwapRootKeepsHeapBelow(s0: seq<int>, s1: seq<int>, i: int)
    requires 0 < i < |s0| == |s1|
    requires HeapFrom(s0, 0, i + 1)
    requires Exchanged(s1, s0, 0, i)
    ensures HeapFrom(s1, 1, i)
    ensures HeapAt(s1, 1, i) && HeapAt(s1, 2, i)
  {
    forall k | 1 <= k && 2 * k + 1 < i
      ensures s1[2 * k + 1] <= s1[k] && (2 * k + 2 < i ==> s1[2 * k + 2] <= s1[k])
    {
      assert s0[2 * k + 1] <= s0[k];
    }
    HeapFromGivesHeapAt(s1, 1, 1, i);
    HeapFromGivesHeapAt(s1, 1, 2, i);
  }

  /** The state of heap sort's second loop at i: s[..i+1] is a max-heap,
      s[i+1..] is sorted, and nothing in the heap exceeds s[i+1]. */
  ghost predicate ExtractionState(s: seq<int>, i: int) {
    0 <= i < |s| && HeapFrom(s, 0, i + 1)
    && (forall a, b :: i < a < b < |s| ==> s[a] <= s[b])
    && (i + 1 < |s| ==> AllAtMost(s[..i + 1], s[i + 1]))
  }

  /** One extraction of heap sort moves the loop state from i to i - 1: s1
      moves the root of s0's heap to i, and s2 rearranges only ..i, into a
      max-heap with the same elements. */
  lemma ExtractKeepsOrder(s0: seq<int>, s1: seq<int>, s2: seq<int>, i: int)
    requires 0 < i && ExtractionState(s0, i) && |s1| == |s2| == |s0|
    requires Exchanged(s1, s0, 0, i)
    requires multiset(s2) == multiset(s1)
    requires SameOutsideSubtree(s2, s1, i, 0)
    requires HeapAt(s2, 0, i)
    ensures ExtractionState(s2, i - 1)
  {
    HeapAtRootIsHeap(s2, i);
    forall k | 0 <= k < i ensures s1[k] <= s0[0] {
      HeapRootIsMax(s0, i + 1, if k == 0 then i else k);
    }
    assert AllAtMost(s1[..i], s0[0]);
    forall k | i <= k < |s1| ensures s2[k] == s1[k] {
      assert !(k < i);
    }
    SliceMultiset(s2, s1, 0, i);
    MultisetKeepsBounds(s2[..i], s1[..i], s0[0]);
    if i + 1 < |s0| {
      assert s0[0] <= s0[i + 1] by {
        assert s0[0] == s0[..i + 1][0];
      }
    }
  }

  /** A max-heap over all of s is the state before the first extraction. */
  lemma FirstExtractionState(s: seq<int>)
    requires 0 < |s| && HeapFrom(s, 0, |s|)
    ensures ExtractionState(s, |s| - 1)
  {
  }

  /** When heap sort's second loop stops at 0, s[1..] is sorted and s[0] is
      no larger than s[1]: the whole of s is sorted. */
  lemma LastExtractionSorts(s: seq<int>)
    requires ExtractionState(s, 0)
    ensures Sorted(s)
  {
    forall a, b | 0 <= a < b < |s| ensures s[a] <= s[b] {
      if a == 0 {
        assert s[0] == s[..1][0];
      }
    }
  }
}
