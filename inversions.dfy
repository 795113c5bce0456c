/** Inversion counting: an exchange of an adjacent out-of-order pair removes
    exactly one inversion, which is what fixes the number of events
    bubble sort and insertion sort publish. */
module InversionCount {
  import opened Exchange

  /** Number of elements of s strictly below x. */
  function CountBelow(s: seq<int>, x: int): nat
    decreases |s|
  {
    if s == [] then 0 else (if s[0] < x then 1 else 0) + CountBelow(s[1..], x)
  }

  /** Number of pairs a < b with s[a] > s[b]. */
  function Inversions(s: seq<int>): nat
    decreases |s|
  {
    if s == [] then 0 else CountBelow(s[1..], s[0]) + Inversions(s[1..])
  }

  lemma {:induction false} CountBelowNone(s: seq<int>, x: int)
    requires AllAtLeast(s, x)
    ensures CountBelow(s, x) == 0
    decreases |s|
  {
    if s != [] {
      CountBelowNone(s[1..], x);
    }
  }

  /** A sorted sequence has no inversions. */
  lemma {:induction false} SortedHasNoInversions(s: seq<int>)
    requires Sorted(s)
    ensures Inversions(s) == 0
    decreases |s|
  {
    if s != [] {
      CountBelowNone(s[1..], s[0]);
      SortedHasNoInversions(s[1..]);
    }
  }

  /** Exchanging two adjacent elements does not change how many are below x. */
  lemma {:induction false} CountBelowAdjacentSwap(s: seq<int>, j: int, x: int)
    requires 0 <= j && j + 1 < |s|
    ensures CountBelow(SwapAt(s, j, j + 1), x) == CountBelow(s, x)
    decreases |s|
  {
    var r := SwapAt(s, j, j + 1);
    if j == 0 {
      assert r[1..][1..] == s[1..][1..];
    } else {
      assert r[1..] == SwapAt(s[1..], j - 1, j);
      CountBelowAdjacentSwap(s[1..], j - 1, x);
    }
  }

  /** Exchanging an adjacent out-of-order pair removes exactly one inversion. */
  lemma {:induction false} AdjacentSwapRemovesInversion(s: seq<int>, j: int)
    requires 0 <= j && j + 1 < |s| && s[j] > s[j + 1]
    ensures Inversions(SwapAt(s, j, j + 1)) + 1 == Inversions(s)
    decreases |s|
  {
    var r := SwapAt(s, j, j + 1);
    if j == 0 {
      assert r[1..][1..] == s[1..][1..];
    } else {
      assert r[1..] == SwapAt(s[1..], j - 1, j);
      CountBelowAdjacentSwap(s[1..], j - 1, s[0]);
      AdjacentSwapRemovesInversion(s[1..], j - 1);
    }
  }

  /** The same, for a t given element by element: t is s with the
      out-of-order pair at j and j+1 exchanged. */
  lemma AdjacentExchangeRemovesInversion(s: seq<int>, t: seq<int>, j: int)
    requires 0 <= j && j + 1 < |s| && s[j] > s[j + 1]
    requires Exchanged(t, s, j, j + 1)
    ensures Inversions(t) + 1 == Inversions(s)
  {
    assert t == SwapAt(s, j, j + 1);
    AdjacentSwapRemovesInversion(s, j);
  }
}
