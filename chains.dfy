/** The chains shell sort works on: for a gap g, the positions r, r + g,
    r + 2g, ... The pass with gap g only ever exchanges two neighbours on
    one chain, so each chain keeps its own elements. */
module Chains {
  import opened Exchange

  /** The elements of the chain of s that starts at r: s[r], s[r + gap],
      s[r + 2gap], ..., as a multiset. */
  ghost function ChainBag(s: seq<int>, gap: int, r: int): multiset<int>
    requires 1 <= gap && 0 <= r
    decreases |s| - r
  {
    if r >= |s| then multiset{} else multiset{s[r]} + ChainBag(s, gap, r + gap)
  }

  /** Each of the gap chains of t, those starting at 0..gap-1, holds the
      same elements as the same chain of s: no element has left its chain. */
  ghost predicate ChainsKept(t: seq<int>, s: seq<int>, gap: int) {
    1 <= gap && |t| == |s|
    && forall r :: 0 <= r < gap ==> ChainBag(t, gap, r) == ChainBag(s, gap, r)
  }

  /** A chain whose first element is unchanged keeps its elements when the
      rest of it does. */
  lemma {:induction false} ChainCons(s: seq<int>, t: seq<int>, gap: int, r: int)
    requires 1 <= gap && 0 <= r < |s| == |t| && s[r] == t[r]
    requires ChainBag(t, gap, r + gap) == ChainBag(s, gap, r + gap)
    ensures ChainBag(t, gap, r) == ChainBag(s, gap, r)
  {
    assert ChainBag(t, gap, r) == multiset{t[r]} + ChainBag(t, gap, r + gap);
    assert ChainBag(s, gap, r) == multiset{s[r]} + ChainBag(s, gap, r + gap);
  }

  /** Sequences that agree from r on have the same chain from r. */
  lemma {:induction false} ChainSame(s: seq<int>, t: seq<int>, gap: int, r: int)
    requires 1 <= gap && 0 <= r && |s| == |t|
    requires forall k :: r <= k < |s| ==> s[k] == t[k]
    ensures ChainBag(t, gap, r) == ChainBag(s, gap, r)
    decreases |s| - r
  {
    if r < |s| {
      ChainSame(s, t, gap, r + gap);
      assert s[r] == t[r];
      ChainCons(s, t, gap, r);
    }
  }

  /** A chain that is not empty is its first element and the chain after it. */
  lemma ChainHead(s: seq<int>, gap: int, r: int)
    requires 1 <= gap && 0 <= r < |s|
    ensures ChainBag(s, gap, r) == multiset{s[r]} + ChainBag(s, gap, r + gap)
  {
  }

  /** Exchanging the neighbours j - gap and j of one chain keeps its
      elements, when the rest of the chain after them does. */
  lemma {:induction false} ChainPair(s: seq<int>, t: seq<int>, gap: int, j: int)
    requires 1 <= gap <= j < |s| == |t| && t[j] == s[j - gap] && t[j - gap] == s[j]
    requires ChainBag(t, gap, j + gap) == ChainBag(s, gap, j + gap)
    ensures ChainBag(t, gap, j - gap) == ChainBag(s, gap, j - gap)
  {
    ChainHead(s, gap, j - gap);
    ChainHead(s, gap, j);
    ChainHead(t, gap, j - gap);
    ChainHead(t, gap, j);
  }

  /** A chain starting after j meets neither exchanged position. */
  lemma ChainAfter(s: seq<int>, t: seq<int>, gap: int, j: int, r: int)
    requires 1 <= gap <= j < |s| && Exchanged(t, s, j, j - gap) && j < r
    ensures ChainBag(t, gap, r) == ChainBag(s, gap, r)
  {
    ChainSame(s, t, gap, r);
  }

  /** The chain through j - gap and j keeps its elements. */
  lemma ChainAt(s: seq<int>, t: seq<int>, gap: int, j: int)
    requires 1 <= gap <= j < |s| && Exchanged(t, s, j, j - gap)
    ensures ChainBag(t, gap, j - gap) == ChainBag(s, gap, j - gap)
  {
    ChainSame(s, t, gap, j + gap);
    ChainPair(s, t, gap, j);
  }

  /** A chain starting before j at any position but j - gap has an
      untouched first element. */
  lemma ChainBefore(s: seq<int>, t: seq<int>, gap: int, j: int, r: int)
    requires 1 <= gap <= j < |s| && Exchanged(t, s, j, j - gap) && 0 <= r < j && r != j - gap
    requires ChainBag(t, gap, r + gap) == ChainBag(s, gap, r + gap)
    ensures ChainBag(t, gap, r) == ChainBag(s, gap, r)
  {
    assert t[r] == s[r];
    ChainCons(s, t, gap, r);
  }

  /** A chain starting strictly between j - gap and j passes neither. */
  lemma ChainBetween(s: seq<int>, t: seq<int>, gap: int, j: int, r: int)
    requires 1 <= gap <= j < |s| && Exchanged(t, s, j, j - gap) && j - gap < r < j
    ensures ChainBag(t, gap, r) == ChainBag(s, gap, r)
  {
    ChainSame(s, t, gap, r + gap);
    ChainBefore(s, t, gap, j, r);
  }

  /** Exchanging j with j - gap keeps the elements of every chain that
      does not start at j itself: the two positions are neighbours on one
      chain, and every other chain avoids both. */
  lemma {:induction false} ChainExchange(s: seq<int>, t: seq<int>, gap: int, j: int, r: int)
    requires 1 <= gap <= j < |s| && Exchanged(t, s, j, j - gap) && 0 <= r && r != j
    ensures ChainBag(t, gap, r) == ChainBag(s, gap, r)
    decreases |s| - r
  {
    if j < r {
      ChainAfter(s, t, gap, j, r);
    } else if r == j - gap {
      ChainAt(s, t, gap, j);
    } else if r < j - gap {
      ChainExchange(s, t, gap, j, r + gap);
      ChainBefore(s, t, gap, j, r);
    } else {
      ChainBetween(s, t, gap, j, r);
    }
  }

  /** One exchange of shell sort, of j with j - gap, keeps every chain's
      elements. */
  lemma ChainsKeptExchange(s: seq<int>, t: seq<int>, s0: seq<int>, gap: int, j: int)
    requires ChainsKept(s, s0, gap) && gap <= j < |s| && Exchanged(t, s, j, j - gap)
    ensures ChainsKept(t, s0, gap)
  {
    forall r | 0 <= r < gap
      ensures ChainBag(t, gap, r) == ChainBag(s, gap, r)
    {
      ChainExchange(s, t, gap, j, r);
    }
  }

  /** Keeping every chain's elements composes. */
  lemma ChainsKeptJoin(u: seq<int>, t: seq<int>, s: seq<int>, gap: int)
    requires ChainsKept(u, t, gap) && ChainsKept(t, s, gap)
    ensures ChainsKept(u, s, gap)
  {
  }
}
