/** Pure view of the exchange-observable sequence: what one exchange does to
    the values, what event it publishes, and how a stream of events can be
    replayed against the initial values. */
module Exchange {

  datatype Option<T> = None | Some(value: T)

  /** One published exchange: the pair (new value at i, new value at j). */
  type Event = (int, int)

  /** The positions of one exchange, in the order Swap received them. */
  type SwapPair = (int, int)

  /** The values after exchanging positions i and j (i == j leaves them as they are). */
  function SwapAt(s: seq<int>, i: int, j: int): (r: seq<int>)
    requires 0 <= i < |s| && 0 <= j < |s|
    ensures |r| == |s| && r[i] == s[j] && r[j] == s[i]
    ensures forall k :: 0 <= k < |s| && k != i && k != j ==> r[k] == s[k]
    ensures multiset(r) == multiset(s)
  {
    s[i := s[j]][j := s[i]]
  }

  /** t is s with positions i and j exchanged. */
  predicate Exchanged(t: seq<int>, s: seq<int>, i: int, j: int)
  {
    |t| == |s| && 0 <= i < |s| && 0 <= j < |s| && t[i] == s[j] && t[j] == s[i]
    && forall k :: 0 <= k < |s| && k != i && k != j ==> t[k] == s[k]
  }

  /** Exchanged is SwapAt stated as a relation: t is s with i and j
      exchanged exactly when t is SwapAt(s, i, j). */
  lemma ExchangedIsSwapAt(t: seq<int>, s: seq<int>, i: int, j: int)
    requires 0 <= i < |s| && 0 <= j < |s|
    ensures Exchanged(t, s, i, j) <==> t == SwapAt(s, i, j)
  {
    if Exchanged(t, s, i, j) {
      assert t == SwapAt(s, i, j);
    }
  }

  predicate Sorted(s: seq<int>) {
    forall a, b :: 0 <= a < b < |s| ==> s[a] <= s[b]
  }

  predicate Distinct(s: seq<int>) {
    forall a, b :: 0 <= a < b < |s| ==> s[a] != s[b]
  }

  predicate AllBelow(s: seq<int>, x: int) {
    forall k :: 0 <= k < |s| ==> s[k] < x
  }

  predicate AllAtLeast(s: seq<int>, x: int) {
    forall k :: 0 <= k < |s| ==> x <= s[k]
  }

  predicate AllAtMost(s: seq<int>, x: int) {
    forall k :: 0 <= k < |s| ==> s[k] <= x
  }

  /** Every event names a smaller value first. */
  predicate Rising(es: seq<Event>) {
    forall k :: 0 <= k < |es| ==> es[k].0 < es[k].1
  }

  /** Every event names a value no larger than the second first. */
  predicate NonFalling(es: seq<Event>) {
    forall k :: 0 <= k < |es| ==> es[k].0 <= es[k].1
  }

  /** Every event names a larger value first. */
  predicate Falling(es: seq<Event>) {
    forall k :: 0 <= k < |es| ==> es[k].0 > es[k].1
  }

  /** Every recorded exchange names two positions of a sequence of length n. */
  predicate InBounds(n: int, w: seq<SwapPair>) {
    forall k :: 0 <= k < |w| ==> 0 <= w[k].0 < n && 0 <= w[k].1 < n
  }

  /** The values after applying the exchanges of w, first to last. */
  function ApplySwaps(s: seq<int>, w: seq<SwapPair>): (r: seq<int>)
    requires InBounds(|s|, w)
    ensures |r| == |s| && multiset(r) == multiset(s)
    decreases |w|
  {
    if w == [] then s
    else
      var last := w[|w| - 1];
      SwapAt(ApplySwaps(s, w[..|w| - 1]), last.0, last.1)
  }

  /** The events the exchanges of w publish, one per exchange and in order:
      each is the pair of values at the two positions just after it. */
  function EventsOf(s: seq<int>, w: seq<SwapPair>): (r: seq<Event>)
    requires InBounds(|s|, w)
    ensures |r| == |w|
    ensures w != [] ==> r[|w| - 1] == EventAfter(s, w)
    decreases |w|
  {
    if w == [] then []
    else
      EventsOf(s, w[..|w| - 1]) + [EventAfter(s, w)]
  }

  /** The event the last exchange of a non-empty w publishes. */
  function EventAfter(s: seq<int>, w: seq<SwapPair>): (e: Event)
    requires InBounds(|s|, w) && w != []
    ensures e.0 == ApplySwaps(s, w[..|w| - 1])[w[|w| - 1].1]
    ensures e.1 == ApplySwaps(s, w[..|w| - 1])[w[|w| - 1].0]
  {
    var t := ApplySwaps(s, w);
    (t[w[|w| - 1].0], t[w[|w| - 1].1])
  }

  lemma InBoundsPrefix(n: int, w: seq<SwapPair>, m: nat)
    requires InBounds(n, w) && m <= |w|
    ensures InBounds(n, w[..m])
  {
  }

  /** Recording one more in-bounds exchange extends the state and the event
      stream by exactly that exchange and its event. */
  lemma {:induction false} RecordSwap(s: seq<int>, w: seq<SwapPair>, i: int, j: int)
    requires InBounds(|s|, w) && 0 <= i < |s| && 0 <= j < |s|
    ensures InBounds(|s|, w + [(i, j)])
    ensures ApplySwaps(s, w + [(i, j)]) == SwapAt(ApplySwaps(s, w), i, j)
    ensures EventsOf(s, w + [(i, j)])
            == EventsOf(s, w) + [(SwapAt(ApplySwaps(s, w), i, j)[i], SwapAt(ApplySwaps(s, w), i, j)[j])]
  {
    var w' := w + [(i, j)];
    assert w'[..|w'| - 1] == w;
  }

  /** Position of the first occurrence of x in s. */
  function IndexOf(s: seq<int>, x: int): (r: nat)
    requires x in s
    ensures r < |s| && s[r] == x
    ensures forall k :: 0 <= k < r ==> s[k] != x
  {
    if s[0] == x then 0 else 1 + IndexOf(s[1..], x)
  }

  /** What a consumer that knows only values does with one event: exchange
      the positions where the two named values are found. */
  function ReplayStep(t: seq<int>, e: Event): (r: Option<seq<int>>)
    ensures r.Some? <==> e.0 in t && e.1 in t
    ensures r.Some? ==> multiset(r.value) == multiset(t)
  {
    if e.0 in t && e.1 in t then Some(SwapAt(t, IndexOf(t, e.0), IndexOf(t, e.1)))
    else None
  }

  /** Replay a whole event stream, first to last; None once an event names
      a value that is not present. */
  function Replay(s: seq<int>, events: seq<Event>): (r: Option<seq<int>>)
    ensures r.Some? ==> multiset(r.value) == multiset(s)
    decreases |events|
  {
    if events == [] then Some(s)
    else ReplayNext(Replay(s, events[..|events| - 1]), events[|events| - 1])
  }

  /** Replay one more event after a replay that may already have failed. */
  function ReplayNext(r: Option<seq<int>>, e: Event): (r': Option<seq<int>>)
    ensures r'.Some? ==> r.Some? && multiset(r'.value) == multiset(r.value)
  {
    match r
    case None => None
    case Some(t) => ReplayStep(t, e)
  }

  /** With distinct values an event determines its exchange: replaying the
      event of SwapAt(t, i, j) on t gives SwapAt(t, i, j) back. */
  lemma ReplayStepOfSwap(t: seq<int>, i: int, j: int)
    requires Distinct(t) && 0 <= i < |t| && 0 <= j < |t|
    ensures Distinct(SwapAt(t, i, j))
    ensures ReplayStep(t, (SwapAt(t, i, j)[i], SwapAt(t, i, j)[j])) == Some(SwapAt(t, i, j))
  {
    var u := SwapAt(t, i, j);
    assert u[i] == t[j] && u[j] == t[i];
    assert IndexOf(t, t[j]) == j;
    assert IndexOf(t, t[i]) == i;
    var v := SwapAt(t, j, i);
    assert v == u;
    forall a, b | 0 <= a < b < |u| ensures u[a] != u[b] {
      var a' := if a == i then j else if a == j then i else a;
      var b' := if b == i then j else if b == j then i else b;
      assert u[a] == t[a'] && u[b] == t[b'];
    }
  }

  /** The event stream is a faithful log: when the initial values are
      distinct, replaying the events of w against them reproduces exactly
      the values the exchanges of w produce. */
  lemma {:induction false} ReplayFaithful(s: seq<int>, w: seq<SwapPair>)
    requires Distinct(s) && InBounds(|s|, w)
    ensures Distinct(ApplySwaps(s, w))
    ensures Replay(s, EventsOf(s, w)) == Some(ApplySwaps(s, w))
    decreases |w|
  {
    if w != [] {
      var w0 := w[..|w| - 1];
      var p := w[|w| - 1];
      assert w == w0 + [p];
      InBoundsPrefix(|s|, w, |w| - 1);
      ReplayFaithful(s, w0);
      RecordSwap(s, w0, p.0, p.1);
      var t := ApplySwaps(s, w0);
      ReplayStepOfSwap(t, p.0, p.1);
      var es := EventsOf(s, w);
      assert es[..|es| - 1] == EventsOf(s, w0);
    }
  }

  /** Every value occurs in s at most once: Distinct, stated through the
      multiset of s (the two agree by DistinctCounts). */
  ghost predicate EachOnce(s: seq<int>) {
    forall x :: multiset(s)[x] <= 1
  }

  /** Replaying the events es by value against s leads to t, whenever the
      values of s are distinct; ReplaysToMeans states it in exactly those
      words. The body quantifies over every u equal to s so that a proof
      unfolds Replay only where it asks about it. */
  ghost predicate ReplaysTo(s: seq<int>, es: seq<Event>, t: seq<int>) {
    forall u :: u == s && EachOnce(u) ==> Replay(u, es) == Some(t)
  }

  /** Distinct values are those that each occur at most once. */
  lemma {:induction false} DistinctCounts(s: seq<int>)
    ensures Distinct(s) <==> forall x :: multiset(s)[x] <= 1
    decreases |s|
  {
    if s != [] {
      var h, r := s[0], s[1..];
      DistinctCounts(r);
      assert s == [h] + r;
      assert multiset(s) == multiset{h} + multiset(r);
      if Distinct(s) {
        forall a, b | 0 <= a < b < |r| ensures r[a] != r[b] {
          assert r[a] == s[a + 1] && r[b] == s[b + 1];
        }
        forall k | 0 <= k < |r| ensures r[k] != h {
          assert r[k] == s[k + 1];
        }
        assert h !in multiset(r);
      } else {
        var a, b :| 0 <= a < b < |s| && s[a] == s[b];
        if a == 0 {
          assert r[b - 1] == h;
          assert h in multiset(r);
          assert multiset(s)[h] >= 2;
        } else {
          assert r[a - 1] == r[b - 1];
          assert !Distinct(r);
          var x :| multiset(r)[x] > 1;
          assert multiset(s)[x] > 1;
        }
      }
    }
  }

  /** What ReplaysTo says: when the values of s are distinct, replaying es
      against s succeeds and yields exactly t. */
  lemma ReplaysToMeans(s: seq<int>, es: seq<Event>, t: seq<int>)
    ensures ReplaysTo(s, es, t) <==> (Distinct(s) ==> Replay(s, es) == Some(t))
  {
    DistinctCounts(s);
  }

  /** A rearrangement of distinct values is distinct. */
  lemma DistinctPermutation(s: seq<int>, t: seq<int>)
    requires Distinct(s) && multiset(t) == multiset(s)
    ensures Distinct(t)
  {
    DistinctCounts(s);
    DistinctCounts(t);
  }

  /** A non-empty stream replays as its front followed by its last event. */
  lemma ReplayLast(s: seq<int>, es: seq<Event>)
    requires es != []
    ensures Replay(s, es) == ReplayNext(Replay(s, es[..|es| - 1]), es[|es| - 1])
  {
  }

  /** Replaying two streams one after the other is replaying the second
      from wherever the first led. */
  lemma {:induction false} ReplayAppend(s: seq<int>, e1: seq<Event>, t: seq<int>, e2: seq<Event>)
    requires Replay(s, e1) == Some(t)
    ensures Replay(s, e1 + e2) == Replay(t, e2)
    decreases |e2|
  {
    if e2 == [] {
      assert e1 + e2 == e1;
    } else {
      var front, last := e2[..|e2| - 1], e2[|e2| - 1];
      ReplayAppend(s, e1, t, front);
      var es := e1 + e2;
      assert es[..|es| - 1] == e1 + front;
      assert es[|es| - 1] == last;
      ReplayLast(s, es);
      ReplayLast(t, e2);
    }
  }

  /** One more exchange, published as the pair of values now at its two
      positions, extends a faithful replay by exactly that exchange. */
  lemma ReplaysToExchange(s: seq<int>, es: seq<Event>, t: seq<int>, u: seq<int>, i: int, j: int)
    requires ReplaysTo(s, es, t) && multiset(t) == multiset(s) && Exchanged(u, t, i, j)
    ensures ReplaysTo(s, es + [(u[i], u[j])], u)
  {
    if EachOnce(s) {
      DistinctCounts(s);
      DistinctPermutation(s, t);
      assert u == SwapAt(t, i, j);
      ReplayStepOfSwap(t, i, j);
      assert [(u[i], u[j])][..0] == [];
      ReplayAppend(s, es, t, [(u[i], u[j])]);
    }
  }

  /** Faithful replays compose: s to t by e1, then t to u by e2. */
  lemma ReplaysToJoin(s: seq<int>, e1: seq<Event>, t: seq<int>, e2: seq<Event>, u: seq<int>)
    requires ReplaysTo(s, e1, t) && multiset(t) == multiset(s) && ReplaysTo(t, e2, u)
    ensures ReplaysTo(s, e1 + e2, u)
  {
    if EachOnce(s) {
      DistinctCounts(s);
      DistinctPermutation(s, t);
      ReplayAppend(s, e1, t, e2);
    }
  }

  /** The events appended since l, split at an intermediate log mid. */
  lemma SplitLog(l: seq<Event>, mid: seq<Event>, log: seq<Event>)
    requires l <= mid <= log
    ensures log[|l|..] == mid[|l|..] + log[|mid|..]
  {
  }

  /** t is a rearrangement of s that the events es account for: they
      replay by value from s to t whenever the values of s are distinct. */
  ghost predicate Rearranged(s: seq<int>, es: seq<Event>, t: seq<int>) {
    multiset(t) == multiset(s) && ReplaysTo(s, es, t)
  }

  /** One more exchange, with its event, keeps a rearrangement accounted
      for. */
  lemma RearrangedExchange(s: seq<int>, es: seq<Event>, t: seq<int>, u: seq<int>, i: int, j: int)
    requires Rearranged(s, es, t) && Exchanged(u, t, i, j)
    ensures Rearranged(s, es + [(u[i], u[j])], u)
  {
    assert u == SwapAt(t, i, j);
    ReplaysToExchange(s, es, t, u, i, j);
  }

  /** Accounted rearrangements compose. */
  lemma RearrangedJoin(s: seq<int>, e1: seq<Event>, t: seq<int>, e2: seq<Event>, u: seq<int>)
    requires Rearranged(s, e1, t) && Rearranged(t, e2, u)
    ensures Rearranged(s, e1 + e2, u)
  {
    ReplaysToJoin(s, e1, t, e2, u);
  }

  /** The log form of RearrangedJoin: the events appended since l account
      for s to u when those up to mid account for s to v and the rest for
      v to u. */
  lemma RearrangedSplit(s: seq<int>, l: seq<Event>, v: seq<int>, mid: seq<Event>, log: seq<Event>, u: seq<int>)
    requires l <= mid <= log
    requires Rearranged(s, mid[|l|..], v) && Rearranged(v, log[|mid|..], u)
    ensures Rearranged(s, log[|l|..], u)
  {
    SplitLog(l, mid, log);
    RearrangedJoin(s, mid[|l|..], v, log[|mid|..], u);
  }

  /** The log form for an exchange of s into t published as l1 = l + [its
      event], followed by a rearrangement of t accounted for by what came
      after l1. */
  lemma RearrangedExchangeThen(s: seq<int>, t: seq<int>, i: int, j: int, l: seq<Event>, l1: seq<Event>, log: seq<Event>, u: seq<int>)
    requires Exchanged(t, s, i, j) && l1 == l + [(t[i], t[j])] && l1 <= log
    requires Rearranged(t, log[|l1|..], u)
    ensures log[|l|..] == [(t[i], t[j])] + log[|l1|..]
    ensures Rearranged(s, log[|l|..], u)
  {
    RearrangedExchange(s, [], s, t, i, j);
    assert [] + [(t[i], t[j])] == l1[|l|..];
    RearrangedSplit(s, l, t, l1, log, u);
  }

  /** Two sequences with the same elements satisfy the same bounds. */
  lemma MultisetKeepsBounds(s: seq<int>, t: seq<int>, x: int)
    requires multiset(s) == multiset(t)
    ensures AllBelow(t, x) ==> AllBelow(s, x)
    ensures AllAtLeast(t, x) ==> AllAtLeast(s, x)
    ensures AllAtMost(t, x) ==> AllAtMost(s, x)
  {
    forall k | 0 <= k < |s| ensures s[k] in t {
      assert s[k] in multiset(s);
    }
  }

  /** Rearranging only lo..hi-1 in place keeps every bound that range
      satisfied: what was below x, or at least x, still is. */
  lemma RangeKeepsBounds(s: seq<int>, t: seq<int>, lo: int, hi: int, x: int)
    requires 0 <= lo <= hi <= |s| == |t|
    requires multiset(s) == multiset(t)
    requires forall k :: 0 <= k < |s| && !(lo <= k < hi) ==> s[k] == t[k]
    ensures (forall k :: lo <= k < hi ==> t[k] < x) ==> forall k :: lo <= k < hi ==> s[k] < x
    ensures (forall k :: lo <= k < hi ==> x <= t[k]) ==> forall k :: lo <= k < hi ==> x <= s[k]
  {
    SliceMultiset(s, t, lo, hi);
    MultisetKeepsBounds(s[lo..hi], t[lo..hi], x);
    if forall k :: lo <= k < hi ==> t[k] < x {
      assert AllBelow(t[lo..hi], x);
      forall k | lo <= k < hi ensures s[k] < x {
        assert s[k] == s[lo..hi][k - lo];
      }
    }
    if forall k :: lo <= k < hi ==> x <= t[k] {
      assert AllAtLeast(t[lo..hi], x);
      forall k | lo <= k < hi ensures x <= s[k] {
        assert s[k] == s[lo..hi][k - lo];
      }
    }
  }

  /** If s and t agree outside [lo, hi) and hold the same elements, they
      hold the same elements inside [lo, hi). */
  lemma SliceMultiset(s: seq<int>, t: seq<int>, lo: int, hi: int)
    requires 0 <= lo <= hi <= |s| == |t|
    requires multiset(s) == multiset(t)
    requires forall k :: 0 <= k < |s| && !(lo <= k < hi) ==> s[k] == t[k]
    ensures multiset(s[lo..hi]) == multiset(t[lo..hi])
  {
    assert s[..lo] == t[..lo];
    assert s[hi..] == t[hi..];
    assert s == s[..lo] + s[lo..hi] + s[hi..];
    assert t == t[..lo] + t[lo..hi] + t[hi..];
    var a, b := multiset(s[..lo]), multiset(s[hi..]);
    var x, y := multiset(s[lo..hi]), multiset(t[lo..hi]);
    assert multiset(s) == a + x + b;
    assert multiset(t) == a + y + b;
    assert x == a + x + b - a - b;
  }
}
