/**
 * The display order of columns. The column comparator only ever compares a
 * rank: select column, then group-by columns by their group-by position, then
 * frozen columns, then the rest. `Array.prototype.sort` is stable, so sorting
 * with such a comparator yields the unique order that is ascending in
 * (rank, input position). `StableOrder` computes that order as a list of input
 * positions, bucket by bucket.
 */
module ColumnOrder {

  /** Input positions `i < n` whose rank is `r`, ascending. */
  function Bucket(ranks: seq<nat>, r: nat, n: nat): seq<nat>
    requires n <= |ranks|
  {
    if n == 0 then []
    else Bucket(ranks, r, n - 1) + (if ranks[n - 1] == r then [n - 1] else [])
  }

  /** The positions of rank below `r`, bucket 0 first. */
  function OrderBelow(ranks: seq<nat>, r: nat): seq<nat>
  {
    if r == 0 then [] else OrderBelow(ranks, r - 1) + Bucket(ranks, r - 1, |ranks|)
  }

  /** The largest rank (0 for no ranks). */
  function MaxRank(ranks: seq<nat>): (m: nat)
    ensures forall i :: 0 <= i < |ranks| ==> ranks[i] <= m
  {
    if ranks == [] then 0
    else
      var m := MaxRank(ranks[..|ranks| - 1]);
      if ranks[|ranks| - 1] > m then ranks[|ranks| - 1] else m
  }

  /** The stable sort of positions `0 .. |ranks|-1` by rank. */
  function StableOrder(ranks: seq<nat>): seq<nat>
  {
    OrderBelow(ranks, MaxRank(ranks) + 1)
  }

  /** Position `i` comes before position `j` in a stable sort by rank. */
  predicate Before(ranks: seq<nat>, i: nat, j: nat)
    requires i < |ranks| && j < |ranks|
  {
    ranks[i] < ranks[j] || (ranks[i] == ranks[j] && i < j)
  }

  /** `order` lists positions of `ranks`, strictly ascending in (rank, position). */
  predicate SortedByRank(ranks: seq<nat>, order: seq<nat>)
  {
    && (forall a :: 0 <= a < |order| ==> order[a] < |ranks|)
    && (forall a, b :: 0 <= a < b < |order| ==> Before(ranks, order[a], order[b]))
  }

  /** Number of positions `i < n` of rank `r`. */
  function CountRank(ranks: seq<nat>, r: nat, n: nat): nat
    requires n <= |ranks|
  {
    if n == 0 then 0 else CountRank(ranks, r, n - 1) + (if ranks[n - 1] == r then 1 else 0)
  }

  /** Number of positions `i < n` of rank below `r`. */
  function CountBelow(ranks: seq<nat>, r: nat, n: nat): nat
    requires n <= |ranks|
  {
    if n == 0 then 0 else CountBelow(ranks, r, n - 1) + (if ranks[n - 1] < r then 1 else 0)
  }

  lemma {:induction false} BucketLength(ranks: seq<nat>, r: nat, n: nat)
    requires n <= |ranks|
    ensures |Bucket(ranks, r, n)| == CountRank(ranks, r, n)
  {
    if n > 0 {
      BucketLength(ranks, r, n - 1);
    }
  }

  /** A bucket holds exactly the positions below `n` of rank `r`. */
  lemma {:induction false} BucketMembers(ranks: seq<nat>, r: nat, n: nat)
    requires n <= |ranks|
    ensures forall x: nat :: x in Bucket(ranks, r, n) <==> x < n && ranks[x] == r
  {
    if n > 0 {
      BucketMembers(ranks, r, n - 1);
    }
  }

  lemma {:induction false} BucketAscending(ranks: seq<nat>, r: nat, n: nat)
    requires n <= |ranks|
    ensures forall a, b :: 0 <= a < b < |Bucket(ranks, r, n)| ==> Bucket(ranks, r, n)[a] < Bucket(ranks, r, n)[b]
  {
    if n > 0 {
      BucketAscending(ranks, r, n - 1);
      BucketMembers(ranks, r, n - 1);
      var b := Bucket(ranks, r, n - 1);
      var b' := Bucket(ranks, r, n);
      forall a, c | 0 <= a < c < |b'| ensures b'[a] < b'[c] {
        if c >= |b| {
          assert b'[a] == b[a] && b[a] in b;
        }
      }
    }
  }

  lemma {:induction false} CountBelowStep(ranks: seq<nat>, r: nat, n: nat)
    requires n <= |ranks|
    ensures CountBelow(ranks, r + 1, n) == CountBelow(ranks, r, n) + CountRank(ranks, r, n)
  {
    if n > 0 {
      CountBelowStep(ranks, r, n - 1);
    }
  }

  lemma {:induction false} CountBelowZero(ranks: seq<nat>, n: nat)
    requires n <= |ranks|
    ensures CountBelow(ranks, 0, n) == 0
  {
    if n > 0 {
      CountBelowZero(ranks, n - 1);
    }
  }

  /**
   * The positions of rank below `r`: each exactly those, sorted by
   * (rank, position), as many as there are.
   */
  lemma OrderBelowProperties(ranks: seq<nat>, r: nat)
    ensures |OrderBelow(ranks, r)| == CountBelow(ranks, r, |ranks|)
    ensures forall x: nat :: x in OrderBelow(ranks, r) <==> x < |ranks| && ranks[x] < r
    ensures SortedByRank(ranks, OrderBelow(ranks, r))
  {
    OrderBelowLength(ranks, r);
    OrderBelowMembers(ranks, r);
    OrderBelowSorted(ranks, r);
  }

  lemma {:induction false} OrderBelowLength(ranks: seq<nat>, r: nat)
    ensures |OrderBelow(ranks, r)| == CountBelow(ranks, r, |ranks|)
  {
    if r > 0 {
      OrderBelowLength(ranks, r - 1);
      BucketLength(ranks, r - 1, |ranks|);
      CountBelowStep(ranks, r - 1, |ranks|);
    } else {
      CountBelowZero(ranks, |ranks|);
    }
  }

  lemma {:induction false} OrderBelowMembers(ranks: seq<nat>, r: nat)
    ensures forall x: nat :: x in OrderBelow(ranks, r) <==> x < |ranks| && ranks[x] < r
  {
    if r > 0 {
      var prefix := OrderBelow(ranks, r - 1);
      var bucket := Bucket(ranks, r - 1, |ranks|);
      OrderBelowMembers(ranks, r - 1);
      BucketMembers(ranks, r - 1, |ranks|);
      assert OrderBelow(ranks, r) == prefix + bucket;
      forall x: nat ensures x in prefix + bucket <==> x < |ranks| && ranks[x] < r {
        assert x in prefix + bucket <==> x in prefix || x in bucket;
      }
    }
  }

  lemma {:induction false} OrderBelowSorted(ranks: seq<nat>, r: nat)
    ensures SortedByRank(ranks, OrderBelow(ranks, r))
  {
    if r > 0 {
      OrderBelowSorted(ranks, r - 1);
      OrderBelowMembers(ranks, r - 1);
      BucketMembers(ranks, r - 1, |ranks|);
      BucketAscending(ranks, r - 1, |ranks|);
      SortedAppendBucket(ranks, OrderBelow(ranks, r - 1), Bucket(ranks, r - 1, |ranks|), r - 1);
    }
  }

  /** Appending a bucket of rank `r`, ascending, to a sorted order of lower ranks keeps it sorted. */
  lemma SortedAppendBucket(ranks: seq<nat>, prefix: seq<nat>, bucket: seq<nat>, r: nat)
    requires SortedByRank(ranks, prefix)
    requires forall x :: x in prefix ==> x < |ranks| && ranks[x] < r
    requires forall x :: x in bucket ==> x < |ranks| && ranks[x] == r
    requires forall a, b :: 0 <= a < b < |bucket| ==> bucket[a] < bucket[b]
    ensures SortedByRank(ranks, prefix + bucket)
  {
    var o := prefix + bucket;
    forall a | 0 <= a < |o| ensures o[a] < |ranks| {
      if a >= |prefix| { assert o[a] in bucket; } else { assert o[a] in prefix; }
    }
    forall a, b | 0 <= a < b < |o| ensures Before(ranks, o[a], o[b]) {
      if b < |prefix| {
        assert o[a] == prefix[a] && o[b] == prefix[b];
      } else if a < |prefix| {
        assert o[a] in prefix;
        assert o[b] == bucket[b - |prefix|] && o[b] in bucket;
      } else {
        assert o[a] == bucket[a - |prefix|] && o[b] == bucket[b - |prefix|];
        assert o[a] in bucket && o[b] in bucket;
      }
    }
  }

  /** The stable order is a permutation of the input positions, sorted by (rank, position). */
  lemma StableOrderIsStableSort(ranks: seq<nat>)
    ensures |StableOrder(ranks)| == |ranks|
    ensures forall i :: 0 <= i < |ranks| ==> i in StableOrder(ranks)
    ensures SortedByRank(ranks, StableOrder(ranks))
  {
    OrderBelowProperties(ranks, MaxRank(ranks) + 1);
    CountBelowAbove(ranks, MaxRank(ranks) + 1, |ranks|);
  }

  /** Every position appears once: the order has no repeats. */
  lemma ColumnOrderNoRepeats(ranks: seq<nat>, order: seq<nat>)
    requires SortedByRank(ranks, order)
    ensures forall a, b :: 0 <= a < b < |order| ==> order[a] != order[b]
  {
  }

  /** Once all ranks are below `r`, every position is counted. */
  lemma {:induction false} CountBelowAbove(ranks: seq<nat>, r: nat, n: nat)
    requires n <= |ranks| && r > MaxRank(ranks)
    ensures CountBelow(ranks, r, n) == n
  {
    if n > 0 {
      CountBelowAbove(ranks, r, n - 1);
    }
  }

  /** Raising the bound only appends: the lower order is a prefix of the higher one. */
  lemma {:induction false} OrderBelowPrefix(ranks: seq<nat>, r: nat, r': nat)
    requires r <= r'
    ensures |OrderBelow(ranks, r)| <= |OrderBelow(ranks, r')|
    ensures OrderBelow(ranks, r')[..|OrderBelow(ranks, r)|] == OrderBelow(ranks, r)
  {
    if r < r' {
      OrderBelowPrefix(ranks, r, r' - 1);
      var lower := OrderBelow(ranks, r);
      var prefix := OrderBelow(ranks, r' - 1);
      var bucket := Bucket(ranks, r' - 1, |ranks|);
      assert OrderBelow(ranks, r') == prefix + bucket;
      assert (prefix + bucket)[..|lower|] == prefix[..|lower|];
    }
  }

  /** What raising the bound appends has rank at least the old bound. */
  lemma OrderBelowTail(ranks: seq<nat>, r: nat, r': nat, j: nat)
    requires r <= r'
    requires |OrderBelow(ranks, r)| <= j < |OrderBelow(ranks, r')|
    ensures OrderBelow(ranks, r')[j] < |ranks| && ranks[OrderBelow(ranks, r')[j]] >= r
  {
    var x := OrderBelow(ranks, r')[j];
    OrderBelowMembers(ranks, r');
    OrderBelowMembers(ranks, r);
    OrderBelowPrefix(ranks, r, r');
    OrderBelowSorted(ranks, r');
    ColumnOrderNoRepeats(ranks, OrderBelow(ranks, r'));
    assert x in OrderBelow(ranks, r');
    var lower := OrderBelow(ranks, r);
    forall k | 0 <= k < |lower| ensures lower[k] != x {
      assert OrderBelow(ranks, r')[k] == lower[k];
    }
    assert x !in lower;
  }

  /**
   * The positions of rank below `r` come first: they fill exactly the first
   * `CountBelow(ranks, r, |ranks|)` places of the stable order.
   */
  lemma RankBelowIsPrefix(ranks: seq<nat>, r: nat, j: nat)
    requires j < |StableOrder(ranks)|
    ensures StableOrder(ranks)[j] < |ranks|
    ensures ranks[StableOrder(ranks)[j]] < r <==> j < CountBelow(ranks, r, |ranks|)
  {
    var top := MaxRank(ranks) + 1;
    var order := StableOrder(ranks);
    OrderBelowProperties(ranks, top);
    assert order[j] in order;
    CountBelowAbove(ranks, top, |ranks|);
    if r >= top {
      CountBelowAbove(ranks, r, |ranks|);
    } else {
      OrderBelowProperties(ranks, r);
      OrderBelowPrefix(ranks, r, top);
      if j >= |OrderBelow(ranks, r)| {
        OrderBelowTail(ranks, r, top, j);
      }
      if j < |OrderBelow(ranks, r)| {
        assert order[j] == OrderBelow(ranks, r)[j];
        assert order[j] in OrderBelow(ranks, r);
      }
    }
  }
}
