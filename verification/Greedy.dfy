/**
 The bounded list that both the candidate list of a search and the closest-peers query keep: an offered
 distance overwrites the first slot that holds a greater one, or fills the first empty slot. Nothing
 is shifted, so the list is the one patience sorting keeps, not the closest distances.
 */
module Greedy {
  import opened Bytes

  /** Offering distance `d` to a list of at most `cap` distances. */
  function Place(t: seq<int>, cap: nat, d: int): seq<int> {
    if t == [] then (if cap > 0 then [d] else [])
    else if cap == 0 then t
    else if d < t[0] then [d] + t[1..]
    else if d == t[0] then t
    else [t[0]] + Place(t[1..], cap - 1, d)
  }

  function PlaceAll(ds: seq<int>, cap: nat): seq<int> {
    if ds == [] then [] else Place(PlaceAll(ds[..|ds| - 1], cap), cap, ds[|ds| - 1])
  }

  ghost predicate Ascending(t: seq<int>) {
    forall i, j :: 0 <= i < j < |t| ==> t[i] < t[j]
  }

  /** `ix` picks a strictly increasing chain out of `ds`, in the order of the offers. */
  ghost predicate Chain(ds: seq<int>, ix: seq<nat>) {
    && (forall i :: 0 <= i < |ix| ==> ix[i] < |ds|)
    && (forall i, j :: 0 <= i < j < |ix| ==> ix[i] < ix[j] && ds[ix[i]] < ds[ix[j]])
  }

  ghost predicate ChainEnds(ds: seq<int>, ix: seq<nat>, n: nat, d: int) {
    Chain(ds, ix) && |ix| == n > 0 && ds[ix[n - 1]] == d
  }

  ghost predicate SomeChain(ds: seq<int>, n: nat, d: int) {
    exists ix: seq<nat> :: ChainEnds(ds, ix, n, d)
  }

  ghost predicate ChainBelow(ds: seq<int>, n: nat, d: int) {
    exists e: int :: SomeChain(ds, n, e) && e < d
  }

  // ---------- One offer ----------

  /** Where the offer goes: behind everything smaller. */
  ghost predicate PlacedAt(t: seq<int>, cap: nat, d: int, p: nat) {
    && p <= |t|
    && (forall i :: 0 <= i < p ==> t[i] < d)
    && (p < |t| ==> d <= t[p])
    && Place(t, cap, d) == if p < |t| then t[p := d] else if p < cap then t + [d] else t
  }

  lemma PlaceSteps(t: seq<int>, cap: nat, d: int)
    ensures Place(t, cap, d)
         == if t == [] then (if cap > 0 then [d] else [])
            else if cap == 0 || d == t[0] then t
            else if d < t[0] then [d] + t[1..]
            else [t[0]] + Place(t[1..], cap - 1, d)
  {
  }

  lemma {:induction false} PlaceShape(t: seq<int>, cap: nat, d: int) returns (p: nat)
    requires Ascending(t) && |t| <= cap
    ensures PlacedAt(t, cap, d, p)
    ensures Ascending(Place(t, cap, d)) && |t| <= |Place(t, cap, d)| <= cap
    decreases t
  {
    hide Place;
    PlaceSteps(t, cap, d);
    p := 0;
    if t == [] {
    } else if d <= t[0] {
      assert t[0 := d] == [d] + t[1..];
    } else {
      var q := PlaceShape(t[1..], cap - 1, d);
      p := q + 1;
      PlacedBehind(t, cap, d, q);
    }
  }

  lemma PlacedBehind(t: seq<int>, cap: nat, d: int, q: nat)
    requires Ascending(t) && 0 < |t| <= cap && t[0] < d
    requires PlacedAt(t[1..], cap - 1, d, q)
    requires Ascending(Place(t[1..], cap - 1, d)) && |t[1..]| <= |Place(t[1..], cap - 1, d)| <= cap - 1
    ensures PlacedAt(t, cap, d, q + 1)
    ensures Ascending(Place(t, cap, d)) && |t| <= |Place(t, cap, d)| <= cap
  {
    hide Place;
    PlaceSteps(t, cap, d);
    var rest, r := t[1..], Place(t[1..], cap - 1, d);
    assert t == [t[0]] + rest;
    assert r != [] ==> t[0] < r[0];
    if q < |rest| {
      assert t[q + 1 := d] == [t[0]] + rest[q := d];
    }
  }

  // ---------- All offers ----------

  /** Slot `i` holds the least distance in which a chain of length `i + 1` can end, for all lengths up
      to the capacity. */
  ghost predicate LeastEnds(ds: seq<int>, cap: nat, t: seq<int>) {
    && Ascending(t) && |t| <= cap
    && (forall i: nat :: i < |t| ==> SomeChain(ds, i + 1, t[i]))
    && (forall n: nat, d: int :: SomeChain(ds, n, d) && n <= cap ==> 0 < n <= |t| && t[n - 1] <= d)
  }

  lemma ChainExtend(ds: seq<int>, n: nat, e: int, d: int)
    requires SomeChain(ds, n, e) && e < d
    ensures SomeChain(ds + [d], n + 1, d)
  {
    var ix: seq<nat> :| ChainEnds(ds, ix, n, e);
    assert ChainEnds(ds + [d], ix + [|ds|], n + 1, d);
  }

  lemma ChainStays(ds: seq<int>, n: nat, e: int, d: int)
    requires SomeChain(ds, n, e)
    ensures SomeChain(ds + [d], n, e)
  {
    var ix: seq<nat> :| ChainEnds(ds, ix, n, e);
    assert ChainEnds(ds + [d], ix, n, e);
  }

  /** A chain of the longer history ends in the new offer, or is a chain of the old one. */
  lemma ChainSplit(ds: seq<int>, d: int, n: nat, e: int)
    requires SomeChain(ds + [d], n, e)
    ensures SomeChain(ds, n, e) || (e == d && (n == 1 || (n > 1 && ChainBelow(ds, n - 1, d))))
  {
    var ix: seq<nat> :| ChainEnds(ds + [d], ix, n, e);
    if ix[n - 1] < |ds| {
      assert ChainEnds(ds, ix, n, e);
    } else if n > 1 {
      var e' := (ds + [d])[ix[n - 2]];
      assert ix[n - 2] < ix[n - 1] && e' < e;
      ChainCut(ds, d, ix, n);
      assert SomeChain(ds, n - 1, e');
    }
  }

  /** Without its last link, a chain lies in the older history. */
  lemma ChainCut(ds: seq<int>, d: int, ix: seq<nat>, n: nat)
    requires n > 1 && Chain(ds + [d], ix) && |ix| == n
    ensures ChainEnds(ds, ix[..n - 1], n - 1, (ds + [d])[ix[n - 2]])
  {
    var cut := ix[..n - 1];
    forall i | 0 <= i < n - 1 ensures cut[i] < |ds| && ds[cut[i]] == (ds + [d])[ix[i]] {
      assert ix[i] < ix[n - 1];
    }
  }

  lemma {:induction false} OneOffer(ds: seq<int>, cap: nat, t: seq<int>, d: int)
    requires LeastEnds(ds, cap, t)
    ensures LeastEnds(ds + [d], cap, Place(t, cap, d))
  {
    hide Place, SomeChain;
    var p := PlaceShape(t, cap, d);
    var t' := Place(t, cap, d);
    forall i: nat | i < |t'| ensures SomeChain(ds + [d], i + 1, t'[i]) {
      if i != p {
        ChainStays(ds, i + 1, t[i], d);
      } else if p > 0 {
        ChainExtend(ds, p - 1 + 1, t[p - 1], d);
      } else {
        OneChain(ds + [d], |ds|);
      }
    }
    forall n: nat, e: int | SomeChain(ds + [d], n, e) && n <= cap ensures 0 < n <= |t'| && t'[n - 1] <= e {
      ChainSplit(ds, d, n, e);
      ChainNotEmpty(ds + [d], n, e);
    }
  }

  lemma OneChain(ds: seq<int>, i: nat)
    requires i < |ds|
    ensures SomeChain(ds, 1, ds[i])
  {
    assert ChainEnds(ds, [i], 1, ds[i]);
  }

  lemma ChainNotEmpty(ds: seq<int>, n: nat, e: int)
    requires SomeChain(ds, n, e)
    ensures n > 0 && e in ds
  {
  }

  lemma {:induction false} SlotsAreLeastEnds(ds: seq<int>, cap: nat)
    ensures LeastEnds(ds, cap, PlaceAll(ds, cap))
    decreases |ds|
  {
    if ds == [] {
    } else {
      var before, d := ds[..|ds| - 1], ds[|ds| - 1];
      assert ds == before + [d];
      SlotsAreLeastEnds(before, cap);
      OneOffer(before, cap, PlaceAll(before, cap), d);
    }
  }

  /** The number of filled slots is the length of the longest increasing chain of offers, as far as the
      capacity allows: some chain is that long, and none is longer. */
  lemma {:induction false} FilledIsLongestChain(ds: seq<int>, cap: nat)
    ensures var filled := |PlaceAll(ds, cap)|;
            && filled <= cap
            && (exists ix: seq<nat> :: Chain(ds, ix) && |ix| == filled)
            && (forall ix: seq<nat> :: Chain(ds, ix) ==> Min(|ix|, cap) <= filled)
  {
    hide PlaceAll, Chain;
    SlotsAreLeastEnds(ds, cap);
    var t := PlaceAll(ds, cap);
    EmptyChain(ds);
    if t != [] {
      assert SomeChain(ds, |t| - 1 + 1, t[|t| - 1]);
    }
    forall ix: seq<nat> | Chain(ds, ix) ensures Min(|ix|, cap) <= |t| {
      if Min(|ix|, cap) > 0 {
        ChainPrefix(ds, ix, Min(|ix|, cap));
      }
    }
  }

  lemma EmptyChain(ds: seq<int>)
    ensures Chain(ds, [])
  {
  }

  lemma ChainPrefix(ds: seq<int>, ix: seq<nat>, n: nat)
    requires Chain(ds, ix) && 0 < n <= |ix|
    ensures ix[n - 1] < |ds| && SomeChain(ds, n, ds[ix[n - 1]])
  {
    assert ChainEnds(ds, ix[..n], n, ds[ix[n - 1]]);
  }

  /** No slot ever grows and none is emptied. */
  lemma {:induction false} SlotsNeverGrow(t: seq<int>, cap: nat, d: int)
    requires Ascending(t) && |t| <= cap
    ensures var t' := Place(t, cap, d);
            |t| <= |t'| && (forall i :: 0 <= i < |t| ==> t'[i] <= t[i]) && (cap > 0 ==> t' != [] && t'[0] <= d)
  {
    var p := PlaceShape(t, cap, d);
  }

  /** The first slot is the least distance ever offered. */
  lemma {:induction false} FirstSlotIsLeast(ds: seq<int>, cap: nat)
    requires ds != [] && cap > 0
    ensures var t := PlaceAll(ds, cap);
            t != [] && t[0] in ds && forall d :: d in ds ==> t[0] <= d
  {
    SlotsAreLeastEnds(ds, cap);
    var t := PlaceAll(ds, cap);
    OneChain(ds, 0);
    forall d | d in ds ensures t[0] <= d {
      var i: nat :| i < |ds| && ds[i] == d;
      OneChain(ds, i);
    }
    assert SomeChain(ds, 0 + 1, t[0]);
  }

  // ---------- When the list is the closest distances ----------

  /** `t` holds the closest of the offered distances: every one offered, or `cap` of them and all others are
      greater. How often a distance was offered does not matter. */
  ghost predicate HoldsClosest(ds: seq<int>, cap: nat, t: seq<int>) {
    && |t| <= cap
    && (forall i :: 0 <= i < |t| ==> t[i] in ds)
    && (forall d :: d in ds && d !in t ==> |t| == cap && forall i :: 0 <= i < |t| ==> t[i] < d)
  }

  /** The closest were offered, among others, in ascending order, at positions `ix`. */
  ghost predicate ClosestInOrder(ds: seq<int>, cap: nat, ix: seq<nat>) {
    Chain(ds, ix) && HoldsClosest(ds, cap, ValuesAt(ds, ix))
  }

  ghost predicate Distinct(ds: seq<int>) {
    forall i, j :: 0 <= i < j < |ds| ==> ds[i] != ds[j]
  }

  /** An ascending list all of whose elements occur in an equally long ascending list is that list. */
  lemma {:induction false} SameAscending(a: seq<int>, b: seq<int>)
    requires Ascending(a) && Ascending(b) && |a| == |b|
    requires forall x :: x in a ==> x in b
    ensures a == b
  {
    if a != [] {
      var n := |a| - 1;
      var f := LastRank(a, b);
      assert f == n;
      forall x | x in a[..n] ensures x in b[..n] {
        var i :| 0 <= i < n && a[i] == x;
        assert x in a && x < a[n] == b[n];
        var j :| 0 <= j < |b| && b[j] == x;
      }
      SameAscending(a[..n], b[..n]);
      assert a == a[..n] + [a[n]] && b == b[..n] + [b[n]];
    }
  }

  /** The rank in `b` of the last element of `a` is at least its rank in `a`. */
  lemma {:induction false} LastRank(a: seq<int>, b: seq<int>) returns (f: nat)
    requires Ascending(a) && Ascending(b) && a != []
    requires forall x :: x in a ==> x in b
    ensures |a| - 1 <= f < |b| && b[f] == a[|a| - 1]
    decreases a
  {
    var n := |a| - 1;
    assert a[n] in a;
    f :| 0 <= f < |b| && b[f] == a[n];
    if n > 0 {
      assert forall x :: x in a[..n] ==> x in a;
      var g := LastRank(a[..n], b);
      assert b[g] < b[f];
    }
  }

  ghost function ValuesAt(ds: seq<int>, ix: seq<nat>): (v: seq<int>)
    requires Chain(ds, ix)
    ensures Ascending(v) && |v| == |ix|
    ensures forall i :: 0 <= i < |ix| ==> v[i] == ds[ix[i]]
  {
    seq(|ix|, i requires 0 <= i < |ix| => ds[ix[i]])
  }

  /** If the closest came in order, the list is what they are. */
  lemma {:induction false} InOrderList(ds: seq<int>, cap: nat, ix: seq<nat>)
    requires ClosestInOrder(ds, cap, ix)
    ensures PlaceAll(ds, cap) == ValuesAt(ds, ix)
  {
    hide PlaceAll, LeastEnds, SomeChain, Chain;
    SlotsAreLeastEnds(ds, cap);
    var t, v, m := PlaceAll(ds, cap), ValuesAt(ds, ix), |ix|;
    LeastEndsChain(ds, cap, t);
    forall i: nat | i < |t| ensures t[i] in ds {
      SlotOffered(ds, cap, t, i);
    }
    if m > 0 {
      ChainPrefix(ds, ix, m);
      ChainBound(ds, cap, t, m, v[m - 1]);
      if m < cap {
        assert forall x :: x in t ==> x in v;
        var f := LastRank(t, v);
      }
      forall x | x in t ensures x in v {
        var i: nat :| i < |t| && t[i] == x;
        assert t[i] <= t[m - 1] <= v[m - 1];
      }
      SameAscending(t, v);
    }
  }

  lemma ChainBound(ds: seq<int>, cap: nat, t: seq<int>, n: nat, d: int)
    requires LeastEnds(ds, cap, t) && SomeChain(ds, n, d) && n <= cap
    ensures 0 < n <= |t| && t[n - 1] <= d
  {
  }

  lemma SlotOffered(ds: seq<int>, cap: nat, t: seq<int>, i: nat)
    requires LeastEnds(ds, cap, t) && i < |t|
    ensures t[i] in ds
  {
    assert SomeChain(ds, i + 1, t[i]);
    ChainNotEmpty(ds, i + 1, t[i]);
  }

  lemma LeastEndsChain(ds: seq<int>, cap: nat, t: seq<int>)
    requires LeastEnds(ds, cap, t)
    ensures Ascending(t)
    ensures t != [] ==> SomeChain(ds, |t|, t[|t| - 1])
  {
    if t != [] {
      assert SomeChain(ds, |t| - 1 + 1, t[|t| - 1]);
    }
  }

  /** The longest chain in a list that holds the closest is the list. */
  lemma {:induction false} HoldsInOrder(ds: seq<int>, cap: nat) returns (ix: seq<nat>)
    requires HoldsClosest(ds, cap, PlaceAll(ds, cap))
    ensures ClosestInOrder(ds, cap, ix)
  {
    hide PlaceAll, LeastEnds, Chain;
    SlotsAreLeastEnds(ds, cap);
    var t := PlaceAll(ds, cap);
    LeastEndsChain(ds, cap, t);
    ix := [];
    EmptyChain(ds);
    if t != [] {
      ix :| ChainEnds(ds, ix, |t|, t[|t| - 1]);
      var v, m := ValuesAt(ds, ix), |t|;
      forall x | x in v ensures x in t {
        var i: nat :| i < m && v[i] == x;
        ChainOffered(ds, ix, i);
        assert v[i] <= v[m - 1] == t[m - 1];
      }
      SameAscending(v, t);
    } else {
      assert ValuesAt(ds, ix) == t;
    }
  }

  lemma ChainOffered(ds: seq<int>, ix: seq<nat>, i: nat)
    requires Chain(ds, ix) && i < |ix|
    ensures ValuesAt(ds, ix)[i] in ds
  {
  }

  /** Exactly when the list is the closest distances: it is if and only if some chain of offers goes through
      the closest ones in ascending order. Repeated offers are no exception. */
  lemma {:induction false} ClosestIff(ds: seq<int>, cap: nat)
    ensures HoldsClosest(ds, cap, PlaceAll(ds, cap)) <==> exists ix: seq<nat> :: ClosestInOrder(ds, cap, ix)
  {
    hide HoldsClosest, PlaceAll;
    if HoldsClosest(ds, cap, PlaceAll(ds, cap)) {
      var ix := HoldsInOrder(ds, cap);
    }
    if ix: seq<nat> :| ClosestInOrder(ds, cap, ix) {
      InOrderList(ds, cap, ix);
    }
  }

  lemma {:induction false} DistinctSize(ds: seq<int>)
    requires Distinct(ds)
    ensures |set d | d in ds| == |ds|
    decreases |ds|
  {
    if ds == [] {
      assert (set d | d in ds) == {};
    } else {
      var n := |ds| - 1;
      DistinctSize(ds[..n]);
      assert (set d | d in ds) == (set d | d in ds[..n]) + {ds[n]};
    }
  }

  /** Of different distances that is as many as there are, up to the capacity. */
  lemma ClosestOfDistinct(ds: seq<int>, cap: nat, t: seq<int>)
    requires Distinct(ds) && Ascending(t) && HoldsClosest(ds, cap, t)
    ensures |t| == Min(cap, |ds|)
  {
    DistinctSize(ds);
    DistinctSize(t);
    var offered, held := set d | d in ds, set d | d in t;
    assert held <= offered;
    SubsetSize(held, offered);
    if |t| < cap {
      assert offered <= held;
      SubsetSize(offered, held);
    }
  }

  lemma {:induction false} SubsetSize(a: set<int>, b: set<int>)
    requires a <= b
    ensures |a| <= |b|
  {
    assert b == a + (b - a);
  }

  /** Two offers in descending order: the list holds the closer one only, although it has room for both. */
  lemma NotTheClosest()
    ensures PlaceAll([2, 1], 2) == [1] && !HoldsClosest([2, 1], 2, PlaceAll([2, 1], 2))
  {
    assert [2, 1][..1] == [2] && [2][..0] == [];
    assert PlaceAll([2], 2) == [2];
    assert [2, 1][0] in [2, 1];
  }
}
