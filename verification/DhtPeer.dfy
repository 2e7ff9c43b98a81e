/**
 The peer store of kademila/dhtpeer/dhtpeer.go, with its buckets as arrays changed in place, and what its
 closest-peers query returns.
 */
module DhtPeer {
  import opened Wrappers
  import opened Bytes
  import opened Ids
  import opened Buckets
  import opened Greedy

  // ---------- The closest-peers query on values ----------

  datatype Near = Near(peer: Peer, dist: int)

  /** One peer offered to a list of at most `cap`: it overwrites the first one farther away. */
  function Keep(t: seq<Near>, cap: nat, c: Near): (r: seq<Near>)
    requires |t| <= cap
    ensures |t| <= |r| <= cap
  {
    if t == [] then (if cap > 0 then [c] else [])
    else if c.dist < t[0].dist then [c] + t[1..]
    else [t[0]] + Keep(t[1..], cap - 1, c)
  }

  function KeepAll(ps: seq<Peer>, key: Id, cap: nat): (r: seq<Near>)
    requires forall p :: p in ps ==> |p.id| == |key|
    ensures |r| <= cap
  {
    if ps == [] then []
    else
      var p := ps[|ps| - 1];
      Keep(KeepAll(ps[..|ps| - 1], key, cap), cap, Near(p, Distance(p.id, key)))
  }

  function Dists(t: seq<Near>): (r: seq<int>)
    ensures |r| == |t| && forall i :: 0 <= i < |t| ==> r[i] == t[i].dist
  {
    seq(|t|, i requires 0 <= i < |t| => t[i].dist)
  }

  function Offered(ps: seq<Peer>, key: Id): (r: seq<int>)
    requires forall p :: p in ps ==> |p.id| == |key|
    ensures |r| == |ps| && forall i :: 0 <= i < |ps| ==> r[i] == Distance(ps[i].id, key)
  {
    seq(|ps|, i requires 0 <= i < |ps| => assert ps[i] in ps; Distance(ps[i].id, key))
  }

  lemma {:induction false} KeepIsPlace(t: seq<Near>, cap: nat, c: Near)
    requires |t| <= cap && c.dist !in Dists(t)
    ensures Dists(Keep(t, cap, c)) == Place(Dists(t), cap, c.dist)
    decreases t
  {
    hide Keep, Place;
    KeepSteps(t, cap, c);
    PlaceSteps(Dists(t), cap, c.dist);
    if t == [] {
      assert Dists(Keep(t, cap, c)) == Place(Dists(t), cap, c.dist);
    } else {
      var rest := t[1..];
      assert Dists(t)[0] == t[0].dist && Dists(t)[1..] == Dists(rest);
      assert c.dist != t[0].dist by { assert Dists(t)[0] in Dists(t); }
      if c.dist < t[0].dist {
        assert Dists([c] + rest) == [c.dist] + Dists(rest);
      } else {
        assert forall d :: d in Dists(t)[1..] ==> d in Dists(t);
        KeepIsPlace(rest, cap - 1, c);
        assert Dists([t[0]] + Keep(rest, cap - 1, c)) == [t[0].dist] + Dists(Keep(rest, cap - 1, c));
      }
    }
  }

  /** Every kept entry is a peer that was offered, with its own distance. */
  ghost predicate Genuine(t: seq<Near>, ps: seq<Peer>, key: Id) {
    forall i :: 0 <= i < |t| ==> t[i].peer in ps && |t[i].peer.id| == |key| && t[i].dist == Distance(t[i].peer.id, key)
  }

  lemma {:induction false} KeepGenuine(t: seq<Near>, cap: nat, c: Near, ps: seq<Peer>, key: Id)
    requires |t| <= cap && Genuine(t, ps, key) && Genuine([c], ps, key)
    ensures Genuine(Keep(t, cap, c), ps, key)
    decreases t
  {
    hide Distance;
    assert [c][0] == c;
    if t != [] && t[0].dist <= c.dist {
      KeepGenuine(t[1..], cap - 1, c, ps, key);
    }
  }

  ghost predicate DifferentPeers(ps: seq<Peer>, n: nat) {
    && (forall i :: 0 <= i < |ps| ==> |ps[i].id| == n)
    && (forall i, j :: 0 <= i < j < |ps| ==> ps[i].id != ps[j].id)
  }

  /** On different peers the list is the greedy list of their distances. */
  lemma {:induction false} KeepAllIsPlaceAll(ps: seq<Peer>, key: Id, cap: nat)
    requires DifferentPeers(ps, |key|)
    ensures Dists(KeepAll(ps, key, cap)) == PlaceAll(Offered(ps, key), cap)
    ensures Genuine(KeepAll(ps, key, cap), ps, key)
    decreases |ps|
  {
    hide Distance, Place, Keep;
    if ps == [] {
      assert Dists([]) == [] && Offered(ps, key) == [];
    } else {
      var before, p := ps[..|ps| - 1], ps[|ps| - 1];
      KeepAllIsPlaceAll(before, key, cap);
      assert Offered(ps, key)[..|ps| - 1] == Offered(before, key);
      var t, c := KeepAll(before, key, cap), Near(p, Distance(p.id, key));
      NewPeer(t, ps, key);
      KeepGenuine(t, cap, c, ps, key);
      KeepIsPlace(t, cap, c);
    }
  }

  /** The last of different peers is at another distance than those kept of the others. */
  lemma NewPeer(t: seq<Near>, ps: seq<Peer>, key: Id)
    requires ps != [] && DifferentPeers(ps, |key|) && Genuine(t, ps[..|ps| - 1], key)
    ensures var p := ps[|ps| - 1];
            && Genuine(t, ps, key) && Genuine([Near(p, Distance(p.id, key))], ps, key)
            && Distance(p.id, key) !in Dists(t)
  {
    hide Distance;
    var p := ps[|ps| - 1];
    assert p in ps && [Near(p, Distance(p.id, key))][0].peer == p;
    forall i | 0 <= i < |t| ensures t[i].dist != Distance(p.id, key) && t[i].peer in ps {
      assert t[i].peer in ps[..|ps| - 1];
      DistanceInjective(t[i].peer.id, p.id, key);
    }
  }

  lemma OfferedDistinct(ps: seq<Peer>, key: Id)
    requires DifferentPeers(ps, |key|)
    ensures Distinct(Offered(ps, key))
  {
    forall i, j | 0 <= i < j < |ps| ensures Offered(ps, key)[i] != Offered(ps, key)[j] {
      DistanceInjective(ps[i].id, ps[j].id, key);
    }
  }

  function ClosestPeers(nodeID: Id, buckets: seq<Bucket>, key: Id, k: nat): Result<seq<Near>, StoreError>
    requires forall p :: p in Peers(buckets) ==> |p.id| == |nodeID|
  {
    if |nodeID| != |key| then Err(DifferentLength) else Ok(KeepAll(Peers(buckets), key, k))
  }

  /** GetClosestPeers on any reachable store: stored peers only, at most `k`, strictly ascending by their
      distance, the closest stored peer first; and they are the `k` closest exactly when the `k` closest
      lie in the buckets in ascending order of distance. */
  lemma {:induction false} ClosestPeersOfStore(nodeID: Id, size: nat, ops: seq<Op>, key: Id, k: nat)
    requires |key| == |nodeID|
    ensures var buckets := History(nodeID, size, ops);
            var ps := Peers(buckets);
            && DifferentPeers(ps, |key|)
            && var closest := ClosestPeers(nodeID, buckets, key, k).value;
            && Genuine(closest, ps, key)
            && |closest| <= k && Ascending(Dists(closest))
            && Dists(closest) == PlaceAll(Offered(ps, key), k)
            && (k > 0 && ps != [] ==>
                  closest != [] && forall p :: p in ps ==> closest[0].dist <= Distance(p.id, key))
            && (HoldsClosest(Offered(ps, key), k, Dists(closest)) <==>
                (exists ix: seq<nat> :: ClosestInOrder(Offered(ps, key), k, ix)))
            && (HoldsClosest(Offered(ps, key), k, Dists(closest)) ==> |closest| == Min(k, |ps|))
  {
    hide History, Peers, KeepAll, PlaceAll, HoldsClosest, ClosestInOrder, Place;
    var buckets, ls := History(nodeID, size, ops), ListsAfter(nodeID, size, ops);
    StoreIsLists(nodeID, size, ops);
    assert buckets[0..] == buckets;
    PeersDistinct(nodeID, size, buckets, ls, 0);
    var ps := Peers(buckets);
    KeepAllIsPlaceAll(ps, key, k);
    OfferedDistinct(ps, key);
    var ds := Offered(ps, key);
    SlotsAreLeastEnds(ds, k);
    ClosestIff(ds, k);
    if HoldsClosest(ds, k, PlaceAll(ds, k)) {
      ClosestOfDistinct(ds, k, PlaceAll(ds, k));
    }
    if k > 0 && ps != [] {
      FirstSlotIsLeast(ds, k);
      forall p | p in ps ensures PlaceAll(ds, k)[0] <= Distance(p.id, key) {
        var i :| 0 <= i < |ps| && ps[i] == p;
        assert ds[i] in ds;
      }
    }
  }

  // ---------- The store ----------

  lemma Regroup<T>(front: seq<T>, x: T, rest: seq<T>)
    ensures front + ([x] + rest) == (front + [x]) + rest
  {
  }

  lemma {:induction false} InsertSteps(b: Bucket, p: Peer)
    ensures Insert(b, p)
         == if b == [] then (b, false)
            else if b[0] == None then ([Some(p)] + b[1..], true)
            else if b[0].value.id == p.id then (b, true)
            else ([b[0]] + Insert(b[1..], p).0, Insert(b[1..], p).1)
  {
  }

  /** insertPeerIntoBucket. */
  method InsertPeerIntoBucket(bucket: array<Option<Peer>>, p: Peer) returns (ok: bool)
    modifies bucket
    ensures (bucket[..], ok) == Insert(old(bucket[..]), p)
  {
    hide Insert;
    ghost var b := bucket[..];
    var i := 0;
    assert b[0..] == b && b[..0] + Insert(b, p).0 == Insert(b, p).0;
    while i < bucket.Length
      invariant 0 <= i <= bucket.Length && bucket[..] == b
      invariant Insert(b, p) == (b[..i] + Insert(b[i..], p).0, Insert(b[i..], p).1)
    {
      InsertSteps(b[i..], p);
      TailSteps(b, i);
      match bucket[i]
      case None =>
        bucket[i] := Some(p);
        assert bucket[..] == b[..i] + ([Some(p)] + b[i + 1..]);
        return true;
      case Some(q) =>
        if q.id == p.id {
          assert b[..i] + b[i..] == b;
          return true;
        }
        Regroup(b[..i], b[i], Insert(b[i + 1..], p).0);
        i := i + 1;
    }
    assert b[i..] == [];
    InsertSteps([], p);
    assert b[..i] + b[i..] == b;
    return false;
  }

  /** removePeerFromBucket. */
  method RemovePeerFromBucket(bucket: array<Option<Peer>>, p: Peer)
    modifies bucket
    ensures bucket[..] == Remove(old(bucket[..]), p)
  {
    hide Remove, ShiftRest, Shift, After;
    ghost var b := bucket[..];
    var isRemoved := false;
    var i := 0;
    AfterNothing(b, p);
    assert b[0..] == b && b[..0] + Remove(b, p) == Remove(b, p);
    while i < bucket.Length
      invariant 0 <= i <= bucket.Length && |b| == bucket.Length
      invariant bucket[i..] == b[i..]
      invariant Remove(b, p) == bucket[..i] + After(b[i..], p, isRemoved)
    {
      ghost var kept, rest := bucket[..i], b[i + 1..];
      AfterSteps(b[i..], p, isRemoved);
      TailSteps(b, i);
      assert bucket[i] == bucket[i..][0] == b[i] && bucket[i + 1..] == rest;
      if bucket[i] == None {
        assert bucket[..] == kept + bucket[i..];
        return;
      }
      if isRemoved || bucket[i].value.id == p.id {
        if !isRemoved {
          bucket[i] := None;
          isRemoved := true;
        }
        if i + 1 == bucket.Length {
          bucket[i] := None;
        } else {
          assert bucket[i + 1] == b[i + 1] == b[i..][1];
          bucket[i] := bucket[i + 1];
        }
      }
      Regroup(kept, bucket[i], After(rest, p, isRemoved));
      assert bucket[..i + 1] == kept + [bucket[i]] && bucket[i + 1..] == rest;
      i := i + 1;
    }
    assert b[i..] == [] && bucket[..] == bucket[..i];
    assert bucket[..i] + [] == bucket[..i];
  }

  /** What the loop still makes of the slots from here on. */
  ghost function After(b: Bucket, p: Peer, removed: bool): Bucket {
    if removed then ShiftRest(b) else Remove(b, p)
  }

  lemma {:induction false} AfterNothing(b: Bucket, p: Peer)
    ensures After([], p, true) == [] && After([], p, false) == [] && After(b, p, false) == Remove(b, p)
  {
  }

  lemma AfterSteps(b: Bucket, p: Peer, removed: bool)
    requires b != []
    ensures b[0] == None ==> After(b, p, removed) == b
    ensures b[0] != None ==>
              var now := removed || b[0].value.id == p.id;
              After(b, p, removed) == [if !now then b[0] else if |b| == 1 then None else b[1]] + After(b[1..], p, now)
  {
  }

  /** What is left to do once the slot in front has taken over the first of these. */
  ghost function ShiftRest(b: Bucket): Bucket {
    if b == [] || b[0] == None then b else Shift(b)
  }

  /** numEqualBitsPrefix. */
  method NumEqualBitsPrefix(a: Id, b: Id) returns (res: nat)
    requires |a| == |b|
    ensures res == BucketIndex(a, b)
  {
    res := 0;
    var i := 0;
    assert a[0..] == a && b[0..] == b;
    while i < |b|
      invariant 0 <= i <= |b|
      invariant BucketIndex(a, b) == res + BucketIndex(a[i..], b[i..])
    {
      var cur := XorByte(a[i], b[i]);
      assert a[i..][1..] == a[i + 1..] && b[i..][1..] == b[i + 1..];
      res := res + LeadingZeros8(cur);
      if cur != 8 {
        return;
      }
      i := i + 1;
    }
  }

  /** A `closest` list as it lies in memory: entries, then empty slots. */
  ghost function Slots(t: seq<Near>, k: nat): (s: seq<Option<Near>>)
    requires |t| <= k
    ensures |s| == k
  {
    seq(k, i requires 0 <= i < k => if i < |t| then Some(t[i]) else None)
  }

  /** The inner loop of GetClosestPeers. */
  method OfferPeer(closest: array<Option<Near>>, c: Near, ghost t: seq<Near>)
    requires |t| <= closest.Length && closest[..] == Slots(t, closest.Length)
    modifies closest
    ensures closest[..] == Slots(Keep(t, closest.Length, c), closest.Length)
  {
    hide Keep, Slots;
    ghost var k := closest.Length;
    var i := 0;
    assert t[0..] == t && t[..0] + Keep(t, k, c) == Keep(t, k, c);
    while i < closest.Length
      invariant 0 <= i <= |t| && closest[..] == Slots(t, k)
      invariant Keep(t, k, c) == t[..i] + Keep(t[i..], k - i, c)
    {
      ghost var rest := t[i..];
      KeepSteps(rest, k - i, c);
      SlotAt(t, k, i);
      assert closest[i] == Slots(t, k)[i];
      if closest[i] == None {
        closest[i] := Some(c);
        SlotFilled(t, k, c);
        assert rest == [] && t[..i] == t;
        return;
      }
      TailSteps(t, i);
      if c.dist < closest[i].value.dist {
        closest[i] := Some(c);
        SlotOverwritten(t, k, c, i);
        return;
      }
      Regroup(t[..i], t[i], Keep(rest[1..], k - i - 1, c));
      i := i + 1;
    }
    assert t[..i] == t && t[i..] == [];
    KeepSteps([], 0, c);
    assert t + [] == t;
  }

  lemma TailSteps<T>(t: seq<T>, i: nat)
    requires i < |t|
    ensures t[i..][0] == t[i] && t[i..][1..] == t[i + 1..] && t[..i + 1] == t[..i] + [t[i]]
  {
  }

  lemma SlotAt(t: seq<Near>, k: nat, i: nat)
    requires |t| <= k && i < k
    ensures Slots(t, k)[i] == if i < |t| then Some(t[i]) else None
  {
  }

  lemma SlotFilled(t: seq<Near>, k: nat, c: Near)
    requires |t| < k
    ensures Slots(t, k)[|t| := Some(c)] == Slots(t + [c], k)
  {
  }

  lemma SlotOverwritten(t: seq<Near>, k: nat, c: Near, i: nat)
    requires i < |t| <= k
    ensures Slots(t, k)[i := Some(c)] == Slots(t[..i] + ([c] + t[i + 1..]), k)
  {
  }

  lemma KeepSteps(t: seq<Near>, cap: nat, c: Near)
    requires |t| <= cap
    ensures t == [] ==> Keep(t, cap, c) == if cap > 0 then [c] else []
    ensures t != [] && c.dist < t[0].dist ==> Keep(t, cap, c) == [c] + t[1..]
    ensures t != [] && c.dist >= t[0].dist ==> Keep(t, cap, c) == [t[0]] + Keep(t[1..], cap - 1, c)
  {
  }

  /** The loop over one bucket of GetClosestPeers; `seen` are the peers offered before. */
  method OfferBucket(closest: array<Option<Near>>, bucket: array<Option<Peer>>, key: Id, ghost seen: seq<Peer>)
    requires forall p :: p in seen + BucketPeers(bucket[..]) ==> |p.id| == |key|
    requires closest[..] == Slots(KeepAll(seen, key, closest.Length), closest.Length)
    modifies closest
    ensures closest[..] == Slots(KeepAll(seen + BucketPeers(bucket[..]), key, closest.Length), closest.Length)
  {
    hide Slots, Keep;
    ghost var k, b, done := closest.Length, bucket[..], seen;
    var j := 0;
    assert b[0..] == b;
    while j < bucket.Length
      invariant 0 <= j <= bucket.Length && bucket[..] == b
      invariant seen + BucketPeers(b) == done + BucketPeers(b[j..])
      invariant forall p :: p in done ==> |p.id| == |key|
      invariant closest[..] == Slots(KeepAll(done, key, k), k)
    {
      assert b[j..][0] == b[j] == bucket[j] && b[j..][1..] == b[j + 1..];
      if bucket[j] != None {
        var p := bucket[j].value;
        ghost var rest := BucketPeers(b[j + 1..]);
        Regroup(done, p, rest);
        assert p in seen + BucketPeers(b);
        var dis := DistanceBetween(p.id, key);
        assert (done + [p])[..|done|] == done;
        OfferPeer(closest, Near(p, dis), KeepAll(done, key, k));
        done := done + [p];
      } else {
        assert [] + BucketPeers(b[j + 1..]) == BucketPeers(b[j + 1..]);
      }
      j := j + 1;
    }
    assert done + [] == done;
  }

  method PeersInBucket(bucket: array<Option<Peer>>) returns (peers: seq<Peer>)
    ensures peers == BucketPeers(bucket[..])
  {
    ghost var b := bucket[..];
    peers := [];
    var j := 0;
    assert b[0..] == b;
    while j < bucket.Length
      invariant 0 <= j <= bucket.Length
      invariant BucketPeers(b) == peers + BucketPeers(b[j..])
    {
      assert b[j..][0] == b[j] == bucket[j] && b[j..][1..] == b[j + 1..];
      if bucket[j] != None {
        Regroup(peers, bucket[j].value, BucketPeers(b[j + 1..]));
        peers := peers + [bucket[j].value];
      } else {
        assert [] + BucketPeers(b[j + 1..]) == BucketPeers(b[j + 1..]);
      }
      j := j + 1;
    }
  }

  class Store {
    const k: nat
    const nodeID: Id
    const buckets: seq<array<Option<Peer>>>

    ghost predicate Valid()
    {
      && |buckets| == 8 * |nodeID|
      && (forall i :: 0 <= i < |buckets| ==> buckets[i].Length == k)
      && (forall i, j :: 0 <= i < j < |buckets| ==> buckets[i] != buckets[j])
    }

    ghost function Content(): (c: seq<Bucket>)
      reads buckets
      ensures |c| == |buckets| && forall i :: 0 <= i < |buckets| ==> c[i] == buckets[i][..]
    {
      seq(|buckets|, i requires 0 <= i < |buckets| reads buckets => buckets[i][..])
    }

    constructor (nodeID: Id, k: nat)
      ensures Valid() && this.nodeID == nodeID && this.k == k
      ensures forall b :: b in buckets ==> fresh(b)
      ensures Content() == EmptyStore(nodeID, k)
    {
      var made: seq<array<Option<Peer>>> := [];
      while |made| < 8 * |nodeID|
        invariant |made| <= 8 * |nodeID|
        invariant forall i :: 0 <= i < |made| ==> fresh(made[i]) && made[i][..] == Packed([], k)
        invariant forall i, j :: 0 <= i < j < |made| ==> made[i] != made[j]
      {
        var bucket := new Option<Peer>[k](_ => None);
        assert bucket[..] == Packed([], k);
        made := made + [bucket];
      }
      this.k, this.nodeID, this.buckets := k, nodeID, made;
    }

    method Add(p: Peer) returns (err: Option<StoreError>)
      requires Valid()
      modifies buckets
      ensures (Content(), err) == AddPeer(nodeID, old(Content()), p)
    {
      ghost var was := Content();
      if |nodeID| != |p.id| {
        return Some(DifferentLength);
      }
      if p.id == nodeID {
        return None;
      }
      var at := NumEqualBitsPrefix(nodeID, p.id);
      BucketIndexInRange(nodeID, p.id);
      var ok := InsertPeerIntoBucket(buckets[at], p);
      assert Content() == was[at := buckets[at][..]];
      return if ok then None else Some(NoSpace);
    }

    method Drop(p: Peer) returns (err: Option<StoreError>)
      requires Valid()
      modifies buckets
      ensures (Content(), err) == RemovePeer(nodeID, old(Content()), p)
    {
      ghost var was := Content();
      if |nodeID| != |p.id| {
        return Some(DifferentLength);
      }
      if p.id == nodeID {
        return None;
      }
      var at := NumEqualBitsPrefix(nodeID, p.id);
      BucketIndexInRange(nodeID, p.id);
      RemovePeerFromBucket(buckets[at], p);
      assert Content() == was[at := buckets[at][..]];
      return None;
    }

    method AllPeers() returns (peers: seq<Peer>)
      requires Valid()
      ensures peers == Peers(Content())
    {
      ghost var c := Content();
      peers := [];
      var i := 0;
      assert c[0..] == c;
      while i < |buckets|
        invariant 0 <= i <= |buckets|
        invariant Peers(c) == peers + Peers(c[i..])
      {
        assert c[i..][0] == c[i] && c[i..][1..] == c[i + 1..];
        var ps := PeersInBucket(buckets[i]);
        assert peers + (ps + Peers(c[i + 1..])) == (peers + ps) + Peers(c[i + 1..]);
        peers := peers + ps;
        i := i + 1;
      }
    }

    /** The peers and their distances, as pairs. */
    method GetClosestPeers(key: Id, k: nat) returns (r: Result<seq<Near>, StoreError>)
      requires Valid() && forall p :: p in Peers(Content()) ==> |p.id| == |nodeID|
      ensures r == ClosestPeers(nodeID, Content(), key, k)
    {
      hide KeepAll, BucketPeers;
      if |nodeID| != |key| {
        return Err(DifferentLength);
      }
      ghost var c := Content();
      var closest := new Option<Near>[k](_ => None);
      NothingKept(key, k);
      assert closest[..] == Slots(KeepAll([], key, k), k);
      ghost var seen: seq<Peer> := [];
      var i := 0;
      assert c[0..] == c;
      while i < |buckets|
        invariant 0 <= i <= |buckets| && Content() == c
        invariant Peers(c) == seen + Peers(c[i..])
        invariant closest[..] == Slots(KeepAll(seen, key, k), k)
      {
        ghost var ps, rest := BucketPeers(c[i]), Peers(c[i + 1..]);
        assert c[i..][0] == c[i] && c[i..][1..] == c[i + 1..];
        assert seen + (ps + rest) == (seen + ps) + rest;
        forall p | p in seen + ps ensures |p.id| == |key| {
          assert p in (seen + ps) + rest;
        }
        OfferBucket(closest, buckets[i], key, seen);
        seen := seen + ps;
        i := i + 1;
      }
      assert c[i..] == [] && Peers(c[i..]) == [] && seen + [] == seen;
      ghost var t := KeepAll(seen, key, k);
      var res: seq<Near> := [];
      var n := 0;
      while n < closest.Length && closest[n] != None
        invariant 0 <= n <= |t| && res == t[..n]
      {
        assert closest[n] == Slots(t, k)[n];
        res := res + [closest[n].value];
        n := n + 1;
      }
      assert n < k ==> closest[n] == Slots(t, k)[n];
      assert res == t && Peers(c) == seen;
      return Ok(res);
    }
  }

  lemma {:induction false} NothingKept(key: Id, k: nat)
    ensures KeepAll([], key, k) == []
  {
  }
}
