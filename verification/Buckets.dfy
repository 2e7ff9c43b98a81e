/**
 The buckets of the peer store as sequences of slots: what inserting and removing do to one bucket, and
 that over any history every bucket is a compact list of different peers.
 */
module Buckets {
  import opened Wrappers
  import opened Bytes
  import opened Ids

  type Bucket = seq<Option<Peer>>

  datatype StoreError = DifferentLength | NoSpace

  // ---------- One bucket ----------

  /** insertPeerIntoBucket, and whether there was space or the peer was there already. */
  function Insert(b: Bucket, p: Peer): (Bucket, bool) {
    if b == [] then (b, false)
    else match b[0]
      case None => ([Some(p)] + b[1..], true)
      case Some(q) =>
        if q.id == p.id then (b, true)
        else
          var (rest, ok) := Insert(b[1..], p);
          ([b[0]] + rest, ok)
  }

  /** removePeerFromBucket. */
  function Remove(b: Bucket, p: Peer): Bucket {
    if b == [] then b
    else match b[0]
      case None => b
      case Some(q) => if q.id == p.id then Shift(b) else [b[0]] + Remove(b[1..], p)
  }

  /** The loop after the peer was found: every slot takes over the next one, up to the first empty slot. */
  function Shift(b: Bucket): Bucket
    requires b != []
  {
    if |b| == 1 then [None]
    else [b[1]] + if b[1] == None then b[1..] else Shift(b[1..])
  }

  // ---------- One bucket as a bounded list of peers ----------

  /** A compact bucket of `k` slots: the peers of `l`, then empty slots. */
  function Packed(l: seq<Peer>, k: nat): Bucket
    requires |l| <= k
  {
    seq(k, i requires 0 <= i < k => if i < |l| then Some(l[i]) else None)
  }

  predicate HasId(l: seq<Peer>, id: Id) {
    exists i :: 0 <= i < |l| && l[i].id == id
  }

  function Added(l: seq<Peer>, k: nat, p: Peer): seq<Peer> {
    if HasId(l, p.id) || |l| >= k then l else l + [p]
  }

  function Without(l: seq<Peer>, id: Id): seq<Peer> {
    if l == [] then [] else if l[0].id == id then l[1..] else [l[0]] + Without(l[1..], id)
  }

  lemma PackedTail(l: seq<Peer>, k: nat)
    requires |l| <= k && l != []
    ensures Packed(l, k) == [Some(l[0])] + Packed(l[1..], k - 1)
  {
  }

  lemma {:induction false} InsertPacked(l: seq<Peer>, k: nat, p: Peer)
    requires |l| <= k
    ensures |Added(l, k, p)| <= k
    ensures Insert(Packed(l, k), p) == (Packed(Added(l, k, p), k), HasId(l, p.id) || |l| < k)
    decreases |l|
  {
    if l == [] {
      if k > 0 {
        assert l + [p] == [p];
        assert [Some(p)] + Packed(l, k)[1..] == Packed([p], k);
      }
    } else {
      PackedTail(l, k);
      assert l[0].id == p.id ==> HasId(l, p.id);
      InsertPacked(l[1..], k - 1, p);
      HasIdTail(l, p.id);
      if l[0].id != p.id && Added(l, k, p) != l {
        assert Added(l, k, p)[1..] == Added(l[1..], k - 1, p);
        PackedTail(Added(l, k, p), k);
      }
    }
  }

  lemma HasIdTail(l: seq<Peer>, id: Id)
    requires l != []
    ensures HasId(l, id) <==> l[0].id == id || HasId(l[1..], id)
  {
    if HasId(l, id) && l[0].id != id {
      var i :| 0 <= i < |l| && l[i].id == id;
      assert l[1..][i - 1].id == id;
    }
    if HasId(l[1..], id) {
      var i :| 0 <= i < |l[1..]| && l[1..][i].id == id;
      assert l[i + 1].id == id;
    }
  }

  lemma {:induction false} ShiftPacked(l: seq<Peer>, k: nat)
    requires 0 < |l| <= k
    ensures Shift(Packed(l, k)) == Packed(l[1..], k)
    decreases |l|
  {
    var b := Packed(l, k);
    if k > 1 {
      PackedTail(l, k);
      assert b[1..] == Packed(l[1..], k - 1);
      if |l| > 1 {
        ShiftPacked(l[1..], k - 1);
        PackedTail(l[1..], k);
      } else {
        assert [b[1]] + b[1..] == Packed([], k);
      }
    }
  }

  lemma {:induction false} RemovePacked(l: seq<Peer>, k: nat, p: Peer)
    requires |l| <= k
    ensures |Without(l, p.id)| <= |l|
    ensures Remove(Packed(l, k), p) == Packed(Without(l, p.id), k)
    decreases |l|
  {
    if l != [] {
      PackedTail(l, k);
      if l[0].id == p.id {
        ShiftPacked(l, k);
      } else {
        RemovePacked(l[1..], k - 1, p);
        PackedTail(Without(l, p.id), k);
      }
    }
  }

  // ---------- The place of a peer ----------

  /** bits.LeadingZeros8. */
  function LeadingZeros8(x: byte): (n: nat)
    ensures n <= 8 && (n == 8 <==> x == 0)
  {
    if x >= 128 then 0 else if x >= 64 then 1 else if x >= 32 then 2 else if x >= 16 then 3
    else if x >= 8 then 4 else if x >= 4 then 5 else if x >= 2 then 6 else if x >= 1 then 7 else 8
  }

  /** A byte with `n` leading zeros lies between two powers of two. */
  lemma LeadingZerosIs(x: byte)
    ensures var n := LeadingZeros8(x); x < Pow2(8 - n) && (x > 0 ==> Pow2(7 - n) <= x)
  {
    assert Pow2(1) == 2 && Pow2(2) == 4 && Pow2(3) == 8 && Pow2(4) == 16;
    assert Pow2(5) == 32 && Pow2(6) == 64 && Pow2(7) == 128 && Pow2(8) == 256;
  }

  /** numEqualBitsPrefix: the loop goes on only behind a byte whose exclusive or is 8. */
  function BucketIndex(a: Id, b: Id): nat
    requires |a| == |b|
  {
    if b == [] then 0
    else
      var cur := XorByte(a[0], b[0]);
      LeadingZeros8(cur) + if cur != 8 then 0 else BucketIndex(a[1..], b[1..])
  }

  lemma {:induction false} BucketIndexBound(a: Id, b: Id)
    requires |a| == |b|
    ensures BucketIndex(a, b) <= if |b| == 0 then 0 else 4 * |b| + 4
    decreases |b|
  {
    if b != [] && XorByte(a[0], b[0]) == 8 {
      BucketIndexBound(a[1..], b[1..]);
    }
  }

  /** Every other peer has a bucket. */
  lemma {:induction false} BucketIndexInRange(a: Id, b: Id)
    requires |a| == |b| && a != b
    ensures BucketIndex(a, b) < 8 * |a|
  {
    BucketIndexBound(a, b);
    if |a| == 1 {
      XorZero(a[0], b[0]);
      assert XorByte(a[0], b[0]) != 0;
      assert BucketIndex(a[1..], b[1..]) == 0;
    }
  }

  /** The index counts four for every byte in front of the first whose exclusive or is not 8, and adds the leading
      zeros of that one. */
  lemma {:induction false} BucketIndexIs(a: Id, b: Id, k: nat)
    requires |a| == |b| && k <= |a| && forall i :: 0 <= i < k ==> XorByte(a[i], b[i]) == 8
    requires k < |a| ==> XorByte(a[k], b[k]) != 8
    ensures BucketIndex(a, b) == 4 * k + if k < |a| then LeadingZeros8(XorByte(a[k], b[k])) else 0
    decreases k
  {
    hide XorByte;
    if k > 0 {
      assert forall i :: 0 <= i < k - 1 ==> XorByte(a[1..][i], b[1..][i]) == XorByte(a[i + 1], b[i + 1]);
      BucketIndexIs(a[1..], b[1..], k - 1);
    }
  }

  /** It is not the length of the common prefix: two identifiers that share no more than the first four
      bits land behind two that share fifteen. */
  lemma NotThePrefixLength()
    ensures BucketIndex([0, 0], [8, 1]) == 11 && CommonPrefix([0, 0], [8, 1]) == 4
    ensures BucketIndex([0, 0], [0, 1]) == 8 && CommonPrefix([0, 0], [0, 1]) == 15
  {
    hide XorByte;
    ZeroXor(8);
    ZeroXor(1);
    ZeroXor(0);
    assert [8, 1][1..] == [1 as byte] && [0, 0][1..] == [0 as byte];
    assert BucketIndex([0], [1]) == 7 && CommonPrefix([0], [1]) == 7;
  }

  /** The number of leading bits that two identifiers share. */
  function CommonPrefix(a: Id, b: Id): nat
    requires |a| == |b|
  {
    if b == [] then 0
    else
      var cur := XorByte(a[0], b[0]);
      LeadingZeros8(cur) + if cur != 0 then 0 else CommonPrefix(a[1..], b[1..])
  }

  /** Bit `j` of an identifier, from the front. */
  predicate BitAt(a: Id, j: nat)
    requires j < 8 * |a|
  {
    Bit(a[j / 8], 7 - j % 8)
  }

  lemma {:induction false} NoHighBits(x: nat, k: nat, i: nat)
    requires x < Pow2(k) && i >= k
    ensures !Bit(x, i)
    decreases i
  {
    if i > 0 {
      NoHighBits(x / 2, if k > 0 then k - 1 else 0, i - 1);
    }
  }

  lemma {:induction false} HighestBit(x: nat, k: nat)
    requires Pow2(k) <= x < Pow2(k + 1)
    ensures Bit(x, k)
    decreases k
  {
    if k > 0 {
      HighestBit(x / 2, k - 1);
    }
  }

  /** Two identifiers share exactly the leading bits that the common prefix counts. */
  lemma {:induction false} CommonPrefixIs(a: Id, b: Id)
    requires |a| == |b|
    ensures var n := CommonPrefix(a, b);
            && n <= 8 * |a| && (forall j: nat :: j < n ==> (BitAt(a, j) <==> BitAt(b, j)))
            && (n < 8 * |a| ==> (BitAt(a, n) <==> !BitAt(b, n)))
    decreases |a|
  {
    hide XorByte, LeadingZeros8, Bit;
    if a != [] {
      CommonPrefixIs(a[1..], b[1..]);
      var m := LeadingZeros8(XorByte(a[0], b[0]));
      LeadingZerosIs(XorByte(a[0], b[0]));
      forall j: nat | j < CommonPrefix(a, b) ensures BitAt(a, j) <==> BitAt(b, j) {
        if j < m {
          SharedInByte(a[0], b[0], j);
        } else {
          assert m == 8 && (BitAt(a[1..], j - 8) <==> BitAt(b[1..], j - 8));
          BehindFirst(a, j);
          BehindFirst(b, j);
        }
      }
      if m < 8 {
        SharedInByte(a[0], b[0], m);
      } else if CommonPrefix(a, b) < 8 * |a| {
        BehindFirst(a, CommonPrefix(a, b));
        BehindFirst(b, CommonPrefix(a, b));
      }
    }
  }

  lemma BehindFirst(a: Id, j: nat)
    requires 8 <= j < 8 * |a|
    ensures BitAt(a, j) <==> BitAt(a[1..], j - 8)
  {
    assert j / 8 == (j - 8) / 8 + 1 && j % 8 == (j - 8) % 8;
  }

  /** The leading zeros of the exclusive or of two bytes are the leading bits they share. */
  lemma SharedInByte(x: byte, y: byte, j: nat)
    requires j < 8 && j <= LeadingZeros8(XorByte(x, y))
    ensures Bit(x, 7 - j) <==> (Bit(y, 7 - j) <==> j < LeadingZeros8(XorByte(x, y)))
  {
    hide LeadingZeros8, Bit, Xor;
    var z, n := XorByte(x, y), LeadingZeros8(XorByte(x, y));
    LeadingZerosIs(z);
    XorBits(x, y, 7 - j);
    if j < n {
      NoHighBits(z, 8 - n, 7 - j);
    } else {
      HighestBit(z, 7 - n);
    }
  }

  /** The index is the length of the common prefix exactly when the first byte decides both, or the second
      one adds nothing to either. */
  lemma {:induction false} IndexIsPrefixIff(a: Id, b: Id)
    requires |a| == |b|
    ensures BucketIndex(a, b) == CommonPrefix(a, b) <==>
            |a| <= 1 || XorByte(a[0], b[0]) !in {0, 8} || XorByte(a[1], b[1]) >= 128
  {
    hide XorByte;
    if |a| > 0 {
      NothingShared(a[1..], b[1..]);
    }
  }

  lemma {:induction false} NothingShared(a: Id, b: Id)
    requires |a| == |b|
    ensures BucketIndex(a, b) == 0 <==> a == [] || XorByte(a[0], b[0]) >= 128
    ensures CommonPrefix(a, b) == 0 <==> a == [] || XorByte(a[0], b[0]) >= 128
  {
    hide XorByte;
  }

  // ---------- The whole store ----------

  /** Every bucket has `k` slots; there is one for every bit of the node's identifier. */
  function EmptyStore(nodeID: Id, k: nat): (s: seq<Bucket>)
    ensures |s| == 8 * |nodeID|
  {
    seq(8 * |nodeID|, i => Packed([], k))
  }

  /** AddPeer. */
  function AddPeer(nodeID: Id, buckets: seq<Bucket>, p: Peer): (r: (seq<Bucket>, Option<StoreError>))
    requires |buckets| == 8 * |nodeID|
    ensures |r.0| == |buckets|
  {
    if |nodeID| != |p.id| then (buckets, Some(DifferentLength))
    else if p.id == nodeID then (buckets, None)
    else
      BucketIndexInRange(nodeID, p.id);
      var i := BucketIndex(nodeID, p.id);
      var (bucket, ok) := Insert(buckets[i], p);
      (buckets[i := bucket], if ok then None else Some(NoSpace))
  }

  /** RemovePeer. */
  function RemovePeer(nodeID: Id, buckets: seq<Bucket>, p: Peer): (r: (seq<Bucket>, Option<StoreError>))
    requires |buckets| == 8 * |nodeID|
    ensures |r.0| == |buckets|
  {
    if |nodeID| != |p.id| then (buckets, Some(DifferentLength))
    else if p.id == nodeID then (buckets, None)
    else
      BucketIndexInRange(nodeID, p.id);
      var i := BucketIndex(nodeID, p.id);
      (buckets[i := Remove(buckets[i], p)], None)
  }

  function BucketPeers(b: Bucket): seq<Peer> {
    if b == [] then []
    else (match b[0] case None => [] case Some(p) => [p]) + BucketPeers(b[1..])
  }

  /** Peers: bucket by bucket, the peers in the order of the slots. */
  function Peers(buckets: seq<Bucket>): seq<Peer> {
    if buckets == [] then [] else BucketPeers(buckets[0]) + Peers(buckets[1..])
  }

  datatype Op = Add(p: Peer) | Drop(p: Peer)

  function Apply(nodeID: Id, buckets: seq<Bucket>, op: Op): (r: seq<Bucket>)
    requires |buckets| == 8 * |nodeID|
    ensures |r| == |buckets|
  {
    match op
    case Add(p) => AddPeer(nodeID, buckets, p).0
    case Drop(p) => RemovePeer(nodeID, buckets, p).0
  }

  lemma {:induction false} HistoryMore(nodeID: Id, k: nat, ops: seq<Op>, op: Op)
    ensures History(nodeID, k, ops + [op]) == Apply(nodeID, History(nodeID, k, ops), op)
  {
    hide Apply;
    assert (ops + [op])[..|ops|] == ops;
  }

  function History(nodeID: Id, k: nat, ops: seq<Op>): (r: seq<Bucket>)
    ensures |r| == 8 * |nodeID|
  {
    if ops == [] then EmptyStore(nodeID, k)
    else Apply(nodeID, History(nodeID, k, ops[..|ops| - 1]), ops[|ops| - 1])
  }

  /** The same history on plain lists: each list takes the peers whose place it is, while there is room and
      if their identifier is new, and gives up the ones removed. */
  function ListsAfter(nodeID: Id, k: nat, ops: seq<Op>): (ls: seq<seq<Peer>>)
    ensures |ls| == 8 * |nodeID|
  {
    if ops == [] then seq(8 * |nodeID|, i => [])
    else
      var ls, op := ListsAfter(nodeID, k, ops[..|ops| - 1]), ops[|ops| - 1];
      if |nodeID| != |op.p.id| || op.p.id == nodeID then ls
      else
        BucketIndexInRange(nodeID, op.p.id);
        var i := BucketIndex(nodeID, op.p.id);
        ls[i := if op.Add? then Added(ls[i], k, op.p) else Without(ls[i], op.p.id)]
  }

  /** A list of different peers, all of them in their place. */
  ghost predicate ListOk(nodeID: Id, l: seq<Peer>, at: nat) {
    && (forall i, j :: 0 <= i < j < |l| ==> l[i].id != l[j].id)
    && (forall i :: 0 <= i < |l| ==> |l[i].id| == |nodeID| && l[i].id != nodeID && BucketIndex(nodeID, l[i].id) == at)
  }

  ghost predicate StoreOk(nodeID: Id, k: nat, buckets: seq<Bucket>, ls: seq<seq<Peer>>) {
    && |buckets| == |ls| == 8 * |nodeID|
    && forall b :: 0 <= b < |ls| ==> |ls[b]| <= k && buckets[b] == Packed(ls[b], k) && ListOk(nodeID, ls[b], b)
  }

  lemma {:induction false} AddedOk(nodeID: Id, l: seq<Peer>, k: nat, at: nat, p: Peer)
    requires ListOk(nodeID, l, at)
    requires |p.id| == |nodeID| && p.id != nodeID && BucketIndex(nodeID, p.id) == at
    ensures ListOk(nodeID, Added(l, k, p), at)
  {
    hide BucketIndex;
  }

  predicate AllDiffer(l: seq<Peer>) {
    forall i, j :: 0 <= i < j < |l| ==> l[i].id != l[j].id
  }

  lemma RestDiffers(l: seq<Peer>)
    requires l != [] && AllDiffer(l)
    ensures AllDiffer(l[1..]) && forall p :: p in l[1..] ==> p.id != l[0].id
  {
    var rest := l[1..];
    assert forall i :: 0 <= i < |rest| ==> rest[i] == l[i + 1];
  }

  lemma FrontDiffers(p: Peer, l: seq<Peer>)
    requires AllDiffer(l) && forall q :: q in l ==> q.id != p.id
    ensures AllDiffer([p] + l)
  {
    assert forall i :: 0 < i < |[p] + l| ==> ([p] + l)[i] == l[i - 1];
  }

  lemma {:induction false} WithoutIs(l: seq<Peer>, id: Id, p: Peer)
    requires AllDiffer(l)
    ensures p in Without(l, id) <==> p in l && p.id != id
    decreases |l|
  {
    hide AllDiffer;
    if l != [] {
      RestDiffers(l);
      WithoutIs(l[1..], id, p);
      assert l == [l[0]] + l[1..];
    }
  }

  lemma {:induction false} WithoutDiffers(l: seq<Peer>, id: Id)
    requires AllDiffer(l)
    ensures AllDiffer(Without(l, id))
    decreases |l|
  {
    hide AllDiffer;
    if l != [] {
      RestDiffers(l);
      if l[0].id != id {
        WithoutDiffers(l[1..], id);
        forall q | q in Without(l[1..], id) ensures q.id != l[0].id {
          WithoutIs(l[1..], id, q);
        }
        FrontDiffers(l[0], Without(l[1..], id));
      }
    } else {
      NobodyDiffers();
    }
  }

  lemma NobodyDiffers()
    ensures AllDiffer([])
  {
  }

  lemma {:induction false} WithoutOk(nodeID: Id, l: seq<Peer>, at: nat, id: Id)
    requires ListOk(nodeID, l, at)
    ensures ListOk(nodeID, Without(l, id), at)
    ensures forall p :: p in Without(l, id) <==> p in l && p.id != id
  {
    hide BucketIndex, Without;
    WithoutDiffers(l, id);
    forall p ensures p in Without(l, id) <==> p in l && p.id != id {
      WithoutIs(l, id, p);
    }
    var w := Without(l, id);
    forall i | 0 <= i < |w|
      ensures |w[i].id| == |nodeID| && w[i].id != nodeID && BucketIndex(nodeID, w[i].id) == at
    {
      assert w[i] in w;
    }
  }

  /** Over any history of additions and removals every bucket is compact, holds different peers, and holds
      them in the place computed from their identifiers: the store is the bounded lists. */
  lemma {:induction false} StoreIsLists(nodeID: Id, k: nat, ops: seq<Op>)
    ensures StoreOk(nodeID, k, History(nodeID, k, ops), ListsAfter(nodeID, k, ops))
    decreases |ops|
  {
    hide BucketIndex, Insert, Remove, Added, Without, HasId;
    if ops == [] {
      assert forall b :: 0 <= b < 8 * |nodeID| ==> ListsAfter(nodeID, k, ops)[b] == [];
    } else {
      var before, op := ops[..|ops| - 1], ops[|ops| - 1];
      StoreIsLists(nodeID, k, before);
      if |nodeID| == |op.p.id| && op.p.id != nodeID {
        BucketIndexInRange(nodeID, op.p.id);
        var i := BucketIndex(nodeID, op.p.id);
        var l := ListsAfter(nodeID, k, before)[i];
        InsertPacked(l, k, op.p);
        AddedOk(nodeID, l, k, i, op.p);
        RemovePacked(l, k, op.p);
        WithoutOk(nodeID, l, i, op.p.id);
      }
    }
  }

  // ---------- The peers of a store ----------

  lemma {:induction false} BucketPeersPacked(l: seq<Peer>, k: nat)
    requires |l| <= k
    ensures BucketPeers(Packed(l, k)) == l
    decreases k
  {
    if k > 0 {
      if l == [] {
        assert Packed(l, k)[1..] == Packed(l, k - 1);
        BucketPeersPacked(l, k - 1);
      } else {
        PackedTail(l, k);
        BucketPeersPacked(l[1..], k - 1);
      }
    }
  }

  /** A peer is listed exactly when it is in the bucket of its place. */
  lemma {:induction false} InPeers(buckets: seq<Bucket>, p: Peer)
    ensures p in Peers(buckets) <==> exists b :: 0 <= b < |buckets| && p in BucketPeers(buckets[b])
    decreases |buckets|
  {
    if buckets != [] {
      InPeers(buckets[1..], p);
      assert forall b :: 0 < b < |buckets| ==> buckets[b] == buckets[1..][b - 1];
      if p in Peers(buckets[1..]) {
        var b :| 0 <= b < |buckets[1..]| && p in BucketPeers(buckets[1..][b]);
        assert p in BucketPeers(buckets[b + 1]);
      }
    }
  }

  /** Different peers whose places are at or behind `from`. */
  ghost predicate Spread(nodeID: Id, ps: seq<Peer>, from: nat) {
    && (forall i, j :: 0 <= i < j < |ps| ==> ps[i].id != ps[j].id)
    && (forall i :: 0 <= i < |ps| ==>
         |ps[i].id| == |nodeID| && ps[i].id != nodeID && from <= BucketIndex(nodeID, ps[i].id))
  }

  /** The identifiers listed are pairwise different across the whole store. */
  lemma {:induction false} PeersDistinct(nodeID: Id, k: nat, buckets: seq<Bucket>, ls: seq<seq<Peer>>, from: nat)
    requires StoreOk(nodeID, k, buckets, ls) && from <= |buckets|
    ensures Spread(nodeID, Peers(buckets[from..]), from)
    decreases |buckets| - from
  {
    hide Spread, BucketIndex, Packed, BucketPeers;
    if from == |buckets| {
      assert buckets[from..] == [];
      NothingSpread(nodeID, from);
    } else {
      PeersDistinct(nodeID, k, buckets, ls, from + 1);
      BucketPeersPacked(ls[from], k);
      assert buckets[from..][1..] == buckets[from + 1..];
      BehindList(nodeID, ls[from], Peers(buckets[from + 1..]), from);
    }
  }

  lemma NothingSpread(nodeID: Id, from: nat)
    ensures Spread(nodeID, [], from)
  {
  }

  lemma BehindList(nodeID: Id, l: seq<Peer>, rest: seq<Peer>, from: nat)
    requires ListOk(nodeID, l, from) && Spread(nodeID, rest, from + 1)
    ensures Spread(nodeID, l + rest, from)
  {
    hide BucketIndex;
    var ps := l + rest;
    forall i | 0 <= i < |ps|
      ensures |ps[i].id| == |nodeID| && ps[i].id != nodeID && from <= BucketIndex(nodeID, ps[i].id)
    {
      if |l| <= i {
        assert ps[i] == rest[i - |l|];
      }
    }
    forall i, j | 0 <= i < j < |ps| ensures ps[i].id != ps[j].id {
      if |l| <= i {
        assert ps[i] == rest[i - |l|] && ps[j] == rest[j - |l|];
      } else if |l| <= j {
        assert ps[j] == rest[j - |l|] && ps[i] == l[i];
      }
    }
  }

  /** The identifiers the store must list after a history: those added while there was room, less those
      removed since. */
  lemma {:induction false} PeersAreLists(nodeID: Id, k: nat, ops: seq<Op>, p: Peer)
    ensures var ps := Peers(History(nodeID, k, ops));
            && (forall i, j :: 0 <= i < j < |ps| ==> ps[i].id != ps[j].id)
            && (p in ps <==> && |p.id| == |nodeID| && p.id != nodeID
                             && BucketIndex(nodeID, p.id) < 8 * |nodeID|
                             && p in ListsAfter(nodeID, k, ops)[BucketIndex(nodeID, p.id)])
  {
    var buckets, ls := History(nodeID, k, ops), ListsAfter(nodeID, k, ops);
    StoreIsLists(nodeID, k, ops);
    assert buckets[0..] == buckets;
    PeersDistinct(nodeID, k, buckets, ls, 0);
    InPeers(buckets, p);
    forall b | 0 <= b < |ls| ensures BucketPeers(buckets[b]) == ls[b] {
      BucketPeersPacked(ls[b], k);
    }
  }

  /** The peers are listed in the order of their places. */
  lemma {:induction false} PeersInOrder(nodeID: Id, k: nat, buckets: seq<Bucket>, ls: seq<seq<Peer>>, from: nat)
    requires StoreOk(nodeID, k, buckets, ls) && from <= |buckets|
    ensures var ps := Peers(buckets[from..]);
            && (forall i :: 0 <= i < |ps| ==> |ps[i].id| == |nodeID|)
            && forall i, j :: 0 <= i < j < |ps| ==>
                 from <= BucketIndex(nodeID, ps[i].id) <= BucketIndex(nodeID, ps[j].id)
    decreases |buckets| - from
  {
    hide BucketIndex, Packed, BucketPeers;
    if from == |buckets| {
      assert buckets[from..] == [];
    } else {
      PeersInOrder(nodeID, k, buckets, ls, from + 1);
      PeersDistinct(nodeID, k, buckets, ls, from + 1);
      BucketPeersPacked(ls[from], k);
      assert buckets[from..][1..] == buckets[from + 1..];
      var l, rest := ls[from], Peers(buckets[from + 1..]);
      assert forall i :: |l| <= i < |l + rest| ==> (l + rest)[i] == rest[i - |l|];
    }
  }

  // ---------- What one call does to the peers ----------

  /** The peers whose place is bucket `at`, in order. */
  function InPlace(nodeID: Id, ps: seq<Peer>, at: nat): seq<Peer> {
    if ps == [] then []
    else
      var here := |ps[0].id| == |nodeID| && BucketIndex(nodeID, ps[0].id) == at;
      (if here then [ps[0]] else []) + InPlace(nodeID, ps[1..], at)
  }

  lemma {:induction false} FirstInPlace(nodeID: Id, ps: seq<Peer>, at: nat)
    ensures ps != [] ==> InPlace(nodeID, ps, at) == InPlace(nodeID, [ps[0]], at) + InPlace(nodeID, ps[1..], at)
    ensures InPlace(nodeID, [], at) == []
  {
    hide BucketIndex;
    if ps != [] {
      var one := [ps[0]];
      assert one[1..] == [] && InPlace(nodeID, one[1..], at) == [];
    }
  }

  lemma RegroupPeers(a: seq<Peer>, b: seq<Peer>, c: seq<Peer>)
    ensures a + (b + c) == (a + b) + c
  {
  }

  lemma {:induction false} InPlaceAppend(nodeID: Id, a: seq<Peer>, b: seq<Peer>, at: nat)
    ensures InPlace(nodeID, a + b, at) == InPlace(nodeID, a, at) + InPlace(nodeID, b, at)
    decreases |a|
  {
    hide InPlace;
    FirstInPlace(nodeID, a, at);
    FirstInPlace(nodeID, a + b, at);
    if a == [] {
      assert a + b == b && [] + InPlace(nodeID, b, at) == InPlace(nodeID, b, at);
    } else {
      InPlaceAppend(nodeID, a[1..], b, at);
      assert (a + b)[1..] == a[1..] + b;
      RegroupPeers(InPlace(nodeID, [a[0]], at), InPlace(nodeID, a[1..], at), InPlace(nodeID, b, at));
    }
  }

  lemma {:induction false} InPlaceOfList(nodeID: Id, l: seq<Peer>, from: nat, at: nat)
    requires forall i :: 0 <= i < |l| ==> |l[i].id| == |nodeID| && BucketIndex(nodeID, l[i].id) == from
    ensures InPlace(nodeID, l, at) == if at == from then l else []
    decreases |l|
  {
    hide BucketIndex;
    if l != [] {
      InPlaceOfList(nodeID, l[1..], from, at);
    }
  }

  lemma {:induction false} PeersInPlace(nodeID: Id, k: nat, buckets: seq<Bucket>, ls: seq<seq<Peer>>, from: nat,
      at: nat)
    requires StoreOk(nodeID, k, buckets, ls) && from <= |buckets|
    ensures InPlace(nodeID, Peers(buckets[from..]), at) == if from <= at < |ls| then ls[at] else []
    decreases |buckets| - from
  {
    hide BucketIndex, Packed, BucketPeers, InPlace;
    if from == |buckets| {
      assert buckets[from..] == [];
      InPlaceOfList(nodeID, [], from, at);
    } else {
      PeersInPlace(nodeID, k, buckets, ls, from + 1, at);
      BucketPeersPacked(ls[from], k);
      assert buckets[from..][1..] == buckets[from + 1..];
      InPlaceOfList(nodeID, ls[from], from, at);
      InPlaceAppend(nodeID, ls[from], Peers(buckets[from + 1..]), at);
    }
  }

  lemma {:induction false} StoredInPlace(nodeID: Id, ps: seq<Peer>, id: Id)
    requires |id| == |nodeID|
    ensures HasId(ps, id) <==> HasId(InPlace(nodeID, ps, BucketIndex(nodeID, id)), id)
    decreases |ps|
  {
    hide BucketIndex, HasId;
    if ps == [] {
      NobodyHasId(id);
    } else {
      HasIdTail(ps, id);
      StoredInPlace(nodeID, ps[1..], id);
      var l := InPlace(nodeID, ps, BucketIndex(nodeID, id));
      if |ps[0].id| == |nodeID| && BucketIndex(nodeID, ps[0].id) == BucketIndex(nodeID, id) {
        assert l[1..] == InPlace(nodeID, ps[1..], BucketIndex(nodeID, id));
        HasIdTail(l, id);
      } else {
        assert l == InPlace(nodeID, ps[1..], BucketIndex(nodeID, id)) && ps[0].id != id;
      }
    }
  }

  lemma NobodyHasId(id: Id)
    ensures !HasId([], id)
  {
  }

  /** AddPeer on any reachable store: the errors, and that a peer that is new and has room in its place is listed
      behind the others of its place, and nothing else changes. */
  lemma {:induction false} AddPeerIs(nodeID: Id, k: nat, ops: seq<Op>, p: Peer, at: nat)
    ensures var before := History(nodeID, k, ops);
            var (after, err) := AddPeer(nodeID, before, p);
            var ps, ps' := Peers(before), Peers(after);
            && (err == Some(DifferentLength) <==> |p.id| != |nodeID|)
            && (|p.id| != |nodeID| || p.id == nodeID ==> ps' == ps)
            && (p.id == nodeID ==> err == None)
            && (|p.id| == |nodeID| && p.id != nodeID ==>
                  var place := BucketIndex(nodeID, p.id);
                  var room := |InPlace(nodeID, ps, place)| < k;
                  && err == (if HasId(ps, p.id) || room then None else Some(NoSpace))
                  && InPlace(nodeID, ps', at) ==
                       InPlace(nodeID, ps, at) + if at == place && room && !HasId(ps, p.id) then [p] else [])
  {
    hide BucketIndex, Insert, HasId, Packed, InPlace, Peers;
    if |p.id| == |nodeID| && p.id != nodeID {
      var before, after := History(nodeID, k, ops), History(nodeID, k, ops + [Add(p)]);
      assert (ops + [Add(p)])[..|ops|] == ops;
      var ls, ls' := ListsAfter(nodeID, k, ops), ListsAfter(nodeID, k, ops + [Add(p)]);
      StoreIsLists(nodeID, k, ops);
      StoreIsLists(nodeID, k, ops + [Add(p)]);
      assert before[0..] == before && after[0..] == after;
      PeersInPlace(nodeID, k, before, ls, 0, at);
      PeersInPlace(nodeID, k, after, ls', 0, at);
      BucketIndexInRange(nodeID, p.id);
      var place := BucketIndex(nodeID, p.id);
      PeersInPlace(nodeID, k, before, ls, 0, place);
      StoredInPlace(nodeID, Peers(before), p.id);
      InsertPacked(ls[place], k, p);
      assert InPlace(nodeID, Peers(before), at) + [] == InPlace(nodeID, Peers(before), at);
    }
  }

  /** `l'` is `l` without the one peer of that identifier. */
  ghost predicate CutOut(l: seq<Peer>, l': seq<Peer>, id: Id, i: nat) {
    i < |l| && l[i].id == id && l' == l[..i] + l[i + 1..]
  }

  lemma {:induction false} WithoutCutsOut(l: seq<Peer>, id: Id) returns (i: nat)
    ensures if HasId(l, id) then CutOut(l, Without(l, id), id, i) else Without(l, id) == l
    decreases |l|
  {
    hide HasId, CutOut;
    i := 0;
    if l == [] {
      NobodyHasId(id);
    } else {
      HasIdTail(l, id);
      assert l == [l[0]] + l[1..];
      if l[0].id == id {
        FirstCutOut(l[0], l[1..]);
      } else {
        var j := WithoutCutsOut(l[1..], id);
        i := j + 1;
        if HasId(l, id) {
          LaterCutOut(l[0], l[1..], Without(l[1..], id), id, j);
        }
      }
    }
  }

  lemma FirstCutOut(p: Peer, l: seq<Peer>)
    ensures CutOut([p] + l, l, p.id, 0)
  {
  }

  lemma LaterCutOut(p: Peer, l: seq<Peer>, l': seq<Peer>, id: Id, i: nat)
    requires CutOut(l, l', id, i)
    ensures CutOut([p] + l, [p] + l', id, i + 1)
  {
  }

  /** RemovePeer on any reachable store: the error, and that exactly the peer of that identifier goes from its
      place, if it was there. */
  lemma {:induction false} RemovePeerIs(nodeID: Id, k: nat, ops: seq<Op>, p: Peer, at: nat)
    ensures var before := History(nodeID, k, ops);
            var (after, err) := RemovePeer(nodeID, before, p);
            var ps, ps' := Peers(before), Peers(after);
            && err == (if |p.id| != |nodeID| then Some(DifferentLength) else None)
            && (|p.id| != |nodeID| || p.id == nodeID ==> ps' == ps)
            && (|p.id| == |nodeID| && p.id != nodeID ==>
                  if at == BucketIndex(nodeID, p.id) && HasId(ps, p.id)
                  then exists i: nat :: CutOut(InPlace(nodeID, ps, at), InPlace(nodeID, ps', at), p.id, i)
                  else InPlace(nodeID, ps', at) == InPlace(nodeID, ps, at))
  {
    hide BucketIndex, HasId, InPlace, Peers, CutOut, Without, ListsAfter, History, RemovePeer, StoreOk;
    RemoveErrors(nodeID, History(nodeID, k, ops), p);
    if |p.id| == |nodeID| && p.id != nodeID {
      var ops' := ops + [Drop(p)];
      HistoryMore(nodeID, k, ops, Drop(p));
      ListsMore(nodeID, k, ops, Drop(p));
      var before, after := History(nodeID, k, ops), History(nodeID, k, ops');
      var ls, ls' := ListsAfter(nodeID, k, ops), ListsAfter(nodeID, k, ops');
      StoreIsLists(nodeID, k, ops);
      StoreIsLists(nodeID, k, ops');
      assert before[0..] == before && after[0..] == after;
      PeersInPlace(nodeID, k, before, ls, 0, at);
      PeersInPlace(nodeID, k, after, ls', 0, at);
      BucketIndexInRange(nodeID, p.id);
      var place := BucketIndex(nodeID, p.id);
      PeersInPlace(nodeID, k, before, ls, 0, place);
      StoredInPlace(nodeID, Peers(before), p.id);
      var i := WithoutCutsOut(ls[place], p.id);
    }
  }

  lemma RemoveErrors(nodeID: Id, buckets: seq<Bucket>, p: Peer)
    requires |buckets| == 8 * |nodeID|
    ensures var (after, err) := RemovePeer(nodeID, buckets, p);
            && err == (if |p.id| != |nodeID| then Some(DifferentLength) else None)
            && (|p.id| != |nodeID| || p.id == nodeID ==> after == buckets)
  {
    hide BucketIndex, Remove;
  }

  lemma {:induction false} ListsMore(nodeID: Id, k: nat, ops: seq<Op>, op: Op)
    requires |op.p.id| == |nodeID| && op.p.id != nodeID
    ensures var ls, i := ListsAfter(nodeID, k, ops), BucketIndex(nodeID, op.p.id);
            && i < 8 * |nodeID|
            && ListsAfter(nodeID, k, ops + [op]) ==
                 ls[i := if op.Add? then Added(ls[i], k, op.p) else Without(ls[i], op.p.id)]
  {
    hide BucketIndex, Added, Without;
    BucketIndexInRange(nodeID, op.p.id);
    assert (ops + [op])[..|ops|] == ops;
  }
}
