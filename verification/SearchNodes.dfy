/**
 The candidate list that the workers of one search share (searchNodes in kademila/kadmilla.go), its
 operations under the lock, and what offering a candidate keeps.
 */
module SearchNodes {
  import opened Wrappers
  import opened Ids
  import opened Greedy

  datatype Node = Node(peer: Peer, dist: int, done: bool)

  /** `None` is an entry whose peer is nil. */
  type Slot = Option<Node>

  // ---------- The operations on values ----------

  /** peerAllreadyAdded: an empty slot ends the search. */
  predicate Contains(slots: seq<Slot>, id: Id) {
    slots != [] && slots[0].Some? && (slots[0].value.peer.id == id || Contains(slots[1..], id))
  }

  function AddNode(slots: seq<Slot>, n: Node): seq<Slot> {
    if Contains(slots, n.peer.id) then slots else slots + [Some(n)]
  }

  /** One candidate of addSearchNodeIfCloser, and whether it was taken. */
  function Offer(slots: seq<Slot>, n: Node): (r: (seq<Slot>, bool))
    ensures |r.0| == |slots|
  {
    if slots == [] then (slots, false)
    else match slots[0]
      case None => ([Some(n)] + slots[1..], true)
      case Some(x) =>
        if x.peer.id == n.peer.id then (slots, false)
        else if n.dist < x.dist then ([Some(n)] + slots[1..], true)
        else
          var (rest, taken) := Offer(slots[1..], n);
          ([slots[0]] + rest, taken)
  }

  /** addSearchNodeIfCloser: the list afterwards and how many candidates were taken. */
  function OfferAll(slots: seq<Slot>, ns: seq<Node>): (r: (seq<Slot>, nat))
    ensures |r.0| == |slots|
    decreases |ns|
  {
    if ns == [] then (slots, 0)
    else
      var (before, n) := OfferAll(slots, ns[..|ns| - 1]);
      var (after, taken) := Offer(before, ns[|ns| - 1]);
      (after, if taken then n + 1 else n)
  }

  predicate Unsearched(s: Slot) {
    s.Some? && !s.value.done
  }

  /** getClosestNode, from slot `i` on with `best` found so far: a later node replaces the one found when
      it is farther away. */
  function Pick(slots: seq<Slot>, i: nat, best: Option<nat>): Option<nat>
    requires i <= |slots| && (best.Some? ==> best.value < i && Unsearched(slots[best.value]))
    decreases |slots| - i
  {
    if i == |slots| then best
    else if Unsearched(slots[i]) &&
              (best.None? || slots[best.value].value.dist < slots[i].value.dist) then Pick(slots, i + 1, Some(i))
    else Pick(slots, i + 1, best)
  }

  /** What getClosestNode returns: nothing exactly when every node is searched, otherwise the unsearched
      node that is farthest away, the first of them when several are. */
  ghost predicate Picked(slots: seq<Slot>, r: Option<nat>) {
    match r
    case None => forall j :: 0 <= j < |slots| ==> !Unsearched(slots[j])
    case Some(c) =>
      && c < |slots| && Unsearched(slots[c])
      && (forall j :: 0 <= j < |slots| && Unsearched(slots[j]) ==> slots[j].value.dist <= slots[c].value.dist)
      && (forall j :: 0 <= j < c && Unsearched(slots[j]) ==> slots[j].value.dist < slots[c].value.dist)
  }

  ghost predicate PickedSoFar(slots: seq<Slot>, i: nat, best: Option<nat>)
    requires i <= |slots|
  {
    Picked(slots[..i], best)
  }

  lemma {:induction false} PickIsFarthest(slots: seq<Slot>, i: nat, best: Option<nat>)
    requires i <= |slots| && (best.Some? ==> best.value < i && Unsearched(slots[best.value]))
    requires PickedSoFar(slots, i, best)
    ensures Picked(slots, Pick(slots, i, best))
    decreases |slots| - i
  {
    if i == |slots| {
      assert slots[..i] == slots;
    } else {
      assert forall j :: 0 <= j < i ==> slots[..i + 1][j] == slots[..i][j];
      PickIsFarthest(slots, i + 1,
        if Unsearched(slots[i]) &&
             (best.None? || slots[best.value].value.dist < slots[i].value.dist) then Some(i) else best);
    }
  }

  function Next(slots: seq<Slot>): (r: Option<nat>)
    ensures Picked(slots, r)
  {
    PickIsFarthest(slots, 0, None);
    Pick(slots, 0, None)
  }

  lemma {:induction false} OfferSteps(slots: seq<Slot>, n: Node)
    ensures Offer(slots, n)
         == if slots == [] then (slots, false)
            else if slots[0] == None then ([Some(n)] + slots[1..], true)
            else if slots[0].value.peer.id == n.peer.id then (slots, false)
            else if n.dist < slots[0].value.dist then ([Some(n)] + slots[1..], true)
            else ([slots[0]] + Offer(slots[1..], n).0, Offer(slots[1..], n).1)
  {
  }

  // ---------- The shared list ----------

  class SearchList {
    var nodes: seq<Slot>

    constructor (nodes: seq<Slot>)
      ensures this.nodes == nodes
    {
      this.nodes := nodes;
    }

    method PeerAlreadyAdded(p: Peer) returns (r: bool)
      ensures r == Contains(nodes, p.id)
    {
      var i := 0;
      while i < |nodes|
        invariant 0 <= i <= |nodes|
        invariant Contains(nodes, p.id) == Contains(nodes[i..], p.id)
      {
        assert nodes[i..][0] == nodes[i] && nodes[i..][1..] == nodes[i + 1..];
        if nodes[i] == None {
          return false;
        }
        if nodes[i].value.peer.id == p.id {
          return true;
        }
        i := i + 1;
      }
      return false;
    }

    method AddSearchNode(n: Node)
      modifies this
      ensures nodes == AddNode(old(nodes), n)
    {
      var there := PeerAlreadyAdded(n.peer);
      if !there {
        nodes := nodes + [Some(n)];
      }
    }

    method AddSearchNodeIfCloser(newNodesFound: seq<Node>) returns (numNewNodesAdded: nat)
      modifies this
      ensures (nodes, numNewNodesAdded) == OfferAll(old(nodes), newNodesFound)
    {
      numNewNodesAdded := 0;
      ghost var was := nodes;
      var k := 0;
      while k < |newNodesFound|
        invariant 0 <= k <= |newNodesFound|
        invariant (nodes, numNewNodesAdded) == OfferAll(was, newNodesFound[..k])
      {
        assert newNodesFound[..k + 1][..k] == newNodesFound[..k];
        var taken := OfferNode(newNodesFound[k]);
        if taken {
          numNewNodesAdded := numNewNodesAdded + 1;
        }
        k := k + 1;
      }
      assert newNodesFound[..k] == newNodesFound;
    }

    /** The inner loop: the first slot that is empty, of the same peer, or farther away decides. */
    method OfferNode(n: Node) returns (taken: bool)
      modifies this
      ensures (nodes, taken) == Offer(old(nodes), n)
    {
      hide Offer;
      ghost var b := nodes;
      var i := 0;
      assert b[0..] == b && b[..0] + Offer(b, n).0 == Offer(b, n).0;
      while i < |nodes|
        invariant 0 <= i <= |nodes| && nodes == b
        invariant Offer(b, n) == (b[..i] + Offer(b[i..], n).0, Offer(b[i..], n).1)
      {
        ghost var rest := b[i + 1..];
        OfferSteps(b[i..], n);
        assert b[i..][0] == b[i] && b[i..][1..] == rest;
        assert b[i := Some(n)] == b[..i] + ([Some(n)] + rest);
        assert b == b[..i] + b[i..];
        if nodes[i] == None {
          nodes := nodes[i := Some(n)];
          return true;
        }
        if nodes[i].value.peer.id == n.peer.id {
          return false;
        }
        if n.dist < nodes[i].value.dist {
          nodes := nodes[i := Some(n)];
          return true;
        }
        assert b[..i] + ([b[i]] + Offer(rest, n).0) == b[..i + 1] + Offer(rest, n).0;
        i := i + 1;
      }
      OfferSteps([], n);
      assert b[i..] == [] && b[..i] + [] == b;
      return false;
    }

    method GetClosestNode() returns (closest: Option<nat>)
      ensures closest == Next(nodes)
      ensures Picked(nodes, closest)
    {
      closest := None;
      var i := 0;
      while i < |nodes|
        invariant 0 <= i <= |nodes|
        invariant closest.Some? ==> closest.value < i && Unsearched(nodes[closest.value])
        invariant Next(nodes) == Pick(nodes, i, closest)
      {
        if Unsearched(nodes[i]) {
          if closest == None || nodes[closest.value].value.dist < nodes[i].value.dist {
            closest := Some(i);
          }
        }
        i := i + 1;
      }
    }
  }

  /** How searchOnePeer starts: the node it contacts is marked. */
  method TakeClosestNode(list: SearchList) returns (closest: Option<nat>)
    modifies list
    ensures closest == Next(old(list.nodes))
    ensures closest == None ==> list.nodes == old(list.nodes)
    ensures closest.Some? ==>
              var at, was := closest.value, old(list.nodes);
              list.nodes == was[at := Some(was[at].value.(done := true))]
  {
    closest := list.GetClosestNode();
    if closest.Some? {
      var at := closest.value;
      list.nodes := list.nodes[at := Some(list.nodes[at].value.(done := true))];
    }
  }

  // ---------- Offers to a list of true distances ----------

  /** A list of `cap` slots whose filled slots are the nodes of `l`. */
  function Packed(l: seq<Node>, cap: nat): (s: seq<Slot>)
    requires |l| <= cap
    ensures |s| == cap && forall i :: 0 <= i < cap ==> s[i] == if i < |l| then Some(l[i]) else None
  {
    seq(cap, i requires 0 <= i < cap => if i < |l| then Some(l[i]) else None)
  }

  function Dists(l: seq<Node>): (r: seq<int>)
    ensures |r| == |l| && forall i :: 0 <= i < |l| ==> r[i] == l[i].dist
  {
    seq(|l|, i requires 0 <= i < |l| => l[i].dist)
  }

  predicate True(n: Node, key: Id) {
    |n.peer.id| == |key| && n.dist == Distance(n.peer.id, key)
  }

  predicate AllTrue(l: seq<Node>, key: Id) {
    forall i :: 0 <= i < |l| ==> True(l[i], key)
  }

  /** Where equal distances mean equal identifiers, offering a node is offering its distance; when it is
      not taken nothing changes, and when it is taken some distance does. */
  lemma {:induction false} OfferPacked(l: seq<Node>, cap: nat, n: Node) returns (l': seq<Node>)
    requires |l| <= cap
    requires forall x :: x in l ==> (x.peer.id == n.peer.id <==> x.dist == n.dist)
    ensures |l'| <= cap && Offer(Packed(l, cap), n).0 == Packed(l', cap)
    ensures forall x :: x in l' ==> x in l || x == n
    ensures Dists(l') == Place(Dists(l), cap, n.dist)
    ensures if Offer(Packed(l, cap), n).1 then Dists(l') != Dists(l) else l' == l
    decreases |l|
  {
    hide Offer, Place, Packed, Dists;
    l' := l;
    if l == [] {
      if cap > 0 {
        l' := [n];
      }
      OfferedFirst(l, cap, n);
    } else {
      var x, rest := l[0], l[1..];
      assert x in l;
      OfferedFirst(l, cap, n);
      if n.dist < x.dist {
        l' := [n] + rest;
      } else if n.dist != x.dist {
        var rest' := OfferPacked(rest, cap - 1, n);
        l' := [x] + rest';
        OfferedBehind(l, cap, n, rest');
      }
    }
  }

  /** The first slot decides. */
  lemma {:induction false} OfferedFirst(l: seq<Node>, cap: nat, n: Node)
    requires |l| <= cap && (l != [] ==> (l[0].peer.id == n.peer.id <==> l[0].dist == n.dist))
    ensures l == [] && cap > 0 ==>
              Offer(Packed(l, cap), n) == (Packed([n], cap), true) &&
                Dists([n]) == Place(Dists(l), cap, n.dist) != Dists(l)
    ensures cap == 0 ==> Offer(Packed(l, cap), n) == (Packed(l, cap), false) && Dists(l) == Place(Dists(l), cap, n.dist)
    ensures l != [] && n.dist == l[0].dist ==>
              Offer(Packed(l, cap), n) == (Packed(l, cap), false) && Dists(l) == Place(Dists(l), cap, n.dist)
    ensures l != [] && n.dist < l[0].dist ==>
              var l' := [n] + l[1..];
              Offer(Packed(l, cap), n) == (Packed(l', cap), true) &&
                Dists(l') == Place(Dists(l), cap, n.dist) != Dists(l)
  {
    hide Offer, Place;
    OfferSteps(Packed(l, cap), n);
    PlaceSteps(Dists(l), cap, n.dist);
    if l == [] && cap > 0 {
      OnlyOne(cap, n);
    } else if l != [] {
      var l' := [n] + l[1..];
      PackedTail(l, cap);
      DistsTail(l);
      PackedTail(l', cap);
      DistsTail(l');
      assert l'[1..] == l[1..] && Dists(l')[0] == n.dist;
    }
  }

  lemma {:induction false} OfferedBehind(l: seq<Node>, cap: nat, n: Node, rest': seq<Node>)
    requires 0 < |l| <= cap && |rest'| < cap && l[0].peer.id != n.peer.id && l[0].dist < n.dist
    requires Offer(Packed(l[1..], cap - 1), n).0 == Packed(rest', cap - 1)
    requires Dists(rest') == Place(Dists(l[1..]), cap - 1, n.dist)
    ensures var l' := [l[0]] + rest';
            && Offer(Packed(l, cap), n) == (Packed(l', cap), Offer(Packed(l[1..], cap - 1), n).1)
            && Dists(l') == Place(Dists(l), cap, n.dist)
            && (Dists(rest') != Dists(l[1..]) ==> Dists(l') != Dists(l))
            && (rest' == l[1..] ==> l' == l)
  {
    hide Offer, Place;
    OfferSteps(Packed(l, cap), n);
    PlaceSteps(Dists(l), cap, n.dist);
    var l' := [l[0]] + rest';
    PackedTail(l, cap);
    DistsTail(l);
    PackedTail(l', cap);
    DistsTail(l');
    assert l'[1..] == rest';
  }

  lemma OnlyOne(cap: nat, n: Node)
    requires cap > 0
    ensures Packed([], cap)[0] == None && [Some(n)] + Packed([], cap)[1..] == Packed([n], cap)
    ensures Dists([]) == [] && Dists([n]) == [n.dist]
  {
  }

  lemma PackedTail(l: seq<Node>, cap: nat)
    requires 0 < |l| <= cap
    ensures Packed(l, cap)[1..] == Packed(l[1..], cap - 1)
    ensures Packed(l, cap) == [Some(l[0])] + Packed(l[1..], cap - 1)
  {
  }

  lemma DistsTail(l: seq<Node>)
    requires l != []
    ensures Dists(l) == [l[0].dist] + Dists(l[1..]) && Dists(l)[1..] == Dists(l[1..])
  {
  }

  lemma OfferIsPlace(l: seq<Node>, cap: nat, n: Node, key: Id) returns (l': seq<Node>)
    requires |l| <= cap && AllTrue(l, key) && True(n, key)
    ensures |l'| <= cap && AllTrue(l', key)
    ensures Offer(Packed(l, cap), n).0 == Packed(l', cap)
    ensures Dists(l') == Place(Dists(l), cap, n.dist)
    ensures if Offer(Packed(l, cap), n).1 then Dists(l') != Dists(l) else l' == l
  {
    hide Distance, Offer, Place;
    forall x | x in l ensures x.peer.id == n.peer.id <==> x.dist == n.dist {
      DistanceInjective(x.peer.id, n.peer.id, key);
    }
    l' := OfferPacked(l, cap, n);
    forall i | 0 <= i < |l'| ensures True(l'[i], key) {
      assert l'[i] in l';
    }
  }

  /** The nodes of an ascending list of true distances have different identifiers. */
  lemma AscendingIsDifferent(l: seq<Node>, key: Id)
    requires AllTrue(l, key) && Ascending(Dists(l))
    ensures forall i, j :: 0 <= i < j < |l| ==> l[i].peer.id != l[j].peer.id
  {
    forall i, j | 0 <= i < j < |l| ensures l[i].peer.id != l[j].peer.id {
      assert Dists(l)[i] < Dists(l)[j];
    }
  }

  // ---------- Offers to any list ----------

  function Empties(slots: seq<Slot>): nat {
    if slots == [] then 0 else (if slots[0].None? then 1 else 0) + Empties(slots[1..])
  }

  function DistSum(slots: seq<Slot>): int {
    if slots == [] then 0 else (if slots[0].None? then 0 else slots[0].value.dist) + DistSum(slots[1..])
  }

  /** An empty slot was filled, or the sum of the distances fell. */
  predicate Improved(slots: seq<Slot>, slots': seq<Slot>) {
    Empties(slots') < Empties(slots) || (Empties(slots') == Empties(slots) && DistSum(slots') < DistSum(slots))
  }

  /** Whatever distances are reported: a taken candidate fills an empty slot or lowers the sum of the
      distances, and a refused one changes nothing; filled slots stay filled. */
  lemma {:induction false} OfferProgress(slots: seq<Slot>, n: Node)
    ensures var (slots', taken) := Offer(slots, n);
            && (!taken ==> slots' == slots)
            && (taken ==> Improved(slots, slots'))
            && forall i :: 0 <= i < |slots| && slots[i].Some? ==> slots'[i].Some?
    decreases |slots|
  {
    if slots != [] {
      OfferProgress(slots[1..], n);
      var rest := Offer(slots[1..], n).0;
      assert ([slots[0]] + rest)[1..] == rest && ([Some(n)] + slots[1..])[1..] == slots[1..];
      assert [slots[0]] + slots[1..] == slots;
    }
  }

  lemma {:induction false} OfferAllProgress(slots: seq<Slot>, ns: seq<Node>)
    ensures var (slots', n) := OfferAll(slots, ns);
            && (n == 0 ==> slots' == slots)
            && (n > 0 ==> Improved(slots, slots'))
            && forall i :: 0 <= i < |slots| && slots[i].Some? ==> slots'[i].Some?
    decreases |ns|
  {
    if ns != [] {
      OfferAllProgress(slots, ns[..|ns| - 1]);
      OfferProgress(OfferAll(slots, ns[..|ns| - 1]).0, ns[|ns| - 1]);
    }
  }

  /** An identifier counts as listed exactly when it is in front of the first empty slot. */
  lemma {:induction false} ContainsIff(slots: seq<Slot>, id: Id)
    ensures Contains(slots, id) <==>
            exists i :: 0 <= i < |slots| && (forall j :: 0 <= j <= i ==> slots[j].Some?) && slots[i].value.peer.id == id
    decreases |slots|
  {
    if slots != [] {
      var rest := slots[1..];
      ContainsIff(rest, id);
      if i :| 0 <= i < |rest| && (forall j :: 0 <= j <= i ==> rest[j].Some?) && rest[i].value.peer.id == id {
        if slots[0].Some? {
          assert slots[i + 1] == rest[i] && forall j :: 0 < j <= i + 1 ==> slots[j] == rest[j - 1];
        }
      }
      if i :| 0 <= i < |slots| && (forall j :: 0 <= j <= i ==> slots[j].Some?) && slots[i].value.peer.id == id {
        if i > 0 {
          assert rest[i - 1] == slots[i] && forall j :: 0 <= j <= i - 1 ==> rest[j] == slots[j + 1];
        }
      }
    }
  }

  /** The candidate gets to slot `i`: everything in front is another peer that is no farther away. */
  ghost predicate GetsTo(slots: seq<Slot>, n: Node, i: nat) {
    i <= |slots| && forall j :: 0 <= j < i ==>
      slots[j].Some? && slots[j].value.peer.id != n.peer.id && slots[j].value.dist <= n.dist
  }

  /** One offer: the candidate gets to some slot, and takes it if that is empty or holds another peer farther away;
      if it gets to its own peer, or past all slots, nothing changes. */
  lemma {:induction false} OfferAt(slots: seq<Slot>, n: Node) returns (i: nat)
    ensures GetsTo(slots, n, i)
    ensures var (slots', taken) := Offer(slots, n);
            && (taken <==> i < |slots| &&
                           (slots[i].None? || (slots[i].value.peer.id != n.peer.id && n.dist < slots[i].value.dist)))
            && slots' == (if taken then slots[i := Some(n)] else slots)
            && (!taken ==> i == |slots| || (slots[i].Some? && slots[i].value.peer.id == n.peer.id))
    decreases |slots|
  {
    hide Offer, GetsTo;
    i := 0;
    OfferSteps(slots, n);
    if slots != [] && slots[0].Some? && slots[0].value.peer.id != n.peer.id && slots[0].value.dist <= n.dist {
      var j := OfferAt(slots[1..], n);
      i := j + 1;
      GetsFarther(slots, n, j);
      if Offer(slots[1..], n).1 {
        assert slots[i := Some(n)] == [slots[0]] + slots[1..][j := Some(n)];
      } else {
        assert slots == [slots[0]] + slots[1..];
      }
    } else {
      GetsToFirst(slots, n);
    }
  }

  lemma GetsToFirst(slots: seq<Slot>, n: Node)
    ensures GetsTo(slots, n, 0)
  {
  }

  lemma GetsFarther(slots: seq<Slot>, n: Node, j: nat)
    requires slots != [] && slots[0].Some? && slots[0].value.peer.id != n.peer.id && slots[0].value.dist <= n.dist
    requires GetsTo(slots[1..], n, j)
    ensures GetsTo(slots, n, j + 1)
    ensures j < |slots| - 1 ==> slots[j + 1] == slots[1..][j]
  {
    assert forall k :: 0 < k <= j ==> slots[k] == slots[1..][k - 1];
  }

  /** Offers go one after the other, and those that were taken are counted. */
  lemma {:induction false} OfferAllAppend(slots: seq<Slot>, a: seq<Node>, b: seq<Node>)
    ensures var (first, n) := OfferAll(slots, a);
            var (second, m) := OfferAll(first, b);
            OfferAll(slots, a + b) == (second, n + m)
    decreases |b|
  {
    hide Offer;
    if b == [] {
      assert a + b == a;
    } else {
      OfferAllAppend(slots, a, b[..|b| - 1]);
      assert (a + b)[..|a + b| - 1] == a + b[..|b| - 1];
    }
  }

  /** No filled slot is emptied or gets a greater distance. */
  predicate Lowered(slots: seq<Slot>, slots': seq<Slot>) {
    && |slots'| == |slots|
    && forall i :: 0 <= i < |slots| && slots[i].Some? ==> slots'[i].Some? && slots'[i].value.dist <= slots[i].value.dist
  }

  lemma {:induction false} OfferLowers(slots: seq<Slot>, n: Node)
    ensures Lowered(slots, Offer(slots, n).0)
    decreases |slots|
  {
    if slots != [] {
      OfferLowers(slots[1..], n);
    }
  }

  lemma {:induction false} OfferAllLowers(slots: seq<Slot>, ns: seq<Node>)
    ensures Lowered(slots, OfferAll(slots, ns).0)
    decreases |ns|
  {
    hide Offer;
    if ns != [] {
      OfferAllLowers(slots, ns[..|ns| - 1]);
      OfferLowers(OfferAll(slots, ns[..|ns| - 1]).0, ns[|ns| - 1]);
    }
  }

  /** Filled slots have identifiers of `n` bytes and distances from `floor` up. */
  predicate Within(slots: seq<Slot>, n: nat, floor: int) {
    forall i :: 0 <= i < |slots| && slots[i].Some? ==> |slots[i].value.peer.id| == n && floor <= slots[i].value.dist
  }

  lemma {:induction false} OfferWithin(slots: seq<Slot>, c: Node, n: nat, floor: int)
    requires Within(slots, n, floor) && |c.peer.id| == n && floor <= c.dist
    ensures Within(Offer(slots, c).0, n, floor)
    decreases |slots|
  {
    if slots != [] {
      OfferWithin(slots[1..], c, n, floor);
    }
  }

  lemma {:induction false} OfferAllWithin(slots: seq<Slot>, ns: seq<Node>, n: nat, floor: int)
    requires Within(slots, n, floor)
    requires forall i :: 0 <= i < |ns| ==> |ns[i].peer.id| == n && floor <= ns[i].dist
    ensures Within(OfferAll(slots, ns).0, n, floor)
    decreases |ns|
  {
    hide Offer, Within;
    if ns != [] {
      OfferAllWithin(slots, ns[..|ns| - 1], n, floor);
      OfferWithin(OfferAll(slots, ns[..|ns| - 1]).0, ns[|ns| - 1], n, floor);
    }
  }

  lemma {:induction false} SumAbove(slots: seq<Slot>, n: nat, floor: int)
    requires Within(slots, n, floor) && floor <= 0
    ensures DistSum(slots) >= floor * |slots|
    decreases |slots|
  {
    if slots != [] {
      SumAbove(slots[1..], n, floor);
      assert floor * |slots| == floor + floor * |slots[1..]|;
    }
  }
}
