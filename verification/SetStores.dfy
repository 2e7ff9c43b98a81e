/**
 The second half of SetValue: the result nodes go over a channel to workers, each of which asks the peer it
 received to store the value.
 */
module SetStores {
  import opened Wrappers
  import opened Bytes
  import opened Ids
  import opened Counting

  /** What becomes of one store request: the peer stores the value and acknowledges; it stores it and the
      acknowledgement does not arrive; it does not store it. */
  datatype Reply = Acknowledged | Unacknowledged | NotStored

  datatype Storer = Free | Holding(peer: Peer) | Left

  /** The hash table of every peer. */
  type Tables = map<Id, map<seq<byte>, seq<byte>>>

  datatype StoreState = StoreState(
    todo: seq<Peer>,        // not yet sent over the channel, which is closed once there are none
    workers: seq<Storer>,
    acked: seq<Peer>,
    failed: seq<Peer>,      // failedStored
    tables: Tables)

  datatype StoreEvent = Hand(w: nat) | Done(w: nat, reply: Reply) | Leave(w: nat)

  function StoreStart(nodes: seq<Peer>, numWorkers: nat, tables: Tables): StoreState {
    StoreState(nodes, seq(numWorkers, _ => Free), [], [], tables)
  }

  predicate CanHappen(s: StoreState, e: StoreEvent) {
    && e.w < |s.workers|
    && match e
       case Hand(w) => s.workers[w].Free? && s.todo != []
       case Done(w, reply) => s.workers[w].Holding? && (reply != NotStored ==> s.workers[w].peer.id in s.tables)
       case Leave(w) => s.workers[w].Free? && s.todo == []
  }

  /** storage.go: the entry of the key is replaced. */
  function Put(tables: Tables, id: Id, key: seq<byte>, value: seq<byte>): Tables
    requires id in tables
  {
    tables[id := tables[id][key := value]]
  }

  function StoreStep(s: StoreState, e: StoreEvent, key: seq<byte>, value: seq<byte>): StoreState
    requires CanHappen(s, e)
  {
    match e
    case Hand(w) => s.(todo := s.todo[1..], workers := s.workers[w := Holding(s.todo[0])])
    case Leave(w) => s.(workers := s.workers[w := Left])
    case Done(w, reply) =>
      var p := s.workers[w].peer;
      var s' := s.(workers := s.workers[w := Free], tables := if reply == NotStored then
            s.tables else Put(s.tables, p.id, key, value));
      if reply == Acknowledged then s'.(acked := s.acked + [p]) else s'.(failed := s.failed + [p])
  }

  function StoreRun(start: StoreState, events: seq<StoreEvent>, key: seq<byte>, value: seq<byte>): StoreState
    decreases |events|
  {
    if events == [] then start
    else
      var s := StoreRun(start, events[..|events| - 1], key, value);
      var e := events[|events| - 1];
      if CanHappen(s, e) then StoreStep(s, e, key, value) else s
  }

  predicate StoreFinished(s: StoreState) {
    s.todo == [] && forall w :: 0 <= w < |s.workers| ==> s.workers[w].Left?
  }

  // ---------- Every node is handed to one worker ----------

  function HeldBy(w: Storer, p: Peer): nat {
    if w == Holding(p) then 1 else 0
  }

  /** How many workers hold `p`. */
  function Held(workers: seq<Storer>, p: Peer): nat {
    if workers == [] then 0 else HeldBy(workers[0], p) + Held(workers[1..], p)
  }

  lemma {:induction false} HeldUpdate(workers: seq<Storer>, w: nat, to: Storer, p: Peer)
    requires w < |workers|
    ensures Held(workers[w := to], p) + HeldBy(workers[w], p) == Held(workers, p) + HeldBy(to, p)
    decreases |workers|
  {
    if w > 0 {
      HeldUpdate(workers[1..], w - 1, to, p);
      assert workers[w := to][1..] == workers[1..][w - 1 := to];
    } else {
      assert workers[w := to][1..] == workers[1..];
    }
  }

  function Times(ps: seq<Peer>, p: Peer): nat {
    multiset(ps)[p]
  }

  function Total(s: StoreState, p: Peer): nat {
    Times(s.todo, p) + Held(s.workers, p) + Times(s.acked, p) + Times(s.failed, p)
  }

  /** Every result node is waiting, held, acknowledged or failed as often as it is a result node. */
  ghost predicate Conserved(nodes: seq<Peer>, s: StoreState) {
    forall p: Peer :: multiset(nodes)[p] == Total(s, p)
  }

  ghost predicate AckedHold(s: StoreState, key: seq<byte>, value: seq<byte>) {
    forall p :: p in s.acked ==> p.id in s.tables && key in s.tables[p.id] && s.tables[p.id][key] == value
  }

  lemma StoreStepConserves(nodes: seq<Peer>, s: StoreState, e: StoreEvent, key: seq<byte>, value: seq<byte>)
    requires CanHappen(s, e) && Conserved(nodes, s)
    ensures Conserved(nodes, StoreStep(s, e, key, value))
  {
    hide Held;
    var s' := StoreStep(s, e, key, value);
    forall p: Peer ensures Total(s', p) == Total(s, p) {
      StepTotal(s, e, key, value, p);
    }
  }

  lemma StepTotal(s: StoreState, e: StoreEvent, key: seq<byte>, value: seq<byte>, p: Peer)
    requires CanHappen(s, e)
    ensures Total(StoreStep(s, e, key, value), p) == Total(s, p)
  {
    hide Held, HeldBy, Times, Put;
    var s' := StoreStep(s, e, key, value);
    EmptyHanded(p);
    HeldUpdate(s.workers, e.w, s'.workers[e.w], p);
    match e
    case Hand(w) => FirstCounted(s.todo, p);
    case Leave(w) =>
    case Done(w, reply) =>
      LastCounted(s.acked, s.workers[w].peer, p);
      LastCounted(s.failed, s.workers[w].peer, p);
  }

  lemma EmptyHanded(p: Peer)
    ensures HeldBy(Free, p) == 0 && HeldBy(Left, p) == 0
  {
  }

  lemma FirstCounted(ps: seq<Peer>, p: Peer)
    requires ps != []
    ensures Times(ps, p) == HeldBy(Holding(ps[0]), p) + Times(ps[1..], p)
  {
    assert ps == [ps[0]] + ps[1..];
  }

  lemma LastCounted(ps: seq<Peer>, last: Peer, p: Peer)
    ensures Times(ps + [last], p) == Times(ps, p) + HeldBy(Holding(last), p)
  {
  }

  lemma {:induction false} NobodyHolds(workers: seq<Storer>, p: Peer)
    requires forall w :: 0 <= w < |workers| ==> !workers[w].Holding?
    ensures Held(workers, p) == 0
    decreases |workers|
  {
    if workers != [] {
      NobodyHolds(workers[1..], p);
    }
  }

  /** Over every run, no result node is lost or handed out twice, and who acknowledged has the value. */
  lemma {:induction false} StoreRunConserves(
    nodes: seq<Peer>, numWorkers: nat, tables: Tables, events: seq<StoreEvent>, key: seq<byte>, value: seq<byte>)
    ensures var s := StoreRun(StoreStart(nodes, numWorkers, tables), events, key, value);
            Conserved(nodes, s) && AckedHold(s, key, value)
    decreases |events|
  {
    hide Conserved;
    var start := StoreStart(nodes, numWorkers, tables);
    if events == [] {
      StartConserved(nodes, numWorkers, tables);
    } else {
      StoreRunConserves(nodes, numWorkers, tables, events[..|events| - 1], key, value);
      var s, e := StoreRun(start, events[..|events| - 1], key, value), events[|events| - 1];
      if CanHappen(s, e) {
        StoreStepConserves(nodes, s, e, key, value);
      }
    }
  }

  lemma StartConserved(nodes: seq<Peer>, numWorkers: nat, tables: Tables)
    ensures Conserved(nodes, StoreStart(nodes, numWorkers, tables))
  {
    forall p: Peer ensures Total(StoreStart(nodes, numWorkers, tables), p) == multiset(nodes)[p] {
      NobodyHolds(StoreStart(nodes, numWorkers, tables).workers, p);
    }
  }

  /** When the workers have left, every result node acknowledged or failed, once. */
  lemma {:induction false} EveryNodeAnswered(
    nodes: seq<Peer>, numWorkers: nat, tables: Tables, events: seq<StoreEvent>, key: seq<byte>, value: seq<byte>)
    requires StoreFinished(StoreRun(StoreStart(nodes, numWorkers, tables), events, key, value))
    ensures var s := StoreRun(StoreStart(nodes, numWorkers, tables), events, key, value);
            && multiset(nodes) == multiset(s.acked) + multiset(s.failed)
            && |nodes| == |s.acked| + |s.failed|
  {
    StoreRunConserves(nodes, numWorkers, tables, events, key, value);
    var s := StoreRun(StoreStart(nodes, numWorkers, tables), events, key, value);
    forall p: Peer ensures multiset(nodes)[p] == multiset(s.acked + s.failed)[p] {
      NobodyHolds(s.workers, p);
      assert multiset(nodes)[p] == Total(s, p);
    }
    assert multiset(nodes) == multiset(s.acked + s.failed);
    assert |multiset(nodes)| == |multiset(s.acked + s.failed)|;
  }

  // ---------- What is stored ----------

  /** Some node of identifier `id` that a worker held got the value, whether it acknowledged or not. */
  ghost predicate StoredAt(start: StoreState, events: seq<StoreEvent>, key: seq<byte>, value: seq<byte>, id: Id,
      k: nat)
    requires k < |events|
  {
    var s, e := StoreRun(start, events[..k], key, value), events[k];
    CanHappen(s, e) && e.Done? && e.reply != NotStored && s.workers[e.w].peer.id == id
  }

  ghost predicate StoredEver(start: StoreState, events: seq<StoreEvent>, key: seq<byte>, value: seq<byte>, id: Id) {
    exists k: nat :: k < |events| && StoredAt(start, events, key, value, id, k)
  }

  /** The tables of exactly the nodes that got the value have it under the key; nothing else changes in any table. */
  lemma {:induction false} TablesExactly(start: StoreState, events: seq<StoreEvent>, key: seq<byte>, value: seq<byte>)
    ensures var tables := StoreRun(start, events, key, value).tables;
            && tables.Keys == start.tables.Keys
            && forall id :: id in tables ==>
                 tables[id] == if StoredEver(start, events, key, value, id) then start.tables[id][key := value]
                               else start.tables[id]
    decreases |events|
  {
    if events != [] {
      var before, e := events[..|events| - 1], events[|events| - 1];
      TablesExactly(start, before, key, value);
      forall id ensures StoredEver(start, events, key, value, id) <==>
                          StoredEver(start, before, key, value, id) || StoredAt(start, events, key, value, id, |before|)
      {
        StoredMore(start, events, key, value, id);
      }
      hide StoredEver;
    }
  }

  lemma StoredMore(start: StoreState, events: seq<StoreEvent>, key: seq<byte>, value: seq<byte>, id: Id)
    requires events != []
    ensures var n := |events| - 1;
            StoredEver(start, events, key, value, id) <==>
              StoredEver(start, events[..n], key, value, id) || StoredAt(start, events, key, value, id, n)
  {
    var before := events[..|events| - 1];
    forall k: nat | k < |before|
      ensures StoredAt(start, events, key, value, id, k) <==> StoredAt(start, before, key, value, id, k)
    {
      assert events[..k] == before[..k] && events[k] == before[k];
    }
  }

  // ---------- It ends ----------

  const WEIGHT: Storer -> nat := (w: Storer) => match w case Free => 1 case Holding(_) => 2 case Left => 0

  /** What is left to happen. */
  function Remaining(s: StoreState): nat {
    2 * |s.todo| + Count(s.workers, WEIGHT)
  }

  lemma StoreStepRemaining(s: StoreState, e: StoreEvent, key: seq<byte>, value: seq<byte>)
    requires CanHappen(s, e)
    ensures Remaining(StoreStep(s, e, key, value)) + 1 == Remaining(s)
  {
    CountUpdate(s.workers, WEIGHT, e.w, StoreStep(s, e, key, value).workers[e.w]);
  }

  /** Every event of the run can happen at its turn. */
  ghost predicate AllHappen(start: StoreState, events: seq<StoreEvent>, key: seq<byte>, value: seq<byte>)
    decreases |events|
  {
    events == [] ||
    (AllHappen(start, events[..|events| - 1], key, value) &&
     CanHappen(StoreRun(start, events[..|events| - 1], key, value), events[|events| - 1]))
  }

  /** The workers stay until the channel is closed. */
  ghost predicate StayWhileNeeded(s: StoreState) {
    s.todo != [] ==> forall w :: 0 <= w < |s.workers| ==> !s.workers[w].Left?
  }

  lemma {:induction false} WeightZero(workers: seq<Storer>)
    ensures Count(workers, WEIGHT) == 0 <==> forall w :: 0 <= w < |workers| ==> workers[w].Left?
    decreases |workers|
  {
    if workers != [] {
      WeightZero(workers[1..]);
      assert forall w :: 0 < w < |workers| ==> workers[w] == workers[1..][w - 1];
      assert forall w :: 0 <= w < |workers[1..]| ==> workers[1..][w] == workers[w + 1];
    }
  }

  lemma {:induction false} WeightOfStart(workers: seq<Storer>)
    requires forall w :: 0 <= w < |workers| ==> workers[w].Free?
    ensures Count(workers, WEIGHT) == |workers|
    decreases |workers|
  {
    if workers != [] {
      WeightOfStart(workers[1..]);
    }
  }

  lemma {:induction false} StoreRunRemaining(start: StoreState, events: seq<StoreEvent>, key: seq<byte>,
      value: seq<byte>)
    requires AllHappen(start, events, key, value) && StayWhileNeeded(start)
    ensures var s := StoreRun(start, events, key, value);
            Remaining(s) + |events| == Remaining(start) && StayWhileNeeded(s) && |s.workers| == |start.workers|
    decreases |events|
  {
    hide Remaining;
    if events != [] {
      StoreRunRemaining(start, events[..|events| - 1], key, value);
      StoreStepRemaining(StoreRun(start, events[..|events| - 1], key, value), events[|events| - 1], key, value);
    }
  }

  /** The store phase ends after exactly two events for every result node and one for every worker, however
      they interleave; and with a worker it can always go on until then. */
  lemma StorePhaseEnds(nodes: seq<Peer>, numWorkers: nat, tables: Tables, events: seq<StoreEvent>, key: seq<byte>,
      value: seq<byte>)
    returns (next: StoreEvent)
    requires AllHappen(StoreStart(nodes, numWorkers, tables), events, key, value)
    ensures var s := StoreRun(StoreStart(nodes, numWorkers, tables), events, key, value);
            && |events| <= 2 * |nodes| + numWorkers
            && (StoreFinished(s) <==> |events| == 2 * |nodes| + numWorkers)
            && (!StoreFinished(s) && numWorkers > 0 ==> CanHappen(s, next))
  {
    var start := StoreStart(nodes, numWorkers, tables);
    WeightOfStart(start.workers);
    StoreRunRemaining(start, events, key, value);
    var s := StoreRun(start, events, key, value);
    WeightZero(s.workers);
    next := Leave(0);
    if !StoreFinished(s) && numWorkers > 0 {
      var w: nat :| w < |s.workers| && (s.todo == [] ==> !s.workers[w].Left?) by {
        assert 0 < |s.workers|;
      }
      next := if s.workers[w].Holding? then Done(w, NotStored) else if s.todo != [] then Hand(w) else Leave(w);
    }
  }

  /** How many nodes were handed out. */
  function Hands(events: seq<StoreEvent>): nat {
    if events == [] then 0 else Hands(events[..|events| - 1]) + if events[|events| - 1].Hand? then 1 else 0
  }

  /** The node that worker `w` was handed last: nodes are handed out in their order. */
  function LastHanded(nodes: seq<Peer>, events: seq<StoreEvent>, w: nat): Option<Peer> {
    if events == [] then None
    else
      var before := events[..|events| - 1];
      if events[|events| - 1] == Hand(w) then (if Hands(before) < |nodes| then Some(nodes[Hands(before)]) else None)
      else LastHanded(nodes, before, w)
  }

  /** The nodes whose acknowledgement arrived, in the order of arrival. */
  function AcknowledgedNodes(nodes: seq<Peer>, events: seq<StoreEvent>): seq<Peer> {
    if events == [] then []
    else
      var before, e := events[..|events| - 1], events[|events| - 1];
      AcknowledgedNodes(nodes, before) +
      if e.Done? && e.reply == Acknowledged &&
           LastHanded(nodes, before, e.w).Some? then [LastHanded(nodes, before, e.w).value] else []
  }

  /** Exactly the nodes whose acknowledgement arrived count as stored: one that only stores the value does
      not, and every acknowledgement counts for the node that its worker was handed. */
  lemma {:induction false} AckedAreAcknowledged(
    nodes: seq<Peer>, numWorkers: nat, tables: Tables, events: seq<StoreEvent>, key: seq<byte>, value: seq<byte>)
    requires AllHappen(StoreStart(nodes, numWorkers, tables), events, key, value)
    ensures var s := StoreRun(StoreStart(nodes, numWorkers, tables), events, key, value);
            && s.acked == AcknowledgedNodes(nodes, events)
            && Hands(events) <= |nodes| && s.todo == nodes[Hands(events)..]
            && forall w :: 0 <= w < |s.workers| && s.workers[w].Holding? ==>
                 LastHanded(nodes, events, w) == Some(s.workers[w].peer)
    decreases |events|
  {
    hide Put;
    if events != [] {
      AckedAreAcknowledged(nodes, numWorkers, tables, events[..|events| - 1], key, value);
    }
  }
}
