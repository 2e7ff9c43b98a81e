/**
 The search of SetValue for the peers that are to store a value: several workers improve one bounded
 candidate list until a response improves nothing, something fails, or nobody is left to ask.
 */
module SetSearch {
  import opened Wrappers
  import opened Bytes
  import opened Ids
  import opened Counting
  import opened Greedy
  import opened SearchNodes
  import opened DhtPeer
  import opened GetSearch

  /** `Cleared` is a worker that saw that the search goes on and has yet to take a node; `Waiting` one that asked
      `peer` and holds a pointer to the slot it took it from. */
  datatype SetWorker = Ready | Cleared | Waiting(at: nat, peer: Peer) | Stopped

  datatype SetState = SetState(
    slots: seq<Slot>,
    workers: seq<SetWorker>,
    isDone: bool,
    terminating: bool,      // termenatingErr is set
    asked: seq<Peer>,       // everyone contacted, in order
    blamed: seq<Peer>,      // errorCollection, whose peers SetValue removes from the peer store
    offered: seq<int>)      // every distance offered to the list

  function FreshAll(ns: seq<Near>): (r: seq<Node>)
    ensures |r| == |ns| && forall i :: 0 <= i < |ns| ==> r[i] == Fresh(ns[i])
  {
    seq(|ns|, i requires 0 <= i < |ns| => Fresh(ns[i]))
  }

  /** The list of `maxStores` slots with the node itself in the first, and the peers its own store is
      closest to offered to it. */
  function SetStart(self: Near, own: seq<Near>, maxStores: nat, numWorkers: nat): (s: SetState)
    requires maxStores > 0
    ensures PointersOk(s) && s.asked == [] && s.blamed == []
  {
    var slots := Packed([Fresh(self)], maxStores);
    SetState(OfferAll(slots, FreshAll(own)).0, seq(numWorkers, _ => Ready), false, false, [], [],
      [self.dist] + DhtPeer.Dists(own))
  }

  predicate SetEnabled(s: SetState, w: nat) {
    w < |s.workers| && !s.workers[w].Stopped?
  }

  predicate SetFinished(s: SetState) {
    forall w :: 0 <= w < |s.workers| ==> s.workers[w].Stopped?
  }

  function ToSetWorker(s: SetState, w: nat, to: SetWorker): SetState
    requires w < |s.workers|
  {
    s.(workers := s.workers[w := to])
  }

  /** Workers point to filled slots. */
  predicate PointersOk(s: SetState) {
    forall w :: 0 <= w < |s.workers| && s.workers[w].Waiting? ==>
      s.workers[w].at < |s.slots| && s.slots[s.workers[w].at].Some?
  }

  /** One step of worker `w`. Whether the search is over is looked up in one step, and a node taken and marked in
      another. A failed contact is blamed on the peer that is in the slot by then. */
  function SetStep(oracle: Oracle, s: SetState, w: nat): SetState
    requires SetEnabled(s, w) && PointersOk(s)
  {
    match s.workers[w]
    case Ready =>
      ToSetWorker(s, w, if s.terminating || s.isDone then Stopped else Cleared)
    case Cleared => (
      match Next(s.slots)
      case None => ToSetWorker(s, w, Stopped)
      case Some(i) =>
        var n := s.slots[i].value;
        ToSetWorker(s, w, Waiting(i, n.peer)).(slots := s.slots[i := Some(n.(done := true))],
          asked := s.asked + [n.peer])
    )
    case Waiting(at, peer) => (
      match oracle(peer.id)
      case Expected => ToSetWorker(s, w, Ready).(blamed := s.blamed + [s.slots[at].value.peer])
      case Found(_) => ToSetWorker(s, w, Stopped).(terminating := true)
      case Fatal => ToSetWorker(s, w, Stopped).(terminating := true)
      case Closest(ns) =>
        var (slots, added) := OfferAll(s.slots, FreshAll(ns));
        var s' := s.(slots := slots, offered := s.offered + DhtPeer.Dists(ns));
        if added == 0 then ToSetWorker(s', w, Stopped).(isDone := true) else ToSetWorker(s', w, Ready)
    )
    case Stopped => s
  }

  lemma SetStepPointers(oracle: Oracle, s: SetState, w: nat)
    requires SetEnabled(s, w) && PointersOk(s)
    ensures PointersOk(SetStep(oracle, s, w))
  {
    hide OfferAll, Pick;
    if s.workers[w].Waiting? && oracle(s.workers[w].peer.id).Closest? {
      OfferAllProgress(s.slots, FreshAll(oracle(s.workers[w].peer.id).nodes));
    }
  }

  function SetExec(oracle: Oracle, start: SetState, schedule: seq<nat>): (s: SetState)
    requires PointersOk(start)
    ensures PointersOk(s)
    decreases |schedule|
  {
    if schedule == [] then start
    else
      var s := SetExec(oracle, start, schedule[..|schedule| - 1]);
      var w := schedule[|schedule| - 1];
      if SetEnabled(s, w) then SetStepPointers(oracle, s, w); SetStep(oracle, s, w) else s
  }

  // ---------- Why it ends ----------

  /** The answer that worker `w` waits for improves nothing, or is no answer to go on with. */
  predicate Fruitless(oracle: Oracle, s: SetState, w: nat)
    requires SetEnabled(s, w)
  {
    s.workers[w].Waiting? &&
    match oracle(s.workers[w].peer.id)
    case Expected => false
    case Closest(ns) => OfferAll(s.slots, FreshAll(ns)).1 == 0
    case _ => true
  }

  predicate Ending(s: SetState) {
    s.isDone || s.terminating
  }

  const CLEARED: SetWorker -> nat := (w: SetWorker) => if w.Cleared? then 1 else 0

  lemma EndingStep(oracle: Oracle, s: SetState, w: nat)
    requires SetEnabled(s, w) && PointersOk(s)
    ensures var s' := SetStep(oracle, s, w);
            && (Ending(s') <==> Ending(s) || Fruitless(oracle, s, w))
            && s'.workers == s.workers[w := s'.workers[w]]
            && (Ending(s) || s.workers[w].Waiting? ==> !s'.workers[w].Cleared?)
            && s.asked <= s'.asked
            && |s'.asked| == |s.asked| + if s.workers[w].Cleared? && Next(s.slots).Some? then 1 else 0
  {
    hide OfferAll, Pick;
  }

  /** How often in the course of a run it is worker `w` that contacts somebody. */
  function SetContacts(oracle: Oracle, start: SetState, schedule: seq<nat>, w: nat): nat
    requires PointersOk(start)
    decreases |schedule|
  {
    if schedule == [] then 0
    else
      var before, v := schedule[..|schedule| - 1], schedule[|schedule| - 1];
      SetContacts(oracle, start, before, w) +
      if v == w && |SetExec(oracle, start, schedule).asked| > |SetExec(oracle, start, before).asked| then 1 else 0
  }

  /** Once the search ends, each worker that was already past its look at that contacts at most one more peer,
      and nobody else contacts anyone. */
  lemma {:induction false} FewAreContacted(oracle: Oracle, s: SetState, schedule: seq<nat>)
    requires PointersOk(s) && Ending(s)
    ensures var s' := SetExec(oracle, s, schedule);
            && Ending(s') && |s'.workers| == |s.workers| && s.asked <= s'.asked
            && |s'.asked| + Count(s'.workers, CLEARED) <= |s.asked| + Count(s.workers, CLEARED)
            && forall w :: 0 <= w < |s.workers| ==>
                 SetContacts(oracle, s, schedule, w) + CLEARED(s'.workers[w]) <= CLEARED(s.workers[w])
    decreases |schedule|
  {
    hide SetStep, Ending, PointersOk, Count;
    if schedule != [] {
      var before, v := schedule[..|schedule| - 1], schedule[|schedule| - 1];
      FewAreContacted(oracle, s, before);
      var s1 := SetExec(oracle, s, before);
      if SetEnabled(s1, v) {
        EndingStep(oracle, s1, v);
        CountUpdate(s1.workers, CLEARED, v, SetStep(oracle, s1, v).workers[v]);
      }
    }
  }

  /** A fruitless answer ends the search, and only a fruitless answer does: from then on each worker that was
      already past its look at the end contacts at most one more peer, and nobody else contacts anyone. */
  lemma {:induction false} FruitlessAnswerEndsSearch(oracle: Oracle, s: SetState, w: nat, schedule: seq<nat>)
    requires SetEnabled(s, w) && PointersOk(s) && !Ending(s)
    ensures PointersOk(SetStep(oracle, s, w))
    ensures var s1 := SetStep(oracle, s, w);
            var s' := SetExec(oracle, s1, schedule);
            && (Ending(s1) <==> Fruitless(oracle, s, w))
            && (Fruitless(oracle, s, w) ==>
                  && Ending(s') && s.asked <= s'.asked && |s'.asked| <= |s.asked| + Count(s.workers, CLEARED)
                  && forall v :: 0 <= v < |s.workers| ==> SetContacts(oracle, s1, schedule, v) <= CLEARED(s.workers[v]))
  {
    hide SetStep, SetExec, OfferAll, PointersOk, Ending, Count;
    SetStepPointers(oracle, s, w);
    EndingStep(oracle, s, w);
    if Fruitless(oracle, s, w) {
      var s1 := SetStep(oracle, s, w);
      FewAreContacted(oracle, s1, schedule);
      CountUpdate(s.workers, CLEARED, w, s1.workers[w]);
    }
  }

  lemma {:induction false} SomeCleared(workers: seq<SetWorker>) returns (w: nat)
    requires Count(workers, CLEARED) > 0
    ensures w < |workers| && workers[w].Cleared?
    decreases |workers|
  {
    w := 0;
    if !workers[0].Cleared? {
      var v := SomeCleared(workers[1..]);
      w := v + 1;
    }
  }

  /** They may do so: as long as nodes are left, all the workers past their look contact one more peer each. */
  lemma {:induction false} ClearedMayContact(oracle: Oracle, start: SetState, before: seq<nat>)
    returns (schedule: seq<nat>)
    requires PointersOk(start)
    ensures before <= schedule
    ensures var s, s' := SetExec(oracle, start, before), SetExec(oracle, start, schedule);
            |s'.asked| == |s.asked| + Min(Count(s.workers, CLEARED), Undone(s.slots))
    decreases Undone(SetExec(oracle, start, before).slots)
  {
    hide PointersOk, SetStep, Count, Undone, Next;
    schedule := before;
    var s := SetExec(oracle, start, before);
    if Count(s.workers, CLEARED) > 0 && Undone(s.slots) > 0 {
      var w := SomeCleared(s.workers);
      var at := ClearedTakes(oracle, s, w);
      ExecOneMore(oracle, start, before, w);
      CountUpdate(s.workers, CLEARED, w, Waiting(at, s.slots[at].value.peer));
      MarkUndone(s.slots, at, Some(s.slots[at].value.(done := true)));
      schedule := ClearedMayContact(oracle, start, before + [w]);
    }
  }

  lemma ClearedTakes(oracle: Oracle, s: SetState, w: nat) returns (at: nat)
    requires PointersOk(s) && SetEnabled(s, w) && s.workers[w].Cleared? && Undone(s.slots) > 0
    ensures at < |s.slots| && Unsearched(s.slots[at])
    ensures var n := s.slots[at].value;
            SetStep(oracle, s, w) == s.(workers := s.workers[w := Waiting(at, n.peer)],
              slots := s.slots[at := Some(n.(done := true))],
                                       asked := s.asked + [n.peer])
  {
    hide Undone, OfferAll;
    var i := UndoneSome(s.slots);
    assert Next(s.slots).Some?;
    at := Next(s.slots).value;
  }

  /** So it is not true that nobody is contacted any more: of two workers one is past its look when the other's
      answer from `b` improves nothing, and contacts `a` all the same. */
  lemma ContactAfterEnd(oracle: Oracle, a: Near, b: Near, maxStores: nat, numWorkers: nat)
    requires maxStores >= 2 && numWorkers >= 2 && a.peer.id != b.peer.id && a.dist < b.dist
    requires oracle(b.peer.id) == Closest([])
    ensures var start := SetStart(a, [b], maxStores, numWorkers);
            var s := SetExec(oracle, start, [0, 1, 1, 1]);
            && Ending(s) && s.asked == [b.peer]
            && SetExec(oracle, start, [0, 1, 1, 1, 0]).asked == [b.peer, a.peer]
  {
    hide SetExec, SetStep, SetStart, Packed, Ending;
    var start := SetStart(a, [b], maxStores, numWorkers);
    StartWithTwo(a, b, maxStores, numWorkers);
    assert [] + [0] == [0] && [0] + [1] == [0, 1] && [0, 1] + [1] == [0, 1, 1];
    assert [0, 1, 1] + [1] == [0, 1, 1, 1] && [0, 1, 1, 1] + [0] == [0, 1, 1, 1, 0];
    ExecOneMore(oracle, start, [], 0);
    ExecOneMore(oracle, start, [0], 1);
    BothCleared(oracle, start);
    ExecOneMore(oracle, start, [0, 1], 1);
    ExecOneMore(oracle, start, [0, 1, 1], 1);
    OneEnds(oracle, SetExec(oracle, start, [0, 1]), a, b, maxStores);
    ExecOneMore(oracle, start, [0, 1, 1, 1], 0);
    OtherAsks(oracle, SetExec(oracle, start, [0, 1, 1, 1]), a, b, maxStores);
  }

  /** Offering to a list whose first node is nearer and another one. */
  lemma OfferSecond(first: Node, rest: seq<Node>, m: nat, n: Near)
    requires m >= 2 && |rest| <= 1 && first.peer.id != n.peer.id && first.dist <= n.dist
    requires rest != [] ==> rest[0].peer.id != n.peer.id && n.dist < rest[0].dist
    ensures OfferAll(Packed([first] + rest, m), FreshAll([n])) == (Packed([first, Fresh(n)], m), 1)
  {
    hide Offer;
    var slots, c := Packed([first] + rest, m), Fresh(n);
    OfferOne(slots, n);
    OfferSteps(slots, c);
    OfferSteps(slots[1..], c);
    assert Packed([first, c], m) == [slots[0]] + ([Some(c)] + slots[1..][1..]);
  }

  lemma StartWithTwo(a: Near, b: Near, m: nat, numWorkers: nat)
    requires m >= 2 && numWorkers >= 2 && a.peer.id != b.peer.id && a.dist <= b.dist
    ensures var s := SetStart(a, [b], m, numWorkers);
            && s.slots == Packed([Fresh(a), Fresh(b)], m)
            && s.workers == seq(numWorkers, _ => Ready)
            && !s.isDone && !s.terminating && s.asked == [] && s.blamed == []
  {
    hide OfferAll;
    OfferSecond(Fresh(a), [], m, b);
    assert [Fresh(a)] + [] == [Fresh(a)];
  }

  lemma BothCleared(oracle: Oracle, s: SetState)
    requires PointersOk(s) && |s.workers| >= 2 && s.workers[0] == s.workers[1] == Ready && !s.isDone && !s.terminating
    ensures var s1 := SetStep(oracle, s, 0);
            && s1 == s.(workers := s.workers[0 := Cleared])
            && SetEnabled(s1, 1) && PointersOk(s1)
            && SetStep(oracle, s1, 1) == s.(workers := s.workers[0 := Cleared][1 := Cleared])
  {
    hide OfferAll, Next;
  }

  lemma OneEnds(oracle: Oracle, s: SetState, a: Near, b: Near, m: nat)
    requires PointersOk(s) && m >= 2 && s.slots == Packed([Fresh(a), Fresh(b)], m) && a.dist < b.dist
    requires |s.workers| >= 2 && s.workers[0] == s.workers[1] == Cleared && s.asked == []
    requires oracle(b.peer.id) == Closest([])
    ensures var s1 := SetStep(oracle, s, 1);
            && SetEnabled(s1, 1) && PointersOk(s1)
            && var s2 := SetStep(oracle, s1, 1);
               && Ending(s2) && s2.asked == [b.peer] && |s2.workers| == |s.workers| && s2.workers[0] == Cleared
               && s2.slots == Packed([Fresh(a), Fresh(b).(done := true)], m)
  {
    hide Pick;
    assert s.slots[1] == Some(Fresh(b)) && Unsearched(s.slots[1]);
    assert Next(s.slots) == Some(1);
    assert s.slots[1 := Some(Fresh(b).(done := true))] == Packed([Fresh(a), Fresh(b).(done := true)], m);
    assert FreshAll([]) == [];
  }

  lemma OtherAsks(oracle: Oracle, s: SetState, a: Near, b: Near, m: nat)
    requires PointersOk(s) && m >= 2 && s.slots == Packed([Fresh(a), Fresh(b).(done := true)], m)
    requires |s.workers| >= 1 && s.workers[0] == Cleared && s.asked == [b.peer]
    ensures SetStep(oracle, s, 0).asked == [b.peer, a.peer]
  {
    hide Pick;
    assert Unsearched(s.slots[0]) && forall j :: 0 < j < m ==> !Unsearched(s.slots[j]);
    assert Next(s.slots) == Some(0);
  }

  predicate AllSearched(slots: seq<Slot>) {
    forall i :: 0 <= i < |slots| ==> !Unsearched(slots[i])
  }

  /** When all workers have stopped, an answer was fruitless or every listed node was searched. */
  lemma {:induction false} SetSearchEndsWhy(oracle: Oracle, self: Near, own: seq<Near>, maxStores: nat,
      numWorkers: nat, schedule: seq<nat>)
    requires maxStores > 0 && numWorkers > 0
    ensures var s := SetExec(oracle, SetStart(self, own, maxStores, numWorkers), schedule);
            && |s.workers| == numWorkers
            && (SetFinished(s) ==> Ending(s) || AllSearched(s.slots))
    decreases |schedule|
  {
    hide SetStep, OfferAll, Ending, AllSearched;
    var start := SetStart(self, own, maxStores, numWorkers);
    if schedule == [] {
      assert !start.workers[0].Stopped?;
    } else {
      var before, w := schedule[..|schedule| - 1], schedule[|schedule| - 1];
      SetSearchEndsWhy(oracle, self, own, maxStores, numWorkers, before);
      var s := SetExec(oracle, start, before);
      if SetEnabled(s, w) {
        LastStops(oracle, s, w);
      }
    }
  }

  lemma LastStops(oracle: Oracle, s: SetState, w: nat)
    requires SetEnabled(s, w) && PointersOk(s)
    ensures |SetStep(oracle, s, w).workers| == |s.workers|
    ensures SetStep(oracle, s, w).workers[w].Stopped? ==>
              Ending(SetStep(oracle, s, w)) || AllSearched(SetStep(oracle, s, w).slots)
  {
    hide OfferAll, Pick;
  }

  // ---------- Who is contacted and what is offered ----------

  /** What the contact of `p` came to, unless some worker still waits for it. */
  ghost predicate Accounted(oracle: Oracle, s: SetState, p: Peer) {
    || (exists w :: 0 <= w < |s.workers| && s.workers[w].Waiting? && s.workers[w].peer == p)
    || match oracle(p.id)
       case Expected => true
       case Closest(ns) => AllOffered(s, ns)
       case _ => s.terminating
  }

  predicate AllOffered(s: SetState, ns: seq<Near>) {
    forall k :: 0 <= k < |ns| ==> ns[k].dist in s.offered
  }

  ghost predicate Reported(oracle: Oracle, s: SetState, p: Peer, d: int) {
    p in s.asked && oracle(p.id).Closest? &&
    exists k :: 0 <= k < |oracle(p.id).nodes| && oracle(p.id).nodes[k].dist == d
  }

  /** Whoever was searched was contacted, and what was offered is what the node knew and was answered. */
  ghost predicate OfferedOk(oracle: Oracle, self: Near, own: seq<Near>, s: SetState) {
    && AllOffered(s, [self] + own)
    && (forall p :: p in s.asked ==> Accounted(oracle, s, p))
    && (forall w :: 0 <= w < |s.workers| && s.workers[w].Waiting? ==> s.workers[w].peer in s.asked)
    && (forall d :: d in s.offered ==>
          d == self.dist || (exists k :: 0 <= k < |own| && own[k].dist == d) || exists p :: Reported(oracle, s, p, d))
  }

  lemma AccountedStays(oracle: Oracle, s: SetState, w: nat, p: Peer)
    requires SetEnabled(s, w) && PointersOk(s) && Accounted(oracle, s, p)
    ensures Accounted(oracle, SetStep(oracle, s, w), p)
  {
    hide OfferAll, Next;
    var s' := SetStep(oracle, s, w);
    StepOffers(oracle, s, w);
    if v :| 0 <= v < |s.workers| && s.workers[v].Waiting? && s.workers[v].peer == p {
      if v != w {
        assert s'.workers[v] == s.workers[v];
      } else if oracle(p.id).Closest? {
        AnswerOffered(s, oracle(p.id).nodes);
      }
    }
  }

  lemma AnswerOffered(s: SetState, ns: seq<Near>)
    ensures AllOffered(s.(offered := s.offered + DhtPeer.Dists(ns)), ns)
    ensures forall d :: d in s.offered + DhtPeer.Dists(ns) ==>
              d in s.offered || exists k :: 0 <= k < |ns| && ns[k].dist == d
  {
    forall k | 0 <= k < |ns| ensures ns[k].dist in s.offered + DhtPeer.Dists(ns) {
      assert (s.offered + DhtPeer.Dists(ns))[|s.offered| + k] == ns[k].dist;
    }
  }

  lemma OfferedStep(oracle: Oracle, self: Near, own: seq<Near>, s: SetState, w: nat)
    requires SetEnabled(s, w) && PointersOk(s) && OfferedOk(oracle, self, own, s)
    ensures OfferedOk(oracle, self, own, SetStep(oracle, s, w))
  {
    hide OfferAll, Next, Accounted, AllOffered, Reported;
    var s' := SetStep(oracle, s, w);
    StepOffers(oracle, s, w);
    MoreOffered(s, s', [self] + own);
    forall p | p in s'.asked ensures Accounted(oracle, s', p) {
      if p in s.asked {
        AccountedStays(oracle, s, w, p);
      } else {
        WaitedFor(oracle, s', p, w);
      }
    }
    forall d | d in s'.offered
      ensures d == self.dist || (exists k :: 0 <= k < |own| && own[k].dist == d) ||
              exists p :: Reported(oracle, s', p, d)
    {
      if d in s.offered {
        if p :| Reported(oracle, s, p, d) {
          ReportedStays(oracle, s, s', p, d);
        }
      } else {
        AnswerReported(oracle, s, s', w, d);
      }
    }
  }

  lemma MoreOffered(s: SetState, s': SetState, ns: seq<Near>)
    requires s.offered <= s'.offered && AllOffered(s, ns)
    ensures AllOffered(s', ns)
  {
  }

  lemma WaitedFor(oracle: Oracle, s: SetState, p: Peer, w: nat)
    requires w < |s.workers| && s.workers[w].Waiting? && s.workers[w].peer == p
    ensures Accounted(oracle, s, p)
  {
  }

  lemma ReportedStays(oracle: Oracle, s: SetState, s': SetState, p: Peer, d: int)
    requires s.asked <= s'.asked && Reported(oracle, s, p, d)
    ensures Reported(oracle, s', p, d)
  {
  }

  lemma AnswerReported(oracle: Oracle, s: SetState, s': SetState, w: nat, d: int)
    requires SetEnabled(s, w) && PointersOk(s) && s' == SetStep(oracle, s, w)
    requires d in s'.offered && d !in s.offered
    requires s.workers[w].Waiting? ==> s.workers[w].peer in s.asked
    ensures exists p :: Reported(oracle, s', p, d)
  {
    hide OfferAll, Next;
    AnswerOffered(s, oracle(s.workers[w].peer.id).nodes);
    assert Reported(oracle, s', s.workers[w].peer, d);
  }

  lemma StartOffered(oracle: Oracle, self: Near, own: seq<Near>, maxStores: nat, numWorkers: nat)
    requires maxStores > 0
    ensures OfferedOk(oracle, self, own, SetStart(self, own, maxStores, numWorkers))
  {
    hide OfferAll;
    var s := SetStart(self, own, maxStores, numWorkers);
    forall k | 0 <= k < |[self] + own| ensures ([self] + own)[k].dist in s.offered {
      assert s.offered[k] == ([self] + own)[k].dist;
    }
  }

  /** Over every run the distances offered to the list are those of the node itself, of the peers its own store
      named, and of all that the contacted peers answered, once their answers are there; and the search is
      terminating once a contacted peer answered with a value or a fatal error. */
  lemma {:induction false} EveryAnswerOffered(
    oracle: Oracle, self: Near, own: seq<Near>, maxStores: nat, numWorkers: nat, schedule: seq<nat>)
    requires maxStores > 0
    ensures OfferedOk(oracle, self, own, SetExec(oracle, SetStart(self, own, maxStores, numWorkers), schedule))
    decreases |schedule|
  {
    hide OfferedOk, SetStep, SetStart;
    StartOffered(oracle, self, own, maxStores, numWorkers);
    if schedule != [] {
      var before, w := schedule[..|schedule| - 1], schedule[|schedule| - 1];
      EveryAnswerOffered(oracle, self, own, maxStores, numWorkers, before);
      var s := SetExec(oracle, SetStart(self, own, maxStores, numWorkers), before);
      if SetEnabled(s, w) {
        OfferedStep(oracle, self, own, s, w);
      }
    }
  }

  // ---------- The list under any distances ----------

  /** From any point of a run on, whatever the peers report, no slot is emptied or gets a greater distance. */
  lemma {:induction false} SlotsNeverRise(oracle: Oracle, s: SetState, schedule: seq<nat>)
    requires PointersOk(s)
    ensures Lowered(s.slots, SetExec(oracle, s, schedule).slots)
    decreases |schedule|
  {
    hide SetStep, PointersOk;
    if schedule != [] {
      var before, w := schedule[..|schedule| - 1], schedule[|schedule| - 1];
      SlotsNeverRise(oracle, s, before);
      if SetEnabled(SetExec(oracle, s, before), w) {
        StepLowers(oracle, SetExec(oracle, s, before), w);
      }
    }
  }

  lemma StepLowers(oracle: Oracle, s: SetState, w: nat)
    requires SetEnabled(s, w) && PointersOk(s)
    ensures Lowered(s.slots, SetStep(oracle, s, w).slots)
  {
    hide OfferAll, Pick;
    if s.workers[w].Waiting? && oracle(s.workers[w].peer.id).Closest? {
      OfferAllLowers(s.slots, FreshAll(oracle(s.workers[w].peer.id).nodes));
    }
  }

  // ---------- The list under true distances ----------

  /** Peers report true distances to the key. */
  ghost predicate Truthful(oracle: Oracle, key: Id) {
    forall id :: oracle(id).Closest? ==> TrueNears(oracle(id).nodes, key)
  }

  predicate TrueNears(ns: seq<Near>, key: Id) {
    forall i :: 0 <= i < |ns| ==> |ns[i].peer.id| == |key| && ns[i].dist == Distance(ns[i].peer.id, key)
  }

  /** The slots are those the offered distances leave in the greedy list: filled ones first, ascending, so
      with different identifiers. */
  ghost predicate ListIs(slots: seq<Slot>, offered: seq<int>, key: Id, l: seq<Node>) {
    && |l| <= |slots| && slots == Packed(l, |slots|)
    && AllTrue(l, key)
    && SearchNodes.Dists(l) == PlaceAll(offered, |slots|)
  }

  lemma {:induction false} OfferAllIsPlaceAll(slots: seq<Slot>, offered: seq<int>, key: Id, l: seq<Node>, ns: seq<Near>)
    returns (l': seq<Node>)
    requires ListIs(slots, offered, key, l) && TrueNears(ns, key)
    ensures ListIs(OfferAll(slots, FreshAll(ns)).0, offered + DhtPeer.Dists(ns), key, l')
    decreases |ns|
  {
    hide Distance, Place;
    if ns == [] {
      l' := l;
      assert offered + DhtPeer.Dists(ns) == offered;
      assert FreshAll(ns) == [];
    } else {
      var m := |ns| - 1;
      var before := OfferAllIsPlaceAll(slots, offered, key, l, ns[..m]);
      assert FreshAll(ns)[..m] == FreshAll(ns[..m]) && FreshAll(ns)[m] == Fresh(ns[m]);
      assert (offered + DhtPeer.Dists(ns))[..|offered| + m] == offered + DhtPeer.Dists(ns[..m]);
      l' := OfferIsPlace(before, |slots|, Fresh(ns[m]), key);
    }
  }

  lemma SetStepList(oracle: Oracle, s: SetState, w: nat, key: Id, l: seq<Node>) returns (l': seq<Node>)
    requires SetEnabled(s, w) && PointersOk(s) && Truthful(oracle, key) && ListIs(s.slots, s.offered, key, l)
    ensures var s' := SetStep(oracle, s, w); ListIs(s'.slots, s'.offered, key, l')
  {
    hide Distance, Place, PlaceAll, OfferAll, Next, Pick;
    l' := l;
    if s.workers[w].Waiting? {
      if oracle(s.workers[w].peer.id).Closest? {
        l' := OfferAllIsPlaceAll(s.slots, s.offered, key, l, oracle(s.workers[w].peer.id).nodes);
      }
    } else if s.workers[w].Cleared? && Next(s.slots).Some? {
      var i := Next(s.slots).value;
      l' := l[i := l[i].(done := true)];
      assert SearchNodes.Dists(l') == SearchNodes.Dists(l);
      assert s.slots[i := Some(l[i].(done := true))] == Packed(l', |s.slots|);
    }
  }

  ghost predicate TrueStart(self: Near, own: seq<Near>, key: Id) {
    TrueNears([self], key) && TrueNears(own, key)
  }

  lemma SetStartList(self: Near, own: seq<Near>, maxStores: nat, numWorkers: nat, key: Id) returns (l: seq<Node>)
    requires maxStores > 0 && TrueStart(self, own, key)
    ensures var s := SetStart(self, own, maxStores, numWorkers); ListIs(s.slots, s.offered, key, l)
  {
    hide Distance;
    var slots := Packed([Fresh(self)], maxStores);
    assert [self][0] == self;
    assert [self.dist][..0] == [] && PlaceAll([], maxStores) == [];
    assert SearchNodes.Dists([Fresh(self)]) == [self.dist] == PlaceAll([self.dist], maxStores);
    l := OfferAllIsPlaceAll(slots, [self.dist], key, [Fresh(self)], own);
  }

  lemma {:induction false} SetExecList(
    oracle: Oracle, self: Near, own: seq<Near>, maxStores: nat, numWorkers: nat, key: Id,
      schedule: seq<nat>) returns (l: seq<Node>)
    requires maxStores > 0 && TrueStart(self, own, key) && Truthful(oracle, key)
    ensures var s := SetExec(oracle, SetStart(self, own, maxStores, numWorkers), schedule);
            |s.slots| == maxStores && ListIs(s.slots, s.offered, key, l)
    decreases |schedule|
  {
    hide ListIs, Truthful, TrueStart, SetStep;
    var start := SetStart(self, own, maxStores, numWorkers);
    if schedule == [] {
      l := SetStartList(self, own, maxStores, numWorkers, key);
    } else {
      var before, w := schedule[..|schedule| - 1], schedule[|schedule| - 1];
      l := SetExecList(oracle, self, own, maxStores, numWorkers, key, before);
      var s := SetExec(oracle, start, before);
      if SetEnabled(s, w) {
        SetStepSize(oracle, s, w);
        l := SetStepList(oracle, s, w, key, l);
      }
    }
  }

  lemma SetStepSize(oracle: Oracle, s: SetState, w: nat)
    requires SetEnabled(s, w) && PointersOk(s)
    ensures |SetStep(oracle, s, w).slots| == |s.slots| && |SetStep(oracle, s, w).workers| == |s.workers|
  {
  }

  /** The candidate list over every run with true distances: slot `i` holds the least distance in which a
      strictly increasing chain of `i + 1` offers can end; the filled slots are a prefix, strictly
      ascending, of different peers; and slot 0 holds the closest peer ever offered. */
  lemma CandidateListExact(
    oracle: Oracle, self: Near, own: seq<Near>, maxStores: nat, numWorkers: nat, key: Id,
      schedule: seq<nat>) returns (l: seq<Node>)
    requires maxStores > 0 && TrueStart(self, own, key) && Truthful(oracle, key)
    ensures var s := SetExec(oracle, SetStart(self, own, maxStores, numWorkers), schedule);
            && |l| <= maxStores && s.slots == Packed(l, maxStores)
            && LeastEnds(s.offered, maxStores, SearchNodes.Dists(l))
            && Ascending(SearchNodes.Dists(l))
            && (forall i, j :: 0 <= i < j < |l| ==> l[i].peer.id != l[j].peer.id)
            && l != [] && forall d :: d in s.offered ==> l[0].dist <= d
  {
    hide LeastEnds, Ascending, PlaceAll, SetExec, Packed;
    l := SetExecList(oracle, self, own, maxStores, numWorkers, key, schedule);
    var s := SetExec(oracle, SetStart(self, own, maxStores, numWorkers), schedule);
    SlotsAreLeastEnds(s.offered, maxStores);
    LeastEndsChain(s.offered, maxStores, SearchNodes.Dists(l));
    AscendingIsDifferent(l, key);
    SelfWasOffered(oracle, self, own, maxStores, numWorkers, schedule);
    FirstSlotIsLeast(s.offered, maxStores);
  }

  /** Exactly when the candidate list is the closest of all peers ever reported, however often each was: if and
      only if these were among the offers in ascending order of distance. */
  lemma CandidatesClosestIff(
    oracle: Oracle, self: Near, own: seq<Near>, maxStores: nat, numWorkers: nat, key: Id,
      schedule: seq<nat>) returns (l: seq<Node>)
    requires maxStores > 0 && TrueStart(self, own, key) && Truthful(oracle, key)
    ensures var s := SetExec(oracle, SetStart(self, own, maxStores, numWorkers), schedule);
            && |l| <= maxStores && s.slots == Packed(l, maxStores)
            && (HoldsClosest(s.offered, maxStores, SearchNodes.Dists(l)) <==>
                exists ix: seq<nat> :: ClosestInOrder(s.offered, maxStores, ix))
  {
    hide PlaceAll, SetExec, Packed, HoldsClosest, ClosestInOrder;
    l := SetExecList(oracle, self, own, maxStores, numWorkers, key, schedule);
    var s := SetExec(oracle, SetStart(self, own, maxStores, numWorkers), schedule);
    ClosestIff(s.offered, maxStores);
  }

  lemma {:induction false} SelfWasOffered(oracle: Oracle, self: Near, own: seq<Near>, maxStores: nat, numWorkers: nat,
      schedule: seq<nat>)
    requires maxStores > 0
    ensures SetExec(oracle, SetStart(self, own, maxStores, numWorkers), schedule).offered != []
    decreases |schedule|
  {
    hide SetStep, OfferAll;
    if schedule != [] {
      var before, w := schedule[..|schedule| - 1], schedule[|schedule| - 1];
      SelfWasOffered(oracle, self, own, maxStores, numWorkers, before);
      var s := SetExec(oracle, SetStart(self, own, maxStores, numWorkers), before);
      if SetEnabled(s, w) {
        StepOffers(oracle, s, w);
      }
    }
  }

  lemma StepOffers(oracle: Oracle, s: SetState, w: nat)
    requires SetEnabled(s, w) && PointersOk(s)
    ensures s.offered <= SetStep(oracle, s, w).offered
  {
    hide OfferAll, Next;
  }

  // ---------- What the search hands on ----------

  /** The result nodes: everything before the first empty slot. */
  function Storers(slots: seq<Slot>): seq<Node> {
    if slots == [] || slots[0].None? then [] else [slots[0].value] + Storers(slots[1..])
  }

  method ResultNodes(nodes: seq<Slot>) returns (resultNodes: seq<Node>)
    ensures resultNodes == Storers(nodes)
  {
    resultNodes := [];
    var i := 0;
    assert nodes[0..] == nodes && [] + Storers(nodes) == Storers(nodes);
    while i < |nodes| && nodes[i].Some?
      invariant 0 <= i <= |nodes|
      invariant Storers(nodes) == resultNodes + Storers(nodes[i..])
    {
      assert nodes[i..][0] == nodes[i] && nodes[i..][1..] == nodes[i + 1..];
      assert resultNodes + ([nodes[i].value] + Storers(nodes[i + 1..])) ==
               (resultNodes + [nodes[i].value]) + Storers(nodes[i + 1..]);
      resultNodes := resultNodes + [nodes[i].value];
      i := i + 1;
    }
    assert Storers(nodes[i..]) == [] && resultNodes + [] == resultNodes;
  }

  /** The result ends at the first empty slot. */
  lemma {:induction false} StorersAre(slots: seq<Slot>)
    ensures var l := Storers(slots);
            && |l| <= |slots| && (forall i :: 0 <= i < |l| ==> slots[i] == Some(l[i]))
            && (|l| < |slots| ==> slots[|l|].None?)
    decreases |slots|
  {
    if slots != [] && slots[0].Some? {
      StorersAre(slots[1..]);
      assert forall i :: 0 < i < |slots| ==> slots[i] == slots[1..][i - 1];
    }
  }

  lemma {:induction false} StorersOfPacked(l: seq<Node>, cap: nat)
    requires |l| <= cap
    ensures Storers(Packed(l, cap)) == l
    decreases |l|
  {
    if l != [] {
      PackedTail(l, cap);
      StorersOfPacked(l[1..], cap - 1);
    }
  }

  // ---------- Single steps ----------

  lemma {:induction false} ExecOneMore(oracle: Oracle, start: SetState, schedule: seq<nat>, w: nat)
    requires PointersOk(start)
    ensures SetExec(oracle, start, []) == start
    ensures SetEnabled(SetExec(oracle, start, schedule), w) ==>
              SetExec(oracle, start, schedule + [w]) == SetStep(oracle, SetExec(oracle, start, schedule), w)
  {
    assert (schedule + [w])[..|schedule|] == schedule;
  }

  lemma NextIs(slots: seq<Slot>, i: nat)
    requires i < |slots| && Unsearched(slots[i])
    requires forall j :: 0 <= j < |slots| && j != i && Unsearched(slots[j]) ==>
               slots[j].value.dist < slots[i].value.dist
    ensures Next(slots) == Some(i)
  {
  }

  lemma {:induction false} OfferOne(slots: seq<Slot>, n: Near)
    ensures OfferAll(slots, FreshAll([n])) == (Offer(slots, Fresh(n)).0, if Offer(slots, Fresh(n)).1 then 1 else 0)
  {
    assert FreshAll([n])[..0] == [];
    assert OfferAll(slots, []) == (slots, 0);
  }
}
