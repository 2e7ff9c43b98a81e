/**
 The storer search of SetValue ends: every step comes closer to its end, and as long as no distance below
 some floor is reported it can not do so for ever, even if the peers change their answers.
 */
module SetTermination {
  import opened Wrappers
  import opened Ids
  import opened Counting
  import opened SearchNodes
  import opened DhtPeer
  import opened GetSearch
  import opened SetSearch

  const SET_WAITING: SetWorker -> nat := (w: SetWorker) => if w.Waiting? then 1 else 0
  const SET_LIVE: SetWorker -> nat := (w: SetWorker) => if w.Stopped? then 0 else if w.Cleared? then 1 else 2

  /** Every step fills an empty slot, or lowers the sum of the distances, or takes a node, or gets an
      answer, or a worker looks whether the search is over or stops. */
  ghost predicate SetProgress(s: SetState, s': SetState) {
    || Empties(s'.slots) < Empties(s.slots)
    || (Empties(s'.slots) == Empties(s.slots) &&
        (|| DistSum(s'.slots) < DistSum(s.slots)
         || (DistSum(s'.slots) == DistSum(s.slots) &&
             (|| Undone(s'.slots) < Undone(s.slots)
              || (Undone(s'.slots) == Undone(s.slots) &&
                  (|| Count(s'.workers, SET_WAITING) < Count(s.workers, SET_WAITING)
                   || (Count(s'.workers, SET_WAITING) == Count(s.workers, SET_WAITING) &&
                       Count(s'.workers, SET_LIVE) < Count(s.workers, SET_LIVE))))))))
  }

  lemma {:induction false} MarkSums(slots: seq<Slot>, i: nat)
    requires i < |slots| && slots[i].Some?
    ensures var marked := slots[i := Some(slots[i].value.(done := true))];
            Empties(marked) == Empties(slots) && DistSum(marked) == DistSum(slots)
    decreases |slots|
  {
    var marked := slots[i := Some(slots[i].value.(done := true))];
    if i > 0 {
      MarkSums(slots[1..], i - 1);
      assert marked[1..] == slots[1..][i - 1 := Some(slots[i].value.(done := true))];
    } else {
      assert marked[1..] == slots[1..];
    }
  }

  lemma SetStepProgress(oracle: Oracle, s: SetState, w: nat)
    requires SetEnabled(s, w) && PointersOk(s)
    ensures SetProgress(s, SetStep(oracle, s, w))
  {
    hide OfferAll, Next, Pick, Empties, DistSum, Undone, Count;
    var to := SetStep(oracle, s, w).workers[w];
    CountUpdate(s.workers, SET_WAITING, w, to);
    CountUpdate(s.workers, SET_LIVE, w, to);
    if s.workers[w].Waiting? {
      if oracle(s.workers[w].peer.id).Closest? {
        OfferAllProgress(s.slots, FreshAll(oracle(s.workers[w].peer.id).nodes));
      }
    } else if s.workers[w].Cleared? && Next(s.slots).Some? {
      var i := Next(s.slots).value;
      MarkSums(s.slots, i);
      MarkUndone(s.slots, i, Some(s.slots[i].value.(done := true)));
    }
  }

  // ---------- A floor below all distances ----------

  /** No answer of a peer with an identifier of `n` bytes reports a distance below `floor`. */
  ghost predicate AnswersAbove(oracle: Oracle, n: nat, floor: int) {
    forall id :: |id| == n && oracle(id).Closest? ==> NearsAbove(oracle(id).nodes, floor)
  }

  predicate NearsAbove(ns: seq<Near>, floor: int) {
    forall k :: 0 <= k < |ns| ==> floor <= ns[k].dist
  }

  function Floor(ns: seq<Near>): (floor: int)
    ensures floor <= 0 && NearsAbove(ns, floor)
  {
    if ns == [] then 0
    else
      var rest := Floor(ns[..|ns| - 1]);
      if ns[|ns| - 1].dist < rest then ns[|ns| - 1].dist else rest
  }

  /** A floor for the answers to the first `count` identifiers of `n` bytes. */
  lemma {:induction false} FloorOfFirst(oracle: Oracle, n: nat, count: nat) returns (floor: int)
    ensures floor <= 0
    ensures forall v: nat :: v < count && oracle(Digits(v, n)).Closest? ==>
              NearsAbove(oracle(Digits(v, n)).nodes, floor)
  {
    hide Digits;
    floor := 0;
    if count > 0 {
      floor := FloorOfFirst(oracle, n, count - 1);
      var last := oracle(Digits(count - 1, n));
      if last.Closest? && Floor(last.nodes) < floor {
        floor := Floor(last.nodes);
      }
    }
  }

  /** There are finitely many identifiers of one length, so their answers have a floor. */
  lemma {:induction false} FloorExists(oracle: Oracle, n: nat) returns (floor: int)
    ensures floor <= 0 && AnswersAbove(oracle, n, floor)
  {
    hide Digits, NearsAbove;
    floor := FloorOfFirst(oracle, n, Pow256(n));
    forall id | |id| == n && oracle(id).Closest? ensures NearsAbove(oracle(id).nodes, floor) {
      DigitsOfNumber(id);
      BigEndianBelow(id);
    }
  }

  // ---------- Termination ----------

  /** Slots and contacted peers have identifiers of `n` bytes, and no distance is below the floor. */
  ghost predicate Grounded(s: SetState, n: nat, floor: int) {
    && Within(s.slots, n, floor)
    && forall w :: 0 <= w < |s.workers| && s.workers[w].Waiting? ==> |s.workers[w].peer.id| == n
  }

  lemma GroundedStays(oracle: Oracle, s: SetState, w: nat, n: nat, floor: int)
    requires SetEnabled(s, w) && PointersOk(s) && Grounded(s, n, floor)
    requires WellSized(oracle, n) && AnswersAbove(oracle, n, floor)
    ensures Grounded(SetStep(oracle, s, w), n, floor)
    ensures |SetStep(oracle, s, w).slots| == |s.slots|
  {
    hide OfferAll, Pick;
    SetStepSize(oracle, s, w);
    if s.workers[w].Waiting? && oracle(s.workers[w].peer.id).Closest? {
      OfferAllWithin(s.slots, FreshAll(oracle(s.workers[w].peer.id).nodes), n, floor);
    }
  }

  ghost predicate SetFollows(oracle: Oracle, s: SetState, w: nat, s': SetState) {
    SetFinished(s) || (SetEnabled(s, w) && PointersOk(s) && s' == SetStep(oracle, s, w))
  }

  lemma {:induction false} GroundedRunEnds(
    oracles: nat -> Oracle, run: nat -> SetState, schedule: nat -> nat, n: nat, floor: int, i: nat)
    returns (end: nat)
    requires forall j: nat :: SetFollows(oracles(j), run(j), schedule(j), run(j + 1))
    requires forall j: nat :: WellSized(oracles(j), n) && AnswersAbove(oracles(j), n, floor)
    requires floor <= 0 && Grounded(run(i), n, floor)
    ensures i <= end && SetFinished(run(end))
    decreases Empties(run(i).slots), DistSum(run(i).slots) - floor * |run(i).slots|, Undone(run(i).slots),
              Count(run(i).workers, SET_WAITING), Count(run(i).workers, SET_LIVE)
  {
    hide SetStep, SetFinished, WellSized, AnswersAbove;
    end := i;
    if !SetFinished(run(i)) {
      assert SetFollows(oracles(i), run(i), schedule(i), run(i + 1));
      SetStepProgress(oracles(i), run(i), schedule(i));
      GroundedStays(oracles(i), run(i), schedule(i), n, floor);
      SumAbove(run(i).slots, n, floor);
      SumAbove(run(i + 1).slots, n, floor);
      end := GroundedRunEnds(oracles, run, schedule, n, floor, i + 1);
    }
  }

  /** The storer search terminates under every schedule of any number of workers, even if the peers change
      their answers from step to step, as long as there is a floor below all distances they report. */
  lemma {:induction false} SetSearchTerminates(
    oracles: nat -> Oracle, self: Near, own: seq<Near>, maxStores: nat, numWorkers: nat, n: nat, floor: int,
      run: nat -> SetState, schedule: nat -> nat)
    returns (end: nat)
    requires maxStores > 0 && run(0) == SetStart(self, own, maxStores, numWorkers) && Sized([self] + own, n)
    requires forall j: nat :: WellSized(oracles(j), n) && AnswersAbove(oracles(j), n, floor)
    requires forall j: nat :: SetFollows(oracles(j), run(j), schedule(j), run(j + 1))
    ensures SetFinished(run(end))
  {
    hide SetFinished, SetFollows, WellSized, AnswersAbove;
    var lowest := Floor([self] + own);
    if floor < lowest {
      NearsLower([self] + own, lowest, floor);
      lowest := floor;
    }
    forall j: nat ensures AnswersAbove(oracles(j), n, lowest) {
      LowerFloor(oracles(j), n, floor, lowest);
    }
    StartGrounded(self, own, maxStores, numWorkers, n, lowest);
    end := GroundedRunEnds(oracles, run, schedule, n, lowest, 0);
  }

  /** So it does if each peer sticks to its answer, whatever that is: there are finitely many. */
  lemma {:induction false} FixedAnswersEnd(
    oracle: Oracle, self: Near, own: seq<Near>, maxStores: nat, numWorkers: nat, n: nat, run: nat -> SetState,
      schedule: nat -> nat)
    returns (end: nat)
    requires maxStores > 0 && run(0) == SetStart(self, own, maxStores, numWorkers)
    requires Sized([self] + own, n) && WellSized(oracle, n)
    requires forall j: nat :: SetFollows(oracle, run(j), schedule(j), run(j + 1))
    ensures SetFinished(run(end))
  {
    hide SetFinished, SetFollows, WellSized, AnswersAbove;
    var floor := FloorExists(oracle, n);
    var oracles := (j: nat) => oracle;
    end := SetSearchTerminates(oracles, self, own, maxStores, numWorkers, n, floor, run, schedule);
  }

  /** And if all peers report true distances, however their answers change: as peers do that run the service,
      which adds everyone who asks to its store. */
  lemma {:induction false} TrueDistancesEnd(
    oracles: nat -> Oracle, self: Near, own: seq<Near>, maxStores: nat, numWorkers: nat, key: Id,
      run: nat -> SetState, schedule: nat -> nat)
    returns (end: nat)
    requires maxStores > 0 && run(0) == SetStart(self, own, maxStores, numWorkers) && TrueStart(self, own, key)
    requires forall j: nat :: Truthful(oracles(j), key)
    requires forall j: nat :: SetFollows(oracles(j), run(j), schedule(j), run(j + 1))
    ensures SetFinished(run(end))
  {
    hide SetFinished, SetFollows, Distance;
    forall j: nat ensures WellSized(oracles(j), |key|) && AnswersAbove(oracles(j), |key|, 0) {
      assert Truthful(oracles(j), key);
    }
    assert Sized([self] + own, |key|) by { assert [self][0] == self; }
    end := SetSearchTerminates(oracles, self, own, maxStores, numWorkers, |key|, 0, run, schedule);
  }

  lemma NearsLower(ns: seq<Near>, floor: int, lowest: int)
    requires NearsAbove(ns, floor) && lowest <= floor
    ensures NearsAbove(ns, lowest)
  {
  }

  predicate Sized(ns: seq<Near>, n: nat) {
    forall k :: 0 <= k < |ns| ==> |ns[k].peer.id| == n
  }

  lemma LowerFloor(oracle: Oracle, n: nat, floor: int, lowest: int)
    requires AnswersAbove(oracle, n, floor) && lowest <= floor
    ensures AnswersAbove(oracle, n, lowest)
  {
  }

  lemma StartGrounded(self: Near, own: seq<Near>, maxStores: nat, numWorkers: nat, n: nat, floor: int)
    requires maxStores > 0 && Sized([self] + own, n) && NearsAbove([self] + own, floor)
    ensures Grounded(SetStart(self, own, maxStores, numWorkers), n, floor)
  {
    hide OfferAll;
    assert ([self] + own)[0] == self && forall k :: 0 <= k < |own| ==> ([self] + own)[k + 1] == own[k];
    OfferAllWithin(Packed([Fresh(self)], maxStores), FreshAll(own), n, floor);
  }

  // ---------- Without it ----------

  /** The two peers of the endless run, in turn. */
  function InTurn(k: nat): Peer {
    Peer([k % 2], "")
  }

  /** At step `t` everybody names the other peer, one closer than before. */
  function EndlessAnswers(t: nat): Oracle {
    (id: Id) => Closest([Near(InTurn(t / 3 + 1), -(t / 3) - 1)])
  }

  /** Where the endless run is after `t` steps. */
  predicate AtStep(t: nat, s: SetState) {
    && !s.isDone && !s.terminating && PointersOk(s)
    && s.workers == [if t % 3 == 0 then Ready else if t % 3 == 1 then Cleared else Waiting(0, InTurn(t / 3))]
    && s.slots == [Some(Node(InTurn(t / 3), -(t / 3), t % 3 == 2))]
  }

  function EndlessRun(t: nat): (s: SetState)
    ensures AtStep(t, s)
  {
    if t == 0 then EndlessStart()
    else
      var s := EndlessRun(t - 1);
      assert SetEnabled(s, 0) && PointersOk(s);
      EndlessStep(t - 1, s);
      SetStep(EndlessAnswers(t - 1), s, 0)
  }

  function EndlessStart(): (s: SetState)
    ensures AtStep(0, s)
  {
    SetState([Some(Node(InTurn(0), 0, false))], [Ready], false, false, [], [], [0])
  }

  lemma EndlessStep(t: nat, s: SetState)
    requires AtStep(t, s)
    ensures SetEnabled(s, 0) && AtStep(t + 1, SetStep(EndlessAnswers(t), s, 0))
  {
    hide Pick;
    if t % 3 == 1 {
      NextIs(s.slots, 0);
    } else if t % 3 == 2 {
      OfferOne(s.slots, Near(InTurn(t / 3 + 1), -(t / 3) - 1));
      OfferSteps(s.slots, Fresh(Near(InTurn(t / 3 + 1), -(t / 3) - 1)));
      assert InTurn(t / 3).id[0] != InTurn(t / 3 + 1).id[0];
    }
  }

  /** The floor can not be dropped: peers that name two peers in turn at ever lower distances keep a search with
      one slot and one worker going for ever. */
  lemma ChangingAnswersNeverEnd(t: nat)
    ensures WellSized(EndlessAnswers(t), 1) && AnswersAbove(EndlessAnswers(t), 1, -(t / 3) - 1)
    ensures SetEnabled(EndlessRun(t), 0) && !SetFinished(EndlessRun(t))
    ensures EndlessRun(0) == SetStart(Near(InTurn(0), 0), [], 1, 1)
    ensures EndlessRun(t + 1) == SetStep(EndlessAnswers(t), EndlessRun(t), 0)
  {
    hide SetStep;
    assert !EndlessRun(t).workers[0].Stopped?;
    EndlessBeginning();
  }

  lemma EndlessBeginning()
    ensures EndlessStart() == SetStart(Near(InTurn(0), 0), [], 1, 1)
  {
    assert FreshAll([]) == [] && DhtPeer.Dists([]) == [] && [0] + [] == [0 as int];
    assert Packed([Fresh(Near(InTurn(0), 0))], 1) == [Some(Node(InTurn(0), 0, false))];
    assert seq(1, _ => Ready) == [Ready];
  }
}
