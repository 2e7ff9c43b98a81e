/**
 Whom the storer search blames for a failed contact, and when its list names a peer twice.
 */
module SetBlame {
  import opened Wrappers
  import opened Bytes
  import opened Ids
  import opened Greedy
  import opened SearchNodes
  import opened DhtPeer
  import opened GetSearch
  import opened SetSearch

  /** A blamed peer was contacted and its contact failed. */
  ghost predicate BlameOk(oracle: Oracle, s: SetState) {
    forall p :: p in s.blamed ==> p in s.asked && oracle(p.id) == Expected
  }

  /** And whoever's contact failed is blamed, once that is known. */
  ghost predicate BlameAll(oracle: Oracle, s: SetState) {
    forall p :: p in s.asked && oracle(p.id) == Expected ==>
      p in s.blamed || exists w :: 0 <= w < |s.workers| && s.workers[w].Waiting? && s.workers[w].peer == p
  }

  /** Whom a step contacts and whom it blames. */
  lemma StepBlames(oracle: Oracle, s: SetState, w: nat)
    requires SetEnabled(s, w) && PointersOk(s) && Undisturbed(s)
    ensures var s' := SetStep(oracle, s, w);
            && s'.workers == s.workers[w := s'.workers[w]]
            && s'.asked == s.asked + (if s'.workers[w].Waiting? then [s'.workers[w].peer] else [])
            && s'.blamed == s.blamed + if s.workers[w].Waiting? && oracle(s.workers[w].peer.id) == Expected
                                       then [s.workers[w].peer] else []
  {
    hide OfferAll, Next;
  }

  lemma BlameAllStep(oracle: Oracle, s: SetState, w: nat)
    requires SetEnabled(s, w) && PointersOk(s) && Undisturbed(s) && BlameAll(oracle, s)
    ensures BlameAll(oracle, SetStep(oracle, s, w))
  {
    hide SetStep, Undisturbed, PointersOk;
    StepBlames(oracle, s, w);
    var s' := SetStep(oracle, s, w);
    forall p | p in s'.asked && oracle(p.id) == Expected
      ensures p in s'.blamed || exists v :: 0 <= v < |s'.workers| && s'.workers[v].Waiting? && s'.workers[v].peer == p
    {
      if p !in s.asked {
        assert s'.workers[w].Waiting? && s'.workers[w].peer == p;
      } else if p !in s.blamed {
        var v :| 0 <= v < |s.workers| && s.workers[v].Waiting? && s.workers[v].peer == p;
        if v != w {
          assert s'.workers[v] == s.workers[v];
        } else {
          assert s'.blamed[|s.blamed|] == p;
        }
      }
    }
  }

  predicate Sits(slots: seq<Slot>, p: Peer) {
    exists i :: 0 <= i < |slots| && slots[i].Some? && slots[i].value.peer == p
  }

  /** Every failed contact is blamed on somebody in the list: on the peer that was contacted if it is still in the
      slot it was taken from. */
  lemma FailureIsBlamed(oracle: Oracle, s: SetState, w: nat)
    requires SetEnabled(s, w) && PointersOk(s) && s.workers[w].Waiting? && oracle(s.workers[w].peer.id) == Expected
    ensures var s' := SetStep(oracle, s, w);
            && |s'.blamed| == |s.blamed| + 1 && s.blamed <= s'.blamed && s'.workers[w].Ready? && s'.slots == s.slots
            && Sits(s.slots, s'.blamed[|s.blamed|])
            && (s.slots[s.workers[w].at].value.peer == s.workers[w].peer ==>
                  s'.blamed[|s.blamed|] == s.workers[w].peer)
  {
  }

  /** Workers still find the peer they contacted in the slot they took it from. */
  ghost predicate Undisturbed(s: SetState) {
    forall w :: 0 <= w < |s.workers| && s.workers[w].Waiting? ==>
      && s.workers[w].at < |s.slots| && s.slots[s.workers[w].at].Some?
      && s.slots[s.workers[w].at].value.peer == s.workers[w].peer
      && s.workers[w].peer in s.asked
  }

  lemma BlameStep(oracle: Oracle, s: SetState, w: nat)
    requires SetEnabled(s, w) && PointersOk(s) && Undisturbed(s) && BlameOk(oracle, s)
    ensures BlameOk(oracle, SetStep(oracle, s, w))
  {
    hide OfferAll, Next;
    var s' := SetStep(oracle, s, w);
    assert s.asked <= s'.asked;
    assert s'.blamed == s.blamed || s'.blamed == s.blamed + [s.workers[w].peer];
  }

  /** With one worker nobody else overwrites the slot it waits for. */
  lemma AloneUndisturbed(oracle: Oracle, s: SetState, w: nat)
    requires SetEnabled(s, w) && PointersOk(s) && |s.workers| == 1
    ensures Undisturbed(SetStep(oracle, s, w))
  {
    hide OfferAll, Next, Pick;
  }

  lemma StartBlamesNobody(oracle: Oracle, self: Near, own: seq<Near>, maxStores: nat, numWorkers: nat)
    requires maxStores > 0
    ensures var s := SetStart(self, own, maxStores, numWorkers);
            && |s.slots| == maxStores && |s.workers| == numWorkers
            && (forall w :: 0 <= w < |s.workers| ==> s.workers[w] == Ready)
            && Undisturbed(s) && BlameOk(oracle, s) && BlameAll(oracle, s)
  {
    hide OfferAll;
  }

  /** One worker blames only peers whose contact failed. */
  lemma {:induction false} OneWorkerBlamesNonresponders(oracle: Oracle, self: Near, own: seq<Near>, maxStores: nat,
      schedule: seq<nat>)
    requires maxStores > 0
    ensures var s := SetExec(oracle, SetStart(self, own, maxStores, 1), schedule);
            |s.workers| == 1 && Undisturbed(s) && BlameOk(oracle, s) && BlameAll(oracle, s)
    decreases |schedule|
  {
    hide Undisturbed, BlameOk, BlameAll, SetStep, OfferAll;
    var start := SetStart(self, own, maxStores, 1);
    if schedule == [] {
      StartBlamesNobody(oracle, self, own, maxStores, 1);
    } else {
      var before, w := schedule[..|schedule| - 1], schedule[|schedule| - 1];
      OneWorkerBlamesNonresponders(oracle, self, own, maxStores, before);
      var s := SetExec(oracle, start, before);
      if SetEnabled(s, w) {
        BlameStep(oracle, s, w);
        BlameAllStep(oracle, s, w);
        AloneUndisturbed(oracle, s, w);
        SetStepSize(oracle, s, w);
      }
    }
  }

  /** In a list of one slot only one worker can be waiting: the slot is marked while it does. */
  ghost predicate OneWaits(s: SetState) {
    && |s.slots| == 1 && Undisturbed(s)
    && (forall w :: 0 <= w < |s.workers| && s.workers[w].Waiting? ==> !Unsearched(s.slots[0]))
    && (forall v, w :: 0 <= v < w < |s.workers| ==> !(s.workers[v].Waiting? && s.workers[w].Waiting?))
  }

  lemma OneWaitsStays(oracle: Oracle, s: SetState, w: nat)
    requires SetEnabled(s, w) && PointersOk(s) && OneWaits(s)
    ensures OneWaits(SetStep(oracle, s, w))
  {
    if s.workers[w].Waiting? {
      OneAnswers(oracle, s, w);
    } else {
      OneTakes(oracle, s, w);
    }
  }

  lemma OneTakes(oracle: Oracle, s: SetState, w: nat)
    requires SetEnabled(s, w) && PointersOk(s) && OneWaits(s) && !s.workers[w].Waiting?
    ensures OneWaits(SetStep(oracle, s, w))
  {
    hide Pick;
    var s' := SetStep(oracle, s, w);
    assert forall v :: 0 <= v < |s.workers| && v != w ==> s'.workers[v] == s.workers[v];
  }

  lemma OneAnswers(oracle: Oracle, s: SetState, w: nat)
    requires SetEnabled(s, w) && PointersOk(s) && OneWaits(s) && s.workers[w].Waiting?
    ensures OneWaits(SetStep(oracle, s, w))
  {
    hide OfferAll;
    assert forall v :: 0 <= v < |s.workers| && v != w ==> !s.workers[v].Waiting? by { hide Undisturbed; }
    assert forall v :: 0 <= v < |s.workers| ==> !SetStep(oracle, s, w).workers[v].Waiting?;
  }

  /** With one slot, too, only peers whose contact failed are blamed. */
  lemma {:induction false} OneSlotBlamesNonresponders(oracle: Oracle, self: Near, own: seq<Near>, numWorkers: nat,
      schedule: seq<nat>)
    ensures var s := SetExec(oracle, SetStart(self, own, 1, numWorkers), schedule);
            OneWaits(s) && BlameOk(oracle, s) && BlameAll(oracle, s)
    decreases |schedule|
  {
    hide Undisturbed, BlameOk, BlameAll, SetStep, SetStart;
    var start := SetStart(self, own, 1, numWorkers);
    if schedule == [] {
      StartBlamesNobody(oracle, self, own, 1, numWorkers);
    } else {
      var before, w := schedule[..|schedule| - 1], schedule[|schedule| - 1];
      OneSlotBlamesNonresponders(oracle, self, own, numWorkers, before);
      var s := SetExec(oracle, start, before);
      if SetEnabled(s, w) {
        BlameStep(oracle, s, w);
        BlameAllStep(oracle, s, w);
        OneWaitsStays(oracle, s, w);
      }
    }
  }

  /** Blamed peers have identifiers of the key's length, so removing them from the peer store succeeds. */
  lemma {:induction false} BlamedAreSized(
    oracle: Oracle, self: Near, own: seq<Near>, maxStores: nat, numWorkers: nat, key: Id, schedule: seq<nat>)
    requires maxStores > 0 && TrueStart(self, own, key) && Truthful(oracle, key)
    ensures forall p :: p in SetExec(oracle, SetStart(self, own, maxStores, numWorkers), schedule).blamed ==>
              |p.id| == |key|
    decreases |schedule|
  {
    hide Truthful, TrueStart, SetStep, SetStart, ListIs;
    var start := SetStart(self, own, maxStores, numWorkers);
    if schedule != [] {
      var before, w := schedule[..|schedule| - 1], schedule[|schedule| - 1];
      BlamedAreSized(oracle, self, own, maxStores, numWorkers, key, before);
      var l := SetExecList(oracle, self, own, maxStores, numWorkers, key, before);
      var s := SetExec(oracle, start, before);
      if SetEnabled(s, w) {
        BlamedSits(oracle, s, w, key, l);
      }
    }
  }

  lemma BlamedSits(oracle: Oracle, s: SetState, w: nat, key: Id, l: seq<Node>)
    requires SetEnabled(s, w) && PointersOk(s) && ListIs(s.slots, s.offered, key, l)
    ensures var s' := SetStep(oracle, s, w); forall p :: p in s'.blamed && p !in s.blamed ==> |p.id| == |key|
  {
    hide OfferAll, Next, PlaceAll, Distance;
    if s.workers[w].Waiting? {
      assert s.slots[s.workers[w].at] == Some(l[s.workers[w].at]);
    }
  }

  // ---------- Otherwise somebody innocent may be blamed ----------

  /** A peer whose identifier is the one byte `x`, and its distance to the key of one zero byte. */
  function NearAt(x: byte): Near {
    Near(Peer([x], ""), x)
  }

  lemma ZeroKey(x: byte)
    ensures Distance([x], [0]) == x
  {
    ZeroXor(x);
    XorSymmetric(x, 0);
    assert Xored([x], [0]) == [x];
    assert BigEndian([x][..0]) == 0;
  }

  function At(x: byte, done: bool): Node {
    Fresh(NearAt(x)).(done := done)
  }

  /** The node itself, peer 1, knows peer 5, which does not respond, and answers with peer 4. */
  function SmallNetwork(id: Id): Answer {
    if id == [5] then Expected else if id == [1] then Closest([NearAt(4)]) else Closest([])
  }

  lemma SmallNetworkTruthful(oracle: Oracle)
    requires forall id :: oracle(id) == SmallNetwork(id)
    ensures TrueStart(NearAt(1), [NearAt(5)], [0]) && Truthful(oracle, [0])
  {
    hide Distance;
    ZeroKey(1);
    ZeroKey(4);
    ZeroKey(5);
  }

  /** The first worker takes peer 5. */
  lemma TakeFive(oracle: Oracle, s: SetState, m: nat)
    requires PointersOk(s) && m >= 2 && s.slots == Packed([At(1, false), At(5, false)], m)
    requires |s.workers| >= 2 && s.workers[0] == Cleared
    ensures SetStep(oracle, s, 0) ==
              s.(slots := Packed([At(1, false), At(5, true)], m), asked := s.asked + [NearAt(5).peer],
                                        workers := s.workers[0 := Waiting(1, NearAt(5).peer)])
  {
    NextIs(s.slots, 1);
    assert s.slots[1 := Some(At(5, true))] == Packed([At(1, false), At(5, true)], m);
  }

  /** The second takes the node itself. */
  lemma TakeOne(oracle: Oracle, s: SetState, m: nat)
    requires PointersOk(s) && m >= 2 && s.slots == Packed([At(1, false), At(5, true)], m)
    requires |s.workers| >= 2 && s.workers[1] == Cleared
    ensures SetStep(oracle, s, 1) ==
              s.(slots := Packed([At(1, true), At(5, true)], m), asked := s.asked + [NearAt(1).peer],
                                        workers := s.workers[1 := Waiting(0, NearAt(1).peer)])
  {
    NextIs(s.slots, 0);
    assert s.slots[0 := Some(At(1, true))] == Packed([At(1, true), At(5, true)], m);
  }

  /** Its answer overwrites the slot of peer 5 with peer 4. */
  lemma NameFour(oracle: Oracle, s: SetState, m: nat)
    requires PointersOk(s) && m >= 2 && s.slots == Packed([At(1, true), At(5, true)], m) &&
               oracle([1]) == Closest([NearAt(4)])
    requires |s.workers| >= 2 && s.workers[0] == Waiting(1, NearAt(5).peer) &&
               s.workers[1] == Waiting(0, NearAt(1).peer)
    ensures var s' := SetStep(oracle, s, 1);
            && s'.slots == Packed([At(1, true), At(4, false)], m)
            && s'.workers == s.workers[1 := Ready] && s'.asked == s.asked && s'.blamed == s.blamed
  {
    hide OfferAll;
    OfferSecond(At(1, true), [At(5, true)], m, NearAt(4));
    assert [At(1, true)] + [At(5, true)] == [At(1, true), At(5, true)];
  }

  /** The first worker blames who is in the slot by now. */
  lemma BlameFour(oracle: Oracle, s: SetState, m: nat)
    requires PointersOk(s) && m >= 2 && s.slots == Packed([At(1, true), At(4, false)], m) && oracle([5]) == Expected
    requires |s.workers| >= 1 && s.workers[0] == Waiting(1, NearAt(5).peer)
    ensures SetStep(oracle, s, 0).blamed == s.blamed + [NearAt(4).peer] && SetStep(oracle, s, 0).asked == s.asked
  {
  }

  /** With two slots and two workers a run blames a responding peer that nobody contacted: while one worker
      waits for the peer of a slot, the other overwrites the slot, and the first blames who is in it then. */
  lemma InnocentBlamed(m: nat, numWorkers: nat)
    returns (oracle: Oracle, key: Id, self: Near, own: seq<Near>, schedule: seq<nat>, innocent: Peer)
    requires m >= 2 && numWorkers >= 2
    ensures TrueStart(self, own, key) && Truthful(oracle, key)
    ensures var s := SetExec(oracle, SetStart(self, own, m, numWorkers), schedule);
            innocent in s.blamed && innocent !in s.asked && oracle(innocent.id) == Closest([])
  {
    hide SetExec, SetStep, SetStart, Truthful, TrueStart;
    key, self, own, innocent, schedule := [0], NearAt(1), [NearAt(5)], NearAt(4).peer, [0, 1, 0, 1, 1, 0];
    oracle := (id: Id) => SmallNetwork(id);
    SmallNetworkTruthful(oracle);
    StartWithTwo(NearAt(1), NearAt(5), m, numWorkers);
    FourIsBlamed(oracle, SetStart(self, own, m, numWorkers), m);
  }

  lemma {:induction false} FourIsBlamed(oracle: Oracle, start: SetState, m: nat)
    requires PointersOk(start) && m >= 2 && start.slots == Packed([At(1, false), At(5, false)], m)
    requires |start.workers| >= 2 && start.workers[0] == start.workers[1] == Ready
    requires !start.isDone && !start.terminating && start.asked == [] && start.blamed == []
    requires oracle([1]) == Closest([NearAt(4)]) && oracle([5]) == Expected
    ensures var s := SetExec(oracle, start, [0, 1, 0, 1, 1, 0]);
            NearAt(4).peer in s.blamed && NearAt(4).peer !in s.asked
  {
    hide SetExec, SetStep, Packed;
    BothTake(oracle, start, m);
    var s := SetExec(oracle, start, [0, 1, 0, 1]);
    assert [0, 1, 0, 1] + [1] == [0, 1, 0, 1, 1] && [0, 1, 0, 1, 1] + [0] == [0, 1, 0, 1, 1, 0];
    ExecOneMore(oracle, start, [0, 1, 0, 1], 1);
    NameFour(oracle, s, m);
    ExecOneMore(oracle, start, [0, 1, 0, 1, 1], 0);
    BlameFour(oracle, SetStep(oracle, s, 1), m);
  }

  lemma {:induction false} BothTake(oracle: Oracle, start: SetState, m: nat)
    requires PointersOk(start) && m >= 2 && start.slots == Packed([At(1, false), At(5, false)], m)
    requires |start.workers| >= 2 && start.workers[0] == start.workers[1] == Ready
    requires !start.isDone && !start.terminating && start.asked == []
    ensures var s := SetExec(oracle, start, [0, 1, 0, 1]);
            && s.slots == Packed([At(1, true), At(5, true)], m) && |s.workers| == |start.workers|
            && s.workers[0] == Waiting(1, NearAt(5).peer) && s.workers[1] == Waiting(0, NearAt(1).peer)
            && s.asked == [NearAt(5).peer, NearAt(1).peer] && s.blamed == start.blamed
  {
    hide SetExec, SetStep, Packed, PointersOk;
    assert [] + [0] == [0] && [0] + [1] == [0, 1] && [0, 1] + [0] == [0, 1, 0] && [0, 1, 0] + [1] == [0, 1, 0, 1];
    ExecOneMore(oracle, start, [], 0);
    ExecOneMore(oracle, start, [0], 1);
    BothCleared(oracle, start);
    var s := SetExec(oracle, start, [0, 1]);
    ExecOneMore(oracle, start, [0, 1], 0);
    TakeFive(oracle, s, m);
    ExecOneMore(oracle, start, [0, 1, 0], 1);
    TakeOne(oracle, SetExec(oracle, start, [0, 1, 0]), m);
  }

  // ---------- Exactly when ----------

  /** In every network of truthful peers, whatever the schedule, only peers that failed are blamed, and all of
      them. */
  ghost predicate BlamesRightly(maxStores: nat, numWorkers: nat)
    requires maxStores > 0
  {
    forall oracle: Oracle, key: Id, self: Near, own: seq<Near>, schedule: seq<nat> ::
      TrueStart(self, own, key) && Truthful(oracle, key) ==>
        var s := SetExec(oracle, SetStart(self, own, maxStores, numWorkers), schedule);
        BlameOk(oracle, s) && BlameAll(oracle, s)
  }

  /** Nobody innocent is blamed exactly when there is one worker at most, or one slot. */
  lemma BlamesRightlyIff(maxStores: nat, numWorkers: nat)
    requires maxStores > 0
    ensures BlamesRightly(maxStores, numWorkers) <==> numWorkers <= 1 || maxStores == 1
  {
    hide SetExec, SetStart, Truthful, TrueStart;
    if numWorkers >= 2 && maxStores >= 2 {
      var oracle, key, self, own, schedule, innocent := InnocentBlamed(maxStores, numWorkers);
      assert !BlameOk(oracle, SetExec(oracle, SetStart(self, own, maxStores, numWorkers), schedule));
    } else {
      forall oracle: Oracle, key: Id, self: Near, own: seq<Near>, schedule: seq<nat>
        | TrueStart(self, own, key) && Truthful(oracle, key)
        ensures var s := SetExec(oracle, SetStart(self, own, maxStores, numWorkers), schedule);
                BlameOk(oracle, s) && BlameAll(oracle, s)
      {
        FewBlameNonresponders(oracle, self, own, maxStores, numWorkers, schedule);
      }
    }
  }

  lemma {:induction false} FewBlameNonresponders(oracle: Oracle, self: Near, own: seq<Near>, maxStores: nat,
      numWorkers: nat, schedule: seq<nat>)
    requires maxStores > 0 && (numWorkers <= 1 || maxStores == 1)
    ensures var s := SetExec(oracle, SetStart(self, own, maxStores, numWorkers), schedule);
            BlameOk(oracle, s) && BlameAll(oracle, s)
  {
    if maxStores == 1 {
      OneSlotBlamesNonresponders(oracle, self, own, numWorkers, schedule);
    } else if numWorkers == 1 {
      OneWorkerBlamesNonresponders(oracle, self, own, maxStores, schedule);
    } else {
      NobodyBlames(oracle, self, own, maxStores, schedule);
    }
  }

  lemma {:induction false} NobodyBlames(oracle: Oracle, self: Near, own: seq<Near>, maxStores: nat, schedule: seq<nat>)
    requires maxStores > 0
    ensures SetExec(oracle, SetStart(self, own, maxStores, 0), schedule) == SetStart(self, own, maxStores, 0)
    decreases |schedule|
  {
    hide OfferAll;
    if schedule != [] {
      NobodyBlames(oracle, self, own, maxStores, schedule[..|schedule| - 1]);
    }
  }

  // ---------- Whom the list names twice ----------

  /** The filled slots hold different peers. */
  predicate NamesOnce(slots: seq<Slot>) {
    forall i, j :: 0 <= i < j < |slots| && slots[i].Some? && slots[j].Some? ==>
             slots[i].value.peer.id != slots[j].value.peer.id
  }

  /** The candidate sits in a slot, and an earlier one is empty or holds a greater distance. */
  predicate Displaces(slots: seq<Slot>, n: Node) {
    exists i, j :: 0 <= i < j < |slots| && slots[j].Some? && slots[j].value.peer.id == n.peer.id
      && (slots[i].None? || n.dist < slots[i].value.dist)
  }

  /** An offer makes a list of different peers name one twice exactly when the candidate is on the list and
      reports a distance that puts it in front of its own slot. */
  lemma {:induction false} NamedTwiceIff(slots: seq<Slot>, n: Node)
    requires NamesOnce(slots)
    ensures NamesOnce(Offer(slots, n).0) <==> !Displaces(slots, n)
    decreases |slots|
  {
    if slots != [] {
      var first, rest := slots[0], slots[1..];
      assert forall j :: 0 < j < |slots| ==> slots[j] == rest[j - 1];
      if first.None? || (first.value.peer.id != n.peer.id && n.dist < first.value.dist) {
        var r := [Some(n)] + rest;
        assert forall j :: 0 < j < |slots| ==> r[j] == slots[j];
        assert Displaces(slots, n) <==>
                 exists j :: 0 < j < |slots| && slots[j].Some? && slots[j].value.peer.id == n.peer.id;
        assert r[0] == Some(n);
      } else if first.value.peer.id != n.peer.id {
        NamedTwiceIff(rest, n);
        OfferFrom(rest, n);
        BehindNearer(slots, n);
        var r := Offer(rest, n).0;
        FirstStaysNamedOnce(first, r);
      }
    }
  }

  lemma FirstStaysNamedOnce(first: Slot, r: seq<Slot>)
    requires first.Some? && forall j :: 0 <= j < |r| && r[j].Some? ==> r[j].value.peer.id != first.value.peer.id
    ensures NamesOnce([first] + r) <==> NamesOnce(r)
  {
    var all := [first] + r;
    assert forall j :: 0 <= j < |r| ==> all[j + 1] == r[j];
    assert forall j :: 0 < j < |all| ==> all[j] == r[j - 1];
  }

  lemma BehindNearer(slots: seq<Slot>, n: Node)
    requires slots != [] && slots[0].Some? && slots[0].value.peer.id != n.peer.id && slots[0].value.dist <= n.dist
    ensures Displaces(slots, n) <==> Displaces(slots[1..], n)
  {
    var rest := slots[1..];
    if Displaces(slots, n) {
      var i, j :| 0 <= i < j < |slots| && slots[j].Some? && slots[j].value.peer.id == n.peer.id
        && (slots[i].None? || n.dist < slots[i].value.dist);
      assert rest[i - 1] == slots[i] && rest[j - 1] == slots[j];
    }
    if Displaces(rest, n) {
      var i, j :| 0 <= i < j < |rest| && rest[j].Some? && rest[j].value.peer.id == n.peer.id
        && (rest[i].None? || n.dist < rest[i].value.dist);
      assert slots[i + 1] == rest[i] && slots[j + 1] == rest[j];
    }
  }

  lemma {:induction false} OfferFrom(slots: seq<Slot>, n: Node)
    ensures forall j :: 0 <= j < |slots| ==> Offer(slots, n).0[j] == slots[j] || Offer(slots, n).0[j] == Some(n)
    decreases |slots|
  {
    if slots != [] {
      OfferFrom(slots[1..], n);
    }
  }

  /** One distance that is not the true one, and the peer counts as two storers. */
  lemma FalseDistanceRepeatsPeer() returns (slots: seq<Slot>, ns: seq<Near>)
    ensures slots == [Some(At(5, false)), Some(At(7, false))]
    ensures ns == [Near(NearAt(7).peer, 4)]
    ensures var l := Storers(OfferAll(slots, FreshAll(ns)).0); |l| == 2 && l[0].peer == l[1].peer
  {
    slots, ns := [Some(At(5, false)), Some(At(7, false))], [Near(NearAt(7).peer, 4)];
    OfferOne(slots, ns[0]);
    var l := OfferAll(slots, FreshAll(ns)).0;
    assert l == [Some(Fresh(ns[0])), Some(At(7, false))];
    assert Storers(l[1..]) == [l[1].value];
  }
}
