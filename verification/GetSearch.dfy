/**
 The search of GetValue: several workers take nodes from one list, ask them, and add the nodes they are
 told about, until one finds the value or no node is left. A step is what one worker does between two
 points where the others may run; the network answers by identifier.
 */
module GetSearch {
  import opened Wrappers
  import opened Bytes
  import opened Ids
  import opened Counting
  import opened SearchNodes
  import opened DhtPeer

  /** What searchOnePeer makes of one contact. */
  datatype Answer = Found(value: seq<byte>) | Closest(nodes: seq<Near>) | Expected | Fatal

  type Oracle = Id -> Answer

  /** `Checked` is a worker that found no result yet and goes on to take a node, `Asking` one that marked the
      node of its slot and waits for the answer; `Adding` one that still has some of the answer to add. */
  datatype Worker = Idle | Checked | Asking(at: nat) | Adding(rest: seq<Near>) | Exited

  datatype Outcome = Value(value: seq<byte>) | Failure

  datatype State = State(
    nodes: seq<Slot>,
    workers: seq<Worker>,
    res: Option<Outcome>,
    asked: seq<Id>,        // everyone contacted, in order
    failures: seq<Peer>)

  function Fresh(n: Near): Node {
    Node(n.peer, n.dist, false)
  }

  /** The node itself and what its own store is closest to. */
  function AddEach(nodes: seq<Slot>, ns: seq<Near>): (r: seq<Slot>)
    ensures (forall i :: 0 <= i < |nodes| ==> nodes[i].Some?) ==> forall i :: 0 <= i < |r| ==> r[i].Some?
  {
    if ns == [] then nodes else AddNode(AddEach(nodes, ns[..|ns| - 1]), Fresh(ns[|ns| - 1]))
  }

  function Start(self: Near, own: seq<Near>, numWorkers: nat): (s: State)
    ensures NodesOk(s)
  {
    State(AddEach([Some(Fresh(self))], own), seq(numWorkers, _ => Idle), None, [], [])
  }

  predicate Enabled(s: State, w: nat) {
    w < |s.workers| && !s.workers[w].Exited?
  }

  predicate Finished(s: State) {
    forall w :: 0 <= w < |s.workers| ==> s.workers[w].Exited?
  }

  function ToWorker(s: State, w: nat, to: Worker): State
    requires w < |s.workers|
  {
    s.(workers := s.workers[w := to])
  }

  /** One step of worker `w`. Looking for a result is one step, taking a node and marking it another. */
  function Step(oracle: Oracle, s: State, w: nat): State
    requires Enabled(s, w) && NodesOk(s)
  {
    match s.workers[w]
    case Idle =>
      ToWorker(s, w, if s.res.Some? then Exited else Checked)
    case Checked => (
      match Next(s.nodes)
      case None => ToWorker(s, w, Exited)
      case Some(i) =>
        var n := s.nodes[i].value;
        ToWorker(s, w, Asking(i)).(nodes := s.nodes[i := Some(n.(done := true))], asked := s.asked + [n.peer.id])
    )
    case Asking(at) => (
      var p := s.nodes[at].value.peer;
      match oracle(p.id)
      case Expected => ToWorker(s, w, Idle).(failures := s.failures + [p])
      case Found(v) => ToWorker(s, w, Exited).(res := if s.res.Some? then s.res else Some(Value(v)))
      case Fatal => ToWorker(s, w, Exited).(res := if s.res.Some? then s.res else Some(Failure))
      case Closest(ns) => ToWorker(s, w, Adding(ns))
    )
    case Adding(rest) =>
      if rest == [] then ToWorker(s, w, Idle)
      else ToWorker(s, w, Adding(rest[1..])).(nodes := AddNode(s.nodes, Fresh(rest[0])))
    case Exited => s
  }

  // ---------- What every step keeps ----------

  /** Every slot is filled, and workers wait for nodes of the list. */
  predicate NodesOk(s: State) {
    && (forall i :: 0 <= i < |s.nodes| ==> s.nodes[i].Some?)
    && (forall w :: 0 <= w < |s.workers| && s.workers[w].Asking? ==> s.workers[w].at < |s.nodes|)
  }

  function IdAt(nodes: seq<Slot>, i: nat): Id
    requires i < |nodes| && nodes[i].Some?
  {
    nodes[i].value.peer.id
  }

  ghost predicate Listed(nodes: seq<Slot>, id: Id) {
    exists i :: 0 <= i < |nodes| && nodes[i].Some? && nodes[i].value.peer.id == id
  }

  ghost predicate BeingAdded(s: State, id: Id) {
    exists w, k :: 0 <= w < |s.workers| && s.workers[w].Adding? && 0 <= k < |s.workers[w].rest|
                   && s.workers[w].rest[k].peer.id == id
  }

  ghost predicate BeingAsked(s: State, i: nat) {
    exists w :: 0 <= w < |s.workers| && s.workers[w] == Asking(i)
  }

  /** What a node that was asked has led to. */
  ghost predicate Settled(oracle: Oracle, s: State, id: Id) {
    match oracle(id)
    case Expected => true
    case Found(_) => s.res.Some?
    case Fatal => s.res.Some?
    case Closest(ns) => forall k :: 0 <= k < |ns| ==> Listed(s.nodes, ns[k].peer.id) || BeingAdded(s, ns[k].peer.id)
  }

  ghost predicate DifferentIds(nodes: seq<Slot>, n: nat) {
    && (forall i :: 0 <= i < |nodes| ==> nodes[i].Some? && |nodes[i].value.peer.id| == n)
    && (forall i, j :: 0 <= i < j < |nodes| ==> nodes[i].value.peer.id != nodes[j].value.peer.id)
  }

  /** The result, once there is one, comes from a node that was asked. */
  ghost predicate ResultFrom(oracle: Oracle, s: State) {
    match s.res
    case None => true
    case Some(Value(v)) => exists id :: id in s.asked && oracle(id) == Found(v)
    case Some(Failure) => exists id :: id in s.asked && oracle(id) == Fatal
  }

  /** Identifiers in answers have the length of the network's identifiers; others end the search. */
  ghost predicate WellSized(oracle: Oracle, n: nat) {
    forall id :: oracle(id).Closest? ==> forall k :: 0 <= k < |oracle(id).nodes| ==> |oracle(id).nodes[k].peer.id| == n
  }

  ghost predicate Inv(oracle: Oracle, s: State, n: nat) {
    && NodesOk(s)
    && DifferentIds(s.nodes, n)
    && (forall w, k :: 0 <= w < |s.workers| && s.workers[w].Adding? && 0 <= k < |s.workers[w].rest| ==>
          |s.workers[w].rest[k].peer.id| == n)
    && (forall w :: 0 <= w < |s.workers| && s.workers[w].Asking? ==> s.nodes[s.workers[w].at].value.done)
    && (forall i :: 0 <= i < |s.nodes| && s.nodes[i].value.done ==>
          IdAt(s.nodes, i) in s.asked && (BeingAsked(s, i) || Settled(oracle, s, IdAt(s.nodes, i))))
    && (forall id :: id in s.asked ==> Listed(s.nodes, id))
    && (forall i :: 0 <= i < |s.nodes| && !s.nodes[i].value.done ==> IdAt(s.nodes, i) !in s.asked)
    && (forall i, j :: 0 <= i < j < |s.asked| ==> s.asked[i] != s.asked[j])
    && (Finished(s) && s.res.None? ==> forall i :: 0 <= i < |s.nodes| ==> s.nodes[i].value.done)
    && ResultFrom(oracle, s)
  }

  lemma {:induction false} ContainsIsListed(nodes: seq<Slot>, id: Id)
    requires forall i :: 0 <= i < |nodes| ==> nodes[i].Some?
    ensures Contains(nodes, id) <==> Listed(nodes, id)
    decreases |nodes|
  {
    if nodes != [] {
      ContainsIsListed(nodes[1..], id);
      if Listed(nodes[1..], id) {
        var i :| 0 <= i < |nodes[1..]| && nodes[1..][i].Some? && nodes[1..][i].value.peer.id == id;
        assert nodes[i + 1].value.peer.id == id;
      }
      if Listed(nodes, id) && nodes[0].value.peer.id != id {
        var i :| 0 <= i < |nodes| && nodes[i].Some? && nodes[i].value.peer.id == id;
        assert nodes[1..][i - 1].value.peer.id == id;
      }
    }
  }

  lemma AddNodeKeeps(nodes: seq<Slot>, c: Node, n: nat)
    requires DifferentIds(nodes, n) && |c.peer.id| == n
    ensures DifferentIds(AddNode(nodes, c), n)
    ensures nodes <= AddNode(nodes, c)
    ensures Listed(AddNode(nodes, c), c.peer.id)
    ensures forall id :: Listed(nodes, id) ==> Listed(AddNode(nodes, c), id)
  {
    ContainsIsListed(nodes, c.peer.id);
    var nodes' := AddNode(nodes, c);
    if nodes' != nodes {
      assert nodes'[|nodes|].value.peer.id == c.peer.id;
    }
    forall id | Listed(nodes, id) ensures Listed(nodes', id) {
      var i :| 0 <= i < |nodes| && nodes[i].Some? && nodes[i].value.peer.id == id;
      assert nodes'[i].value.peer.id == id;
    }
  }

  lemma {:induction false} StartKeeps(nodes: seq<Slot>, ns: seq<Near>, n: nat)
    requires DifferentIds(nodes, n) && forall k :: 0 <= k < |ns| ==> |ns[k].peer.id| == n
    ensures DifferentIds(AddEach(nodes, ns), n)
    ensures forall id :: Listed(nodes, id) ==> Listed(AddEach(nodes, ns), id)
    ensures forall k :: 0 <= k < |ns| ==> Listed(AddEach(nodes, ns), ns[k].peer.id)
    decreases |ns|
  {
    if ns != [] {
      var before := ns[..|ns| - 1];
      StartKeeps(nodes, before, n);
      AddNodeKeeps(AddEach(nodes, before), Fresh(ns[|ns| - 1]), n);
      forall k | 0 <= k < |ns| ensures Listed(AddEach(nodes, ns), ns[k].peer.id) {
        if k < |ns| - 1 {
          assert ns[k] == before[k];
        }
      }
    }
  }

  /** Nothing found is lost between two states. */
  ghost predicate Forward(s: State, s': State) {
    && (forall id :: Listed(s.nodes, id) ==> Listed(s'.nodes, id))
    && (forall id :: BeingAdded(s, id) ==> BeingAdded(s', id) || Listed(s'.nodes, id))
    && (s.res.Some? ==> s'.res == s.res)
    && s.asked <= s'.asked
  }

  lemma SettledStays(oracle: Oracle, s: State, s': State, id: Id)
    requires Forward(s, s') && Settled(oracle, s, id)
    ensures Settled(oracle, s', id)
  {
    hide Listed, BeingAdded;
  }

  lemma ResultStays(oracle: Oracle, s: State, s': State)
    requires ResultFrom(oracle, s) && Forward(s, s') && s'.res == s.res
    ensures ResultFrom(oracle, s')
  {
  }

  lemma ExitKeeps(oracle: Oracle, s: State, w: nat, n: nat)
    requires Inv(oracle, s, n) && Enabled(s, w)
    requires s.workers[w].Idle? || (s.workers[w].Checked? && Next(s.nodes).None?)
    ensures Inv(oracle, Step(oracle, s, w), n)
  {
    var s' := Step(oracle, s, w);
    OtherWorkers(s, s', w);
    forall i | 0 <= i < |s'.nodes| && s'.nodes[i].value.done
      ensures BeingAsked(s', i) || Settled(oracle, s', IdAt(s'.nodes, i))
    {
      if !BeingAsked(s, i) {
        SettledStays(oracle, s, s', IdAt(s.nodes, i));
      }
    }
    ResultStays(oracle, s, s');
  }

  /** A worker that asked and added nothing changed its own entry only. */
  lemma OtherWorkers(s: State, s': State, w: nat)
    requires w < |s.workers| && !s.workers[w].Asking? && (s.workers[w].Adding? ==> s.workers[w].rest == [])
    requires |s'.workers| == |s.workers| && s'.workers == s.workers[w := s'.workers[w]]
    requires s'.res == s.res && s.asked <= s'.asked
    requires forall id :: Listed(s.nodes, id) ==> Listed(s'.nodes, id)
    ensures Forward(s, s')
    ensures forall i :: BeingAsked(s, i) ==> BeingAsked(s', i)
  {
    hide Listed;
    forall id | BeingAdded(s, id) ensures BeingAdded(s', id) {
      var v, k :| 0 <= v < |s.workers| && s.workers[v].Adding? && 0 <= k < |s.workers[v].rest| &&
            s.workers[v].rest[k].peer.id == id;
      assert s'.workers[v].rest[k].peer.id == id;
    }
    forall i | BeingAsked(s, i) ensures BeingAsked(s', i) {
      var v :| 0 <= v < |s.workers| && s.workers[v] == Asking(i);
      assert s'.workers[v] == Asking(i);
    }
  }

  lemma TakeKeeps(oracle: Oracle, s: State, w: nat, n: nat)
    requires Inv(oracle, s, n) && Enabled(s, w) && s.workers[w].Checked? && Next(s.nodes).Some?
    ensures Inv(oracle, Step(oracle, s, w), n)
  {
    hide Settled, BeingAdded, Listed, Next, Pick;
    var s' := Step(oracle, s, w);
    var at := TakenAt(oracle, s, w);
    assert s'.nodes[at].Some? && IdAt(s'.nodes, at) == IdAt(s.nodes, at);
    MarkedListed(s.nodes, s'.nodes);
    OtherWorkers(s, s', w);
    assert s'.workers[w] == Asking(at);
    forall i | 0 <= i < |s'.nodes| && s'.nodes[i].value.done
      ensures IdAt(s'.nodes, i) in s'.asked && (BeingAsked(s', i) || Settled(oracle, s', IdAt(s'.nodes, i)))
    {
      if i != at && !BeingAsked(s, i) {
        SettledStays(oracle, s, s', IdAt(s.nodes, i));
      }
    }
    ListedAt(s'.nodes, at);
    ResultStays(oracle, s, s');
  }

  /** Which node a worker takes, and what that changes. */
  lemma TakenAt(oracle: Oracle, s: State, w: nat) returns (at: nat)
    requires NodesOk(s) && Enabled(s, w) && s.workers[w].Checked? && Next(s.nodes).Some?
    ensures at < |s.nodes| && Unsearched(s.nodes[at])
    ensures var n := s.nodes[at].value;
            Step(oracle, s, w) == s.(workers := s.workers[w := Asking(at)],
              nodes := s.nodes[at := Some(n.(done := true))],
                                     asked := s.asked + [n.peer.id])
  {
    at := Next(s.nodes).value;
  }

  lemma ListedAt(nodes: seq<Slot>, i: nat)
    requires i < |nodes| && nodes[i].Some?
    ensures Listed(nodes, IdAt(nodes, i))
  {
  }

  lemma MarkedListed(nodes: seq<Slot>, nodes': seq<Slot>)
    requires |nodes'| >= |nodes|
    requires forall i :: 0 <= i < |nodes| && nodes[i].Some? ==>
               nodes'[i].Some? && nodes'[i].value.peer == nodes[i].value.peer
    ensures forall id :: Listed(nodes, id) ==> Listed(nodes', id)
  {
    forall id | Listed(nodes, id) ensures Listed(nodes', id) {
      var i :| 0 <= i < |nodes| && nodes[i].Some? && nodes[i].value.peer.id == id;
      assert nodes'[i].value.peer.id == id;
    }
  }

  lemma AnswerKeeps(oracle: Oracle, s: State, w: nat, n: nat)
    requires Inv(oracle, s, n) && Enabled(s, w) && s.workers[w].Asking? && WellSized(oracle, n)
    ensures Inv(oracle, Step(oracle, s, w), n)
  {
    var at := s.workers[w].at;
    var id := IdAt(s.nodes, at);
    var s' := Step(oracle, s, w);
    AnswerForward(oracle, s, w);
    AnswerSettles(oracle, s, w);
    forall i | 0 <= i < |s'.nodes| && s'.nodes[i].value.done
      ensures BeingAsked(s', i) || Settled(oracle, s', IdAt(s'.nodes, i))
    {
      if i != at {
        if BeingAsked(s, i) {
          var v :| 0 <= v < |s.workers| && s.workers[v] == Asking(i);
          assert s'.workers[v] == Asking(i);
        } else {
          SettledStays(oracle, s, s', IdAt(s.nodes, i));
        }
      }
    }
    assert Finished(s') ==> s'.res.Some? by {
      assert s'.workers[w].Exited? ==> s'.res.Some?;
    }
    assert id in s.asked;
  }

  lemma AnswerForward(oracle: Oracle, s: State, w: nat)
    requires NodesOk(s) && Enabled(s, w) && s.workers[w].Asking?
    ensures var s' := Step(oracle, s, w); Forward(s, s') && s'.nodes == s.nodes && s'.asked == s.asked
  {
    var s' := Step(oracle, s, w);
    forall id | BeingAdded(s, id) ensures BeingAdded(s', id) {
      var v, k :| 0 <= v < |s.workers| && s.workers[v].Adding? && 0 <= k < |s.workers[v].rest| &&
            s.workers[v].rest[k].peer.id == id;
      assert s'.workers[v].rest[k].peer.id == id;
    }
  }

  lemma AnswerSettles(oracle: Oracle, s: State, w: nat)
    requires NodesOk(s) && Enabled(s, w) && s.workers[w].Asking?
    ensures Settled(oracle, Step(oracle, s, w), IdAt(s.nodes, s.workers[w].at))
  {
    var id, s' := IdAt(s.nodes, s.workers[w].at), Step(oracle, s, w);
    if oracle(id).Closest? {
      var ns := oracle(id).nodes;
      assert s'.workers[w] == Adding(ns);
      forall k | 0 <= k < |ns| ensures BeingAdded(s', ns[k].peer.id) {
        assert s'.workers[w].rest[k] == ns[k];
      }
    }
  }

  lemma AddKeeps(oracle: Oracle, s: State, w: nat, n: nat)
    requires Inv(oracle, s, n) && Enabled(s, w) && s.workers[w].Adding?
    ensures Inv(oracle, Step(oracle, s, w), n)
  {
    hide Listed, BeingAdded, AddNode, Contains, Settled;
    var rest, s' := s.workers[w].rest, Step(oracle, s, w);
    if rest != [] {
      AddNodeKeeps(s.nodes, Fresh(rest[0]), n);
      AddNodeLast(s.nodes, Fresh(rest[0]));
      AddForward(s, s', w);
      NewIsUnasked(s, s'.nodes, n);
    } else {
      OtherWorkers(s, s', w);
    }
    forall i | 0 <= i < |s'.nodes| && s'.nodes[i].value.done
      ensures IdAt(s'.nodes, i) in s'.asked && (BeingAsked(s', i) || Settled(oracle, s', IdAt(s'.nodes, i)))
    {
      assert i < |s.nodes| && s'.nodes[i] == s.nodes[i];
      if !BeingAsked(s, i) {
        SettledStays(oracle, s, s', IdAt(s.nodes, i));
      }
    }
    assert !Finished(s') by { assert !s'.workers[w].Exited?; }
    ResultStays(oracle, s, s');
  }

  lemma AddNodeLast(nodes: seq<Slot>, c: Node)
    ensures AddNode(nodes, c) == nodes || AddNode(nodes, c) == nodes + [Some(c)]
  {
  }

  lemma NewIsUnasked(s: State, nodes': seq<Slot>, n: nat)
    requires DifferentIds(nodes', n) && s.nodes <= nodes'
    requires forall id :: id in s.asked ==> Listed(s.nodes, id)
    ensures forall i :: |s.nodes| <= i < |nodes'| ==> IdAt(nodes', i) !in s.asked
  {
    forall i | |s.nodes| <= i < |nodes'| ensures IdAt(nodes', i) !in s.asked {
      assert forall j :: 0 <= j < |s.nodes| ==>
               s.nodes[j] == nodes'[j] && nodes'[j].value.peer.id != nodes'[i].value.peer.id;
      assert !Listed(s.nodes, IdAt(nodes', i));
    }
  }

  lemma AddForward(s: State, s': State, w: nat)
    requires w < |s.workers| && s.workers[w].Adding? && s.workers[w].rest != []
    requires s'.workers == s.workers[w := Adding(s.workers[w].rest[1..])] && s'.res == s.res && s'.asked == s.asked
    requires forall id :: Listed(s.nodes, id) ==> Listed(s'.nodes, id)
    requires Listed(s'.nodes, s.workers[w].rest[0].peer.id)
    ensures Forward(s, s')
    ensures forall i :: BeingAsked(s, i) ==> BeingAsked(s', i)
  {
    hide Listed;
    forall id | BeingAdded(s, id) ensures BeingAdded(s', id) || Listed(s'.nodes, id) {
      var v, k :| 0 <= v < |s.workers| && s.workers[v].Adding? && 0 <= k < |s.workers[v].rest| &&
            s.workers[v].rest[k].peer.id == id;
      if v != w {
        assert s'.workers[v].rest[k].peer.id == id;
      } else if k > 0 {
        assert s'.workers[w].rest[k - 1].peer.id == id;
      }
    }
    forall i | BeingAsked(s, i) ensures BeingAsked(s', i) {
      var v :| 0 <= v < |s.workers| && s.workers[v] == Asking(i);
      assert s'.workers[v] == Asking(i);
    }
  }

  /** Every step of every worker keeps the invariant. */
  lemma StepKeeps(oracle: Oracle, s: State, w: nat, n: nat)
    requires Inv(oracle, s, n) && Enabled(s, w) && WellSized(oracle, n)
    ensures Inv(oracle, Step(oracle, s, w), n)
  {
    match s.workers[w]
    case Idle => ExitKeeps(oracle, s, w, n);
    case Checked =>
      if Next(s.nodes).None? {
        ExitKeeps(oracle, s, w, n);
      } else {
        TakeKeeps(oracle, s, w, n);
      }
    case Asking(_) => AnswerKeeps(oracle, s, w, n);
    case Adding(_) => AddKeeps(oracle, s, w, n);
  }

  // ---------- Whole runs ----------

  /** A run: at every point the schedule names the worker to take a step; one that has ended does nothing. */
  function Exec(oracle: Oracle, start: State, schedule: seq<nat>): (s: State)
    requires NodesOk(start)
    ensures NodesOk(s)
    decreases |schedule|
  {
    if schedule == [] then start
    else
      var s := Exec(oracle, start, schedule[..|schedule| - 1]);
      var w := schedule[|schedule| - 1];
      if Enabled(s, w) then StepNodesOk(oracle, s, w); Step(oracle, s, w) else s
  }

  lemma StepNodesOk(oracle: Oracle, s: State, w: nat)
    requires NodesOk(s) && Enabled(s, w)
    ensures NodesOk(Step(oracle, s, w))
  {
  }

  /** A search of a node for a key it does not hold: what its own store is closest to, and its workers. */
  ghost predicate GoodStart(self: Near, own: seq<Near>, numWorkers: nat, n: nat) {
    && numWorkers > 0
    && |self.peer.id| == n
    && forall k :: 0 <= k < |own| ==> |own[k].peer.id| == n
  }

  predicate AllFresh(nodes: seq<Slot>) {
    forall i :: 0 <= i < |nodes| ==> nodes[i].Some? && !nodes[i].value.done
  }

  lemma {:induction false} NothingDoneYet(nodes: seq<Slot>, ns: seq<Near>)
    requires AllFresh(nodes)
    ensures AllFresh(AddEach(nodes, ns))
    decreases |ns|
  {
    if ns != [] {
      var before := AddEach(nodes, ns[..|ns| - 1]);
      NothingDoneYet(nodes, ns[..|ns| - 1]);
      assert AddEach(nodes, ns) == AddNode(before, Fresh(ns[|ns| - 1]));
    }
  }

  lemma StartInv(oracle: Oracle, self: Near, own: seq<Near>, numWorkers: nat, n: nat)
    requires GoodStart(self, own, numWorkers, n)
    ensures Inv(oracle, Start(self, own, numWorkers), n) && AllSized(Start(self, own, numWorkers), n)
    ensures Listed(Start(self, own, numWorkers).nodes, self.peer.id)
    ensures forall k :: 0 <= k < |own| ==> Listed(Start(self, own, numWorkers).nodes, own[k].peer.id)
  {
    var first := [Some(Fresh(self))];
    assert first[0].value.peer.id == self.peer.id;
    StartKeeps(first, own, n);
    NothingDoneYet(first, own);
    assert AllFresh(Start(self, own, numWorkers).nodes);
    assert !Start(self, own, numWorkers).workers[0].Exited?;
  }

  lemma {:induction false} ExecInv(oracle: Oracle, start: State, schedule: seq<nat>, n: nat)
    requires NodesOk(start) && Inv(oracle, start, n) && WellSized(oracle, n)
    ensures Inv(oracle, Exec(oracle, start, schedule), n)
    ensures forall id :: Listed(start.nodes, id) ==> Listed(Exec(oracle, start, schedule).nodes, id)
    decreases |schedule|
  {
    hide Inv, Listed, Step, WellSized;
    if schedule != [] {
      var before, w := schedule[..|schedule| - 1], schedule[|schedule| - 1];
      ExecInv(oracle, start, before, n);
      var s := Exec(oracle, start, before);
      if Enabled(s, w) {
        StepKeeps(oracle, s, w, n);
        StepKeepsListed(oracle, s, w, n);
      }
    }
  }

  lemma StepKeepsListed(oracle: Oracle, s: State, w: nat, n: nat)
    requires Inv(oracle, s, n) && Enabled(s, w)
    ensures forall id :: Listed(s.nodes, id) ==> Listed(Step(oracle, s, w).nodes, id)
  {
    hide Contains, Pick;
    MarkedListed(s.nodes, Step(oracle, s, w).nodes);
  }

  // ---------- Exhaustive ----------

  ghost predicate Tells(oracle: Oracle, from: Id, to: Id) {
    oracle(from).Closest? && exists k :: 0 <= k < |oracle(from).nodes| && oracle(from).nodes[k].peer.id == to
  }

  /** Each peer of the path responds with the next one among its closest. */
  ghost predicate Path(oracle: Oracle, p: seq<Id>) {
    p != [] && forall i :: 0 <= i < |p| - 1 ==> Tells(oracle, p[i], p[i + 1])
  }

  ghost predicate Reachable(oracle: Oracle, self: Near, own: seq<Near>, id: Id) {
    exists p: seq<Id> :: Path(oracle, p) && p[|p| - 1] == id
                         && (p[0] == self.peer.id || exists k :: 0 <= k < |own| && own[k].peer.id == p[0])
  }

  /** When all workers stopped without a result, the list is closed: everyone on it was asked, had neither
      the value nor a fatal answer, and everyone they told about is on it. */
  lemma StoppedIsClosed(oracle: Oracle, s: State, n: nat, id: Id)
    requires Inv(oracle, s, n) && Finished(s) && s.res.None? && Listed(s.nodes, id)
    ensures id in s.asked && !oracle(id).Found? && !oracle(id).Fatal?
    ensures forall to :: Tells(oracle, id, to) ==> Listed(s.nodes, to)
  {
    var i :| 0 <= i < |s.nodes| && s.nodes[i].Some? && s.nodes[i].value.peer.id == id;
    assert !BeingAsked(s, i);
    assert Settled(oracle, s, id);
    forall to | Tells(oracle, id, to) ensures Listed(s.nodes, to) {
      assert !BeingAdded(s, to);
    }
  }

  lemma {:induction false} PathIsListed(oracle: Oracle, s: State, n: nat, p: seq<Id>)
    requires Inv(oracle, s, n) && Finished(s) && s.res.None?
    requires Path(oracle, p) && Listed(s.nodes, p[0])
    ensures Listed(s.nodes, p[|p| - 1])
    decreases |p|
  {
    hide Inv, Listed, Tells;
    if |p| > 1 {
      var q := p[..|p| - 1];
      forall i | 0 <= i < |q| - 1 ensures Tells(oracle, q[i], q[i + 1]) {
        assert Tells(oracle, p[i], p[i + 1]);
      }
      PathIsListed(oracle, s, n, q);
      StoppedIsClosed(oracle, s, n, q[|q| - 1]);
      assert Tells(oracle, p[|p| - 2], p[|p| - 2 + 1]);
    }
  }

  /** Get is exhaustive under every interleaving of its workers: if all of them stopped and there is no
      result, every peer reachable through the answers was asked, and none of them held the value. */
  lemma {:induction false} GetIsExhaustive(oracle: Oracle, self: Near, own: seq<Near>, numWorkers: nat, n: nat,
      schedule: seq<nat>, id: Id)
    requires GoodStart(self, own, numWorkers, n) && WellSized(oracle, n)
    requires var s := Exec(oracle, Start(self, own, numWorkers), schedule); Finished(s) && s.res.None?
    requires Reachable(oracle, self, own, id)
    ensures id in Exec(oracle, Start(self, own, numWorkers), schedule).asked
    ensures !oracle(id).Found? && !oracle(id).Fatal?
  {
    hide Inv, Listed, Tells, WellSized;
    var start := Start(self, own, numWorkers);
    StartInv(oracle, self, own, numWorkers, n);
    ExecInv(oracle, start, schedule, n);
    var s := Exec(oracle, start, schedule);
    var p: seq<Id> :| Path(oracle, p) && p[|p| - 1] == id
                      && (p[0] == self.peer.id || exists k :: 0 <= k < |own| && own[k].peer.id == p[0]);
    PathIsListed(oracle, s, n, p);
    StoppedIsClosed(oracle, s, n, id);
  }

  /** A result of a finished search is the value, or the fatal answer, of a peer that was asked. */
  lemma {:induction false} ResultComesFromAPeer(oracle: Oracle, self: Near, own: seq<Near>, numWorkers: nat, n: nat,
      schedule: seq<nat>)
    requires GoodStart(self, own, numWorkers, n) && WellSized(oracle, n)
    ensures ResultFrom(oracle, Exec(oracle, Start(self, own, numWorkers), schedule))
  {
    StartInv(oracle, self, own, numWorkers, n);
    ExecInv(oracle, Start(self, own, numWorkers), schedule, n);
  }

  /** When all workers have stopped without a result, nobody that was asked had one. */
  lemma {:induction false} NoResultNoAnswer(oracle: Oracle, self: Near, own: seq<Near>, numWorkers: nat, n: nat,
      schedule: seq<nat>)
    requires GoodStart(self, own, numWorkers, n) && WellSized(oracle, n)
    ensures var s := Exec(oracle, Start(self, own, numWorkers), schedule);
            Finished(s) && s.res.None? ==> forall id :: id in s.asked ==> !oracle(id).Found? && !oracle(id).Fatal?
  {
    hide Start, WellSized, Tells;
    StartInv(oracle, self, own, numWorkers, n);
    ExecInv(oracle, Start(self, own, numWorkers), schedule, n);
    var s := Exec(oracle, Start(self, own, numWorkers), schedule);
    if Finished(s) && s.res.None? {
      forall id | id in s.asked ensures !oracle(id).Found? && !oracle(id).Fatal? {
        StoppedIsClosed(oracle, s, n, id);
      }
    }
  }

  /** The failures are the contacts that failed, of peers that were asked. */
  ghost predicate FailuresOk(oracle: Oracle, s: State) {
    && (forall p :: p in s.failures ==> p.id in s.asked && oracle(p.id) == Expected)
    && (forall w :: 0 <= w < |s.workers| && s.workers[w].Asking? ==>
          s.workers[w].at < |s.nodes| && s.nodes[s.workers[w].at].Some? && IdAt(s.nodes, s.workers[w].at) in s.asked)
    && (forall id :: id in s.asked && oracle(id) == Expected ==>
          (exists p :: p in s.failures && p.id == id) || exists i :: BeingAskedAt(s, id, i))
  }

  ghost predicate BeingAskedAt(s: State, id: Id, w: nat) {
    w < |s.workers| && s.workers[w].Asking? && s.workers[w].at < |s.nodes| && s.nodes[s.workers[w].at].Some? &&
    IdAt(s.nodes, s.workers[w].at) == id
  }

  /** Nodes stay in their slots, and a step changes one worker. */
  lemma NodesStay(oracle: Oracle, s: State, w: nat)
    requires NodesOk(s) && Enabled(s, w)
    ensures var s' := Step(oracle, s, w);
            && |s.nodes| <= |s'.nodes| && s'.workers == s.workers[w := s'.workers[w]]
            && (forall i :: 0 <= i < |s.nodes| ==> s'.nodes[i].Some? && IdAt(s'.nodes, i) == IdAt(s.nodes, i))
            && s.asked <= s'.asked && s.failures <= s'.failures
  {
    hide Next, Contains;
  }

  /** Whom a step asks, and whose failure it records. */
  lemma StepAsks(oracle: Oracle, s: State, w: nat)
    requires NodesOk(s) && Enabled(s, w)
    ensures var s' := Step(oracle, s, w);
            && (s'.workers[w].Asking? ==>
                  && s'.workers[w].at < |s'.nodes| && s'.nodes[s'.workers[w].at].Some?
                  && s'.asked == s.asked + [IdAt(s'.nodes, s'.workers[w].at)])
            && (!s'.workers[w].Asking? ==> s'.asked == s.asked)
            && s'.failures == s.failures +
                 if s.workers[w].Asking? && oracle(IdAt(s.nodes, s.workers[w].at)) == Expected
                 then [s.nodes[s.workers[w].at].value.peer] else []
  {
    hide Next, AddNode;
  }

  lemma FailuresStay(oracle: Oracle, s: State, w: nat)
    requires NodesOk(s) && Enabled(s, w) && FailuresOk(oracle, s)
    ensures FailuresOk(oracle, Step(oracle, s, w))
  {
    hide Step;
    var s' := Step(oracle, s, w);
    NodesStay(oracle, s, w);
    StepAsks(oracle, s, w);
    forall id | id in s'.asked && oracle(id) == Expected
      ensures (exists p :: p in s'.failures && p.id == id) || exists i :: BeingAskedAt(s', id, i)
    {
      if id !in s.asked {
        assert BeingAskedAt(s', id, w);
      } else if p :| p in s.failures && p.id == id {
        assert p in s'.failures;
      } else {
        var v :| BeingAskedAt(s, id, v);
        if v != w {
          assert BeingAskedAt(s', id, v);
        } else {
          assert s'.failures[|s.failures|].id == id;
        }
      }
    }
  }

  /** When all workers have stopped, the failures are exactly those of the contacted peers that did not answer. */
  lemma {:induction false} FailuresAre(oracle: Oracle, self: Near, own: seq<Near>, numWorkers: nat,
      schedule: seq<nat>)
    ensures FailuresOk(oracle, Exec(oracle, Start(self, own, numWorkers), schedule))
    ensures var s := Exec(oracle, Start(self, own, numWorkers), schedule);
            Finished(s) ==> forall id :: (exists p :: p in s.failures && p.id == id) <==>
                                         id in s.asked && oracle(id) == Expected
    decreases |schedule|
  {
    hide Step;
    if schedule != [] {
      var before, w := schedule[..|schedule| - 1], schedule[|schedule| - 1];
      FailuresAre(oracle, self, own, numWorkers, before);
      var s := Exec(oracle, Start(self, own, numWorkers), before);
      if Enabled(s, w) {
        FailuresStay(oracle, s, w);
      }
    }
  }

  // ---------- Who is still contacted ----------

  /** How often in the course of a run it is worker `w` that contacts somebody. */
  function Contacts(oracle: Oracle, start: State, schedule: seq<nat>, w: nat): nat
    requires NodesOk(start)
    decreases |schedule|
  {
    if schedule == [] then 0
    else
      var before, v := schedule[..|schedule| - 1], schedule[|schedule| - 1];
      Contacts(oracle, start, before, w) +
      if v == w && |Exec(oracle, start, schedule).asked| > |Exec(oracle, start, before).asked| then 1 else 0
  }

  const CHECKED: Worker -> nat := (w: Worker) => if w.Checked? then 1 else 0

  lemma StepContacts(oracle: Oracle, s: State, w: nat)
    requires NodesOk(s) && Enabled(s, w) && s.res.Some?
    ensures var s' := Step(oracle, s, w);
            && s'.res == s.res && s'.workers == s.workers[w := s'.workers[w]] && !s'.workers[w].Checked?
            && s.asked <= s'.asked
            && |s'.asked| == |s.asked| + if s.workers[w].Checked? && Next(s.nodes).Some? then 1 else 0
  {
    hide Next, AddNode;
  }

  /** The first result stands. From then on each worker that was already past its look for a result contacts at
      most one more peer, and nobody else contacts anyone, however the workers go on. */
  lemma {:induction false} ResultEndsSearch(oracle: Oracle, s: State, schedule: seq<nat>)
    requires NodesOk(s) && s.res.Some?
    ensures var s' := Exec(oracle, s, schedule);
            && s'.res == s.res && |s'.workers| == |s.workers| && s.asked <= s'.asked
            && |s'.asked| + Count(s'.workers, CHECKED) <= |s.asked| + Count(s.workers, CHECKED)
            && forall w :: 0 <= w < |s.workers| ==>
                 Contacts(oracle, s, schedule, w) + CHECKED(s'.workers[w]) <= CHECKED(s.workers[w])
    decreases |schedule|
  {
    hide NodesOk, Step, Count;
    if schedule != [] {
      var before, v := schedule[..|schedule| - 1], schedule[|schedule| - 1];
      ResultEndsSearch(oracle, s, before);
      var s1 := Exec(oracle, s, before);
      if Enabled(s1, v) {
        StepContacts(oracle, s1, v);
        CountUpdate(s1.workers, CHECKED, v, Step(oracle, s1, v).workers[v]);
      }
    }
  }

  lemma {:induction false} ExecMore(oracle: Oracle, start: State, before: seq<nat>, w: nat)
    requires NodesOk(start)
    ensures var s := Exec(oracle, start, before);
            Exec(oracle, start, before + [w]) == if Enabled(s, w) then Step(oracle, s, w) else s
    ensures Exec(oracle, start, []) == start
  {
    assert (before + [w])[..|before|] == before;
  }

  lemma {:induction false} CountSome(workers: seq<Worker>) returns (w: nat)
    requires Count(workers, CHECKED) > 0
    ensures w < |workers| && workers[w].Checked?
    decreases |workers|
  {
    w := 0;
    if !workers[0].Checked? {
      var v := CountSome(workers[1..]);
      w := v + 1;
    }
  }

  lemma {:induction false} UndoneSome(nodes: seq<Slot>) returns (i: nat)
    requires Undone(nodes) > 0
    ensures i < |nodes| && Unsearched(nodes[i])
    decreases |nodes|
  {
    i := 0;
    if !Unsearched(nodes[0]) {
      var j := UndoneSome(nodes[1..]);
      i := j + 1;
    }
  }

  /** They may do so: as long as nodes are left, all the workers past their look contact one more peer each. */
  lemma {:induction false} CheckedMayContact(oracle: Oracle, start: State, before: seq<nat>)
    returns (schedule: seq<nat>)
    requires NodesOk(start)
    ensures before <= schedule
    ensures var s, s' := Exec(oracle, start, before), Exec(oracle, start, schedule);
            |s'.asked| == |s.asked| + Min(Count(s.workers, CHECKED), Undone(s.nodes))
    decreases Undone(Exec(oracle, start, before).nodes)
  {
    hide NodesOk, Step, Count, Undone, Next;
    schedule := before;
    var s := Exec(oracle, start, before);
    if Count(s.workers, CHECKED) > 0 && Undone(s.nodes) > 0 {
      var w := CountSome(s.workers);
      var at := CheckedTakes(oracle, s, w);
      var s1 := Step(oracle, s, w);
      ExecMore(oracle, start, before, w);
      CountUpdate(s.workers, CHECKED, w, Asking(at));
      MarkUndone(s.nodes, at, Some(s.nodes[at].value.(done := true)));
      schedule := CheckedMayContact(oracle, start, before + [w]);
    }
  }

  lemma CheckedTakes(oracle: Oracle, s: State, w: nat) returns (at: nat)
    requires NodesOk(s) && Enabled(s, w) && s.workers[w].Checked? && Undone(s.nodes) > 0
    ensures at < |s.nodes| && Unsearched(s.nodes[at])
    ensures var n := s.nodes[at].value;
            Step(oracle, s, w) == s.(workers := s.workers[w := Asking(at)],
              nodes := s.nodes[at := Some(n.(done := true))],
                                     asked := s.asked + [n.peer.id])
  {
    hide Step, Undone;
    var i := UndoneSome(s.nodes);
    assert Next(s.nodes).Some?;
    at := TakenAt(oracle, s, w);
  }

  /** So it is not true that nobody is contacted any more: of two workers one is past its look when the other
      finds the value at `b`, and contacts `a` all the same. */
  lemma ContactAfterResult(oracle: Oracle, a: Near, b: Near, numWorkers: nat)
    requires a.peer.id != b.peer.id && a.dist < b.dist && oracle(b.peer.id).Found? && numWorkers >= 2
    ensures var start := Start(a, [b], numWorkers);
            && Exec(oracle, start, [0, 1, 1, 1]).res.Some? && Exec(oracle, start, [0, 1, 1, 1]).asked == [b.peer.id]
            && Exec(oracle, start, [0, 1, 1, 1, 0]).asked == [b.peer.id, a.peer.id]
  {
    hide Exec, Step, Start;
    var start := Start(a, [b], numWorkers);
    StartOfTwo(a, b, numWorkers);
    assert [] + [0] == [0] && [0] + [1] == [0, 1] && [0, 1] + [1] == [0, 1, 1];
    assert [0, 1, 1] + [1] == [0, 1, 1, 1] && [0, 1, 1, 1] + [0] == [0, 1, 1, 1, 0];
    ExecMore(oracle, start, [], 0);
    ExecMore(oracle, start, [0], 1);
    ExecMore(oracle, start, [0, 1], 1);
    ExecMore(oracle, start, [0, 1, 1], 1);
    ExecMore(oracle, start, [0, 1, 1, 1], 0);
    BothLook(oracle, start);
    OneFinds(oracle, Exec(oracle, start, [0, 1]), a, b);
    OtherContacts(oracle, Exec(oracle, start, [0, 1, 1, 1]), a, b);
  }

  lemma StartOfTwo(a: Near, b: Near, numWorkers: nat)
    requires a.peer.id != b.peer.id
    ensures Start(a, [b], numWorkers)
         == State([Some(Fresh(a)), Some(Fresh(b))], seq(numWorkers, _ => Idle), None, [], [])
  {
    var first := [Some(Fresh(a))];
    assert [b][..0] == [] && first[1..] == [];
    assert AddEach(first, [b]) == AddNode(AddEach(first, []), Fresh(b));
    assert !Contains(first, b.peer.id);
  }

  lemma BothLook(oracle: Oracle, s: State)
    requires NodesOk(s) && |s.workers| >= 2 && s.workers[0] == s.workers[1] == Idle && s.res.None?
    ensures var s1 := Step(oracle, s, 0);
            && s1 == s.(workers := s.workers[0 := Checked])
            && Step(oracle, s1, 1) == s.(workers := s.workers[0 := Checked][1 := Checked])
  {
    hide Next;
  }

  lemma OneFinds(oracle: Oracle, s: State, a: Near, b: Near)
    requires NodesOk(s) && s.nodes == [Some(Fresh(a)), Some(Fresh(b))] && a.dist < b.dist && oracle(b.peer.id).Found?
    requires |s.workers| >= 2 && s.workers[0] == s.workers[1] == Checked && s.res.None? && s.asked == []
    ensures var s1 := Step(oracle, s, 1);
            && Enabled(s1, 1) && NodesOk(s1)
            && var s2 := Step(oracle, s1, 1);
               && s2.res.Some? && s2.asked == [b.peer.id] && s2.workers[0] == Checked && |s2.workers| == |s.workers|
               && s2.nodes == [Some(Fresh(a)), Some(Fresh(b).(done := true))]
  {
    hide Pick;
    assert s.nodes[1] == Some(Fresh(b)) && Unsearched(s.nodes[1]);
    assert Next(s.nodes) == Some(1);
    assert s.nodes[1 := Some(Fresh(b).(done := true))] == [Some(Fresh(a)), Some(Fresh(b).(done := true))];
  }

  lemma OtherContacts(oracle: Oracle, s: State, a: Near, b: Near)
    requires NodesOk(s) && s.nodes == [Some(Fresh(a)), Some(Fresh(b).(done := true))]
    requires |s.workers| >= 1 && s.workers[0] == Checked && s.asked == [b.peer.id]
    ensures Step(oracle, s, 0).asked == [b.peer.id, a.peer.id]
  {
    hide Pick;
    assert Unsearched(s.nodes[0]) && !Unsearched(s.nodes[1]);
    assert Next(s.nodes) == Some(0);
  }

  /** Nobody is asked twice. */
  lemma {:induction false} AskedOnce(oracle: Oracle, self: Near, own: seq<Near>, numWorkers: nat, n: nat,
      schedule: seq<nat>)
    requires GoodStart(self, own, numWorkers, n) && WellSized(oracle, n)
    ensures var asked := Exec(oracle, Start(self, own, numWorkers), schedule).asked;
            && (forall i, j :: 0 <= i < j < |asked| ==> asked[i] != asked[j])
            && |asked| <= Pow256(n)
  {
    StartInv(oracle, self, own, numWorkers, n);
    ExecInv(oracle, Start(self, own, numWorkers), schedule, n);
    var s := Exec(oracle, Start(self, own, numWorkers), schedule);
    forall i | 0 <= i < |s.asked| ensures |s.asked[i]| == n {
      assert s.asked[i] in s.asked;
    }
    DistinctIdsBounded(s.asked, n);
  }

  // ---------- Termination ----------

  function Undone(nodes: seq<Slot>): nat {
    if nodes == [] then 0 else (if Unsearched(nodes[0]) then 1 else 0) + Undone(nodes[1..])
  }

  lemma {:induction false} MarkUndone(nodes: seq<Slot>, i: nat, to: Slot)
    requires i < |nodes| && Unsearched(nodes[i]) && !Unsearched(to)
    ensures Undone(nodes[i := to]) + 1 == Undone(nodes)
    decreases |nodes|
  {
    if i > 0 {
      MarkUndone(nodes[1..], i - 1, to);
      assert nodes[i := to][1..] == nodes[1..][i - 1 := to];
    } else {
      assert nodes[i := to][1..] == nodes[1..];
    }
  }

  const WAITING: Worker -> nat := (w: Worker) => if w.Asking? then 1 else 0
  const PENDING: Worker -> nat := (w: Worker) => if w.Adding? then |w.rest| + 1 else 0
  const LIVE: Worker -> nat := (w: Worker) => if w.Exited? then 0 else if w.Checked? then 1 else 2

  /** Identifiers of `n` bytes not yet on the list. */
  ghost function Unknown(s: State, n: nat): int {
    Pow256(n) - |s.nodes|
  }

  lemma {:induction false} ListBounded(nodes: seq<Slot>, n: nat)
    requires DifferentIds(nodes, n)
    ensures |nodes| <= Pow256(n)
  {
    var ids := seq(|nodes|, i requires 0 <= i < |nodes| => IdAt(nodes, i));
    DistinctIdsBounded(ids, n);
  }

  /** Every step brings the search closer to its end: it adds a new identifier, or takes a node, or gets an
      answer, or has less to add, or a worker looks for the result or stops. */
  ghost predicate Progress(s: State, s': State) {
    || |s.nodes| < |s'.nodes|
    || (|s.nodes| == |s'.nodes| &&
        (|| Undone(s'.nodes) < Undone(s.nodes)
         || (Undone(s'.nodes) == Undone(s.nodes) &&
             (|| Count(s'.workers, WAITING) < Count(s.workers, WAITING)
              || (Count(s'.workers, WAITING) == Count(s.workers, WAITING) &&
                  (|| Count(s'.workers, PENDING) < Count(s.workers, PENDING)
                   || (Count(s'.workers, PENDING) == Count(s.workers, PENDING) &&
                       Count(s'.workers, LIVE) < Count(s.workers, LIVE))))))))
  }

  lemma StepProgress(oracle: Oracle, s: State, w: nat)
    requires NodesOk(s) && Enabled(s, w)
    ensures Progress(s, Step(oracle, s, w))
  {
    hide Contains, Next, Pick, Picked, Count, Undone;
    var to := Step(oracle, s, w).workers[w];
    CountUpdate(s.workers, WAITING, w, to);
    CountUpdate(s.workers, PENDING, w, to);
    CountUpdate(s.workers, LIVE, w, to);
    if s.workers[w].Checked? && Next(s.nodes).Some? {
      TakenIsUnsearched(s.nodes);
      var i := Next(s.nodes).value;
      MarkUndone(s.nodes, i, Some(s.nodes[i].value.(done := true)));
    }
  }

  lemma TakenIsUnsearched(nodes: seq<Slot>)
    ensures Next(nodes).Some? ==> Next(nodes).value < |nodes| && Unsearched(nodes[Next(nodes).value])
  {
  }

  ghost predicate Follows(oracle: Oracle, s: State, w: nat, s': State) {
    Finished(s) || (Enabled(s, w) && NodesOk(s) && s' == Step(oracle, s, w))
  }

  /** All identifiers are of `n` bytes, and those on the list are different. */
  ghost predicate AllSized(s: State, n: nat) {
    && NodesOk(s)
    && DifferentIds(s.nodes, n)
    && forall w, k :: 0 <= w < |s.workers| && s.workers[w].Adding? && 0 <= k < |s.workers[w].rest| ==>
         |s.workers[w].rest[k].peer.id| == n
  }

  lemma AllSizedStays(oracle: Oracle, s: State, w: nat, n: nat)
    requires AllSized(s, n) && Enabled(s, w) && WellSized(oracle, n)
    ensures AllSized(Step(oracle, s, w), n)
  {
    hide Next, Contains, AddNode, Listed;
    if s.workers[w].Adding? && s.workers[w].rest != [] {
      AddNodeKeeps(s.nodes, Fresh(s.workers[w].rest[0]), n);
    }
    StepNodesOk(oracle, s, w);
  }

  /** Get terminates: no schedule goes on for ever picking workers that have not stopped, even if the peers
      change their answers from step to step. */
  lemma {:induction false} GetTerminates(oracles: nat -> Oracle, run: nat -> State, schedule: nat -> nat, n: nat,
      i: nat) returns (end: nat)
    requires (forall j: nat :: WellSized(oracles(j), n)) && AllSized(run(i), n)
    requires forall j: nat :: Follows(oracles(j), run(j), schedule(j), run(j + 1))
    ensures i <= end && Finished(run(end))
    decreases Unknown(run(i), n), Undone(run(i).nodes), Count(run(i).workers, WAITING),
                Count(run(i).workers, PENDING), Count(run(i).workers, LIVE)
  {
    hide WellSized, Step, DifferentIds, Finished;
    end := i;
    if !Finished(run(i)) {
      assert Follows(oracles(i), run(i), schedule(i), run(i + 1));
      AllSizedStays(oracles(i), run(i), schedule(i), n);
      StepProgress(oracles(i), run(i), schedule(i));
      ListBounded(run(i).nodes, n);
      ListBounded(run(i + 1).nodes, n);
      end := GetTerminates(oracles, run, schedule, n, i + 1);
    }
  }
}
