/**
 The demultiplexer of transport/multiuse/conn_muxer.go: payloads of any number of connections arrive on one
 connection and are appended to the queue of the connection they name.
 */
module ConnMuxer {
  import opened Wrappers
  import opened Bytes
  import opened ChunkQueue

  datatype Payload = Payload(id: string, data: seq<byte>, closing: bool)

  /** The entries of the muxer are connections or, after a close, nil. Whoever was given a connection keeps
      it: `sessions` are all connections there ever were. */
  datatype Mux = Mux(
    conns: map<string, bool>,          // false is nil
    sessions: map<string, Session>,
    announced: seq<string>,            // returned as new connections
    crashed: bool,                     // a payload for a nil entry
    stuck: bool)                       // waits for ever for a reader to wake

  const NEW_MUX := Mux(map[], map[], [], false, false)

  datatype MuxEvent = Arrive(p: Payload) | Open(id: string) | Use(id: string, e: Event)

  ghost predicate MuxOk(s: Mux) {
    && (forall id :: id in s.conns ==> id in s.sessions)
    && (forall id :: id in s.sessions ==> SessionOk(s.sessions[id]))
  }

  /** handleNewPayload, NewConn, and what the readers of the connections do. */
  function MuxStep(s: Mux, e: MuxEvent): Mux
    requires MuxOk(s)
  {
    if s.crashed then s
    else match e
      case Arrive(p) =>
        if s.stuck then s
        else if p.id !in s.conns then
          s.(conns := s.conns[p.id := true], sessions := s.sessions[p.id := Step(NEW_SESSION, Append(p.data, false))],
             announced := s.announced + [p.id])
        else if !s.conns[p.id] then s.(crashed := true)
        else
          var session := Step(s.sessions[p.id], Append(p.data, p.closing));
          s.(conns := s.conns[p.id := !p.closing], sessions := s.sessions[p.id := session], stuck := session.blocked)
      case Open(id) => s.(conns := s.conns[id := true], sessions := s.sessions[id := NEW_SESSION])
      case Use(id, u) =>
        if id !in s.sessions || u.Append? then s
        else s.(sessions := s.sessions[id := Step(s.sessions[id], u)])
  }

  lemma MuxStepOk(s: Mux, e: MuxEvent)
    requires MuxOk(s)
    ensures MuxOk(MuxStep(s, e))
  {
    hide Step;
    assert SessionOk(NEW_SESSION);
    match e
    case Arrive(p) =>
      StepOk(NEW_SESSION, Append(p.data, false));
      if p.id in s.conns {
        StepOk(s.sessions[p.id], Append(p.data, p.closing));
      }
    case Open(_) =>
    case Use(id, u) =>
      if id in s.sessions {
        StepOk(s.sessions[id], u);
      }
  }

  function MuxRun(events: seq<MuxEvent>): (s: Mux)
    ensures MuxOk(s)
  {
    if events == [] then NEW_MUX
    else
      var s, e := MuxRun(events[..|events| - 1]), events[|events| - 1];
      MuxStepOk(s, e);
      MuxStep(s, e)
  }

  // ---------- What the events say about one connection ----------

  predicate Named(e: MuxEvent, id: string) {
    (e.Arrive? && e.p.id == id) || e == Open(id)
  }

  predicate Known(events: seq<MuxEvent>, id: string) {
    exists i :: 0 <= i < |events| && Named(events[i], id)
  }

  predicate ClosedIn(events: seq<MuxEvent>, id: string) {
    exists i :: 0 <= i < |events| && events[i].Arrive? && events[i].p.id == id && events[i].p.closing
  }

  /** The events of one connection alone. The first payload opens it, whether it says closing or not. */
  function Project(events: seq<MuxEvent>, id: string): seq<Event> {
    if events == [] then []
    else
      var before, e := events[..|events| - 1], events[|events| - 1];
      Project(before, id) +
      match e
      case Arrive(p) => if p.id == id then [Append(p.data, p.closing && Known(before, id))] else []
      case Open(_) => []
      case Use(id', u) => if id' == id && Known(before, id) && !u.Append? then [u] else []
  }

  /** All bytes that arrived for the connection, in order. */
  function Written(events: seq<MuxEvent>, id: string): seq<byte> {
    if events == [] then []
    else
      var before, e := events[..|events| - 1], events[|events| - 1];
      Written(before, id) + if e.Arrive? && e.p.id == id then e.p.data else []
  }

  /** Nothing follows a close of a connection, new identifiers are new, and a reader's wake-up and its check
      for the close are one step. */
  predicate Orderly(events: seq<MuxEvent>) {
    events == [] ||
    var before, e := events[..|events| - 1], events[|events| - 1];
    && Orderly(before)
    && match e
       case Arrive(p) => !ClosedIn(before, p.id) && !Run(Project(before, p.id)).reader.Woken?
       case Open(id) => !Known(before, id)
       case Use(_, _) => true
  }

  /** The muxer has the identifiers it should, and each connection is what its own events make it. */
  ghost predicate MuxIs(s: Mux, events: seq<MuxEvent>) {
    && !s.crashed && !s.stuck
    && (forall id :: id in s.conns <==> Known(events, id))
    && (forall id :: id in s.sessions <==> Known(events, id))
    && (forall id :: Known(events, id) ==> s.sessions[id] == Run(Project(events, id)))
    && (forall id :: Known(events, id) ==> s.conns[id] || ClosedIn(events, id))
  }

  lemma KnownMore(before: seq<MuxEvent>, e: MuxEvent, id: string)
    ensures Known(before + [e], id) <==> Known(before, id) || Named(e, id)
    ensures ClosedIn(before + [e], id) <==> ClosedIn(before, id) || (e.Arrive? && e.p.id == id && e.p.closing)
  {
    var events := before + [e];
    assert events[|before|] == e && forall i :: 0 <= i < |before| ==> events[i] == before[i];
    if Known(before, id) {
      var i :| 0 <= i < |before| && Named(before[i], id);
      assert Named(events[i], id);
    }
    if ClosedIn(before, id) {
      var i :| 0 <= i < |before| && before[i].Arrive? && before[i].p.id == id && before[i].p.closing;
      assert events[i].Arrive?;
    }
  }

  lemma {:induction false} ProjectMore(before: seq<MuxEvent>, e: MuxEvent, id: string)
    ensures Project(before + [e], id) == Project(before, id) +
              match e
              case Arrive(p) => if p.id == id then [Append(p.data, p.closing && Known(before, id))] else []
              case Open(_) => []
              case Use(id', u) => if id' == id && Known(before, id) && !u.Append? then [u] else []
  {
    assert (before + [e])[..|before|] == before;
  }

  lemma {:induction false} UnknownHasNothing(events: seq<MuxEvent>, id: string)
    requires !Known(events, id)
    ensures Project(events, id) == []
    decreases |events|
  {
    if events != [] {
      var before, e := events[..|events| - 1], events[|events| - 1];
      assert events == before + [e];
      KnownMore(before, e, id);
      UnknownHasNothing(before, id);
    }
  }

  lemma {:induction false} AtomicMore(before: seq<Event>, e: Event)
    requires AtomicWakes(before) && (e.Append? ==> !Run(before).reader.Woken?)
    ensures AtomicWakes(before + [e])
  {
    assert (before + [e])[..|before|] == before;
  }

  lemma ClosedLastMore(before: seq<Event>, e: Event)
    requires ClosedLast(before)
    requires e.Append? ==> forall i :: 0 <= i < |before| && before[i].Append? ==> !before[i].closing
    ensures ClosedLast(before + [e])
  {
    var events := before + [e];
    forall i, j | 0 <= i < j < |events| && events[i].Append? && events[i].closing ensures !events[j].Append? {
      assert events[i] == before[i];
      if j < |before| {
        assert events[j] == before[j];
      }
    }
  }

  ghost predicate SomeClose(events: seq<Event>) {
    exists i :: 0 <= i < |events| && events[i].Append? && events[i].closing
  }

  lemma SomeCloseMore(before: seq<Event>, e: Event)
    ensures SomeClose(before + [e]) <==> SomeClose(before) || (e.Append? && e.closing)
  {
    var events := before + [e];
    assert events[|before|] == e && forall i :: 0 <= i < |before| ==> events[i] == before[i];
    if SomeClose(before) {
      var i :| 0 <= i < |before| && before[i].Append? && before[i].closing;
      assert events[i].Append?;
    }
  }

  /** In an orderly run every connection's own events are. */
  lemma {:induction false} ProjectOrderly(events: seq<MuxEvent>, id: string)
    requires Orderly(events)
    ensures AtomicWakes(Project(events, id)) && ClosedLast(Project(events, id))
    ensures SomeClose(Project(events, id)) ==> ClosedIn(events, id)
    decreases |events|
  {
    hide Run, AtomicWakes, ClosedLast, ClosedIn, Known, SomeClose, Project;
    if events == [] {
      NothingOrderly(id);
    } else {
      var before, e := events[..|events| - 1], events[|events| - 1];
      assert events == before + [e];
      ProjectOrderly(before, id);
      KnownMore(before, e, id);
      ProjectMore(before, e, id);
      var mine := Project(before, id);
      if e.Arrive? && e.p.id == id {
        var a := Append(e.p.data, e.p.closing && Known(before, id));
        NotClosedYet(mine);
        AtomicMore(mine, a);
        ClosedLastMore(mine, a);
        SomeCloseMore(mine, a);
      } else if e.Use? && e.id == id && Known(before, id) && !e.e.Append? {
        AtomicMore(mine, e.e);
        ClosedLastMore(mine, e.e);
        SomeCloseMore(mine, e.e);
      } else {
        assert mine + [] == mine;
      }
    }
  }

  lemma {:induction false} NothingOrderly(id: string)
    ensures Project([], id) == [] && AtomicWakes([]) && ClosedLast([]) && !SomeClose([])
  {
  }

  lemma NotClosedYet(events: seq<Event>)
    ensures !SomeClose(events) ==> forall i :: 0 <= i < |events| && events[i].Append? ==> !events[i].closing
  {
  }

  // ---------- Demultiplexing ----------

  /** A payload changes the connection it names as that connection's own events say, and no other. */
  lemma {:induction false} ArriveIs(s: Mux, before: seq<MuxEvent>, p: Payload)
    requires MuxOk(s) && MuxIs(s, before) && Orderly(before + [Arrive(p)])
    ensures MuxIs(MuxStep(s, Arrive(p)), before + [Arrive(p)])
  {
    hide Run, Step, Known, ClosedIn, Project, AtomicWakes, ClosedLast, Orderly, SessionOk;
    var e := Arrive(p);
    var s', events := MuxStep(s, e), before + [e];
    OrderlyFront(before, e);
    forall k ensures Known(events, k) <==> Known(before, k) || k == p.id
             ensures ClosedIn(events, k) <==> ClosedIn(before, k) || (k == p.id && p.closing)
             ensures Known(before, k) || k == p.id ==> s'.sessions[k] == Run(Project(events, k))
    {
      KnownMore(before, e, k);
      ArrivesAt(before, p, k);
    }
    ProjectOrderly(events, p.id);
    NeverBlocks(Project(events, p.id));
  }

  lemma {:induction false} ArrivesAt(before: seq<MuxEvent>, p: Payload, id: string)
    ensures id != p.id ==> Project(before + [Arrive(p)], id) == Project(before, id)
    ensures id == p.id ==>
              var was := if Known(before, id) then Run(Project(before, id)) else NEW_SESSION;
              Run(Project(before + [Arrive(p)], id)) == Step(was, Append(p.data, p.closing && Known(before, id)))
  {
    hide Run, Step, Known, Project;
    ProjectMore(before, Arrive(p), id);
    assert Project(before, id) + [] == Project(before, id);
    if id == p.id {
      if !Known(before, id) {
        UnknownHasNothing(before, id);
      }
      OneMore(Project(before, id), Append(p.data, p.closing && Known(before, id)));
    }
  }

  lemma {:induction false} OrderlyFront(before: seq<MuxEvent>, e: MuxEvent)
    requires Orderly(before + [e])
    ensures Orderly(before)
    ensures e.Arrive? ==> !ClosedIn(before, e.p.id)
    ensures e.Open? ==> !Known(before, e.id)
  {
    assert (before + [e])[..|before|] == before;
  }

  lemma {:induction false} OpenIs(s: Mux, before: seq<MuxEvent>, id: string)
    requires MuxOk(s) && MuxIs(s, before) && Orderly(before + [Open(id)])
    ensures MuxIs(MuxStep(s, Open(id)), before + [Open(id)])
  {
    hide Run, Step, Known, ClosedIn, Project, Orderly;
    var e := Open(id);
    OrderlyFront(before, e);
    forall k ensures Known(before + [e], k) <==> Known(before, k) || k == id
             ensures ClosedIn(before + [e], k) <==> ClosedIn(before, k)
             ensures Known(before, k) || k == id ==> MuxStep(s, e).sessions[k] == Run(Project(before + [e], k))
    {
      KnownMore(before, e, k);
      OthersAt(before, e, k);
    }
  }

  lemma UseIs(s: Mux, before: seq<MuxEvent>, id: string, u: Event)
    requires MuxOk(s) && MuxIs(s, before)
    ensures MuxIs(MuxStep(s, Use(id, u)), before + [Use(id, u)])
  {
    hide Run, Step, Known, ClosedIn, Project;
    var e := Use(id, u);
    forall k ensures Known(before + [e], k) <==> Known(before, k)
             ensures ClosedIn(before + [e], k) <==> ClosedIn(before, k)
             ensures Known(before, k) ==> MuxStep(s, e).sessions[k] == Run(Project(before + [e], k))
    {
      KnownMore(before, e, k);
      OthersAt(before, e, k);
    }
  }

  lemma {:induction false} OthersAt(before: seq<MuxEvent>, e: MuxEvent, id: string)
    requires !e.Arrive?
    ensures var was := if Known(before, id) then Run(Project(before, id)) else NEW_SESSION;
            var used := e.Use? && e.id == id && Known(before, id) && !e.e.Append?;
            Run(Project(before + [e], id)) == if used then Step(was, e.e) else was
  {
    hide Run, Step, Known, Project;
    ProjectMore(before, e, id);
    assert Project(before, id) + [] == Project(before, id);
    if !Known(before, id) {
      UnknownHasNothing(before, id);
      OneMore([], Finish);
    } else if e.Use? && e.id == id && !e.e.Append? {
      OneMore(Project(before, id), e.e);
    }
  }

  lemma {:induction false} MuxRunIs(events: seq<MuxEvent>)
    requires Orderly(events)
    ensures MuxIs(MuxRun(events), events)
    decreases |events|
  {
    hide MuxIs, MuxStep;
    if events == [] {
      EmptyMuxIs();
    } else {
      var before, e := events[..|events| - 1], events[|events| - 1];
      assert events == before + [e];
      MuxRunIs(before);
      match e
      case Arrive(p) => ArriveIs(MuxRun(before), before, p);
      case Open(id) => OpenIs(MuxRun(before), before, id);
      case Use(id, u) => UseIs(MuxRun(before), before, id, u);
    }
  }

  lemma EmptyMuxIs()
    ensures MuxIs(NEW_MUX, [])
  {
  }

  lemma {:induction false} WrittenMore(before: seq<MuxEvent>, e: MuxEvent, id: string)
    ensures Written(before + [e], id) == Written(before, id) + if e.Arrive? && e.p.id == id then e.p.data else []
    ensures Written([], id) == []
  {
    assert (before + [e])[..|before|] == before;
  }

  lemma {:induction false} AppendedIsWritten(events: seq<MuxEvent>, id: string)
    requires Orderly(events)
    ensures Run(Project(events, id)).appended == Written(events, id)
    decreases |events|
  {
    hide Run, AtomicWakes, ClosedLast, Known, ClosedIn, Project, Written;
    if events == [] {
      NothingOrderly(id);
      OneMore([], Finish);
      WrittenMore([], Open(id), id);
    } else {
      var before, e := events[..|events| - 1], events[|events| - 1];
      assert events == before + [e];
      AppendedIsWritten(before, id);
      ProjectOrderly(before, id);
      NeverBlocks(Project(before, id));
      ProjectMore(before, e, id);
      WrittenMore(before, e, id);
      assert Project(before, id) + [] == Project(before, id) && Written(before, id) + [] == Written(before, id);
      if e.Arrive? && e.p.id == id {
        OneMore(Project(before, id), Append(e.p.data, e.p.closing && Known(before, id)));
      } else if e.Use? && e.id == id && Known(before, id) && !e.e.Append? {
        OneMore(Project(before, id), e.e);
        ReadsAppendNothing(Run(Project(before, id)), e.e);
      }
    }
  }

  lemma ReadsAppendNothing(s: Session, e: Event)
    requires SessionOk(s) && !e.Append?
    ensures Step(s, e).appended == s.appended
  {
    hide Copied;
    if e.Copy? && s.reader.Copying? {
      CopiedOk(s, s.reader.n);
    }
  }

  predicate BareClosings(events: seq<MuxEvent>) {
    forall i :: 0 <= i < |events| && events[i].Arrive? && events[i].p.closing ==> events[i].p.data == []
  }

  lemma {:induction false} ProjectBare(events: seq<MuxEvent>, id: string)
    requires BareClosings(events)
    ensures BareCloses(Project(events, id))
    decreases |events|
  {
    hide Known;
    if events != [] {
      var before := events[..|events| - 1];
      assert forall i :: 0 <= i < |before| ==> before[i] == events[i];
      ProjectBare(before, id);
    }
  }

  /** Demultiplexing: over every orderly interleaving of the payloads of any number of connections with any
      reads, each connection is what its own events make it, as if there were no other. What its reader got and
      what is pending is what arrived for it, in order, exactly when no byte came between the end of a read's
      copying loops and the dropping of the chunks; and an end of file comes only when nothing is pending. */
  lemma {:induction false} Demultiplexed(events: seq<MuxEvent>, id: string)
    requires Orderly(events) && Known(events, id)
    ensures var s := MuxRun(events);
            && !s.crashed && !s.stuck && id in s.sessions
            && s.sessions[id] == Run(Project(events, id))
            && (s.sessions[id].returned + Pending(s.sessions[id].q) == Written(events, id) <==>
                NothingDropped(Project(events, id)))
            && (NothingDropped(Project(events, id)) ==> s.sessions[id].returned <= Written(events, id))
            && (BareClosings(events) ==> !s.sessions[id].lost)
  {
    hide NothingDropped, Run, MuxRun, Known, ClosedIn, Project, Written, AtomicWakes, ClosedLast, Orderly,
         BareCloses, Pending;
    MuxRunIs(events);
    AppendedIsWritten(events, id);
    AllSurviveIff(Project(events, id));
    ProjectOrderly(events, id);
    if BareClosings(events) {
      ProjectBare(events, id);
      EofAfterAllData(Project(events, id));
    }
  }

  /** The peer opened the connection: its first event is a payload. */
  predicate OpenedByPeer(events: seq<MuxEvent>, id: string) {
    events != [] &&
    var before, e := events[..|events| - 1], events[|events| - 1];
    OpenedByPeer(before, id) || (e.Arrive? && e.p.id == id && !Known(before, id))
  }

  lemma {:induction false} OpenedIsKnown(events: seq<MuxEvent>, id: string)
    requires OpenedByPeer(events, id)
    ensures Known(events, id)
    decreases |events|
  {
    var before, e := events[..|events| - 1], events[|events| - 1];
    assert events == before + [e];
    KnownMore(before, e, id);
    if OpenedByPeer(before, id) {
      OpenedIsKnown(before, id);
    }
  }

  lemma StepAnnounces(s: Mux, e: MuxEvent)
    requires MuxOk(s)
    ensures MuxStep(s, e).announced
         == s.announced + if e.Arrive? && !s.crashed && !s.stuck && e.p.id !in s.conns then [e.p.id] else []
  {
    hide Step;
  }

  /** Connections that the peer opened are announced, once each, and no others. */
  lemma {:induction false} AnnouncedOnce(events: seq<MuxEvent>, id: string)
    requires Orderly(events)
    ensures multiset(MuxRun(events).announced)[id] == if OpenedByPeer(events, id) then 1 else 0
    decreases |events|
  {
    hide Run, MuxStep, Known, ClosedIn, Project;
    if events != [] {
      var before, e := events[..|events| - 1], events[|events| - 1];
      AnnouncedOnce(before, id);
      StepAnnounces(MuxRun(before), e);
      MuxRunIs(before);
      if OpenedByPeer(before, id) {
        OpenedIsKnown(before, id);
      }
    }
  }

  lemma {:induction false} MuxMore(before: seq<MuxEvent>, e: MuxEvent)
    ensures MuxRun(before + [e]) == MuxStep(MuxRun(before), e)
    ensures MuxRun([]) == NEW_MUX
  {
    assert (before + [e])[..|before|] == before;
  }

  // ---------- Exactly when a payload meets a nil entry ----------

  /** Identifiers of new connections are new. */
  predicate NewOpens(events: seq<MuxEvent>) {
    events == [] ||
    var before, e := events[..|events| - 1], events[|events| - 1];
    NewOpens(before) && (e.Open? ==> !Known(before, e.id))
  }

  /** A payload closed the connection and was not the first thing known of it. */
  predicate ClosedLate(events: seq<MuxEvent>, id: string) {
    exists j :: 0 <= j < |events| && events[j].Arrive? && events[j].p.id == id && events[j].p.closing &&
                Known(events[..j], id)
  }

  /** At event `k` a payload arrives behind such a one, and the muxer is not stuck. */
  predicate CrashesAt(events: seq<MuxEvent>, k: nat)
    requires k < |events|
  {
    events[k].Arrive? && !MuxRun(events[..k]).stuck && ClosedLate(events[..k], events[k].p.id)
  }

  lemma ClosedLateMore(before: seq<MuxEvent>, e: MuxEvent, id: string)
    ensures ClosedLate(before + [e], id) <==>
            ClosedLate(before, id) || (e.Arrive? && e.p.id == id && e.p.closing && Known(before, id))
    ensures ClosedLate(before, id) ==> Known(before, id)
  {
    hide Known;
    var events := before + [e];
    assert events[|before|] == e && events[..|before|] == before;
    forall j | 0 <= j < |before| ensures events[j] == before[j] && events[..j] == before[..j] {
    }
    if ClosedLate(before, id) {
      var j :| 0 <= j < |before| && before[j].Arrive? && before[j].p.id == id && before[j].p.closing &&
            Known(before[..j], id);
      assert events[j] == before[j] && events[..j] == before[..j];
      KnownEarlier(before, j, id);
    }
    if ClosedLate(events, id) {
      var j :| 0 <= j < |events| && events[j].Arrive? && events[j].p.id == id && events[j].p.closing &&
            Known(events[..j], id);
      assert j < |before| ==> events[j] == before[j] && events[..j] == before[..j];
    }
  }

  lemma KnownEarlier(events: seq<MuxEvent>, j: nat, id: string)
    requires j <= |events| && Known(events[..j], id)
    ensures Known(events, id)
  {
    var i :| 0 <= i < |events[..j]| && Named(events[..j][i], id);
    assert Named(events[i], id);
  }

  lemma StepEntries(s: Mux, e: MuxEvent, id: string)
    requires MuxOk(s)
    ensures var s' := MuxStep(s, e);
            !s'.crashed && !s'.stuck ==>
              && !s.crashed && !s.stuck
              && (id in s'.conns <==> id in s.conns || Named(e, id))
              && (id in s'.conns ==>
                    s'.conns[id] == if e.Arrive? && e.p.id == id then id !in s.conns || !e.p.closing
                                    else e == Open(id) || s.conns[id])
              && (e.Arrive? && e.p.id == id && id in s.conns ==> s.conns[id])
  {
    hide Step;
  }

  /** Which entries there are, and which of them are nil, until the muxer crashes or is stuck. */
  lemma {:induction false} EntriesOfRun(events: seq<MuxEvent>, id: string)
    requires NewOpens(events)
    ensures var s := MuxRun(events);
            !s.crashed && !s.stuck ==>
              (id in s.conns <==> Known(events, id)) && (id in s.conns ==> (s.conns[id] <==> !ClosedLate(events, id)))
    decreases |events|
  {
    hide MuxStep, Known, ClosedLate, MuxRun;
    if events == [] {
      MuxMore([], Open(id));
      NothingKnown(id);
    } else {
      var before, e := events[..|events| - 1], events[|events| - 1];
      assert events == before + [e];
      EntriesOfRun(before, id);
      KnownMore(before, e, id);
      ClosedLateMore(before, e, id);
      MuxMore(before, e);
      StepEntries(MuxRun(before), e, id);
    }
  }

  lemma NothingKnown(id: string)
    ensures !Known([], id) && !ClosedLate([], id)
  {
  }

  /** While the identifiers of new connections are new, the muxer calls a nil connection exactly when, before it
      waits for ever, a payload arrives behind one that closed its connection and was not the connection's first. */
  lemma {:induction false} CrashedIff(events: seq<MuxEvent>)
    requires NewOpens(events)
    ensures MuxRun(events).crashed <==> exists k: nat :: k < |events| && CrashesAt(events, k)
    decreases |events|
  {
    hide Step, Known, ClosedLate, MuxRun;
    if events == [] {
      MuxMore([], Open(""));
    } else {
      var before, e := events[..|events| - 1], events[|events| - 1];
      assert events == before + [e] && events[|before|] == e;
      CrashedIff(before);
      MuxMore(before, e);
      if e.Arrive? {
        EntriesOfRun(before, e.p.id);
        ClosedLateMore(before, e, e.p.id);
      }
      assert CrashesAt(events, |before|) <==>
             e.Arrive? && !MuxRun(before).stuck && ClosedLate(before, e.p.id);
      forall k: nat | k < |before| ensures CrashesAt(events, k) <==> CrashesAt(before, k) {
        assert events[..k] == before[..k] && events[k] == before[k];
      }
    }
  }

  // ---------- Exactly when the muxer is stuck ----------

  lemma {:induction false} SessionsKnown(events: seq<MuxEvent>, id: string)
    ensures var s := MuxRun(events); (id in s.sessions <==> id in s.conns) && (id in s.sessions ==> Known(events, id))
    decreases |events|
  {
    hide Step, Known, MuxRun;
    if events == [] {
      MuxMore([], Open(id));
    } else {
      var before, e := events[..|events| - 1], events[|events| - 1];
      assert events == before + [e];
      SessionsKnown(before, id);
      KnownMore(before, e, id);
      MuxMore(before, e);
    }
  }

  predicate SomeBlocked(s: Mux) {
    exists id <- s.sessions :: s.sessions[id].blocked
  }

  lemma StepBlocks(s: Mux, e: MuxEvent)
    requires MuxOk(s) && (s.stuck <==> SomeBlocked(s)) && s.sessions.Keys == s.conns.Keys
    requires e.Open? ==> e.id !in s.sessions
    ensures var s' := MuxStep(s, e); (s'.stuck <==> SomeBlocked(s')) && (s.stuck && e.Arrive? ==> s' == s)
  {
    hide Step;
    var s' := MuxStep(s, e);
    NobodyWaits(NEW_SESSION, if e.Arrive? then e.p.data else [], false);
    if e.Use? && e.id in s.sessions && !e.e.Append? {
      StepMoves(s.sessions[e.id], e.e);
    }
    if s'.sessions != s.sessions {
      var id := if e.Arrive? then e.p.id else e.id;
      assert s'.sessions == s.sessions[id := s'.sessions[id]];
      if k :| k in s.sessions && s.sessions[k].blocked {
        assert k in s'.sessions && s'.sessions[k].blocked;
      }
      if k :| k in s'.sessions && s'.sessions[k].blocked {
        assert k == id || (k in s.sessions && s.sessions[k].blocked);
      }
    }
  }

  /** While the identifiers of new connections are new, the muxer waits for ever exactly when some connection's chunk
      waits for a reader that does not come; and then it takes no more payloads. */
  lemma {:induction false} StuckIff(events: seq<MuxEvent>, p: Payload)
    requires NewOpens(events)
    ensures MuxRun(events).stuck <==> SomeBlocked(MuxRun(events))
    ensures MuxRun(events).stuck ==> MuxRun(events + [Arrive(p)]) == MuxRun(events)
    decreases |events|
  {
    hide MuxStep, Known, MuxRun, SomeBlocked;
    if events == [] {
      MuxMore([], Arrive(p));
      NothingBlocked();
    } else {
      var before, e := events[..|events| - 1], events[|events| - 1];
      assert events == before + [e];
      StuckIff(before, p);
      MuxMore(before, e);
      SameIds(before);
      if e.Open? {
        SessionsKnown(before, e.id);
      }
      StepBlocks(MuxRun(before), e);
      SameIds(events);
      StepBlocks(MuxRun(events), Arrive(p));
      MuxMore(events, Arrive(p));
    }
  }

  lemma NothingBlocked()
    ensures !SomeBlocked(NEW_MUX)
  {
  }

  lemma {:induction false} SameIds(events: seq<MuxEvent>)
    ensures MuxRun(events).sessions.Keys == MuxRun(events).conns.Keys
  {
    hide MuxRun;
    forall id ensures id in MuxRun(events).sessions <==> id in MuxRun(events).conns {
      SessionsKnown(events, id);
    }
  }

  // ---------- Exactly which close is seen ----------

  lemma StepCloses(s: Session, e: Event)
    requires SessionOk(s)
    ensures Step(s, e).q.closed == if e.Append? && !s.blocked then e.closing else s.q.closed
  {
    hide Pending;
    if e.Append? {
      StepAppends(s, e.data, e.closing);
    } else {
      StepMoves(s, e);
    }
  }

  lemma {:induction false} ProjectCloses(events: seq<MuxEvent>, id: string)
    requires Orderly(events)
    ensures Run(Project(events, id)).q.closed <==> ClosedLate(events, id)
    decreases |events|
  {
    hide Run, Step, Known, ClosedIn, ClosedLate, Project, AtomicWakes, ClosedLast;
    if events == [] {
      NothingOrderly(id);
      OneMore([], Finish);
      NothingKnown(id);
    } else {
      var before, e := events[..|events| - 1], events[|events| - 1];
      assert events == before + [e];
      ProjectCloses(before, id);
      ClosedLateMore(before, e, id);
      ProjectOrderly(before, id);
      NeverBlocks(Project(before, id));
      if e.Arrive? {
        ArrivesAt(before, e.p, id);
        ClosedLateCloses(before, id);
        var was := if Known(before, id) then Run(Project(before, id)) else NEW_SESSION;
        StepCloses(was, Append(e.p.data, e.p.closing && Known(before, id)));
      } else {
        OthersAt(before, e, id);
        if !Known(before, id) {
          UnknownHasNothing(before, id);
          OneMore([], Finish);
        }
        if e.Use? {
          StepCloses(Run(Project(before, id)), e.e);
        }
      }
    }
  }

  lemma ClosedLateCloses(events: seq<MuxEvent>, id: string)
    ensures ClosedLate(events, id) ==> ClosedIn(events, id)
  {
    hide Known;
  }

  /** In an orderly run a connection is closed for its reader exactly when a payload closed it that was not the first
      thing known of it: the close of a first payload is lost. */
  lemma {:induction false} CloseReachesIff(events: seq<MuxEvent>, id: string)
    requires Orderly(events) && Known(events, id)
    ensures var s := MuxRun(events); id in s.sessions && (s.sessions[id].q.closed <==> ClosedLate(events, id))
  {
    hide Run, MuxRun, Known, ClosedLate, Project, Orderly;
    MuxRunIs(events);
    ProjectCloses(events, id);
  }

  lemma ThreeEvents(a: MuxEvent, b: MuxEvent, c: MuxEvent)
    ensures MuxOk(NEW_MUX) && MuxOk(MuxStep(NEW_MUX, a)) && MuxOk(MuxStep(MuxStep(NEW_MUX, a), b))
    ensures MuxRun([a, b, c]) == MuxStep(MuxStep(MuxStep(NEW_MUX, a), b), c)
  {
    hide MuxStep;
    MuxMore([], a);
    MuxMore([a], b);
    MuxMore([a, b], c);
    assert [] + [a] == [a] && [a] + [b] == [a, b] && [a, b] + [c] == [a, b, c];
  }

  lemma NobodyWaits(s: Session, data: seq<byte>, closing: bool)
    requires SessionOk(s) && !s.blocked && !s.q.waiting
    ensures !Step(s, Append(data, closing)).blocked && !Step(s, Append(data, closing)).q.waiting
  {
  }

  /** A payload behind the close of its connection meets the nil entry. */
  lemma PayloadAfterClose(id: string, a: seq<byte>, b: seq<byte>)
    ensures MuxRun([Arrive(Payload(id, a, false)), Arrive(Payload(id, [], true)),
              Arrive(Payload(id, b, false))]).crashed
  {
    hide Step;
    ThreeEvents(Arrive(Payload(id, a, false)), Arrive(Payload(id, [], true)), Arrive(Payload(id, b, false)));
    NobodyWaits(NEW_SESSION, a, false);
    StepOk(NEW_SESSION, Append(a, false));
    NobodyWaits(Step(NEW_SESSION, Append(a, false)), [], true);
  }

  /** A first payload that says closing opens the connection, and its close is lost: a reader that took its
      bytes, and what there is of them, sleeps at its next read. */
  lemma FirstCloseLost(id: string, n: nat)
    ensures var s := MuxRun([Arrive(Payload(id, [], true))]);
            && id in s.sessions && SessionOk(s.sessions[id]) && !s.sessions[id].q.closed
            && WholeRead(WholeRead(s.sessions[id], n), n).reader == Asleep(n)
  {
    hide Step, WholeRead;
    MuxMore([], Arrive(Payload(id, [], true)));
    assert [] + [Arrive(Payload(id, [], true))] == [Arrive(Payload(id, [], true))];
    SleepsAfterClose(n);
  }

  lemma SleepsAfterClose(n: nat)
    ensures var s := Step(NEW_SESSION, Append([], false));
            SessionOk(s) && !s.q.closed && WholeRead(WholeRead(s, n), n).reader == Asleep(n)
  {
    hide WholeRead, Pending;
    var s := Step(NEW_SESSION, Append([], false));
    assert s.q.chunks == [[]];
    AppendedPending(NEW_QUEUE, [], false);
    NothingPending(NEW_QUEUE);
    WholeReadIs(s, n);
    WholeReadIs(WholeRead(s, n), n);
  }

  // ---------- The muxer ----------

  /** The entries as values: the queue of each connection, or nil. */
  type Entries = map<string, Option<Queue>>

  datatype Handled = Existing | Fresh | NilConn

  /** handleNewPayload on the entries. */
  function Handle(m: Entries, p: Payload): (Entries, Handled) {
    if p.id !in m then (m[p.id := Some(Appended(NEW_QUEUE, p.data, false))], Fresh)
    else match m[p.id]
      case None => (m, NilConn)
      case Some(q) => (m[p.id := if p.closing then None else Some(Appended(q, p.data, p.closing))], Existing)
  }

  ghost function EntriesOf(s: Mux): Entries
    requires MuxOk(s)
  {
    map id | id in s.conns :: if s.conns[id] then Some(s.sessions[id].q) else None
  }

  /** A step of a run that is neither crashed nor stuck changes the entries as handleNewPayload does. */
  lemma ArriveHandles(s: Mux, p: Payload)
    requires MuxOk(s) && !s.crashed && !s.stuck && forall id :: id in s.sessions ==> !s.sessions[id].blocked
    ensures MuxOk(MuxStep(s, Arrive(p)))
    ensures EntriesOf(MuxStep(s, Arrive(p))) == Handle(EntriesOf(s), p).0
    ensures MuxStep(s, Arrive(p)).crashed <==> Handle(EntriesOf(s), p).1.NilConn?
    ensures MuxStep(s, Arrive(p)).announced == s.announced + if Handle(EntriesOf(s), p).1.Fresh? then [p.id] else []
  {
    hide Step, EntriesOf;
    MuxStepOk(s, Arrive(p));
    EntryAt(s, p.id);
    var s' := MuxStep(s, Arrive(p));
    if p.id !in s.conns {
      AppendsToQueue(NEW_SESSION, p.data, false);
      EntryChanged(s, s', p.id);
    } else if s.conns[p.id] {
      AppendsToQueue(s.sessions[p.id], p.data, p.closing);
      EntryChanged(s, s', p.id);
    } else {
      EntryChanged(s, s', p.id);
    }
  }

  lemma EntryAt(s: Mux, id: string)
    requires MuxOk(s)
    ensures id in EntriesOf(s) <==> id in s.conns
    ensures id in s.conns ==> EntriesOf(s)[id] == if s.conns[id] then Some(s.sessions[id].q) else None
  {
  }

  /** A step that changes one connection changes one entry. */
  lemma EntryChanged(s: Mux, s': Mux, id: string)
    requires MuxOk(s) && MuxOk(s') && id in s'.conns
    requires s'.conns == s.conns[id := s'.conns[id]] && s'.sessions == s.sessions[id := s'.sessions[id]]
    ensures EntriesOf(s') == EntriesOf(s)[id := if s'.conns[id] then Some(s'.sessions[id].q) else None]
  {
    hide EntriesOf;
    var a, b := EntriesOf(s'), EntriesOf(s)[id := if s'.conns[id] then Some(s'.sessions[id].q) else None];
    forall k ensures k in a <==> k in b {
      EntryAt(s, k);
      EntryAt(s', k);
    }
    forall k | k in a ensures a[k] == b[k] {
      EntryAt(s, k);
      EntryAt(s', k);
    }
    assert a == b;
  }

  lemma AppendsToQueue(s: Session, data: seq<byte>, closing: bool)
    requires SessionOk(s) && !s.blocked
    ensures Step(s, Append(data, closing)).q == Appended(s.q, data, closing)
  {
  }

  class Muxer {
    var conns: map<string, Conn?>
    var encoded: seq<Payload>        // what was encoded to the underlying connection

    ghost predicate Valid()
      reads this
    {
      forall a, b :: a in conns && b in conns && a != b && conns[a] != null ==> conns[a] != conns[b]
    }

    ghost function Objects(): set<Conn>
      reads this
    {
      set id | id in conns && conns[id] != null :: conns[id]
    }

    ghost function State(): Entries
      reads this, Objects()
    {
      map id | id in conns :: if conns[id] == null then None else Some(conns[id].State())
    }

    constructor ()
      ensures Valid() && State() == map[] && encoded == [] && Objects() == {}
    {
      conns, encoded := map[], [];
    }

    /** `conn` is the new connection, if there is one. */
    method HandleNewPayload(payload: Payload) returns (conn: Conn?, handled: Handled)
      requires Valid()
      modifies this`conns, Objects()
      ensures Valid() && (State(), handled) == Handle(old(State()), payload)
      ensures handled.Fresh? <==> conn != null
      ensures handled.Fresh? ==> fresh(conn) && payload.id in conns && conns[payload.id] == conn
      ensures handled.Existing? ==>
                old(conns)[payload.id].State() ==
                Appended(old(conns[payload.id].State()), payload.data, payload.closing)
      ensures forall c <- old(Objects()) :: (payload.id in old(conns) ==> c != old(conns)[payload.id]) ==>
                c.State() == old(c.State())
    {
      if payload.id in conns {
        var existing := conns[payload.id];
        if existing == null {
          return null, NilConn;
        }
        if payload.closing {
          conns := conns[payload.id := null];
        }
        ghost var q := existing.State();
        var wake := existing.WriteUnread(payload.data, payload.closing);
        ghost var entry := if payload.closing then None else Some(Appended(q, payload.data, payload.closing));
        assert State() == old(State())[payload.id := entry];
        return null, Existing;
      }
      var made := new Conn();
      conns := conns[payload.id := made];
      var wake := made.WriteUnread(payload.data, false);
      assert forall id <- old(conns) :: old(conns)[id] != null ==> old(conns)[id] != made;
      assert State() == old(State())[payload.id := Some(Appended(NEW_QUEUE, payload.data, false))];
      return made, Fresh;
    }

    /** The identifier is a new random one. */
    method NewConn(id: string) returns (conn: Conn)
      requires Valid()
      modifies this`conns
      ensures Valid() && fresh(conn) && conns == old(conns)[id := conn]
      ensures State() == old(State())[id := Some(NEW_QUEUE)]
    {
      conn := new Conn();
      conns := conns[id := conn];
    }

    /** False is ErrInvalidConnID. */
    method WriteToConnWithID(id: string, data: seq<byte>) returns (ok: bool)
      modifies this`encoded
      ensures ok <==> id in conns
      ensures encoded == old(encoded) + if ok then [Payload(id, data, false)] else []
    {
      if id !in conns {
        return false;
      }
      encoded := encoded + [Payload(id, data, false)];
      return true;
    }

    method CloseConnWithID(id: string) returns (ok: bool)
      modifies this`encoded
      ensures ok <==> id in conns
      ensures encoded == old(encoded) + if ok then [Payload(id, [], true)] else []
    {
      if id !in conns {
        return false;
      }
      encoded := encoded + [Payload(id, [], true)];
      return true;
    }
  }
}
