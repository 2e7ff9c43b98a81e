/**
 The queue of chunks of one multiplexed connection (transport/multiuse/conn.go): the demultiplexer appends
 chunks, a reader copies out of them, and a reader that finds nothing sleeps until it is woken.
 */
module ChunkQueue {
  import opened Bytes

  datatype Queue = Queue(chunks: seq<seq<byte>>, chunkPos: nat, inPos: nat, closed: bool, waiting: bool)

  const NEW_QUEUE := Queue([], 0, 0, false, false)

  /** The positions lie in the chunks, or behind the last one. */
  predicate InChunks(q: Queue) {
    q.chunkPos <= |q.chunks| && q.inPos <= if q.chunkPos < |q.chunks| then |q.chunks[q.chunkPos]| else 0
  }

  /** Between reads they are behind the last chunk only when there are no chunks. */
  predicate QueueOk(q: Queue) {
    InChunks(q) && (q.chunkPos == |q.chunks| ==> q.chunks == [])
  }

  function Appended(q: Queue, data: seq<byte>, closing: bool): Queue {
    q.(chunks := q.chunks + [data], closed := closing)
  }

  /** The copying loops of Read with a buffer of `n` bytes: they end in the chunk that fills the buffer, or behind
      the last chunk. */
  function CopyOut(q: Queue, n: nat): (o: (Queue, seq<byte>))
    requires InChunks(q)
    decreases |q.chunks| - q.chunkPos
  {
    if q.chunkPos == |q.chunks| then (q, [])
    else
      var c := q.chunks[q.chunkPos];
      var m := Min(n, |c| - q.inPos);
      if q.inPos < |c| && m == n then (q.(inPos := q.inPos + m), c[q.inPos..q.inPos + m])
      else
        var (q', rest) := CopyOut(q.(chunkPos := q.chunkPos + 1, inPos := 0), n - m);
        (q', c[q.inPos..q.inPos + m] + rest)
  }

  /** What Read does behind the loops: all chunks are dropped. */
  function Emptied(q: Queue): Queue {
    q.(chunks := [], chunkPos := 0, inPos := 0)
  }

  /** Everything from the two positions to the end. */
  function Pending(q: Queue): seq<byte>
    requires InChunks(q)
  {
    if q.chunkPos == |q.chunks| then [] else q.chunks[q.chunkPos][q.inPos..] + Flat(q.chunks[q.chunkPos + 1..])
  }

  lemma PendingBehind(q: Queue)
    requires InChunks(q) && q.chunkPos < |q.chunks|
    ensures Pending(q) == q.chunks[q.chunkPos][q.inPos..] + Pending(q.(chunkPos := q.chunkPos + 1, inPos := 0))
  {
    var rest := q.chunks[q.chunkPos + 1..];
    if rest != [] {
      assert rest[0] == q.chunks[q.chunkPos + 1] && rest[1..] == q.chunks[q.chunkPos + 2..];
    }
  }

  /** The loops copy the first bytes pending and leave the others, and get behind the last chunk exactly when they
      do not fill the buffer or there was nothing. */
  lemma {:induction false} CopyOutTakesFirst(q: Queue, n: nat)
    requires InChunks(q)
    ensures var (q', out) := CopyOut(q, n);
            var m := Min(n, |Pending(q)|);
            && InChunks(q') && q'.closed == q.closed && q'.waiting == q.waiting && q'.chunks == q.chunks
            && out == Pending(q)[..m] && Pending(q') == Pending(q)[m..]
            && (q'.chunkPos == |q'.chunks| <==> |Pending(q)| < n || Pending(q) == [])
    decreases |q.chunks| - q.chunkPos
  {
    hide CopyOut, Pending;
    CopyOutSteps(q, n);
    if q.chunkPos < |q.chunks| {
      PendingBehind(q);
      var c, next := q.chunks[q.chunkPos][q.inPos..], q.(chunkPos := q.chunkPos + 1, inPos := 0);
      if c != [] && n <= |c| {
        var q' := q.(inPos := q.inPos + n);
        PendingBehind(q');
        Cut(c, Pending(next), n);
        assert q.chunks[q.chunkPos][q'.inPos..] == c[n..];
      } else {
        CopyOutTakesFirst(next, n - |c|);
        Cut(c, Pending(next), n);
      }
    }
  }

  lemma CopyOutSteps(q: Queue, n: nat)
    requires InChunks(q)
    ensures q.chunkPos == |q.chunks| ==> CopyOut(q, n) == (q, []) && Pending(q) == []
    ensures q.chunkPos < |q.chunks| ==>
              var c, next := q.chunks[q.chunkPos][q.inPos..], q.(chunkPos := q.chunkPos + 1, inPos := 0);
              && InChunks(next)
              && (c != [] && n <= |c| ==> CopyOut(q, n) == (q.(inPos := q.inPos + n), c[..n]))
              && (c == [] || n > |c| ==>
                   n >= |c| && CopyOut(q, n) == (CopyOut(next, n - |c|).0, c + CopyOut(next, n - |c|).1))
  {
    if q.chunkPos < |q.chunks| {
      var c := q.chunks[q.chunkPos];
      assert c[q.inPos..][..Min(n, |c| - q.inPos)] == c[q.inPos..q.inPos + Min(n, |c| - q.inPos)];
      assert c[q.inPos..|c|] == c[q.inPos..];
    }
  }

  lemma PositionInChunk(q: Queue)
    requires InChunks(q)
    ensures q.chunkPos <= |q.chunks| && q.inPos <= if q.chunkPos < |q.chunks| then |q.chunks[q.chunkPos]| else 0
  {
  }

  /** One chunk of the loop, behind the bytes in `done`. */
  lemma CopyOutGoesOn(q: Queue, n: nat, done: seq<byte>)
    requires InChunks(q) && q.chunkPos < |q.chunks|
    ensures var c, next := q.chunks[q.chunkPos][q.inPos..], q.(chunkPos := q.chunkPos + 1, inPos := 0);
            var (q', out) := CopyOut(q, n);
            && InChunks(next)
            && (if c != [] && n <= |c| then q' == q.(inPos := q.inPos + n) && done + out == done + c[..n]
                else var (q'', rest) := CopyOut(next, n - |c|); q' == q'' && done + out == (done + c) + rest)
  {
    hide CopyOut, Pending;
    CopyOutSteps(q, n);
    var c, next := q.chunks[q.chunkPos][q.inPos..], q.(chunkPos := q.chunkPos + 1, inPos := 0);
    if c == [] || n > |c| {
      Regroup(done, c, CopyOut(next, n - |c|).1);
    }
  }

  lemma Cut(a: seq<byte>, b: seq<byte>, n: nat)
    ensures n <= |a| ==> (a + b)[..n] == a[..n] && (a + b)[n..] == a[n..] + b
    ensures n >= |a| ==> (a + b)[..Min(n, |a + b|)] == a + b[..Min(n - |a|, |b|)]
    ensures n >= |a| ==> (a + b)[Min(n, |a + b|)..] == b[Min(n - |a|, |b|)..]
  {
  }

  // ---------- Runs ----------

  /** A reader between calls; asleep in one; woken but not yet past its check for the close; about to copy; or
      behind the copying loops, which it ran to the end, and about to drop all chunks. */
  datatype Reader = Away | Asleep(n: nat) | Woken(n: nat) | Copying(n: nat) | Emptying

  datatype Session = Session(
    q: Queue,
    reader: Reader,
    blocked: bool,            // the demultiplexer waits for ever for somebody to wake
    appended: seq<byte>,
    returned: seq<byte>,
    ended: bool,              // an end of file was returned
    lost: bool)               // one was returned while bytes were pending

  const NEW_SESSION := Session(NEW_QUEUE, Away, false, [], [], false, false)

  datatype Event = Append(data: seq<byte>, closing: bool) | Begin(n: nat) | Finish | Copy | Empty

  predicate SessionOk(s: Session) {
    InChunks(s.q) && (!s.reader.Emptying? ==> QueueOk(s.q))
  }

  function Copied(s: Session, n: nat): Session
    requires InChunks(s.q)
  {
    var (q, out) := CopyOut(s.q, n);
    s.(q := q, reader := if q.chunkPos == |q.chunks| then Emptying else Away, returned := s.returned + out)
  }

  function AtEof(s: Session): Session
    requires SessionOk(s)
  {
    s.(reader := Away, ended := true, lost := s.lost || Pending(s.q) != [])
  }

  /** One step of the demultiplexer or the reader. Once the demultiplexer blocks it holds the lock, which a reader
      takes only when it begins. */
  function Step(s: Session, e: Event): Session
    requires SessionOk(s)
  {
    match e
    case Append(data, closing) =>
      var s' := s.(q := Appended(s.q, data, closing), appended := s.appended + data);
      if s.blocked then s
      else if !s.q.waiting then s'
      else if s.reader.Asleep? then s'.(reader := Woken(s.reader.n))
      else s'.(blocked := true)
    case Begin(n) =>
      if !s.reader.Away? then s
      else if s.q.chunks == [] && s.q.closed then AtEof(s)
      else if s.blocked then s
      else if |s.q.chunks| == s.q.chunkPos then s.(q := s.q.(waiting := true), reader := Asleep(n))
      else s.(reader := Copying(n))
    case Finish =>
      if !s.reader.Woken? then s
      else if s.q.closed then AtEof(s)
      else s.(q := s.q.(waiting := false), reader := Copying(s.reader.n))
    case Copy => if s.reader.Copying? then Copied(s, s.reader.n) else s
    case Empty => if s.reader.Emptying? then s.(q := Emptied(s.q), reader := Away) else s
  }

  function Run(events: seq<Event>): (s: Session)
    ensures SessionOk(s)
  {
    if events == [] then NEW_SESSION
    else
      var s := Run(events[..|events| - 1]);
      StepOk(s, events[|events| - 1]);
      Step(s, events[|events| - 1])
  }

  lemma StepOk(s: Session, e: Event)
    requires SessionOk(s)
    ensures SessionOk(Step(s, e))
  {
    hide Copied, Pending;
    if e.Copy? && s.reader.Copying? {
      CopiedOk(s, s.reader.n);
    }
  }

  lemma CopiedOk(s: Session, n: nat)
    requires InChunks(s.q)
    ensures SessionOk(Copied(s, n))
    ensures var s', m := Copied(s, n), Min(n, |Pending(s.q)|);
            && (s'.reader.Emptying? || s'.reader.Away?)
            && (s'.reader.Emptying? <==> |Pending(s.q)| < n || Pending(s.q) == [])
            && s'.lost == s.lost && s'.blocked == s.blocked && s'.ended == s.ended && s'.appended == s.appended
            && s'.q.closed == s.q.closed && s'.q.waiting == s.q.waiting && s'.q.chunks == s.q.chunks
            && s'.returned == s.returned + Pending(s.q)[..m] && Pending(s'.q) == Pending(s.q)[m..]
  {
    hide CopyOut, Pending;
    CopyOutTakesFirst(s.q, n);
  }

  lemma AppendedPending(q: Queue, data: seq<byte>, closing: bool)
    requires InChunks(q)
    ensures InChunks(Appended(q, data, closing)) && (QueueOk(q) ==> QueueOk(Appended(q, data, closing)))
    ensures Pending(Appended(q, data, closing)) == Pending(q) + data
  {
    if q.chunkPos == |q.chunks| {
      assert (q.chunks + [data])[q.chunkPos + 1..] == [] && (q.chunks + [data])[q.chunkPos] == data;
    } else {
      hide Flat;
      FlatOne(data);
      var rest := q.chunks[q.chunkPos + 1..];
      assert (q.chunks + [data])[q.chunkPos + 1..] == rest + [data];
      FlatAppend(rest, [data]);
      Regroup(q.chunks[q.chunkPos][q.inPos..], Flat(rest), data);
    }
  }

  lemma SamePending(q: Queue, waiting: bool)
    requires InChunks(q)
    ensures Pending(q.(waiting := waiting)) == Pending(q)
  {
  }

  lemma NothingPending(q: Queue)
    requires InChunks(q)
    ensures q.chunkPos == |q.chunks| ==> Pending(q) == []
  {
  }

  lemma {:induction false} OneMore(before: seq<Event>, e: Event)
    ensures Run(before + [e]) == Step(Run(before), e)
    ensures Run([]) == NEW_SESSION
  {
    assert (before + [e])[..|before|] == before;
  }

  lemma NothingRun()
    ensures Run([]) == NEW_SESSION
  {
  }

  lemma {:induction false} RunSteps(events: seq<Event>)
    requires events != []
    ensures Run(events) == Step(Run(events[..|events| - 1]), events[|events| - 1])
  {
    hide Step;
  }

  lemma AppendedCloses(q: Queue, data: seq<byte>, closing: bool)
    ensures Appended(q, data, closing).closed == closing && Appended(q, data, closing).waiting == q.waiting
  {
  }

  /** Steps other than an append only move bytes from what is pending to what was returned; emptying drops what is
      pending. */
  lemma StepMoves(s: Session, e: Event)
    requires SessionOk(s) && !e.Append?
    ensures var s' := Step(s, e);
            && SessionOk(s') && s'.appended == s.appended && s'.blocked == s.blocked
            && (e.Empty? && s.reader.Emptying? ==> s'.returned == s.returned && Pending(s'.q) == [])
            && (!(e.Empty? && s.reader.Emptying?) ==> s'.returned + Pending(s'.q) == s.returned + Pending(s.q))
            && s'.q.closed == s.q.closed
  {
    hide Copied, Pending;
    StepOk(s, e);
    match e
    case Begin(n) => SamePending(s.q, true);
    case Finish => SamePending(s.q, false);
    case Copy =>
      if s.reader.Copying? {
        CopiedOk(s, s.reader.n);
        var m := Min(s.reader.n, |Pending(s.q)|);
        assert Pending(s.q) == Pending(s.q)[..m] + Pending(s.q)[m..];
        Regroup(s.returned, Pending(s.q)[..m], Pending(s.q)[m..]);
      }
    case Empty => NothingPending(Emptied(s.q));
  }

  lemma StepAppends(s: Session, data: seq<byte>, closing: bool)
    requires SessionOk(s)
    ensures var s' := Step(s, Append(data, closing));
            && SessionOk(s') && s'.returned == s.returned
            && (s.blocked ==> s' == s)
            && (!s.blocked ==> s'.appended == s.appended + data && Pending(s'.q) == Pending(s.q) + data)
            && (!s.blocked ==> s'.q.closed == closing && s'.q.waiting == s.q.waiting)
            && (s'.reader.Emptying? <==> s.reader.Emptying?)
  {
    hide Pending;
    AppendedPending(s.q, data, closing);
  }

  /** A reader that sleeps left nothing, and one that was woken is still marked as waiting. */
  predicate SleepsRightly(s: Session) {
    && (s.reader.Asleep? ==> s.q.waiting && s.q.chunks == [] && !s.q.closed)
    && (s.reader.Woken? ==> s.q.waiting && s.q.chunks != [])
    && (s.reader.Copying? ==> s.q.chunks != [])
  }

  lemma {:induction false} RunSleepsRightly(events: seq<Event>)
    ensures SleepsRightly(Run(events))
    decreases |events|
  {
    hide Copied, Pending, Run;
    if events == [] {
      NothingRun();
    } else {
      var before, e := events[..|events| - 1], events[|events| - 1];
      RunSleepsRightly(before);
      RunSteps(events);
      var s := Run(before);
      if e.Copy? && s.reader.Copying? {
        CopiedOk(s, s.reader.n);
      }
    }
  }

  // ---------- First in, first out ----------

  /** The chunks appended since the reader ran its copying loops to the end, while it is about to drop all. */
  function Late(events: seq<Event>): (m: seq<Event>)
    ensures forall i :: 0 <= i < |m| ==> m[i].Append?
  {
    if events == [] then []
    else
      var before, e := events[..|events| - 1], events[|events| - 1];
      if !Run(before).reader.Emptying? || e.Empty? then []
      else if e.Append? && !Run(before).blocked then Late(before) + [e]
      else Late(before)
  }

  function BytesOf(m: seq<Event>): seq<byte>
    requires forall i :: 0 <= i < |m| ==> m[i].Append?
  {
    if m == [] then [] else BytesOf(m[..|m| - 1]) + m[|m| - 1].data
  }

  lemma {:induction false} OneMoreChunk(m: seq<Event>, e: Event)
    requires e.Append? && forall i :: 0 <= i < |m| ==> m[i].Append?
    ensures BytesOf(m + [e]) == BytesOf(m) + e.data
    ensures BytesOf([]) == []
  {
    assert (m + [e])[..|m|] == m;
  }

  function AllBut(s: seq<byte>, n: nat): seq<byte> {
    if n <= |s| then s[..|s| - n] else []
  }

  /** All bytes appended except those of late chunks, which are dropped. */
  function Survivors(events: seq<Event>): seq<byte> {
    if events == [] then []
    else
      var before, e := events[..|events| - 1], events[|events| - 1];
      match e
      case Append(data, _) => if Run(before).blocked then Survivors(before) else Survivors(before) + data
      case Empty => AllBut(Survivors(before), |BytesOf(Late(before))|)
      case _ => Survivors(before)
  }

  lemma {:induction false} LateMore(before: seq<Event>, e: Event)
    ensures Late(before + [e])
         == if !Run(before).reader.Emptying? || e.Empty? then []
            else if e.Append? && !Run(before).blocked then Late(before) + [e] else Late(before)
    ensures Late([]) == []
  {
    hide Run;
    assert (before + [e])[..|before|] == before;
  }

  lemma {:induction false} LateIsPending(events: seq<Event>)
    ensures if Run(events).reader.Emptying? then Pending(Run(events).q) == BytesOf(Late(events)) else Late(events) == []
    decreases |events|
  {
    hide Run, Late, Step, Pending, BytesOf;
    if events == [] {
      NothingRun();
      LateMore([], Finish);
    } else {
      var before, e := events[..|events| - 1], events[|events| - 1];
      assert events == before + [e];
      LateIsPending(before);
      LateMore(before, e);
      RunSteps(events);
      LateStep(Run(before), e);
      if e.Append? {
        OneMoreChunk(Late(before), e);
      } else {
        OneMoreChunk([], Append([], false));
      }
    }
  }

  /** Who is about to drop all chunks, and what is pending then. */
  lemma LateStep(s: Session, e: Event)
    requires SessionOk(s)
    ensures var s' := Step(s, e);
            && SessionOk(s')
            && (s.reader.Emptying? ==>
                  && (s'.reader.Emptying? <==> !e.Empty?)
                  && (s'.reader.Emptying? ==>
                        Pending(s'.q) == if e.Append? && !s.blocked then Pending(s.q) + e.data else Pending(s.q)))
            && (!s.reader.Emptying? && s'.reader.Emptying? ==> !e.Append? && Pending(s'.q) == [])
  {
    hide Copied, Pending;
    StepOk(s, e);
    if e.Append? {
      StepAppends(s, e.data, e.closing);
    } else if e.Copy? && s.reader.Copying? {
      CopiedOk(s, s.reader.n);
    }
  }

  /** The queue is a byte FIFO over every sequence of chunks, empty ones included, and read sizes, of exactly
      the bytes that survive. */
  lemma {:induction false} QueueIsFifo(events: seq<Event>)
    ensures var s := Run(events); s.returned + Pending(s.q) == Survivors(events)
    decreases |events|
  {
    hide Run, Step, Late, Pending, BytesOf;
    if events == [] {
      NothingRun();
      NothingPending(NEW_QUEUE);
    } else {
      var before, e := events[..|events| - 1], events[|events| - 1];
      QueueIsFifo(before);
      LateIsPending(before);
      RunSteps(events);
      var s := Run(before);
      OneMoreChunk([], Append([], false));
      if e.Append? {
        StepAppends(s, e.data, e.closing);
        Regroup(s.returned, Pending(s.q), e.data);
      } else {
        StepMoves(s, e);
        var late := BytesOf(Late(before));
        assert (s.returned + late)[..|s.returned|] == s.returned == s.returned + [];
        assert Survivors(before)[..|Survivors(before)|] == Survivors(before);
      }
    }
  }

  /** At event `k` the reader drops at least one byte: a chunk came after its copying loops had ended. */
  predicate DropsAt(events: seq<Event>, k: nat)
    requires k < |events|
  {
    events[k].Empty? && BytesOf(Late(events[..k])) != []
  }

  ghost predicate NothingDropped(events: seq<Event>) {
    forall k: nat :: k < |events| ==> !DropsAt(events, k)
  }

  lemma {:induction false} SurvivorsSize(events: seq<Event>)
    ensures |Survivors(events)| <= |Run(events).appended|
    ensures |BytesOf(Late(events))| <= |Survivors(events)|
    ensures NothingDropped(events) <==> |Survivors(events)| == |Run(events).appended|
    ensures NothingDropped(events) ==> Survivors(events) == Run(events).appended
    decreases |events|
  {
    hide Run, Step, Late, Pending, BytesOf;
    QueueIsFifo(events);
    LateIsPending(events);
    OneMoreChunk([], Append([], false));
    if events == [] {
      NothingRun();
    } else {
      var before, e := events[..|events| - 1], events[|events| - 1];
      SurvivorsSize(before);
      RunSteps(events);
      if e.Append? {
        StepAppends(Run(before), e.data, e.closing);
      } else {
        StepMoves(Run(before), e);
      }
      assert events[..|before|] == before;
      forall k: nat | k < |before| ensures DropsAt(events, k) <==> DropsAt(before, k) {
        assert events[..k] == before[..k];
      }
      assert NothingDropped(events) <==> NothingDropped(before) && !DropsAt(events, |before|) by {
        DroppedMore(events);
      }
      assert Survivors(before)[..|Survivors(before)|] == Survivors(before);
    }
  }

  lemma DroppedMore(events: seq<Event>)
    requires events != []
    ensures var n := |events| - 1;
            NothingDropped(events) <==> NothingDropped(events[..n]) && !DropsAt(events, n)
  {
    var before := events[..|events| - 1];
    forall k: nat | k < |before| ensures DropsAt(events, k) <==> DropsAt(before, k) {
      assert events[..k] == before[..k];
    }
  }

  /** The reader gets all bytes, in order, exactly when none comes between the end of its copying loops and the
      moment at which it drops the chunks. */
  lemma {:induction false} AllSurviveIff(events: seq<Event>)
    ensures var s := Run(events); s.returned + Pending(s.q) == s.appended <==> NothingDropped(events)
  {
    QueueIsFifo(events);
    SurvivorsSize(events);
  }

  // ---------- End of file ----------

  /** Nothing is appended between a reader's wake-up and its check for the close. */
  predicate AtomicWakes(events: seq<Event>)
    decreases |events|
  {
    events == [] ||
    (AtomicWakes(events[..|events| - 1]) &&
     (events[|events| - 1].Append? ==> !Run(events[..|events| - 1]).reader.Woken?))
  }

  /** A close carries no data, as CloseConnWithID sends it. */
  predicate BareCloses(events: seq<Event>) {
    forall i :: 0 <= i < |events| && events[i].Append? && events[i].closing ==> events[i].data == []
  }

  /** Nothing is appended after a close. */
  predicate ClosedLast(events: seq<Event>) {
    forall i, j :: 0 <= i < j < |events| && events[i].Append? && events[i].closing ==> !events[j].Append?
  }

  /** With wake-up and check in one, an end of file comes only when nothing is pending. */
  lemma {:induction false} EofAfterAllData(events: seq<Event>)
    requires AtomicWakes(events) && BareCloses(events)
    ensures !Run(events).lost
    ensures var s := Run(events); s.reader.Woken? && s.q.closed ==> Pending(s.q) == []
    decreases |events|
  {
    hide Copied, Pending;
    if events != [] {
      var before, e := events[..|events| - 1], events[|events| - 1];
      assert BareCloses(before) by { assert forall i :: 0 <= i < |before| ==> before[i] == events[i]; }
      EofAfterAllData(before);
      RunSleepsRightly(before);
      var s := Run(before);
      NothingPending(s.q);
      match e
      case Append(data, closing) => AppendedPending(s.q, data, closing);
      case Copy =>
        if s.reader.Copying? {
          CopiedOk(s, s.reader.n);
        }
      case _ =>
    }
  }

  /** Otherwise it need not: a close that arrives between a reader's wake-up and its check hides the chunk
      that woke it, and leaves the demultiplexer waiting for ever. */
  lemma EofBeforeData(data: seq<byte>, n: nat)
    requires data != []
    ensures var s := Run([Begin(n), Append(data, false), Append([], true), Finish]);
            s.lost && s.blocked && s.returned == [] && s.appended == data
  {
    hide Run, Step;
    OneMore([], Begin(n));
    OneMore([Begin(n)], Append(data, false));
    OneMore([Begin(n), Append(data, false)], Append([], true));
    OneMore([Begin(n), Append(data, false), Append([], true)], Finish);
    assert [] + [Begin(n)] == [Begin(n)] && [Begin(n)] + [Append(data, false)] == [Begin(n), Append(data, false)];
    assert [Begin(n), Append(data, false)] + [Append([], true)] == [Begin(n), Append(data, false), Append([], true)];
    assert [Begin(n), Append(data, false), Append([], true)] + [Finish] ==
             [Begin(n), Append(data, false), Append([], true), Finish];
    SleepAndWake(data, n);
    CloseAndCheck(data, n);
  }

  lemma SleepAndWake(data: seq<byte>, n: nat)
    ensures var asleep := Step(NEW_SESSION, Begin(n));
            && SessionOk(asleep)
            && Step(asleep, Append(data, false)) ==
                 Session(Queue([data], 0, 0, false, true), Woken(n), false, data, [], false, false)
  {
    assert [] + data == data;
  }

  lemma CloseAndCheck(data: seq<byte>, n: nat)
    requires data != []
    ensures var s := Step(Session(Queue([data], 0, 0, false, true), Woken(n), false, data, [], false, false),
              Append([], true));
            && SessionOk(s)
            && Step(s, Finish) == Session(Queue([data, []], 0, 0, true, true), Away, true, data, [], true, true)
  {
    var q := Queue([data, []], 0, 0, true, true);
    assert [data] + [[]] == [data, []] && data + [] == data;
    assert Pending(q)[0] == data[0];
  }

  /** Without chunks behind a close, and with wake-up and check in one, the demultiplexer never waits for a reader
      that is not there. */
  lemma {:induction false} NeverBlocks(events: seq<Event>)
    requires AtomicWakes(events) && ClosedLast(events)
    ensures var s := Run(events);
            && !s.blocked
            && (s.q.waiting ==> s.reader.Asleep? || s.reader.Woken? || s.q.closed)
            && (s.q.closed <==> exists i :: 0 <= i < |events| && events[i].Append? && events[i].closing)
    decreases |events|
  {
    hide Pending, Copied;
    if events != [] {
      var before, e := events[..|events| - 1], events[|events| - 1];
      assert forall i :: 0 <= i < |before| ==> before[i] == events[i];
      NeverBlocks(before);
      var s := Run(before);
      assert e == events[|events| - 1];
      if e.Copy? && s.reader.Copying? {
        CopiedOk(s, s.reader.n);
      }
    }
  }

  // ---------- Exactly when data is lost, and when the demultiplexer waits for ever ----------

  /** The chunks appended since the reader's last call began. */
  function Meanwhile(events: seq<Event>): (m: seq<Event>)
    ensures forall i :: 0 <= i < |m| ==> m[i].Append?
  {
    if events == [] then []
    else
      var before, e := events[..|events| - 1], events[|events| - 1];
      match e
      case Append(_, _) => if Run(before).blocked then Meanwhile(before) else Meanwhile(before) + [e]
      case Begin(_) => if Run(before).reader.Away? then [] else Meanwhile(before)
      case _ => Meanwhile(before)
  }

  /** At event `k` a reader that was woken meets a close, although bytes came since it fell asleep. */
  predicate LosesAt(events: seq<Event>, k: nat)
    requires k < |events|
  {
    var m := Meanwhile(events[..k]);
    events[k].Finish? && Run(events[..k]).reader.Woken? && m != [] && m[|m| - 1].closing && BytesOf(m) != []
  }

  /** What a woken reader finds is what came since it fell asleep. */
  lemma {:induction false} WokenFinds(events: seq<Event>)
    ensures var s, m := Run(events), Meanwhile(events);
            && (s.reader.Asleep? ==> m == [] && !s.blocked)
            && (s.reader.Woken? ==> m != [] && s.q.closed == m[|m| - 1].closing && Pending(s.q) == BytesOf(m))
    decreases |events|
  {
    hide Copied, Pending, Run, Appended, BytesOf;
    if events == [] {
      NothingRun();
    } else {
      var before, e := events[..|events| - 1], events[|events| - 1];
      WokenFinds(before);
      RunSleepsRightly(before);
      RunSteps(events);
      var s := Run(before);
      match e
      case Append(data, closing) =>
        AppendedPending(s.q, data, closing);
        NothingPending(s.q);
        AppendedCloses(s.q, data, closing);
        OneMoreChunk(Meanwhile(before), e);
      case Copy =>
        if s.reader.Copying? {
          CopiedOk(s, s.reader.n);
        }
      case _ =>
    }
  }

  /** An end of file comes before all data exactly when a woken reader meets a close and at least one byte
      was appended since it fell asleep: by the close itself, or by what woke it. */
  lemma {:induction false} LostIff(events: seq<Event>)
    ensures Run(events).lost <==> exists k: nat :: k < |events| && LosesAt(events, k)
    decreases |events|
  {
    hide Copied, Pending, Appended, Meanwhile, BytesOf, Run;
    if events == [] {
      NothingRun();
    } else {
      var before, e := events[..|events| - 1], events[|events| - 1];
      LostIff(before);
      WokenFinds(before);
      RunSteps(events);
      var s := Run(before);
      NothingPending(s.q);
      if e.Copy? && s.reader.Copying? {
        CopiedOk(s, s.reader.n);
      }
      assert LosesAt(events, |before|) <==> e.Finish? && s.reader.Woken? && s.q.closed && Pending(s.q) != [];
      forall k: nat | k < |before| ensures LosesAt(events, k) <==> LosesAt(before, k) {
        assert events[..k] == before[..k];
      }
    }
  }

  /** At event `k` a reader that was woken meets a close: the flag that somebody waits stays set. */
  predicate EndsWokenAt(events: seq<Event>, k: nat)
    requires k < |events|
  {
    events[k].Finish? && Run(events[..k]).reader.Woken? && Run(events[..k]).q.closed
  }

  predicate FlagLeftSet(events: seq<Event>) {
    exists k :: 0 <= k < |events| && EndsWokenAt(events, k)
  }

  /** At event `k` a chunk arrives for a reader that is woken already, or that ended while woken. */
  predicate BlocksAt(events: seq<Event>, k: nat)
    requires k < |events|
  {
    events[k].Append? && (Run(events[..k]).reader.Woken? || FlagLeftSet(events[..k]))
  }

  /** After a woken reader met a close the flag is set and nobody will ever wait again. */
  lemma {:induction false} FlagStaysSet(events: seq<Event>)
    ensures var s := Run(events);
            && (FlagLeftSet(events) ==>
                  s.blocked || (s.q.waiting && s.q.closed && !s.reader.Asleep? && !s.reader.Woken?))
            && (s.q.waiting && !s.reader.Asleep? && !s.reader.Woken? ==> FlagLeftSet(events))
            && (s.reader.Asleep? || s.reader.Woken? ==> s.q.waiting)
    decreases |events|
  {
    hide Copied, Pending, Appended, Meanwhile, BytesOf, Run, FlagLeftSet;
    if events == [] {
      NothingRun();
      NoFlagAtFirst();
    } else {
      var before, e := events[..|events| - 1], events[|events| - 1];
      FlagStaysSet(before);
      WokenFinds(before);
      FlagMore(before, e);
      RunSteps(events);
      assert events == before + [e];
      var s := Run(before);
      match e
      case Append(data, closing) => AppendedCloses(s.q, data, closing);
      case Copy =>
        if s.reader.Copying? {
          CopiedOk(s, s.reader.n);
        }
      case _ =>
    }
  }

  lemma NoFlagAtFirst()
    ensures !FlagLeftSet([])
  {
  }

  lemma {:induction false} FlagMore(before: seq<Event>, e: Event)
    ensures FlagLeftSet(before + [e]) <==>
            FlagLeftSet(before) || (e.Finish? && Run(before).reader.Woken? && Run(before).q.closed)
  {
    var events := before + [e];
    assert events[..|before|] == before && events[|before|] == e;
    assert EndsWokenAt(events, |before|) <==> (e.Finish? && Run(before).reader.Woken? && Run(before).q.closed);
    forall k: nat | k < |before| ensures EndsWokenAt(events, k) <==> EndsWokenAt(before, k) {
      assert events[..k] == before[..k];
    }
  }

  /** The demultiplexer waits for ever exactly when a chunk arrives between a reader's wake-up and its check
      for the close, or after a woken reader met a close. */
  lemma {:induction false} BlockedIff(events: seq<Event>)
    ensures Run(events).blocked <==> exists k: nat :: k < |events| && BlocksAt(events, k)
    decreases |events|
  {
    hide Copied, Pending, FlagLeftSet, Run, Appended;
    if events == [] {
      NothingRun();
    } else {
      var before, e := events[..|events| - 1], events[|events| - 1];
      RunSteps(events);
      BlockedIff(before);
      FlagStaysSet(before);
      var s := Run(before);
      if e.Copy? && s.reader.Copying? {
        CopiedOk(s, s.reader.n);
      }
      assert BlocksAt(events, |before|) <==> e.Append? && (s.reader.Woken? || FlagLeftSet(before));
      forall k: nat | k < |before| ensures BlocksAt(events, k) <==> BlocksAt(before, k) {
        assert events[..k] == before[..k];
      }
    }
  }

  /** A read of a reader that does not have to sleep, with nothing appended meanwhile. */
  function WholeRead(s: Session, n: nat): (r: Session)
    requires SessionOk(s)
    ensures SessionOk(r)
  {
    StepOk(s, Begin(n));
    StepOk(Step(s, Begin(n)), Copy);
    StepOk(Step(Step(s, Begin(n)), Copy), Empty);
    Step(Step(Step(s, Begin(n)), Copy), Empty)
  }

  /** `k` reads with a buffer of `n` bytes. */
  function Reads(s: Session, n: nat, k: nat): (r: Session)
    requires SessionOk(s)
    ensures SessionOk(r)
    decreases k
  {
    if k == 0 then s else Reads(WholeRead(s, n), n, k - 1)
  }

  /** What a whole read returns and leaves. */
  lemma WholeReadIs(s: Session, n: nat)
    requires SessionOk(s) && s.reader.Away?
    ensures var s', m := WholeRead(s, n), Min(n, |Pending(s.q)|);
            && (s.q.chunks == [] && s.q.closed ==> s' == AtEof(s))
            && (s.q.chunks == [] && !s.q.closed && !s.blocked ==> s'.reader == Asleep(n) && s'.returned == s.returned)
            && (s.q.chunks != [] && !s.blocked ==>
                  && s'.reader.Away? && s'.ended == s.ended && !s'.blocked && s'.q.closed == s.q.closed
                  && s'.returned == s.returned + Pending(s.q)[..m] && Pending(s'.q) == Pending(s.q)[m..]
                  && s'.q.chunks == if |Pending(s.q)| < n || Pending(s.q) == [] then [] else s.q.chunks)
  {
    hide Copied, Pending;
    if s.q.chunks != [] && !s.blocked {
      var s1 := Step(s, Begin(n));
      CopiedOk(s1, n);
      NothingPending(Emptied(Copied(s1, n).q));
    }
  }

  lemma ReadAfterClose(s: Session, n: nat)
    requires SessionOk(s) && s.q.closed && s.reader.Away? && !s.blocked && n > 0
    ensures var s' := WholeRead(s, n);
            && s'.q.closed && s'.reader.Away? && !s'.blocked
            && (s.q.chunks == [] ==> s'.ended && s'.q == s.q && s'.returned == s.returned && Pending(s.q) == [])
            && (s.q.chunks != [] ==>
                  && |Pending(s'.q)| + |s'.q.chunks| < |Pending(s.q)| + |s.q.chunks|
                  && s'.returned + Pending(s'.q) == s.returned + Pending(s.q))
  {
    hide Step, Pending, WholeRead;
    NothingPending(s.q);
    WholeReadIs(s, n);
    var m := Min(n, |Pending(s.q)|);
    assert Pending(s.q) == Pending(s.q)[..m] + Pending(s.q)[m..];
    Regroup(s.returned, Pending(s.q)[..m], Pending(s.q)[m..]);
  }

  /** The reader of a closed connection gets all that is pending and then an end of file; it never sleeps. */
  lemma {:induction false} CloseIsSeen(s: Session, n: nat, k: nat)
    requires SessionOk(s) && s.q.closed && s.reader.Away? && !s.blocked && n > 0
    requires k > |Pending(s.q)| + |s.q.chunks|
    ensures var r := Reads(s, n, k); r.ended && r.returned == s.returned + Pending(s.q)
    decreases k
  {
    hide Pending, Step, WholeRead;
    ReadAfterClose(s, n);
    var s' := WholeRead(s, n);
    if s.q.chunks == [] {
      StaysEnded(s', n, k - 1);
    } else {
      CloseIsSeen(s', n, k - 1);
    }
  }

  lemma {:induction false} StaysEnded(s: Session, n: nat, k: nat)
    requires SessionOk(s) && s.q.chunks == [] && s.q.closed && s.reader.Away? && s.ended
    ensures Reads(s, n, k).ended && Reads(s, n, k).returned == s.returned
    decreases k
  {
    hide Pending, WholeRead;
    if k > 0 {
      WholeReadIs(s, n);
      StaysEnded(WholeRead(s, n), n, k - 1);
    }
  }

  /** What a woken read does, with nothing appended meanwhile. */
  function WokenRead(s: Session): (r: Session)
    requires SessionOk(s)
    ensures SessionOk(r)
  {
    StepOk(s, Finish);
    StepOk(Step(s, Finish), Copy);
    StepOk(Step(Step(s, Finish), Copy), Empty);
    Step(Step(Step(s, Finish), Copy), Empty)
  }

  /** Unless it meets a close, it returns as much as it has room for of what is pending. */
  lemma WokenReadIs(s: Session)
    requires SessionOk(s) && s.reader.Woken?
    ensures var s', m := WokenRead(s), Min(s.reader.n, |Pending(s.q)|);
            && s'.reader.Away?
            && (s.q.closed ==> s' == AtEof(s))
            && (!s.q.closed ==>
                  && s'.ended == s.ended && s'.lost == s.lost && !s'.q.waiting
                  && s'.returned == s.returned + Pending(s.q)[..m] && Pending(s'.q) == Pending(s.q)[m..])
  {
    hide Copied, Pending;
    if !s.q.closed {
      var s1 := Step(s, Finish);
      SamePending(s.q, false);
      CopiedOk(s1, s.reader.n);
      NothingPending(Emptied(Copied(s1, s.reader.n).q));
    }
  }

  /** The first chunk that comes for a sleeping reader wakes it. */
  lemma AppendWakes(s: Session, data: seq<byte>, closing: bool)
    requires SessionOk(s) && SleepsRightly(s) && s.reader.Asleep? && !s.blocked
    ensures var s' := Step(s, Append(data, closing)); s'.reader == Woken(s.reader.n) && !s'.blocked
  {
  }

  /** The read returns no bytes, without an end of file and without sleeping first. */
  predicate EmptyRead(s: Session, n: nat)
    requires SessionOk(s)
  {
    StepOk(s, Begin(n));
    Step(s, Begin(n)).reader.Copying? && WholeRead(s, n).reader.Away? && WholeRead(s, n).returned == s.returned
  }

  /** Exactly when that happens, with a buffer that is not empty: when there are chunks, but no bytes in what is
      left of them. */
  lemma EmptyReadIff(s: Session, n: nat)
    requires SessionOk(s) && s.reader.Away? && n > 0
    ensures EmptyRead(s, n) <==> !s.blocked && s.q.chunks != [] && Pending(s.q) == []
  {
    hide Pending, WholeRead;
    WholeReadIs(s, n);
    var m := Min(n, |Pending(s.q)|);
    assert (s.returned + Pending(s.q)[..m])[|s.returned|..] == Pending(s.q)[..m];
  }

  /** After a read that took exactly what there was it does, unless the demultiplexer waits for ever. */
  lemma EmptyReadAfterFullOne(s: Session, m: nat)
    requires SessionOk(s) && s.reader.Away? && !s.blocked && Pending(s.q) != [] && m > 0
    ensures var s1 := WholeRead(s, |Pending(s.q)|); s1.returned == s.returned + Pending(s.q) && EmptyRead(s1, m)
  {
    hide Pending, WholeRead, EmptyRead;
    NothingPending(s.q);
    WholeReadIs(s, |Pending(s.q)|);
    assert Pending(s.q)[..|Pending(s.q)|] == Pending(s.q) && Pending(s.q)[|Pending(s.q)|..] == [];
    EmptyReadIff(WholeRead(s, |Pending(s.q)|), m);
  }

  // ---------- The connection ----------

  datatype ReadResult = Eof | Wait | Go

  /** Read until it has to wait or starts to copy. */
  function BeginOf(q: Queue): (ReadResult, Queue) {
    if q.chunks == [] && q.closed then (Eof, q)
    else if |q.chunks| == q.chunkPos then (Wait, q.(waiting := true))
    else (Go, q)
  }

  /** Read when it was woken, until it starts to copy. */
  function FinishOf(q: Queue): (ReadResult, Queue) {
    if q.closed then (Eof, q) else (Go, q.(waiting := false))
  }

  /** The steps of a run are what the connection does: the reader ends, sleeps or goes on to copy. */
  lemma StepsOfConn(s: Session, n: nat)
    requires SessionOk(s)
    ensures s.reader.Away? && (!s.blocked || BeginOf(s.q).0 == Eof) ==>
              var (r, q) := BeginOf(s.q);
              Step(s, Begin(n)) == match r
                case Eof => AtEof(s)
                case Wait => s.(q := q, reader := Asleep(n))
                case Go => s.(q := q, reader := Copying(n))
    ensures s.reader.Woken? ==>
              var (r, q) := FinishOf(s.q);
              Step(s, Finish) == if r == Eof then AtEof(s) else s.(q := q, reader := Copying(s.reader.n))
    ensures s.reader.Copying? ==>
              var (q, out) := CopyOut(s.q, s.reader.n);
              Step(s, Copy) == s.(q := q, returned := s.returned + out,
                                  reader := if q.chunkPos < |q.chunks| then Away else Emptying)
    ensures s.reader.Emptying? ==> Step(s, Empty) == s.(q := Emptied(s.q), reader := Away)
  {
    hide Pending, CopyOut;
    if s.reader.Copying? {
      CopyOutTakesFirst(s.q, s.reader.n);
    }
  }

  class Conn {
    var closed: bool
    var unreadChunks: seq<seq<byte>>
    var unreadChunkPos: nat
    var unreadInChunkPos: nat
    var isWaiting: bool

    constructor ()
      ensures State() == NEW_QUEUE
    {
      closed, unreadChunks, unreadChunkPos, unreadInChunkPos, isWaiting := false, [], 0, 0, false;
    }

    ghost function State(): Queue
      reads this
    {
      Queue(unreadChunks, unreadChunkPos, unreadInChunkPos, closed, isWaiting)
    }

    /** writeUnread; `wake` is that somebody is sent a signal. */
    method WriteUnread(data: seq<byte>, closing: bool) returns (wake: bool)
      modifies this
      ensures State() == Appended(old(State()), data, closing) && wake == isWaiting
    {
      unreadChunks := unreadChunks + [data];
      closed := closing;
      wake := isWaiting;
    }

    /** Read until it has to wait or starts to copy. */
    method BeginRead() returns (r: ReadResult)
      requires QueueOk(State())
      modifies this`isWaiting
      ensures (r, State()) == BeginOf(old(State()))
    {
      if |unreadChunks| == 0 && closed {
        return Eof;
      }
      if |unreadChunks| == unreadChunkPos {
        isWaiting := true;
        return Wait;
      }
      return Go;
    }

    /** Read when it was woken, until it starts to copy. */
    method FinishRead() returns (r: ReadResult)
      modifies this`isWaiting
      ensures (r, State()) == FinishOf(old(State()))
    {
      if closed {
        return Eof;
      }
      isWaiting := false;
      return Go;
    }

    /** The built-in copy to `p[n:]`. */
    static method CopyTo(p: array<byte>, n: nat, src: seq<byte>) returns (m: nat)
      requires n <= p.Length
      modifies p
      ensures m == Min(p.Length - n, |src|)
      ensures p[..n + m] == old(p[..n]) + src[..m]
    {
      m := Min(p.Length - n, |src|);
      forall i | 0 <= i < m {
        p[n + i] := src[i];
      }
    }

    /** The copying loops; `full` is that they returned because the buffer was full. */
    method CopyUnread(p: array<byte>) returns (n: nat, full: bool)
      requires InChunks(State())
      modifies this`unreadChunkPos, this`unreadInChunkPos, p
      ensures n <= p.Length && (State(), p[..n]) == CopyOut(old(State()), p.Length)
      ensures full <==> unreadChunkPos < |unreadChunks|
    {
      hide CopyOut, Pending, InChunks;
      ghost var spec := CopyOut(State(), p.Length);
      n := 0;
      assert p[..0] + spec.1 == spec.1;
      while unreadChunkPos < |unreadChunks|
        invariant n <= p.Length && InChunks(State())
        invariant CopyOut(State(), p.Length - n).0 == spec.0
        invariant p[..n] + CopyOut(State(), p.Length - n).1 == spec.1
        decreases |unreadChunks| - unreadChunkPos
      {
        PositionInChunk(State());
        CopyOutGoesOn(State(), p.Length - n, p[..n]);
        var chunk := unreadChunks[unreadChunkPos];
        ghost var done, c := p[..n], chunk[unreadInChunkPos..];
        if unreadInChunkPos < |chunk| {
          var numCopied := CopyTo(p, n, chunk[unreadInChunkPos..]);
          n := n + numCopied;
          unreadInChunkPos := unreadInChunkPos + numCopied;
          if n >= p.Length {
            return n, true;
          }
          assert c[..|c|] == c;
        }
        assert p[..n] == done + c;
        unreadChunkPos := unreadChunkPos + 1;
        unreadInChunkPos := 0;
      }
      PositionInChunk(State());
      CopyOutSteps(State(), p.Length - n);
      assert p[..n] + [] == p[..n];
      return n, false;
    }

    /** The end of a Read that did not fill its buffer. */
    method EmptyUnread()
      modifies this`unreadChunks, this`unreadChunkPos, this`unreadInChunkPos
      ensures State() == Emptied(old(State()))
    {
      unreadChunks := [];
      unreadChunkPos := 0;
      unreadInChunkPos := 0;
    }
  }
}
