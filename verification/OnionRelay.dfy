/**
 The step-by-step code of a relay: the encryption stream of crypto/crypto.go and the two copy loops.
 */
module OnionRelay {
  import opened Wrappers
  import opened Bytes
  import opened Framing
  import opened FramingSafety
  import opened FramingWriter
  import opened Onion
  import opened OnionForward
  import opened OnionBackward
  import TransformConn

  /** NewEncryptionStream: one key, and a position for each direction. */
  class Stream {
    const key: Keystream
    var readPos: nat
    var writePos: nat
    var source: Source       // the connection below, as a reader
    var out: seq<byte>       // what was written to the connection below

    constructor (key: Keystream, source: Source)
      ensures this.key == key && readPos == 0 && writePos == 0 && this.source == source && out == []
    {
      this.key, readPos, writePos, this.source, out := key, 0, 0, source, [];
    }

    /** cipher.StreamReader.Read. */
    method Read(p: array<byte>) returns (n: nat, err: Option<Error>)
      modifies this`source, this`readPos, p
      ensures var (src, got) := SourceRead(old(source), p.Length);
              && source == src
              && match got
                 case Data(d) => err == None && n == |d| && p[..n] == Ctr(key, old(readPos), d) &&
                   readPos == old(readPos) + n
                 case Fail(e) => err == Some(e) && n == 0 && readPos == old(readPos)
    {
      var (src, got) := SourceRead(source, p.Length);
      source := src;
      if got.Fail? {
        return 0, Some(got.error);
      }
      n, err := |got.bytes|, None;
      for i := 0 to n
        invariant source == src && readPos == old(readPos)
        invariant p[..i] == Ctr(key, readPos, got.bytes)[..i]
      {
        p[i] := XorByte(got.bytes[i], key(readPos + i));
      }
      readPos := readPos + n;
    }

    /** cipher.StreamWriter.Write of the first `n` bytes: they are encrypted in a copy. */
    method Write(p: array<byte>, n: nat)
      requires n <= p.Length
      modifies this`writePos, this`out
      ensures out == old(out) + Ctr(key, old(writePos), p[..n]) && writePos == old(writePos) + n
    {
      var c: seq<byte> := [];
      for i := 0 to n
        invariant out == old(out) && writePos == old(writePos) && p[..n] == old(p[..n])
        invariant c == Ctr(key, writePos, p[..n])[..i]
      {
        c := c + [XorByte(p[i], key(writePos + i))];
      }
      assert c == Ctr(key, writePos, p[..n]);
      out, writePos := out + c, writePos + n;
    }
  }

  // ---------- A relay's loop towards the final node ----------

  /** Rounds until a read fails, and the error it fails with. */
  function CopyAllUp(key: Keystream, r: Relay, src: Source): (o: (Relay, Source, seq<byte>, Error))
    requires src.Link? && !r.stopped
    ensures o.0.stopped && o.1.Link?
    decreases |src.script|, |r.reader.unread| + |r.reader.overflow|
  {
    var got := LinkRead(DEFAULTS, r.reader, src, RELAY_BUFFER).2;
    var (r1, src1, out) := CopyUp(key, r, src);
    match got
    case Fail(e) => (r1, src1, out, e)
    case Data(_) =>
      RoundProgress(r.reader, src);
      var (r2, src2, rest, e) := CopyAllUp(key, r1, src1);
      (r2, src2, out + rest, e)
  }

  lemma {:induction false} CopyAllUpSteps(key: Keystream, r: Relay, src: Source)
    requires src.Link? && !r.stopped
    ensures var got := LinkRead(DEFAULTS, r.reader, src, RELAY_BUFFER).2;
            var (r1, src1, out) := CopyUp(key, r, src);
            match got
            case Fail(e) => CopyAllUp(key, r, src) == (r1, src1, out, e)
            case Data(_) =>
              !r1.stopped && src1.Link? &&
              var (r2, src2, rest, e) := CopyAllUp(key, r1, src1); CopyAllUp(key, r, src) == (r2, src2, out + rest, e)
  {
    hide FrameRead, LinkRead;
    RoundProgress(r.reader, src);
  }

  lemma {:induction false} RefillProgress(below: Source, d: seq<byte>, size: nat, room: nat)
    requires below.Link? && |d| <= room && LEN_PACKET_SIZE + size <= room
    ensures var (below', full) := Refill(below, d, size, room);
            && below'.Link? && |below'.script| <= |below.script|
            && (full.Ok? && |below'.script| == |below.script| ==> full.value == d)
    decreases |below.script|
  {
    if |d| < LEN_PACKET_SIZE + size && below.script != [] {
      var (below', got) := SourceRead(below, room - |d|);
      if got.Data? && got.bytes != [] {
        RefillProgress(below', d + got.bytes, size, room);
      }
    }
  }

  lemma {:induction false} PacketProgress(r: Reader, src: Source)
    requires src.Link?
    ensures var (below, room, packet) := ReadPacket(DEFAULTS, r, src);
            && below.Link? && |below.script| <= |src.script|
            && (packet.Ok? && |below.script| == |src.script| ==>
                 |packet.value.payload| + |packet.value.over| < |r.overflow|)
  {
    hide Refill, SourceRead, FirstBytes;
    var (below, first) := FirstBytes(r, src);
    FirstProgress(r, src);
    if first.Data? && LEN_PACKET_SIZE <= |first.bytes| {
      var size := Uint32(first.bytes[..LEN_PACKET_SIZE]);
      if size <= MAX_PACKET_SIZE {
        RefillProgress(below, first.bytes, size, Max(r.room, size + LEN_PACKET_SIZE));
      }
    }
  }

  /** A successful read used up an event of the link, or some of what the connection held. */
  lemma RoundProgress(r: Reader, src: Source)
    requires src.Link?
    ensures var (r', src', got) := LinkRead(DEFAULTS, r, src, RELAY_BUFFER);
            && |src'.script| <= |src.script|
            && (got.Data? && |src'.script| == |src.script| ==> |r'.unread| + |r'.overflow| < |r.unread| + |r.overflow|)
  {
    hide ReadPacket, Stored;
    if r.unread == [] {
      PacketProgress(r, src);
      var (below, room, packet) := ReadPacket(DEFAULTS, r, src);
      if packet.Ok? {
        StoredAtMost(room, 0, packet.value.payload);
      }
    }
  }

  lemma {:induction false} FirstProgress(r: Reader, src: Source)
    requires src.Link?
    ensures var (below, first) := FirstBytes(r, src);
            && below.Link? && |below.script| <= |src.script|
            && (first.Data? && |below.script| == |src.script| ==> r.overflow != [] && |first.bytes| <= |r.overflow|)
  {
  }

  /** One round in terms of the connection's read. */
  lemma {:induction false} OneRound(key: Keystream, r: Reader, pos: nat, src: Source)
    requires src.Link?
    ensures var (r', src', got) := FrameRead(DEFAULTS, r, src, RELAY_BUFFER);
            && src'.Link? && |src'.script| <= |src.script|
            && (got.Data? && |src'.script| == |src.script| ==> |r'.unread| + |r'.overflow| < |r.unread| + |r.overflow|)
            && match got
               case Fail(e) => CopyAllUp(key, Relay(r, pos, false), src) == (Relay(r', pos, true), src', [], e)
               case Data(d) =>
                 var (r2, src2, rest, e) := CopyAllUp(key, Relay(r', pos + |d|, false), src');
                 CopyAllUp(key, Relay(r, pos, false), src) == (r2, src2, Ctr(key, pos, d) + rest, e)
  {
    hide FrameRead, CopyAllUp, Ctr;
    assert LinkRead(DEFAULTS, r, src, RELAY_BUFFER) == FrameRead(DEFAULTS, r, src, RELAY_BUFFER);
    RoundProgress(r, src);
    CopyAllUpSteps(key, Relay(r, pos, false), src);
  }

  /** copyWithRandomWait from the framing connection to the key. */
  method CopyForward(prev: TransformConn.Conn, next: Stream) returns (err: Option<Error>)
    requires prev.Valid() && prev.cfg == DEFAULTS && prev.source.Link?
    modifies prev, prev.unread, prev.packetOverflow, next
    ensures prev.Valid()
    ensures var (r, src, out, e) :=
              CopyAllUp(next.key, Relay(old(prev.Buffers()), old(next.writePos), false), old(prev.source));
            && prev.Buffers() == r.reader && prev.source == src
            && next.writePos == r.pos && next.out == old(next.out) + out
            && err == if e == Eof then None else Some(e)
    ensures next.source == old(next.source) && next.readPos == old(next.readPos) && prev.out == old(prev.out)
  {
    hide FrameRead, CopyAllUp, Ctr, SourceRead, ReadPacket;
    var buf := new byte[RELAY_BUFFER];
    ghost var spec := CopyAllUp(next.key, Relay(prev.Buffers(), next.writePos, false), prev.source);
    ghost var done: seq<byte> := [];
    assert [] + spec.2 == spec.2 && next.out + [] == next.out;
    while true
      invariant prev.Valid() && prev.source.Link?
      invariant prev.unread == old(prev.unread) || fresh(prev.unread)
      invariant prev.packetOverflow == old(prev.packetOverflow) || fresh(prev.packetOverflow)
      invariant buf != prev.unread && buf != prev.packetOverflow
      invariant next.out == old(next.out) + done
      invariant var (r, src, out, e) := CopyAllUp(next.key, Relay(prev.Buffers(), next.writePos, false), prev.source);
                spec == (r, src, done + out, e)
      invariant next.source == old(next.source) && next.readPos == old(next.readPos) && prev.out == old(prev.out)
      decreases |prev.source.script|, |prev.Buffers().unread| + |prev.Buffers().overflow|
    {
      OneRound(next.key, prev.Buffers(), next.writePos, prev.source);
      var numRead;
      numRead, err := prev.Read(buf);
      if err.Some? {
        assert done + [] == done;
        return if err == Some(Eof) then None else err;
      }
      ghost var c := Ctr(next.key, next.writePos, buf[..numRead]);
      Regroup(done, c, CopyAllUp(next.key, Relay(prev.Buffers(), next.writePos + numRead, false), prev.source).2);
      Regroup(old(next.out), done, c);
      done := done + c;
      if numRead == 0 {
        continue;
      }
      next.Write(buf, numRead);
    }
  }

  // ---------- A relay's loop towards the client ----------

  function CopyAllDown(key: Keystream, r: BackRelay, src: Source): (o: (BackRelay, Source, seq<byte>, Error))
    requires src.Link? && !r.stopped
    ensures o.0.stopped && o.1.Link?
    decreases |src.script|
  {
    var got := SourceRead(src, RELAY_BUFFER).1;
    var (r1, src1, out) := CopyDown(key, r, src);
    match got
    case Fail(e) => (r1, src1, out, e)
    case Data(_) =>
      var (r2, src2, rest, e) := CopyAllDown(key, r1, src1);
      (r2, src2, out + rest, e)
  }

  lemma {:induction false} OneRoundDown(key: Keystream, r: BackRelay, src: Source)
    requires src.Link? && !r.stopped
    ensures var (r1, src1, out) := CopyDown(key, r, src);
            src1.Link? &&
            match SourceRead(src, RELAY_BUFFER).1
            case Fail(e) => CopyAllDown(key, r, src) == (r1, src1, out, e)
            case Data(_) =>
              && !r1.stopped && |src1.script| < |src.script|
              && var (r2, src2, rest, e) := CopyAllDown(key, r1, src1);
                 CopyAllDown(key, r, src) == (r2, src2, out + rest, e)
  {
    hide Send, Wire;
  }

  lemma {:induction false} CopyAllDownSteps(key: Keystream, pos: nat, src: Source)
    requires src.Link?
    ensures var (src1, got) := SourceRead(src, RELAY_BUFFER);
            match got
            case Fail(e) => CopyAllDown(key, BackRelay(pos, false), src) == (BackRelay(pos, true), src1, [], e)
            case Data(d) =>
              && src1.Link? && |src1.script| < |src.script| && SmallFits(DEFAULTS)
              && var (r2, src2, rest, e) := CopyAllDown(key, BackRelay(pos + |d|, false), src1);
                 CopyAllDown(key, BackRelay(pos, false), src)
                 == (r2, src2, (if d == [] then [] else Wire(Send(DEFAULTS, Ctr(key, pos, d), |d|).frames)) + rest, e)
  {
    hide Send, Wire;
    DefaultsAreBare();
  }

  /** copyWithRandomWait from the key to the framing connection, which may shift the bytes inside the
      buffer of the loop. */
  method CopyBackward(next: Stream, prev: TransformConn.Conn) returns (err: Option<Error>)
    requires prev.cfg == DEFAULTS && next.source.Link?
    modifies next, prev`out
    ensures var (r, src, out, e) := CopyAllDown(next.key, BackRelay(old(next.readPos), false), old(next.source));
            && next.source == src && next.readPos == r.pos
            && prev.out == old(prev.out) + out
            && err == if e == Eof then None else Some(e)
    ensures next.out == old(next.out) && next.writePos == old(next.writePos)
  {
    hide Send, Wire, CopyAllDown, SmallFits;
    DefaultsAreBare();
    var buf := new byte[RELAY_BUFFER];
    ghost var spec := CopyAllDown(next.key, BackRelay(next.readPos, false), next.source);
    ghost var done: seq<byte> := [];
    assert [] + spec.2 == spec.2 && prev.out + [] == prev.out;
    while true
      invariant next.source.Link?
      invariant prev.out == old(prev.out) + done
      invariant var (r, src, out, e) := CopyAllDown(next.key, BackRelay(next.readPos, false), next.source);
                spec == (r, src, done + out, e)
      invariant next.out == old(next.out) && next.writePos == old(next.writePos)
      decreases |next.source.script|
    {
      CopyAllDownSteps(next.key, next.readPos, next.source);
      var numRead;
      numRead, err := next.Read(buf);
      if err.Some? {
        assert done + [] == done;
        return if err == Some(Eof) then None else err;
      }
      ghost var rest := CopyAllDown(next.key, BackRelay(next.readPos, false), next.source).2;
      if numRead == 0 {
        assert done + ([] + rest) == done + rest;
        continue;
      }
      ghost var mem, d := buf[..], buf[..numRead];
      assert buf[0..] == mem && mem[..numRead] == d;
      FramesOfSlice(mem, numRead);
      ghost var f := Wire(Send(DEFAULTS, d, numRead).frames);
      assert done + (f + rest) == (done + f) + rest;
      assert old(prev.out) + done + f == old(prev.out) + (done + f);
      var outcome := prev.Write(buf, 0, numRead);
      assert outcome == Wrote(numRead);
      done := done + f;
    }
  }

  /** Behind the slice the buffer may hold anything. */
  lemma {:induction false} FramesOfSlice(mem: seq<byte>, n: nat)
    requires n <= |mem| && n <= MAX_PACKET_SIZE && SmallFits(DEFAULTS)
    ensures Send(DEFAULTS, mem, n).frames == Send(DEFAULTS, mem[..n], n).frames
    ensures Send(DEFAULTS, mem, n).outcome == Wrote(n)
  {
    hide Send;
    BareWriteOneFrame(DEFAULTS, mem, n);
    BareWriteOneFrame(DEFAULTS, mem[..n], n);
    assert mem[..n][..n] == mem[..n];
  }

  // ---------- The loops are runs ----------

  lemma {:induction false} OneMoreUp(keys: seq<Key>, start: Up, before: seq<UpAction>, a: UpAction)
    requires UpShape(keys, start) && (forall b :: b in before ==> UpAllowed(keys, b)) && UpAllowed(keys, a)
    ensures UpRun(keys, start, before + [a]) == UpStep(keys, UpRun(keys, start, before), a)
  {
    assert (before + [a])[..|before|] == before;
  }

  /** The last action is a round of relay `i` whose read fails with this error. */
  ghost predicate EndsWith(keys: seq<Key>, start: Up, actions: seq<UpAction>, i: nat, e: Error)
    requires UpShape(keys, start) && (forall a :: a in actions ==> UpAllowed(keys, a)) && i < |keys|
  {
    actions != [] &&
    var before, a := UpRun(keys, start, actions[..|actions| - 1]), actions[|actions| - 1];
    a.Copy? && a.relay == i &&
    LinkRead(DEFAULTS, before.relays[i].reader, Link(before.pipes[i].inflight, a.script), RELAY_BUFFER).2 == Fail(e)
  }

  /** What the loop of a relay does from any point of a run until it stops, is what it does in a longer run
      of single rounds; and the error it stops with is that of the last read. */
  lemma {:induction false} ForwardLoopIsRun(keys: seq<Key>, start: Up, before: seq<UpAction>, i: nat,
      script: seq<Event>)
    returns (after: seq<UpAction>)
    requires UpShape(keys, start) && forall a :: a in before ==> UpAllowed(keys, a)
    requires i < |keys| && !UpRun(keys, start, before).relays[i].stopped
    ensures before < after && forall a :: a in after ==> UpAllowed(keys, a)
    ensures EndsWith(keys, start, after, i,
              CopyAllUp(keys[i].stream, UpRun(keys, start, before).relays[i],
                Link(UpRun(keys, start, before).pipes[i].inflight, script)).3)
    ensures var s, s' := UpRun(keys, start, before), UpRun(keys, start, after);
            var (r, src, out, _) := CopyAllUp(keys[i].stream, s.relays[i], Link(s.pipes[i].inflight, script));
            && s'.relays == s.relays[i := r]
            && s'.pipes == s.pipes[i := s.pipes[i].(inflight := src.inflight)][i + 1 := Fill(s.pipes[i + 1], out)]
    decreases |script|, var r := UpRun(keys, start, before).relays[i].reader; |r.unread| + |r.overflow|
  {
    hide LinkRead, UpRun, CopyAllUp, Fill;
    var s, round := UpRun(keys, start, before), Copy(i, script);
    var src := Link(s.pipes[i].inflight, script);
    var got := LinkRead(DEFAULTS, s.relays[i].reader, src, RELAY_BUFFER).2;
    var (r1, src1, out) := CopyUp(keys[i].stream, s.relays[i], src);
    CopyAllUpSteps(keys[i].stream, s.relays[i], src);
    OneMoreUp(keys, start, before, round);
    after := before + [round];
    assert after[..|before|] == before;
    if got.Data? {
      RoundProgress(s.relays[i].reader, src);
      after := ForwardLoopIsRun(keys, start, before + [round], i, src1.script);
      var (_, src2, rest, _) := CopyAllUp(keys[i].stream, r1, src1);
      CopiedTwice(s.pipes, i, i + 1, src1.inflight, out, src2.inflight, rest);
    }
  }

  /** What is left to read, and what was passed on. */
  function Copied(pipes: seq<Pipe>, from: nat, to: nat, left: seq<byte>, out: seq<byte>): seq<Pipe>
    requires from < |pipes| && to < |pipes|
  {
    pipes[from := pipes[from].(inflight := left)][to := Fill(pipes[to], out)]
  }

  lemma CopiedTwice(pipes: seq<Pipe>, from: nat, to: nat, left: seq<byte>, out: seq<byte>, left2: seq<byte>,
      out2: seq<byte>)
    requires from < |pipes| && to < |pipes| && from != to
    ensures Copied(Copied(pipes, from, to, left, out), from, to, left2, out2) ==
              Copied(pipes, from, to, left2, out + out2)
  {
    FilledTwice(pipes[to], out, out2);
  }

  lemma FilledTwice(p: Pipe, a: seq<byte>, b: seq<byte>)
    ensures Fill(Fill(p, a), b) == Fill(p, a + b)
  {
    assert p.given + a + b == p.given + (a + b) && p.inflight + a + b == p.inflight + (a + b);
  }

  lemma {:induction false} OneMoreDown(keys: seq<Key>, start: Down, before: seq<DownAction>, a: DownAction)
    requires DownShape(keys, start) && (forall b :: b in before ==> DownAllowed(keys, b)) && DownAllowed(keys, a)
    ensures DownRun(keys, start, before + [a]) == DownStep(keys, DownRun(keys, start, before), a)
  {
    assert (before + [a])[..|before|] == before;
  }

  ghost predicate BackEndsWith(keys: seq<Key>, start: Down, actions: seq<DownAction>, i: nat, e: Error)
    requires DownShape(keys, start) && (forall a :: a in actions ==> DownAllowed(keys, a)) && i < |keys|
  {
    actions != [] &&
    var before, a := DownRun(keys, start, actions[..|actions| - 1]), actions[|actions| - 1];
    a.CopyBack? && a.relay == i &&
    SourceRead(Link(before.pipes[i + 1].inflight, a.script), RELAY_BUFFER).1 == Fail(e)
  }

  lemma {:induction false} BackwardLoopIsRun(keys: seq<Key>, start: Down, before: seq<DownAction>, i: nat,
      script: seq<Event>)
    returns (after: seq<DownAction>)
    requires DownShape(keys, start) && forall a :: a in before ==> DownAllowed(keys, a)
    requires i < |keys| && !DownRun(keys, start, before).relays[i].stopped
    ensures before < after && forall a :: a in after ==> DownAllowed(keys, a)
    ensures BackEndsWith(keys, start, after, i,
              CopyAllDown(keys[i].stream, DownRun(keys, start, before).relays[i],
                Link(DownRun(keys, start, before).pipes[i + 1].inflight, script)).3)
    ensures var s, s' := DownRun(keys, start, before), DownRun(keys, start, after);
            var (r, src, out, _) := CopyAllDown(keys[i].stream, s.relays[i], Link(s.pipes[i + 1].inflight, script));
            && s'.relays == s.relays[i := r]
            && s'.pipes == s.pipes[i + 1 := s.pipes[i + 1].(inflight := src.inflight)][i := Fill(s.pipes[i], out)]
    decreases |script|
  {
    hide DownRun, CopyAllDown, CopyDown, SourceRead, Fill;
    var s, round := DownRun(keys, start, before), CopyBack(i, script);
    var src := Link(s.pipes[i + 1].inflight, script);
    var got := SourceRead(src, RELAY_BUFFER).1;
    var (r1, src1, out) := CopyDown(keys[i].stream, s.relays[i], src);
    OneRoundDown(keys[i].stream, s.relays[i], src);
    OneMoreDown(keys, start, before, round);
    after := before + [round];
    assert after[..|before|] == before;
    if got.Data? {
      after := BackwardLoopIsRun(keys, start, before + [round], i, src1.script);
      var (_, src2, rest, _) := CopyAllDown(keys[i].stream, r1, src1);
      CopiedTwice(s.pipes, i + 1, i, src1.inflight, out, src2.inflight, rest);
    }
  }
}
