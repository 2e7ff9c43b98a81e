/**
 From the client to the final node: runs of a circuit of any number of relays in which the client writes,
 every relay copies at its own pace over links that cut the stream anywhere, and the final node reads.
 */
module OnionForward {
  import opened Bytes
  import opened Framing
  import opened FramingSafety
  import opened FramingComplete
  import opened Onion

  /** One direction of a link: all it was given, and what of that was not read yet. */
  datatype Pipe = Pipe(given: seq<byte>, inflight: seq<byte>)

  /** A relay's half: the framing connection to the previous node, and the position of its key. */
  datatype Relay = Relay(reader: Reader, pos: nat, stopped: bool)

  /** Pipe 0 is the client's link; pipe `i` leads from relay `i - 1` to relay `i`, or to the final node. */
  datatype Up = Up(sink: Sink, pipes: seq<Pipe>, relays: seq<Relay>, sent: seq<byte>, received: seq<byte>)

  datatype UpAction =
    | Write(p: seq<byte>)
    | Copy(relay: nat, script: seq<Event>)
    | Receive(n: nat)

  /** One round of copyWithRandomWait: read from the framing connection, write through the key. */
  function CopyUp(key: Keystream, r: Relay, src: Source): (o: (Relay, Source, seq<byte>))
    requires src.Link?
    ensures o.1.Link?
  {
    var (reader, src', got) := LinkRead(DEFAULTS, r.reader, src, RELAY_BUFFER);
    match got
    case Fail(_) => (Relay(reader, r.pos, true), src', [])
    case Data(d) => (Relay(reader, r.pos + |d|, false), src', Ctr(key, r.pos, d))
  }

  ghost predicate UpShape(keys: seq<Key>, s: Up) {
    |s.pipes| == |keys| + 1 && |s.relays| == |keys|
  }

  /** The message leaves room for the headers of the layers below the innermost. */
  predicate FitsLayers(keys: seq<Key>, p: seq<byte>) {
    |p| + LEN_PACKET_SIZE * (|keys| - 1) <= MAX_PACKET_SIZE
  }

  predicate UpAllowed(keys: seq<Key>, a: UpAction) {
    match a
    case Write(p) => FitsLayers(keys, p)
    case Copy(i, _) => i < |keys|
    case Receive(_) => true
  }

  /** A relay that stands: its key is at its start, and what it read before left nothing behind. */
  predicate Stands(key: Key, r: Relay) {
    ReaderOk(r.reader) && r.reader.unread == [] && r.reader.overflow == [] && r.pos == key.from && !r.stopped
  }

  /** The circuit stands: the client's layers and the relays are at the start of their keys, and nothing is
      on its way. */
  ghost predicate UpStanding(keys: seq<Key>, s: Up) {
    && UpShape(keys, s)
    && SinkOk(s.sink, keys, Nothing(|keys| + 1))
    && (forall i :: 0 <= i <= |keys| ==> s.pipes[i] == Pipe([], []))
    && (forall i :: 0 <= i < |keys| ==> Stands(keys[i], s.relays[i]))
    && s.sent == [] && s.received == []
  }

  function Fill(p: Pipe, bytes: seq<byte>): Pipe {
    Pipe(p.given + bytes, p.inflight + bytes)
  }

  function UpStep(keys: seq<Key>, s: Up, a: UpAction): (s': Up)
    requires UpShape(keys, s) && UpAllowed(keys, a)
    ensures UpShape(keys, s')
  {
    match a
    case Write(p) =>
      var sink := SinkWrite(s.sink, p);
      s.(sink := sink, pipes := s.pipes[0 := Fill(s.pipes[0], Bottom(sink)[|Bottom(s.sink)|..])], sent := s.sent + p)
    case Copy(i, script) =>
      if s.relays[i].stopped then s
      else
        var (r, src, out) := CopyUp(keys[i].stream, s.relays[i], Link(s.pipes[i].inflight, script));
        var from := s.pipes[i].(inflight := src.inflight);
        s.(relays := s.relays[i := r], pipes := s.pipes[i := from][i + 1 := Fill(s.pipes[i + 1], out)])
    case Receive(n) =>
      var pipe := s.pipes[|keys|];
      var m := Min(n, |pipe.inflight|);
      s.(pipes := s.pipes[|keys| := pipe.(inflight := pipe.inflight[m..])], received := s.received + pipe.inflight[..m])
  }

  function UpRun(keys: seq<Key>, start: Up, actions: seq<UpAction>): (s: Up)
    requires UpShape(keys, start) && forall a :: a in actions ==> UpAllowed(keys, a)
    ensures UpShape(keys, s)
  {
    if actions == [] then start
    else UpStep(keys, UpRun(keys, start, actions[..|actions| - 1]), actions[|actions| - 1])
  }

  // ---------- What every step keeps ----------

  /** Of what it read from pipe `from`, a relay that still runs made whole frames, and of their content it
      gave the decrypted part to pipe `to` and keeps the rest. */
  ghost predicate RelayOk(key: Key, r: Relay, from: Pipe, to: Pipe) {
    && ReaderOk(r.reader) && r.pos == key.from + |to.given|
    && exists consumed, fs ::
         from.given == consumed + from.inflight && Parsed(DEFAULTS, r.reader, consumed, Enc(key, to.given), fs)
  }

  /** Pipe `i` was given a prefix of what the client wrote into its `i`-th connection. */
  ghost predicate UpOk(keys: seq<Key>, s: Up, xs: seq<seq<byte>>) {
    && UpShape(keys, s)
    && SinkOk(s.sink, keys, xs) && Layers(keys, xs)
    && s.pipes[0].given == xs[0] && s.sent == xs[|keys|]
    && (forall i :: 0 <= i <= |keys| ==> s.pipes[i].given <= xs[i])
    && (forall i :: 0 <= i < |keys| && !s.relays[i].stopped ==>
         RelayOk(keys[i], s.relays[i], s.pipes[i], s.pipes[i + 1]))
    && s.pipes[|keys|].given == s.received + s.pipes[|keys|].inflight
  }

  lemma FillKeepsReader(key: Key, r: Relay, from: Pipe, to: Pipe, bytes: seq<byte>)
    requires RelayOk(key, r, from, to)
    ensures RelayOk(key, r, Fill(from, bytes), to)
  {
    var consumed, fs :|
      from.given == consumed + from.inflight && Parsed(DEFAULTS, r.reader, consumed, Enc(key, to.given), fs);
    assert from.given + bytes == consumed + (from.inflight + bytes);
  }

  /** A round of a relay passes on exactly what comes next of the layer above. */
  lemma CopyUpKeeps(key: Key, r: Relay, from: Pipe, to: Pipe, script: seq<Event>, x: seq<byte>, y: seq<byte>)
    requires !r.stopped && RelayOk(key, r, from, to)
    requires Layer(key, x, y) && from.given <= x && to.given <= y
    ensures var (r', src, out) := CopyUp(key.stream, r, Link(from.inflight, script));
            && to.given + out <= y
            && (!r'.stopped ==> RelayOk(key, r', from.(inflight := src.inflight), Fill(to, out)))
  {
    hide Layer, Parsed, FrameRead;
    var below := Link(from.inflight, script);
    var consumed, fs :|
      from.given == consumed + from.inflight && Parsed(DEFAULTS, r.reader, consumed, Enc(key, to.given), fs);
    var returned := Enc(key, to.given);
    var consumed', fs' := FrameReadKeeps(DEFAULTS, r.reader, below, RELAY_BUFFER, [], from.given, consumed, returned,
          fs);
    var (reader', src, got) := LinkRead(DEFAULTS, r.reader, below, RELAY_BUFFER);
    if got.Data? {
      var out := Ctr(key.stream, r.pos, got.bytes);
      CtrInverse(key.stream, r.pos, got.bytes);
      CtrAppend(key.stream, key.from, to.given, out);
      assert Enc(key, to.given + out) == returned + got.bytes;
      PeeledIsPrefix(key, x, y, consumed', reader', to.given + out, fs');
    }
  }

  lemma WriteKeeps(keys: seq<Key>, s: Up, xs: seq<seq<byte>>, p: seq<byte>) returns (xs': seq<seq<byte>>)
    requires UpOk(keys, s, xs) && FitsLayers(keys, p)
    ensures UpOk(keys, UpStep(keys, s, Write(p)), xs')
  {
    hide SinkOk, Layers, SinkWrite, RelayOk;
    xs' := SinkWriteKeeps(s.sink, keys, xs, p);
    var s' := UpStep(keys, s, Write(p));
    SinkSize(s.sink, keys, xs);
    SinkSize(s'.sink, keys, xs');
    var bytes := Bottom(s'.sink)[|Bottom(s.sink)|..];
    assert xs'[0] == xs[0] + bytes;
    if keys != [] && !s.relays[0].stopped {
      FillKeepsReader(keys[0], s.relays[0], s.pipes[0], s.pipes[1], bytes);
    }
  }

  lemma {:induction false} SinkSize(s: Sink, keys: seq<Key>, xs: seq<seq<byte>>)
    requires SinkOk(s, keys, xs)
    ensures |xs| == |keys| + 1
  {
  }

  lemma LayerAt(keys: seq<Key>, xs: seq<seq<byte>>, i: nat)
    requires Layers(keys, xs) && i < |keys|
    ensures |xs| == |keys| + 1 && Layer(keys[i], xs[i], xs[i + 1])
  {
  }

  lemma SameGiven(key: Key, r: Relay, from: Pipe, to: Pipe, to': Pipe)
    requires RelayOk(key, r, from, to) && to'.given == to.given
    ensures RelayOk(key, r, from, to')
  {
  }

  lemma CopyKeeps(keys: seq<Key>, s: Up, xs: seq<seq<byte>>, i: nat, script: seq<Event>)
    requires UpOk(keys, s, xs) && i < |keys|
    ensures UpOk(keys, UpStep(keys, s, Copy(i, script)), xs)
  {
    hide SinkOk, Layers, RelayOk, CopyUp, Layer;
    if !s.relays[i].stopped {
      LayerAt(keys, xs, i);
      CopyUpKeeps(keys[i], s.relays[i], s.pipes[i], s.pipes[i + 1], script, xs[i], xs[i + 1]);
      var s' := UpStep(keys, s, Copy(i, script));
      var out := CopyUp(keys[i].stream, s.relays[i], Link(s.pipes[i].inflight, script)).2;
      forall j | 0 <= j < |keys| && !s'.relays[j].stopped
        ensures RelayOk(keys[j], s'.relays[j], s'.pipes[j], s'.pipes[j + 1])
      {
        if j == i + 1 {
          FillKeepsReader(keys[j], s.relays[j], s.pipes[j], s.pipes[j + 1], out);
        } else if j + 1 == i {
          SameGiven(keys[j], s.relays[j], s.pipes[j], s.pipes[i], s'.pipes[i]);
        }
      }
    }
  }

  lemma ReceiveKeeps(keys: seq<Key>, s: Up, xs: seq<seq<byte>>, n: nat)
    requires UpOk(keys, s, xs)
    ensures UpOk(keys, UpStep(keys, s, Receive(n)), xs)
  {
    hide SinkOk, Layers, RelayOk;
    var last := s.pipes[|keys|];
    var m := Min(n, |last.inflight|);
    assert last.inflight == last.inflight[..m] + last.inflight[m..];
    var s' := UpStep(keys, s, Receive(n));
    if keys != [] {
      var j := |keys| - 1;
      if !s.relays[j].stopped {
        SameGiven(keys[j], s.relays[j], s.pipes[j], last, s'.pipes[|keys|]);
      }
    }
  }

  lemma StandingOk(keys: seq<Key>, s: Up)
    requires UpStanding(keys, s)
    ensures UpOk(keys, s, Nothing(|keys| + 1))
  {
    hide SinkOk, Layer;
    NothingLayered(keys);
    forall i | 0 <= i < |keys| ensures RelayOk(keys[i], s.relays[i], s.pipes[i], s.pipes[i + 1]) {
      NothingParsed(keys[i], s.relays[i]);
    }
  }

  lemma StandingShape(keys: seq<Key>, s: Up)
    requires UpStanding(keys, s)
    ensures UpShape(keys, s)
  {
  }

  lemma NothingParsed(key: Key, r: Relay)
    requires Stands(key, r)
    ensures RelayOk(key, r, Pipe([], []), Pipe([], []))
  {
    assert [] == [] + r.reader.overflow;
    assert Parsed(DEFAULTS, r.reader, [], Enc(key, []), []);
  }

  lemma {:induction false} UpRunOk(keys: seq<Key>, start: Up, actions: seq<UpAction>) returns (xs: seq<seq<byte>>)
    requires UpStanding(keys, start) && forall a :: a in actions ==> UpAllowed(keys, a)
    ensures UpOk(keys, UpRun(keys, start, actions), xs)
    decreases |actions|
  {
    hide UpOk, UpStep;
    if actions == [] {
      StandingOk(keys, start);
      xs := Nothing(|keys| + 1);
    } else {
      var before, a := actions[..|actions| - 1], actions[|actions| - 1];
      xs := UpRunOk(keys, start, before);
      var s := UpRun(keys, start, before);
      assert a in actions && UpAllowed(keys, a);
      match a
      case Write(p) => xs := WriteKeeps(keys, s, xs, p);
      case Copy(i, script) => CopyKeeps(keys, s, xs, i, script);
      case Receive(n) => ReceiveKeeps(keys, s, xs, n);
    }
  }

  // ---------- The theorem ----------

  /** Nothing is on its way and no relay holds anything or stopped. */
  ghost predicate UpDrained(keys: seq<Key>, s: Up)
    requires UpShape(keys, s)
  {
    && (forall i :: 0 <= i <= |keys| ==> s.pipes[i].inflight == [])
    && forall i :: 0 <= i < |keys| ==>
         !s.relays[i].stopped && s.relays[i].reader.unread == [] && s.relays[i].reader.overflow == []
  }

  /** Nothing is on its way on the first `n` links, and their relays hold nothing and did not stop. */
  ghost predicate DrainedTo(keys: seq<Key>, s: Up, n: nat)
    requires UpShape(keys, s) && n <= |keys|
  {
    forall i :: 0 <= i < n ==>
      && s.pipes[i].inflight == []
      && !s.relays[i].stopped && s.relays[i].reader.unread == [] && s.relays[i].reader.overflow == []
  }

  /** Behind drained links a pipe was given all of its layer. */
  lemma {:induction false} DrainedIsAll(keys: seq<Key>, s: Up, xs: seq<seq<byte>>, i: nat)
    requires UpOk(keys, s, xs) && i <= |keys| && DrainedTo(keys, s, i)
    ensures s.pipes[i].given == xs[i]
    decreases i
  {
    hide SinkOk, Layers, Parsed, Layer;
    if i > 0 {
      var j := i - 1;
      DrainedIsAll(keys, s, xs, j);
      LayerAt(keys, xs, j);
      var r, from, to := s.relays[j], s.pipes[j], s.pipes[i];
      assert RelayOk(keys[j], r, from, to);
      var consumed, fs :|
        from.given == consumed + from.inflight && Parsed(DEFAULTS, r.reader, consumed, Enc(keys[j], to.given), fs);
      PeeledIsPrefix(keys[j], xs[j], xs[i], consumed, r.reader, to.given, fs);
    }
  }

  /** Onion identity, outwards: over every run of a circuit of any length, with any keys and any cutting of
      the links, the final node receives a prefix of what the client wrote, whatever fails on the way, and
      all of it once the circuit is drained. */
  lemma {:induction false} OnionOutwards(keys: seq<Key>, start: Up, actions: seq<UpAction>)
    requires UpStanding(keys, start) && forall a :: a in actions ==> UpAllowed(keys, a)
    ensures var s := UpRun(keys, start, actions);
            && s.received <= s.sent
            && (UpDrained(keys, s) ==> s.received == s.sent)
  {
    hide UpRun, SinkOk, Layers, RelayOk, UpDrained, UpStanding;
    StandingShape(keys, start);
    var xs := UpRunOk(keys, start, actions);
    var s := UpRun(keys, start, actions);
    SinkSize(s.sink, keys, xs);
    assert s.pipes[|keys|].given <= xs[|keys|];
    if UpDrained(keys, s) {
      LastDrained(keys, s);
      DrainedIsAll(keys, s, xs, |keys|);
    }
  }

  lemma LastDrained(keys: seq<Key>, s: Up)
    requires UpShape(keys, s) && UpDrained(keys, s)
    ensures s.pipes[|keys|].inflight == [] && DrainedTo(keys, s, |keys|)
  {
  }

  // ---------- Which circuits stand ----------

  /** The keys where a run has left them: every relay's has moved by what it gave to the next link. */
  function Moved(keys: seq<Key>, s: Up): (keys': seq<Key>)
    requires UpShape(keys, s)
    ensures |keys'| == |keys|
    ensures forall i :: 0 <= i < |keys| ==> keys'[i] == Key(keys[i].stream, keys[i].from + |s.pipes[i + 1].given|)
  {
    seq(|keys|, i requires 0 <= i < |keys| => Key(keys[i].stream, keys[i].from + |s.pipes[i + 1].given|))
  }

  /** The same circuit, counting from here. */
  function Recounted(s: Up): Up {
    s.(pipes := seq(|s.pipes|, _ => Pipe([], [])), sent := [], received := [])
  }

  /** A circuit that is drained stands again: the client and every relay have moved their key by the same
      number of bytes. So it does after every exchange of the handshake. */
  lemma {:induction false} DrainedStands(keys: seq<Key>, start: Up, actions: seq<UpAction>)
    requires UpStanding(keys, start) && forall a :: a in actions ==> UpAllowed(keys, a)
    requires UpShape(keys, start) && UpDrained(keys, UpRun(keys, start, actions))
    ensures UpStanding(Moved(keys, UpRun(keys, start, actions)), Recounted(UpRun(keys, start, actions)))
  {
    hide UpRun, SinkOk, Layers, Parsed, UpStanding;
    var xs := UpRunOk(keys, start, actions);
    var s := UpRun(keys, start, actions);
    LastDrained(keys, s);
    SinkSize(s.sink, keys, xs);
    forall i | 0 <= i <= |keys| ensures s.pipes[i].given == xs[i] {
      DrainedIsAll(keys, s, xs, i);
    }
    SinkRecounted(s.sink, keys, xs, Moved(keys, s));
    forall i | 0 <= i < |keys| ensures Stands(Moved(keys, s)[i], s.relays[i]) {
      assert RelayOk(keys[i], s.relays[i], s.pipes[i], s.pipes[i + 1]);
    }
    AllStand(Moved(keys, s), Recounted(s));
  }

  lemma {:induction false} AllStand(keys: seq<Key>, s: Up)
    requires UpShape(keys, s) && SinkOk(s.sink, keys, Nothing(|keys| + 1)) && Recounted(s) == s
    requires forall i :: 0 <= i < |keys| ==> Stands(keys[i], s.relays[i])
    ensures UpStanding(keys, s)
  {
    assert forall i :: 0 <= i < |s.pipes| ==> Recounted(s).pipes[i] == Pipe([], []);
  }

  lemma {:induction false} SinkRecounted(s: Sink, keys: seq<Key>, xs: seq<seq<byte>>, keys': seq<Key>)
    requires SinkOk(s, keys, xs) && |xs| == |keys| + 1 && |keys'| == |keys|
    requires forall i :: 0 <= i < |keys| ==> keys'[i] == Key(keys[i].stream, keys[i].from + |xs[i + 1]|)
    ensures SinkOk(s, keys', Nothing(|keys| + 1))
    decreases |keys|
  {
    if keys != [] {
      var n := |keys| - 1;
      SinkRecounted(s.below, keys[..n], xs[..n + 1], keys'[..n]);
      assert Nothing(|keys| + 1)[..n + 1] == Nothing(n + 1);
    }
  }

  /** One more hop: the final node becomes a relay, and the client wraps its connection once more. */
  function Extended(s: Up, k: Key, reader: Reader): Up {
    Up(Wrapped(k.stream, k.from, s.sink), s.pipes + [Pipe([], [])], s.relays + [Relay(reader, k.from, false)], [], [])
  }

  lemma ExtendedStands(keys: seq<Key>, s: Up, k: Key, reader: Reader)
    requires UpStanding(keys, s) && Stands(k, Relay(reader, k.from, false))
    ensures UpStanding(keys + [k], Extended(s, k, reader))
  {
    var keys' := keys + [k];
    assert keys'[..|keys|] == keys && Nothing(|keys'| + 1)[..|keys| + 1] == Nothing(|keys| + 1);
  }

  // ---------- Progress ----------

  /** What a relay has left to read of a layer that it was given in full is whole frames. */
  lemma FramesLeft(key: Key, r: Relay, from: Pipe, to: Pipe, y: seq<byte>) returns (gs: seq<seq<byte>>)
    requires RelayOk(key, r, from, to) && Layer(key, from.given, y)
    ensures ReaderOk(r.reader) && r.reader.overflow + from.inflight == Wire(gs) && Small(gs, MAX_PACKET_SIZE)
  {
    hide Wire, Plain;
    var consumed, fs :|
      from.given == consumed + from.inflight && Parsed(DEFAULTS, r.reader, consumed, Enc(key, to.given), fs);
    var all :| LayerOf(key, from.given, y, all);
    var rest := r.reader.overflow + from.inflight;
    assert Wire(fs) + rest == Wire(all);
    WirePrefix(fs, all, rest);
    gs := all[|fs|..];
  }

  function Holds(r: Relay, from: Pipe): nat {
    |r.reader.unread| + |r.reader.overflow| + |from.inflight|
  }

  /** When all links in front of a relay are drained and there is something for it, its next round over a
      steady link fails exactly when the last read of the link ended inside a header, and otherwise it
      leaves less. */
  lemma {:induction false} RelayMovesOn(keys: seq<Key>, start: Up, actions: seq<UpAction>, i: nat, script: seq<Event>)
    requires UpStanding(keys, start) && (forall a :: a in actions ==> UpAllowed(keys, a)) && i < |keys|
    requires DrainedTo(keys, UpRun(keys, start, actions), i) && !UpRun(keys, start, actions).relays[i].stopped
    requires Steady(script) && |UpRun(keys, start, actions).pipes[i].inflight| < |script|
    requires Holds(UpRun(keys, start, actions).relays[i], UpRun(keys, start, actions).pipes[i]) > 0
    ensures var s := UpRun(keys, start, actions);
            var s' := UpStep(keys, s, Copy(i, script));
            && (s'.relays[i].stopped <==> CutInHeader(s.relays[i].reader, s.pipes[i].inflight, script))
            && (!s'.relays[i].stopped ==> Holds(s'.relays[i], s'.pipes[i]) < Holds(s.relays[i], s.pipes[i]))
  {
    hide UpRun, SinkOk, Layers, RelayOk, LinkRead, CutInHeader, Steady, UpStanding;
    StandingShape(keys, start);
    var xs := UpRunOk(keys, start, actions);
    var s := UpRun(keys, start, actions);
    DrainedIsAll(keys, s, xs, i);
    LayerAt(keys, xs, i);
    var r, from := s.relays[i], s.pipes[i];
    var gs := FramesLeft(keys[i], r, from, s.pipes[i + 1], xs[i + 1]);
    RoundMovesOn(r.reader, from.inflight, script, gs);
  }

  lemma {:induction false} RoundMovesOn(r: Reader, inflight: seq<byte>, script: seq<Event>, gs: seq<seq<byte>>)
    requires ReaderOk(r) && Steady(script) && |inflight| < |script|
    requires r.overflow + inflight == Wire(gs) && Small(gs, MAX_PACKET_SIZE)
    requires |r.unread| + |r.overflow| + |inflight| > 0
    ensures var (r', src, got) := LinkRead(DEFAULTS, r, Link(inflight, script), RELAY_BUFFER);
            && script[0].Give?
            && (got.Fail? <==> CutInHeader(r, inflight, script))
            && (got.Data? ==> |r'.unread| + |r'.overflow| + |src.inflight| < |r.unread| + |r.overflow| + |inflight|)
  {
    hide LinkRead, Steady;
    SteadyRest(script);
    assert Acceptable(DEFAULTS, gs);
    var src := Link(inflight, script);
    LinkReads(r, src);
    if r.unread == [] {
      assert |r.overflow + inflight| > 0 && (gs == [] ==> Wire(gs) == []);
      ReadFailsIff(DEFAULTS, r, inflight, script, gs, RELAY_BUFFER);
      if !CutInHeader(r, inflight, script) {
        var gs1 := OneReadDelivers(DEFAULTS, r, inflight, script, gs, RELAY_BUFFER);
      }
    }
  }

  lemma {:induction false} LinkReads(r: Reader, src: Source)
    requires src.Link?
    ensures LinkRead(DEFAULTS, r, src, RELAY_BUFFER) == FrameRead(DEFAULTS, r, src, RELAY_BUFFER)
    ensures r.unread != [] ==> LinkRead(DEFAULTS, r, src, RELAY_BUFFER) == TakeUnread(r, src, RELAY_BUFFER)
  {
  }
}
