/**
 When a read of the client's nested connections fails: once everything has reached the client's link, only
 because some layer's read of the one below ended inside a header.
 */
module OnionReads {
  import opened Wrappers
  import opened Bytes
  import opened Framing
  import opened FramingSafety
  import opened FramingComplete
  import opened Onion
  import opened OnionBackward

  /** Exactly `rest` is still to be delivered, and every layer has it in whole frames, none of them empty. */
  ghost predicate Whole(src: Source, rest: seq<byte>)
    decreases Depth(src)
  {
    match src
    case Link(inflight, _) => inflight == rest
    case Layered(r, key, pos, below) => ReaderOk(r) && exists under, gs ::
      Whole(below, under) && WholeLayer(r, key, pos, under, gs, rest)
  }

  ghost predicate WholeLayer(r: Reader, key: Keystream, pos: nat, under: seq<byte>, gs: seq<seq<byte>>,
      rest: seq<byte>) {
    && r.overflow + under == Wire(gs) && Small(gs, MAX_PACKET_SIZE) && NoneEmpty(gs)
    && rest == Ctr(key, pos, r.unread + Plain(DEFAULTS, gs))
  }

  /** The link below hands over at least one byte at every read, for as long as it has any. */
  predicate SteadyLink(src: Source) {
    Steady(ScriptOf(src)) && |AtLink(src)| < |ScriptOf(src)|
  }

  /** Some of the rest was returned, and `src` has what is behind it. */
  ghost predicate Continues(src: Source, bytes: seq<byte>, rest: seq<byte>) {
    bytes != [] && bytes <= rest && Whole(src, rest[|bytes|..]) && SteadyLink(src)
  }

  // ---------- Cut headers ----------

  /** In the course of the read a layer starts a frame with one to three bytes. */
  predicate CutRead(src: Source, room: nat)
    decreases Depth(src), 0, 0
  {
    src.Layered? && src.reader.unread == [] && CutPacket(src.reader, src.below)
  }

  predicate CutPacket(r: Reader, below: Source)
    decreases Depth(below), 2, 0
  {
    (r.overflow == [] && CutRead(below, r.room)) ||
    var (below', first) := FirstBytes(r, below);
    first.Data? &&
    if |first.bytes| < LEN_PACKET_SIZE then true
    else
      var size := Uint32(first.bytes[..LEN_PACKET_SIZE]);
      var room := Max(r.room, size + LEN_PACKET_SIZE);
      |first.bytes| <= room && CutRefill(below', first.bytes, size, room)
  }

  predicate CutRefill(below: Source, d: seq<byte>, size: nat, room: nat)
    requires |d| <= room && LEN_PACKET_SIZE + size <= room
    decreases Depth(below), 1, LEN_PACKET_SIZE + size - |d|
  {
    |d| < LEN_PACKET_SIZE + size &&
    (CutRead(below, room - |d|) ||
     var (below', got) := SourceRead(below, room - |d|);
     got.Data? && got.bytes != [] && CutRefill(below', d + got.bytes, size, room))
  }

  // ---------- Reads go on ----------

  /** Over a steady link a read with something to come fails exactly when it meets a cut header, and
      otherwise returns the next bytes. */
  lemma {:induction false} ReadsOn(src: Source, rest: seq<byte>, room: nat)
    requires Whole(src, rest) && rest != [] && room > 0 && SteadyLink(src)
    ensures var (src', got) := SourceRead(src, room);
            && (got.Fail? <==> CutRead(src, room)) && (got.Fail? ==> got.error == MissingPacketSize)
            && (got.Data? ==> Continues(src', got.bytes, rest))
    decreases Depth(src), 0, 0
  {
    hide Refill;
    match src
    case Link(inflight, script) =>
      LinkGives(inflight, script, room);
      SteadyRest(script);
      var m := Min(script[0].n, Min(room, |inflight|));
      assert inflight == inflight[..m] + inflight[m..];
    case Layered(r, key, pos, below) =>
      var under, gs :| Whole(below, under) && WholeLayer(r, key, pos, under, gs, rest);
      if r.unread != [] {
        UnreadReadsOn(src, under, gs, rest, room);
      } else {
        PacketReadsOn(r, below, under, gs);
        FrameReadsOn(src, under, gs, rest, room);
      }
  }

  lemma {:induction false} UnreadReadsOn(src: Source, under: seq<byte>, gs: seq<seq<byte>>, rest: seq<byte>, room: nat)
    requires src.Layered? && src.reader.unread != [] && room > 0 && ReaderOk(src.reader) && SteadyLink(src)
    requires Whole(src.below, under) && WholeLayer(src.reader, src.key, src.pos, under, gs, rest)
    ensures !CutRead(src, room)
    ensures var (src', got) := SourceRead(src, room);
            got.Data? && Continues(src', got.bytes, rest)
  {
    hide Whole, Wire, Plain, SteadyLink, SourceRead;
    var r := src.reader;
    var k := Min(room, |r.unread|);
    UnreadReadIs(src, room);
    assert r.unread + Plain(DEFAULTS, gs) == r.unread[..k] + (r.unread[k..] + Plain(DEFAULTS, gs));
    LayerContinues(src.below, r.(unread := r.unread[k..]), src.key, src.pos, r.unread[..k], under, gs, rest) by {
      SteadyBelow(src);
    }
  }

  lemma {:induction false} UnreadReadIs(src: Source, room: nat)
    requires src.Layered? && src.reader.unread != []
    ensures var r := src.reader;
            var k := Min(room, |r.unread|);
            SourceRead(src, room) ==
              (Layered(r.(unread := r.unread[k..]), src.key, src.pos + k, src.below),
               Data(Ctr(src.key, src.pos, r.unread[..k])))
  {
  }

  lemma {:induction false} SteadyBelow(src: Source)
    requires src.Layered?
    ensures SteadyLink(src) <==> SteadyLink(src.below)
  {
  }

  /** A layer that returned `bytes` has the rest behind them. */
  lemma {:induction false} LayerContinues(below: Source, r: Reader, key: Keystream, pos: nat, bytes: seq<byte>,
      under: seq<byte>, gs: seq<seq<byte>>, rest: seq<byte>)
    requires bytes != [] && ReaderOk(r) && SteadyLink(below) && Whole(below, under)
    requires r.overflow + under == Wire(gs) && Small(gs, MAX_PACKET_SIZE) && NoneEmpty(gs)
    requires rest == Ctr(key, pos, bytes + (r.unread + Plain(DEFAULTS, gs)))
    ensures Continues(Layered(r, key, pos + |bytes|, below), Ctr(key, pos, bytes), rest)
  {
    hide Whole, Wire, Plain, SteadyLink;
    RestAfter(key, pos, bytes, r.unread + Plain(DEFAULTS, gs));
    assert WholeLayer(r, key, pos + |bytes|, under, gs, rest[|bytes|..]);
    MakeWhole(r, key, pos + |bytes|, below, under, gs, rest[|bytes|..]);
    SteadyBelow(Layered(r, key, pos + |bytes|, below));
  }

  lemma {:induction false} MakeWhole(r: Reader, key: Keystream, pos: nat, below: Source, under: seq<byte>,
      gs: seq<seq<byte>>, rest: seq<byte>)
    requires ReaderOk(r) && Whole(below, under) && WholeLayer(r, key, pos, under, gs, rest)
    ensures Whole(Layered(r, key, pos, below), rest)
  {
    hide WholeLayer;
  }

  /** Decrypting the first part of what is left leaves the second. */
  lemma RestAfter(key: Keystream, pos: nat, a: seq<byte>, b: seq<byte>)
    ensures var rest := Ctr(key, pos, a + b);
            rest[..|a|] == Ctr(key, pos, a) && rest[|a|..] == Ctr(key, pos + |a|, b)
  {
    CtrAppend(key, pos, a, b);
  }

  /** A packet is read whole unless a header is cut. */
  lemma {:induction false} PacketReadsOn(r: Reader, below: Source, under: seq<byte>, gs: seq<seq<byte>>)
    requires ReaderOk(r) && Whole(below, under) && SteadyLink(below)
    requires gs != [] && r.overflow + under == Wire(gs) && Small(gs, MAX_PACKET_SIZE)
    ensures var (below', room, packet) := ReadPacket(DEFAULTS, r, below);
            && (packet.Err? <==> CutPacket(r, below)) && (packet.Err? ==> packet.error == MissingPacketSize)
            && (packet.Ok? ==>
                  && r.room <= room && |gs[0]| + |packet.value.over| + LEN_PACKET_SIZE <= room
                  && packet.value.payload == gs[0] && |packet.value.over| <= |Wire(gs[1..])|
                  && packet.value.over == Wire(gs[1..])[..|packet.value.over|]
                  && Whole(below', Wire(gs[1..])[|packet.value.over|..]) && SteadyLink(below'))
    decreases Depth(below), 2, 0
  {
    hide Wire, Refill, SourceRead, Whole, SteadyLink, CutRead, CutRefill;
    var (below1, first) := FirstBytes(r, below);
    FirstReadsOn(r, below, under, gs);
    if first.Data? && LEN_PACKET_SIZE <= |first.bytes| {
      var d, under1 := first.bytes, Wire(gs)[|first.bytes|..];
      assert d + under1 == Wire(gs);
      FrameInFrontOfWire(gs, d, under1);
      var size := |gs[0]|;
      var room := Max(r.room, size + LEN_PACKET_SIZE);
      RefillReadsOn(below1, under1, d, size, room);
      var (below2, full) := Refill(below1, d, size, room);
      if full.Ok? {
        var under2 := (d + under1)[|full.value|..];
        assert full.value + under2 == Wire(gs);
        FrameCutOut(gs, full.value, under2);
      }
    }
  }

  lemma {:induction false} FirstReadsOn(r: Reader, below: Source, under: seq<byte>, gs: seq<seq<byte>>)
    requires ReaderOk(r) && Whole(below, under) && SteadyLink(below)
    requires gs != [] && r.overflow + under == Wire(gs)
    ensures var (below', first) := FirstBytes(r, below);
            && (first.Fail? <==> r.overflow == [] && CutRead(below, r.room)) &&
                 (first.Fail? ==> first.error == MissingPacketSize)
            && (r.overflow == [] ==> first.Data? ==> !CutRead(below, r.room))
            && (first.Data? ==>
                  && |first.bytes| <= |Wire(gs)| && first.bytes == Wire(gs)[..|first.bytes|]
                  && Whole(below', Wire(gs)[|first.bytes|..]) && SteadyLink(below'))
    decreases Depth(below), 1, 0
  {
    hide SteadyLink, SourceRead, CutRead, Wire;
    assert |Wire(gs)| >= LEN_PACKET_SIZE by { WireHasHeader(gs); }
    if r.overflow == [] {
      hide Whole;
      assert under == Wire(gs);
      ReadsOn(below, under, r.room);
    } else {
      assert r.overflow[..|r.overflow|] == r.overflow;
      assert Wire(gs)[|r.overflow|..] == under;
    }
  }

  lemma {:induction false} WireHasHeader(gs: seq<seq<byte>>)
    requires gs != []
    ensures |Wire(gs)| >= LEN_PACKET_SIZE
  {
    hide PutUint32;
  }

  lemma {:induction false} RefillReadsOn(below: Source, under: seq<byte>, d: seq<byte>, size: nat, room: nat)
    requires |d| <= room && LEN_PACKET_SIZE + size <= room
    requires Whole(below, under) && SteadyLink(below) && LEN_PACKET_SIZE + size <= |d| + |under|
    ensures var (below', full) := Refill(below, d, size, room);
            && (full.Err? <==> CutRefill(below, d, size, room)) && (full.Err? ==> full.error == MissingPacketSize)
            && (full.Ok? ==>
                  && |full.value| <= |d + under| && full.value == (d + under)[..|full.value|]
                  && Whole(below', (d + under)[|full.value|..]) && SteadyLink(below'))
    decreases Depth(below), 1, LEN_PACKET_SIZE + size - |d|
  {
    hide Whole, SteadyLink, CutRead, SourceRead;
    if |d| < LEN_PACKET_SIZE + size {
      ReadsOn(below, under, room - |d|);
      var (below', got) := SourceRead(below, room - |d|);
      if got.Data? {
        var under' := under[|got.bytes|..];
        assert under == got.bytes + under';
        assert d + under == (d + got.bytes) + under';
        RefillReadsOn(below', under', d + got.bytes, size, room);
      }
    } else {
      assert (d + under)[..|d|] == d && (d + under)[|d|..] == under;
    }
  }

  /** What a packet makes of a read of the layer. */
  lemma {:induction false} FrameReadsOn(src: Source, under: seq<byte>, gs: seq<seq<byte>>, rest: seq<byte>, room: nat)
    requires src.Layered? && src.reader.unread == [] && room > 0 && ReaderOk(src.reader) && gs != []
    requires WholeLayer(src.reader, src.key, src.pos, under, gs, rest)
    requires var (below', r, packet) := ReadPacket(DEFAULTS, src.reader, src.below);
             && (packet.Err? <==> CutPacket(src.reader, src.below)) &&
                  (packet.Err? ==> packet.error == MissingPacketSize)
             && (packet.Ok? ==>
                   && |gs[0]| + |packet.value.over| + LEN_PACKET_SIZE <= r
                   && packet.value.payload == gs[0] && |packet.value.over| <= |Wire(gs[1..])|
                   && packet.value.over == Wire(gs[1..])[..|packet.value.over|]
                   && Whole(below', Wire(gs[1..])[|packet.value.over|..]) && SteadyLink(below'))
    ensures var (src', got) := SourceRead(src, room);
            && (got.Fail? <==> CutRead(src, room)) && (got.Fail? ==> got.error == MissingPacketSize)
            && (got.Data? ==> Continues(src', got.bytes, rest))
  {
    hide ReadPacket, CutPacket, CutRead, Whole, Wire, Stored, SteadyLink, SourceRead, Plain;
    CutReadIs(src, room);
    var (below', r, packet) := ReadPacket(DEFAULTS, src.reader, src.below);
    if packet.Ok? {
      var p, over := gs[0], packet.value.over;
      StoredFits(r, 0, p);
      LayerReadIs(src, room, below', r, p, over);
      var k := Min(room, |p|);
      var under', later := Wire(gs[1..])[|over|..], Plain(DEFAULTS, gs[1..]);
      assert over + under' == Wire(gs[1..]);
      assert src.reader.unread + Plain(DEFAULTS, gs) == p[..k] + (p[k..] + later) by {
        FirstFrame(gs);
        assert p == p[..k] + p[k..];
      }
      LayerContinues(below', Reader(p[k..], over, r), src.key, src.pos, p[..k], under', gs[1..], rest);
    } else {
      LayerReadFails(src, room);
    }
  }

  lemma {:induction false} CutReadIs(src: Source, room: nat)
    requires src.Layered? && src.reader.unread == []
    ensures CutRead(src, room) <==> CutPacket(src.reader, src.below)
  {
    hide CutPacket;
  }

  lemma {:induction false} LayerReadFails(src: Source, room: nat)
    requires src.Layered? && src.reader.unread == []
    requires ReadPacket(DEFAULTS, src.reader, src.below).2.Err?
    ensures SourceRead(src, room).1 == Fail(ReadPacket(DEFAULTS, src.reader, src.below).2.error)
  {
    hide ReadPacket;
  }

  lemma {:induction false} FirstFrame(gs: seq<seq<byte>>)
    requires gs != []
    ensures Plain(DEFAULTS, gs) == gs[0] + Plain(DEFAULTS, gs[1..])
  {
  }

  lemma {:induction false} LayerReadIs(src: Source, room: nat, below': Source, r: nat, p: seq<byte>, over: seq<byte>)
    requires src.Layered? && src.reader.unread == []
    requires ReadPacket(DEFAULTS, src.reader, src.below) == (below', r, Ok(Packet(p, over)))
    requires Stored(r, 0, p) == (p, r)
    ensures var k := Min(room, |p|);
            SourceRead(src, room) ==
              (Layered(Reader(p[k..], over, r), src.key, src.pos + k, below'), Data(Ctr(src.key, src.pos, p[..k])))
  {
    hide ReadPacket, Stored;
  }

  // ---------- In a run ----------

  /** A layer of which the relay has read everything: what was not yet delivered is whole frames. */
  lemma {:induction false} WholeBehind(key: Key, src: Source, given: seq<byte>, to: seq<byte>, consumed: seq<byte>,
      delivered: seq<byte>, fs: seq<seq<byte>>)
    requires src.Layered? && ReaderOk(src.reader) && src.key == key.stream && src.pos == key.from + |delivered|
    requires FullLayer(key, to, given) && consumed <= to && delivered <= given
    requires Parsed(DEFAULTS, src.reader, consumed, Enc(key, delivered), fs)
    requires Whole(src.below, to[|consumed|..])
    ensures Whole(src, given[|delivered|..])
  {
    hide Wire, Plain, Whole, Ctr;
    var gs :| LayerOf(key, to, given, gs) && NoneEmpty(gs);
    var under := to[|consumed|..];
    assert to == consumed + under;
    Regroup(Wire(fs), src.reader.overflow, under);
    WirePrefix(fs, gs, src.reader.overflow + under);
    var later := gs[|fs|..];
    assert gs == fs + later;
    PlainAppend(DEFAULTS, fs, later);
    var rest := given[|delivered|..];
    assert given == delivered + rest;
    CtrAppend(key.stream, key.from, delivered, rest);
    Behind(Enc(key, delivered), Ctr(key.stream, src.pos, rest), src.reader.unread, Plain(DEFAULTS, later));
    CtrInverse(key.stream, src.pos, rest);
    assert WholeLayer(src.reader, src.key, src.pos, under, later, rest);
    MakeWhole(src.reader, src.key, src.pos, src.below, under, later, rest);
  }

  lemma Behind(front: seq<byte>, back: seq<byte>, a: seq<byte>, b: seq<byte>)
    requires front + back == (front + a) + b
    ensures back == a + b
  {
    assert back == (front + back)[|front|..] == a + b;
  }

  lemma {:induction false} ClientWhole(keys: seq<Key>, s: Down, src: Source, n: nat, delivered: seq<byte>)
    requires DownShape(keys, s) && n <= |keys| && RelaysOk(keys, s)
    requires History(src, keys[..n], s.pipes[0].given, delivered)
    requires forall i :: 0 < i <= n ==> s.pipes[i].inflight == []
    ensures delivered <= s.pipes[n].given && Whole(src, s.pipes[n].given[|delivered|..])
    decreases n
  {
    hide Parsed, BackOk, FullLayer;
    BackPrefix(keys, s, src, n, delivered);
    if n == 0 {
      assert keys[..n] == [];
    } else {
      hide History, Whole;
      var consumed, fs := Unnested(src, s.pipes[0].given, delivered, keys, n);
      ClientWhole(keys, s, src.below, n - 1, consumed);
      RelayReadAll(keys, s, n - 1);
      WholeBehind(keys[n - 1], src, s.pipes[n].given, s.pipes[n - 1].given, consumed, delivered, fs);
    }
  }

  lemma RelayReadAll(keys: seq<Key>, s: Down, i: nat)
    requires DownShape(keys, s) && i < |keys| && RelaysOk(keys, s) && s.pipes[i + 1].inflight == []
    ensures FullLayer(keys[i], s.pipes[i].given, s.pipes[i + 1].given)
  {
    hide FullLayer;
    assert BackOk(keys[i], s.relays[i], s.pipes[i + 1], s.pipes[i]);
    var read :| BackRead(keys[i], s.relays[i], s.pipes[i + 1], s.pipes[i], read);
    assert read + [] == read;
  }

  /** When all relays have passed on what the final node wrote and the client has not read all of it, the
      client's next read over a steady link fails exactly when some layer meets a cut header; otherwise it
      returns the next bytes of what the final node wrote. */
  lemma {:induction false} ClientReadsOn(keys: seq<Key>, start: Down, actions: seq<DownAction>, n: nat,
      script: seq<Event>)
    requires DownStanding(keys, start) && DownShape(keys, start) && forall a :: a in actions ==> DownAllowed(keys, a)
    requires var s := DownRun(keys, start, actions);
             && s.ok && s.received != s.sent && n > 0
             && (forall i :: 0 < i <= |keys| ==> s.pipes[i].inflight == [])
             && Steady(script) && |s.pipes[0].inflight| < |script|
    ensures var s := DownRun(keys, start, actions);
            var s' := DownStep(keys, s, ReadBack(n, script));
            && (s'.ok <==> !CutRead(Loaded(s.client, s.pipes[0].inflight, script), n))
            && (s'.ok ==> s.received < s'.received <= s.sent)
  {
    hide DownRun, History, BackOk, Whole, SourceRead, CutRead, Steady;
    DownRunOk(keys, start, actions);
    var s := DownRun(keys, start, actions);
    var inflight := s.pipes[0].inflight;
    var src := Loaded(s.client, inflight, script);
    LoadedHistory(s.client, inflight, [], keys, s.pipes[0].given, s.received, [], script);
    assert inflight + [] == inflight && s.pipes[0].given + [] == s.pipes[0].given && keys[..|keys|] == keys;
    ClientWhole(keys, s, src, |keys|, s.received);
    LoadedAtLink(s.client, inflight, script);
    LoadedScript(s.client, inflight, script);
    var rest := s.sent[|s.received|..];
    assert s.sent == s.received + rest;
    ReadsOn(src, rest, n);
    var got := SourceRead(src, n).1;
    if got.Data? {
      assert rest == got.bytes + rest[|got.bytes|..];
      assert s.sent == (s.received + got.bytes) + rest[|got.bytes|..];
    }
  }

  lemma {:induction false} LoadedScript(src: Source, inflight: seq<byte>, script: seq<Event>)
    ensures ScriptOf(Loaded(src, inflight, script)) == script
    decreases Depth(src)
  {
    if src.Layered? {
      LoadedScript(src.below, inflight, script);
    }
  }
}
