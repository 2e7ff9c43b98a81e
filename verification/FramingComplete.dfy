/**
 When reads succeed: as long as frames are on their way, a Read fails exactly when the last read from
 the link ended inside a header.
 */
module FramingComplete {
  import opened Wrappers
  import opened Bytes
  import opened Framing
  import opened FramingSafety

  /** A link that never fails and hands over at least one byte when it has one. */
  predicate Steady(script: seq<Event>) {
    forall i :: 0 <= i < |script| ==> script[i].Give? && script[i].n > 0
  }

  /** How many bytes of the next frame the reader starts with. */
  function FirstCount(r: Reader, inflight: seq<byte>, script: seq<Event>): nat
    requires script != [] && script[0].Give?
  {
    if r.overflow != [] then |r.overflow| else Min(script[0].n, Min(r.room, |inflight|))
  }

  /** The last read from the link ended one to three bytes into the header of the next frame. */
  predicate CutInHeader(r: Reader, inflight: seq<byte>, script: seq<Event>)
    requires script != [] && script[0].Give?
  {
    r.unread == [] && FirstCount(r, inflight, script) < LEN_PACKET_SIZE
  }

  /** Frames that the reader accepts. */
  ghost predicate Acceptable(cfg: Config, gs: seq<seq<byte>>) {
    forall i :: 0 <= i < |gs| ==> |gs[i]| <= Min(cfg.maxPacketSize, TWO_32 - 1) && Detransformed(cfg, gs[i]).Ok?
  }

  lemma {:induction false} LinkGives(inflight: seq<byte>, script: seq<Event>, room: nat)
    requires script != [] && script[0].Give?
    ensures var m := Min(script[0].n, Min(room, |inflight|));
            SourceRead(Link(inflight, script), room) == (Link(inflight[m..], script[1..]), Data(inflight[..m]))
  {
  }

  lemma SteadyRest(script: seq<Event>)
    requires Steady(script) && script != []
    ensures script[0].Give? && script[0].n > 0 && Steady(script[1..])
  {
  }

  lemma MovedOn(d: seq<byte>, s: seq<byte>, m: nat)
    requires m <= |s|
    ensures (d + s[..m]) + s[m..] == d + s
  {
  }

  /** The refill loop ends with the whole frame: every read brings at least one byte. */
  lemma {:induction false} RefillEnds(inflight: seq<byte>, script: seq<Event>, d: seq<byte>, size: nat, room: nat)
    requires |d| <= room && LEN_PACKET_SIZE + size <= room
    requires LEN_PACKET_SIZE + size <= |d| + |inflight|
    requires Steady(script) && |inflight| <= |script|
    ensures var (below, full) := Refill(Link(inflight, script), d, size, room);
            && full.Ok? && below.Link?
            && full.value + below.inflight == d + inflight
            && |below.inflight| <= |below.script| && Steady(below.script)
            && |script| - |below.script| <= |inflight| - |below.inflight|
    decreases |inflight|
  {
    hide SourceRead, Refill, Steady;
    RefillSteps(Link(inflight, script), d, size, room);
    if |d| < LEN_PACKET_SIZE + size {
      SteadyRest(script);
      LinkGives(inflight, script, room - |d|);
      var m := Min(script[0].n, Min(room - |d|, |inflight|));
      MovedOn(d, inflight, m);
      RefillEnds(inflight[m..], script[1..], d + inflight[..m], size, room);
    }
  }

  /** A packet that starts with its whole header is read in full. */
  lemma {:induction false} PacketRead(cfg: Config, r: Reader, inflight: seq<byte>, script: seq<Event>,
      gs: seq<seq<byte>>)
    requires ReaderOk(r) && r.unread == [] && Steady(script) && |inflight| < |script|
    requires gs != [] && Acceptable(cfg, gs) && r.overflow + inflight == Wire(gs)
    requires !CutInHeader(r, inflight, script)
    ensures var (below, room, packet) := ReadPacket(cfg, r, Link(inflight, script));
            && packet.Ok? && below.Link? && r.room <= room
            && packet.value.payload == gs[0]
            && packet.value.over + below.inflight == Wire(gs[1..])
            && |gs[0]| + |packet.value.over| + LEN_PACKET_SIZE <= room
            && |below.inflight| < |below.script| && Steady(below.script)
  {
    hide Wire, Refill, SourceRead, Steady, Acceptable, Uint32;
    assert |gs[0]| <= Min(cfg.maxPacketSize, TWO_32 - 1) by { FirstAcceptable(cfg, gs); }
    SteadyRest(script);
    var (below1, first) := FirstBytes(r, Link(inflight, script));
    LinkGives(inflight, script, r.room);
    assert r.overflow[..|r.overflow|] == r.overflow;
    assert first.Data? && first.bytes + below1.inflight == r.overflow + inflight;
    var d := first.bytes;
    assert LEN_PACKET_SIZE <= |d|;
    var header := d[..LEN_PACKET_SIZE];
    FrameInFrontOfWire(gs, d, below1.inflight);
    var size := |gs[0]|;
    assert Uint32(header) == size;
    var room := Max(r.room, size + LEN_PACKET_SIZE);
    RefillEnds(below1.inflight, below1.script, d, size, room);
    var (below2, full) := Refill(below1, d, size, room);
    FrameCutOut(gs, full.value, below2.inflight);
  }

  lemma FirstAcceptable(cfg: Config, gs: seq<seq<byte>>)
    requires gs != [] && Acceptable(cfg, gs)
    ensures |gs[0]| <= Min(cfg.maxPacketSize, TWO_32 - 1) && Detransformed(cfg, gs[0]).Ok?
  {
  }

  lemma {:induction false} FrameInFrontOfWire(gs: seq<seq<byte>>, d: seq<byte>, rest: seq<byte>)
    requires gs != [] && |gs[0]| < TWO_32 && d + rest == Wire(gs) && LEN_PACKET_SIZE <= |d|
    ensures Uint32(d[..LEN_PACKET_SIZE]) == |gs[0]|
    ensures LEN_PACKET_SIZE + |gs[0]| <= |d| + |rest|
  {
    Uint32RoundTrip(|gs[0]|);
    assert (d + rest)[..LEN_PACKET_SIZE] == d[..LEN_PACKET_SIZE];
    assert Wire(gs)[..LEN_PACKET_SIZE] == PutUint32(|gs[0]|);
  }

  lemma {:induction false} FrameCutOut(gs: seq<seq<byte>>, buf: seq<byte>, rest: seq<byte>)
    requires gs != [] && buf + rest == Wire(gs) && LEN_PACKET_SIZE + |gs[0]| <= |buf|
    ensures buf[LEN_PACKET_SIZE..LEN_PACKET_SIZE + |gs[0]|] == gs[0]
    ensures buf[LEN_PACKET_SIZE + |gs[0]|..] + rest == Wire(gs[1..])
  {
    hide PutUint32;
    var n := LEN_PACKET_SIZE + |gs[0]|;
    assert Wire(gs) == (PutUint32(|gs[0]|) + gs[0]) + Wire(gs[1..]);
    assert buf[LEN_PACKET_SIZE..n] == Wire(gs)[LEN_PACKET_SIZE..n];
    assert buf[n..] + rest == Wire(gs)[n..];
  }

  /** While frames are on their way over a steady link, a Read fails exactly when the last read from the
      link cut the next header. */
  lemma {:induction false} ReadFailsIff(cfg: Config, r: Reader, inflight: seq<byte>, script: seq<Event>,
      gs: seq<seq<byte>>, n: nat)
    requires ReaderOk(r) && Steady(script) && |inflight| < |script|
    requires gs != [] && Acceptable(cfg, gs) && r.overflow + inflight == Wire(gs)
    ensures FrameRead(cfg, r, Link(inflight, script), n).2.Fail? <==> CutInHeader(r, inflight, script)
    ensures CutInHeader(r, inflight, script) ==>
              FrameRead(cfg, r, Link(inflight, script), n).2 == Fail(MissingPacketSize)
  {
    hide Refill, SourceRead, Stored;
    LinkGives(inflight, script, r.room);
    if CutInHeader(r, inflight, script) {
      ShortStartFails(cfg, r, Link(inflight, script), n);
    } else if r.unread == [] {
      PacketRead(cfg, r, inflight, script, gs);
    }
  }

  lemma {:induction false} ShortStartFails(cfg: Config, r: Reader, src: Source, n: nat)
    requires r.unread == [] && FirstBytes(r, src).1.Data? && |FirstBytes(r, src).1.bytes| < LEN_PACKET_SIZE
    ensures FrameRead(cfg, r, src, n).2 == Fail(MissingPacketSize)
  {
    assert ReadPacket(cfg, r, src).2 == Err(MissingPacketSize);
  }

  // ---------- Reading until nothing is left ----------

  predicate Drained(r: Reader, src: Source)
    requires src.Link?
  {
    r.unread == [] && r.overflow == [] && src.inflight == []
  }

  /** At most `k` reads with a buffer of `n` bytes, until nothing is left: all the bytes they return. */
  function ReadAll(cfg: Config, r: Reader, src: Source, n: nat, k: nat): (Reader, Source, Got)
    requires src.Link?
    decreases k
  {
    if k == 0 || Drained(r, src) then (r, src, Data([]))
    else
      var (r1, src1, got) := LinkRead(cfg, r, src, n);
      if got.Fail? then (r1, src1, got)
      else
        var (r2, src2, rest) := ReadAll(cfg, r1, src1, n, k - 1);
        (r2, src2, if rest.Fail? then rest else Data(got.bytes + rest.bytes))
  }

  /** None of these reads starts at a cut header. */
  predicate NoCut(cfg: Config, r: Reader, src: Source, n: nat, k: nat)
    requires src.Link?
    decreases k
  {
    k == 0 || Drained(r, src) ||
    (&& (src.script != [] && src.script[0].Give? ==> !CutInHeader(r, src.inflight, src.script))
     && var (r1, src1, _) := LinkRead(cfg, r, src, n);
        NoCut(cfg, r1, src1, n, k - 1))
  }

  /** Framing completeness: over a steady link that never cuts a header, reading with any non-empty
      buffer delivers every frame in full, after at most one read a byte. */
  lemma {:induction false} ReadsDeliverAll(
    cfg: Config, r: Reader, inflight: seq<byte>, script: seq<Event>, gs: seq<seq<byte>>, n: nat, k: nat)
    requires n > 0 && ReaderOk(r) && NonLengthening(cfg) && Steady(script) && |inflight| < |script|
    requires Acceptable(cfg, gs) && r.overflow + inflight == Wire(gs)
    requires |r.unread| + |r.overflow| + |inflight| <= k
    requires NoCut(cfg, r, Link(inflight, script), n, k)
    ensures var (r', src', got) := ReadAll(cfg, r, Link(inflight, script), n, k);
            got == Data(r.unread + Plain(cfg, gs)) && src'.Link? && Drained(r', src')
    decreases k
  {
    hide Wire, Plain, FrameRead, NonLengthening;
    var src := Link(inflight, script);
    if Drained(r, src) {
      assert r.overflow + inflight == [];
      NoBytesNoFrames(cfg, gs);
    } else {
      var (r1, src1, got) := LinkRead(cfg, r, src, n);
      var gs1 := OneReadDelivers(cfg, r, inflight, script, gs, n);
      ReadsDeliverAll(cfg, r1, src1.inflight, src1.script, gs1, n, k - 1);
      assert (got.bytes + r1.unread) + Plain(cfg, gs1) == got.bytes + (r1.unread + Plain(cfg, gs1));
    }
  }

  lemma {:induction false} WireBehindFirst(cfg: Config, gs: seq<seq<byte>>)
    requires gs != []
    ensures |Wire(gs)| == LEN_PACKET_SIZE + |gs[0]| + |Wire(gs[1..])|
    ensures Detransformed(cfg, gs[0]).Ok? ==> Plain(cfg, gs) == Detransformed(cfg, gs[0]).value + Plain(cfg, gs[1..])
  {
    hide PutUint32;
  }

  lemma OneReadDelivers(cfg: Config, r: Reader, inflight: seq<byte>, script: seq<Event>, gs: seq<seq<byte>>, n: nat)
    returns (gs1: seq<seq<byte>>)
    requires n > 0 && ReaderOk(r) && NonLengthening(cfg) && Steady(script) && |inflight| < |script|
    requires Acceptable(cfg, gs) && r.overflow + inflight == Wire(gs)
    requires !Drained(r, Link(inflight, script)) && !CutInHeader(r, inflight, script)
    ensures var (r1, src1, got) := LinkRead(cfg, r, Link(inflight, script), n);
            && got.Data? && ReaderOk(r1) && Steady(src1.script) && |src1.inflight| < |src1.script|
            && Acceptable(cfg, gs1) && r1.overflow + src1.inflight == Wire(gs1)
            && |r1.unread| + |r1.overflow| + |src1.inflight| < |r.unread| + |r.overflow| + |inflight|
            && got.bytes + r1.unread + Plain(cfg, gs1) == r.unread + Plain(cfg, gs)
  {
    hide Refill, SourceRead, Stored, Steady, Plain, Wire;
    gs1 := gs;
    if r.unread != [] {
      var k := Min(n, |r.unread|);
      assert r.unread == r.unread[..k] + r.unread[k..];
    } else {
      assert gs != [] by {
        EmptyWire();
        assert r.overflow + inflight != [];
      }
      gs1 := gs[1..];
      PacketRead(cfg, r, inflight, script, gs);
      var (below, room, packet) := ReadPacket(cfg, r, Link(inflight, script));
      var p := Detransformed(cfg, gs[0]).value;
      assert |p| <= |gs[0]|;
      StoredFits(room, 0, p);
      var m := Min(n, |p|);
      assert LinkRead(cfg, r, Link(inflight, script), n)
          == (Reader(p[m..], packet.value.over, room), below, Data(p[..m]));
      assert p == p[..m] + p[m..];
      WireBehindFirst(cfg, gs);
      assert |Wire(gs)| == LEN_PACKET_SIZE + |gs[0]| + |Wire(gs1)|;
      assert |packet.value.over| + |below.inflight| == |Wire(gs1)|;
      assert r.unread + Plain(cfg, gs) == p + Plain(cfg, gs1);
    }
  }

  // ---------- Which error a read fails with ----------

  function Gives(ns: seq<nat>): (script: seq<Event>)
    ensures |script| == |ns|
  {
    seq(|ns|, i requires 0 <= i < |ns| => Give(ns[i]))
  }

  function Total(ns: seq<nat>): nat {
    if ns == [] then 0 else ns[0] + Total(ns[1..])
  }

  /** What a link does that breaks inside a frame, and the error that is. */
  datatype Break = Raises(error: Error) | Stalls

  function Event1(b: Break): Event {
    match b
    case Raises(e) => Raise(e)
    case Stalls => Give(0)
  }

  function ErrorOf(b: Break): Error {
    match b
    case Raises(e) => e
    case Stalls => NoProgress
  }

  /** The link hands over `ns` bytes in turn, which do not complete the frame, and then breaks. */
  lemma {:induction false} RefillBreaks(inflight: seq<byte>, ns: seq<nat>, b: Break, rest: seq<Event>, d: seq<byte>,
      size: nat, room: nat)
    requires |d| + Total(ns) < LEN_PACKET_SIZE + size <= room && Total(ns) <= |inflight|
    requires forall i :: 0 <= i < |ns| ==> ns[i] > 0
    ensures Refill(Link(inflight, Gives(ns) + [Event1(b)] + rest), d, size, room) ==
              (Link(inflight[Total(ns)..], rest), Err(ErrorOf(b)))
    decreases |ns|
  {
    hide Refill;
    var script := Gives(ns) + [Event1(b)] + rest;
    RefillSteps(Link(inflight, script), d, size, room);
    if ns == [] {
      assert script[0] == Event1(b) && script[1..] == rest && inflight[0..] == inflight;
    } else {
      assert script[0] == Give(ns[0]) && script[1..] == Gives(ns[1..]) + [Event1(b)] + rest;
      RefillBreaks(inflight[ns[0]..], ns[1..], b, rest, d + inflight[..ns[0]], size, room);
      assert inflight[ns[0]..][Total(ns[1..])..] == inflight[Total(ns)..];
    }
  }

  /** How a read starts a packet over a link: with the overflow, or with what one read of the link brings. */
  ghost predicate StartsWith(r: Reader, inflight: seq<byte>, script: seq<Event>, d: seq<byte>, left: seq<byte>,
      rest: seq<Event>) {
    if r.overflow != [] then d == r.overflow && left == inflight && rest == script
    else
      && script != [] && script[0].Give? && rest == script[1..]
      && var n := Min(script[0].n, Min(r.room, |inflight|)); d == inflight[..n] && left == inflight[n..]
  }

  /** Behind the start `d` of a packet the link brings `ns` bytes in turn, too few, and breaks. */
  ghost predicate Breaks(left: seq<byte>, rest: seq<Event>, d: seq<byte>, ns: seq<nat>, b: Break, after: seq<Event>)
    requires |d| >= LEN_PACKET_SIZE
  {
    && rest == Gives(ns) + [Event1(b)] + after && (forall i :: 0 <= i < |ns| ==> ns[i] > 0) && Total(ns) <= |left|
    && |d| + Total(ns) < LEN_PACKET_SIZE + Uint32(d[..LEN_PACKET_SIZE])
  }

  lemma {:induction false} FailedPacket(cfg: Config, r: Reader, below: Source, n: nat)
    requires r.unread == [] && ReadPacket(cfg, r, below).2.Err?
    ensures var (below', room, packet) := ReadPacket(cfg, r, below);
            FrameRead(cfg, r, below, n) == (Reader([], [], room), below', Fail(packet.error))
  {
    hide ReadPacket;
  }

  lemma {:induction false} PacketStarts(cfg: Config, r: Reader, below: Source)
    ensures var (below1, first) := FirstBytes(r, below);
            match first
            case Fail(e) => ReadPacket(cfg, r, below) == (below1, r.room, Err(e))
            case Data(d) =>
              if |d| < LEN_PACKET_SIZE then ReadPacket(cfg, r, below) == (below1, r.room, Err(MissingPacketSize))
              else
                var size := Uint32(d[..LEN_PACKET_SIZE]);
                if size > cfg.maxPacketSize then ReadPacket(cfg, r, below) == (below1, r.room, Err(PacketTooLarge))
                else
                  var room := Max(r.room, size + LEN_PACKET_SIZE);
                  |d| <= room &&
                  var (below2, full) := Refill(below1, d, size, room);
                  full.Err? ==> ReadPacket(cfg, r, below) == (below2, room, Err(full.error))
  {
    hide Refill, FirstBytes, Uint32;
  }

  lemma {:induction false} StartIs(r: Reader, inflight: seq<byte>, script: seq<Event>, d: seq<byte>, left: seq<byte>,
      rest: seq<Event>)
    requires ReaderOk(r) && StartsWith(r, inflight, script, d, left, rest)
    ensures FirstBytes(r, Link(inflight, script)) == (Link(left, rest), Data(d))
  {
    if r.overflow != [] {
      assert r.overflow[..|r.overflow|] == r.overflow;
    } else {
      LinkGives(inflight, script, r.room);
    }
  }

  /** The error of the link, when the first read of a packet fails. */
  lemma {:induction false} FirstReadFails(cfg: Config, r: Reader, inflight: seq<byte>, script: seq<Event>, n: nat)
    requires r.unread == [] && r.overflow == [] && (script == [] || script[0].Raise?)
    ensures FrameRead(cfg, r, Link(inflight, script), n) ==
              (Reader([], [], r.room), Link(inflight, if script == [] then [] else script[1..]),
               Fail(if script == [] then Eof else script[0].error))
  {
    PacketStarts(cfg, r, Link(inflight, script));
    FailedPacket(cfg, r, Link(inflight, script), n);
  }

  /** The missing size, when the packet starts with part of a header; the packet too large, when its header says so;
      and the error of the link, or no progress, when that breaks before the frame is whole. The buffers are empty
      then, and the bytes taken from the link are lost. */
  lemma {:induction false} ReadErrors(cfg: Config, r: Reader, inflight: seq<byte>, script: seq<Event>, n: nat,
      d: seq<byte>, left: seq<byte>, rest: seq<Event>, ns: seq<nat>, b: Break, after: seq<Event>)
    requires ReaderOk(r) && r.unread == [] && StartsWith(r, inflight, script, d, left, rest)
    ensures var read := FrameRead(cfg, r, Link(inflight, script), n);
            if |d| < LEN_PACKET_SIZE then read == (Reader([], [], r.room), Link(left, rest), Fail(MissingPacketSize))
            else
              var size := Uint32(d[..LEN_PACKET_SIZE]);
              if size > cfg.maxPacketSize then read == (Reader([], [], r.room), Link(left, rest), Fail(PacketTooLarge))
              else
                Breaks(left, rest, d, ns, b, after) ==>
                  read == (Reader([], [], Max(r.room, size + LEN_PACKET_SIZE)), Link(left[Total(ns)..], after),
                           Fail(ErrorOf(b)))
  {
    hide Refill, ReadPacket, FirstBytes, FrameRead, Uint32;
    StartIs(r, inflight, script, d, left, rest);
    PacketStarts(cfg, r, Link(inflight, script));
    if |d| < LEN_PACKET_SIZE || Uint32(d[..LEN_PACKET_SIZE]) > cfg.maxPacketSize {
      FailedPacket(cfg, r, Link(inflight, script), n);
    } else if Breaks(left, rest, d, ns, b, after) {
      var size := Uint32(d[..LEN_PACKET_SIZE]);
      RefillBreaks(left, ns, b, after, d, size, Max(r.room, size + LEN_PACKET_SIZE));
      FailedPacket(cfg, r, Link(inflight, script), n);
    }
  }

  /** What a read does with a packet read whole: the buffer is then exactly as long as it was, or as the frame with
      its header; a frame that can not be decoded fails the read with the error of the decoding and keeps the bytes
      behind it; otherwise as many of the decoded bytes are returned as the caller has room for. */
  lemma {:induction false} WholePacket(cfg: Config, r: Reader, below: Source, n: nat)
    requires ReaderOk(r) && r.unread == [] && ReadPacket(cfg, r, below).2.Ok?
    ensures var (below', room, packet) := ReadPacket(cfg, r, below);
            var (payload, over) := (packet.value.payload, packet.value.over);
            && room == Max(r.room, |payload| + LEN_PACKET_SIZE)
            && match Detransformed(cfg, payload)
               case Err(e) => FrameRead(cfg, r, below, n) == (Reader([], over, room), below', Fail(e))
               case Ok(p) =>
                 |p| <= |payload| ==>
                   var k := Min(n, |p|);
                   FrameRead(cfg, r, below, n) == (Reader(p[k..], over, room), below', Data(p[..k]))
  {
    hide Refill, FirstBytes, Uint32, Stored;
    var (_, room, packet) := ReadPacket(cfg, r, below);
    var p := Detransformed(cfg, packet.value.payload);
    if p.Ok? && |p.value| <= |packet.value.payload| {
      StoredFits(room, 0, p.value);
    }
  }

  /** Bytes decoded before are returned first, without a read of the link. */
  lemma {:induction false} UnreadFirst(cfg: Config, r: Reader, below: Source, n: nat)
    requires r.unread != []
    ensures var k := Min(n, |r.unread|);
            FrameRead(cfg, r, below, n) == (r.(unread := r.unread[k..]), below, Data(r.unread[..k]))
  {
  }

  /** Even a link that hands over whatever is asked for can cut a header, because the first read of a
      packet asks for as much as the decode buffer holds: after two frames of 5114 bytes each the
      second Read fails. */
  lemma GreedyLinkCutsHeader(f: seq<byte>, g: seq<byte>, script: seq<Event>)
    requires |f| == 5114 && |g| == 5114
    requires |script| > 0 && forall i :: 0 <= i < |script| ==> script[i] == Give(MAX_PACKET_SIZE)
    ensures var (r1, src1, got1) := FrameRead(DEFAULTS, NEW_READER, Link(Wire([f, g]), script), MAX_PACKET_SIZE);
            var (_, _, got2) := FrameRead(DEFAULTS, r1, src1, MAX_PACKET_SIZE);
            got1 == Data(f) && got2 == Fail(MissingPacketSize)
  {
    TwoFrames(f, g);
    var w := Wire([f, g]);
    LinkGives(w, script, 5120);
    var d := w[..5120];
    var packet := Packet(f, d[5118..]);
    assert ReadPacket(DEFAULTS, NEW_READER, Link(w, script)) == (Link(w[5120..], script[1..]), 5120, Ok(packet));
    StoredFits(5120, 0, f);
    assert f[..|f|] == f && f[|f|..] == [];
    assert FrameRead(DEFAULTS, NEW_READER, Link(w, script), MAX_PACKET_SIZE)
        == (Reader([], d[5118..], 5120), Link(w[5120..], script[1..]), Data(f));
    ShortStartFails(DEFAULTS, Reader([], d[5118..], 5120), Link(w[5120..], script[1..]), MAX_PACKET_SIZE);
  }

  lemma TwoFrames(f: seq<byte>, g: seq<byte>)
    requires |f| == 5114 && |g| == 5114
    ensures var w := Wire([f, g]);
            && |w| == 2 * 5118
            && Uint32(w[..5120][..LEN_PACKET_SIZE]) == 5114
            && w[..5120][LEN_PACKET_SIZE..LEN_PACKET_SIZE + 5114] == f
  {
    hide PutUint32;
    var w := Wire([f, g]);
    assert [f, g][1..] == [g];
    WireOne(g);
    assert w == PutUint32(|f|) + f + Framed(g);
    Uint32RoundTrip(5114);
    assert w[..5120][..LEN_PACKET_SIZE] == PutUint32(|f|);
    assert w[..5120][LEN_PACKET_SIZE..5118] == w[LEN_PACKET_SIZE..5118] == f;
  }
}
