/**
 Safety of the framing connection: whatever way the link cuts the stream, the frames parsed so far,
 the overflow and the undelivered bytes always account for every byte read.
 */
module FramingSafety {
  import opened Wrappers
  import opened Bytes
  import opened Framing

  // ---------- Frames on the wire ----------

  function Framed(f: seq<byte>): seq<byte> {
    PutUint32(|f|) + f
  }

  function Wire(fs: seq<seq<byte>>): seq<byte> {
    if fs == [] then [] else Framed(fs[0]) + Wire(fs[1..])
  }

  /** What the detransformed frames hold, put together. */
  function Plain(cfg: Config, fs: seq<seq<byte>>): seq<byte> {
    if fs == [] then []
    else (match Detransformed(cfg, fs[0]) case Ok(p) => p case Err(_) => []) + Plain(cfg, fs[1..])
  }

  ghost predicate Small(fs: seq<seq<byte>>, max: nat) {
    forall i :: 0 <= i < |fs| ==> |fs[i]| <= max
  }

  lemma {:induction false} WireAppend(a: seq<seq<byte>>, b: seq<seq<byte>>)
    ensures Wire(a + b) == Wire(a) + Wire(b)
  {
    if a == [] {
      assert a + b == b;
    } else {
      WireAppend(a[1..], b);
      assert (a + b)[1..] == a[1..] + b && (a + b)[0] == a[0];
      assert Framed(a[0]) + (Wire(a[1..]) + Wire(b)) == (Framed(a[0]) + Wire(a[1..])) + Wire(b);
    }
  }

  lemma {:induction false} PlainAppend(cfg: Config, a: seq<seq<byte>>, b: seq<seq<byte>>)
    ensures Plain(cfg, a + b) == Plain(cfg, a) + Plain(cfg, b)
  {
    if a == [] {
      assert a + b == b;
    } else {
      PlainAppend(cfg, a[1..], b);
      assert (a + b)[1..] == a[1..] + b;
    }
  }

  lemma EmptyWire()
    ensures Wire([]) == []
  {
  }

  lemma WireOne(f: seq<byte>)
    ensures Wire([f]) == Framed(f)
  {
    assert [f][1..] == [];
  }

  lemma {:induction false} PlainOne(cfg: Config, f: seq<byte>)
    ensures Detransformed(cfg, f).Ok? ==> Plain(cfg, [f]) == Detransformed(cfg, f).value
  {
    assert Plain(cfg, [f][1..]) == [];
  }

  lemma PutOfUint32(s: seq<byte>)
    requires |s| == 4
    ensures PutUint32(Uint32(s)) == s
  {
    var n := Uint32(s);
    var a: nat := s[1] as int + 0x100 * s[2] as int + 0x1_0000 * s[3] as int;
    assert n == s[0] as int + 256 * a && n / 256 == a;
    var b: nat := s[2] as int + 0x100 * s[3] as int;
    assert a == s[1] as int + 256 * b && a / 256 == b;
    assert b / 256 == s[3];
  }

  lemma {:induction false} FirstOfWire(f: seq<byte>, more: seq<byte>, gs: seq<seq<byte>>)
    requires |f| < TWO_32 && Small(gs, TWO_32 - 1) && Framed(f) + more == Wire(gs)
    ensures gs != [] && gs[0] == f && more == Wire(gs[1..])
  {
    hide PutUint32;
    var g, w := gs[0], Wire(gs);
    assert PutUint32(|f|) == w[..LEN_PACKET_SIZE] == PutUint32(|g|);
    Uint32RoundTrip(|f|);
    Uint32RoundTrip(|g|);
    var n := LEN_PACKET_SIZE + |f|;
    assert f == w[LEN_PACKET_SIZE..n] == g && more == w[n..] == Wire(gs[1..]);
  }

  /** Framing is a prefix code: the frames of a prefix of the wire are a prefix of the frames. */
  lemma {:induction false} WirePrefix(fs: seq<seq<byte>>, gs: seq<seq<byte>>, rest: seq<byte>)
    requires Small(fs, TWO_32 - 1) && Small(gs, TWO_32 - 1)
    requires Wire(fs) + rest == Wire(gs)
    ensures fs <= gs && rest == Wire(gs[|fs|..])
  {
    hide PutUint32;
    if fs != [] {
      var f := fs[0];
      Regroup(Framed(f), Wire(fs[1..]), rest);
      FirstOfWire(f, Wire(fs[1..]) + rest, gs);
      WirePrefix(fs[1..], gs[1..], rest);
      assert fs == [f] + fs[1..] && gs == [f] + gs[1..];
      assert gs[1..][|fs[1..]|..] == gs[|fs|..];
    } else {
      assert gs[0..] == gs;
    }
  }

  lemma {:induction false} NoBytesNoFrames(cfg: Config, gs: seq<seq<byte>>)
    requires Wire(gs) == []
    ensures gs == [] && Plain(cfg, gs) == []
  {
  }

  // ---------- What a reader has seen ----------

  /** The decode buffer holds the overflow and still a header. */
  predicate ReaderOk(r: Reader) {
    |r.overflow| + LEN_PACKET_SIZE <= r.room
  }

  ghost predicate NonLengthening(cfg: Config) {
    forall f :: Detransformed(cfg, f).Ok? ==> |Detransformed(cfg, f).value| <= |f|
  }

  /** Of `consumed` raw bytes the reader made the frames `fs` and kept the overflow; of their
      content it returned `returned` and kept the unread bytes. */
  ghost predicate Parsed(cfg: Config, r: Reader, consumed: seq<byte>, returned: seq<byte>, fs: seq<seq<byte>>) {
    && consumed == Wire(fs) + r.overflow
    && Small(fs, TWO_32 - 1)
    && Plain(cfg, fs) == returned + r.unread
  }

  /** The layers of `src` have these keys, the outermost last; and since those stood at their starts, `src`
      was fed `fed` at its link and has returned `delivered` to its readers. */
  ghost predicate History(src: Source, keys: seq<Key>, fed: seq<byte>, delivered: seq<byte>)
    decreases Depth(src)
  {
    match src
    case Link(inflight, _) => keys == [] && fed == delivered + inflight
    case Layered(r, key, pos, below) =>
      && keys != []
      && var n := |keys| - 1;
      && ReaderOk(r)
      && key == keys[n].stream && pos == keys[n].from + |delivered|
      && exists consumed, fs ::
           History(below, keys[..n], fed, consumed) && Parsed(DEFAULTS, r, consumed, Enc(keys[n], delivered), fs)
  }

  // ---------- Storing decoded bytes ----------

  lemma {:induction false} StoredFits(len: nat, pos: nat, p: seq<byte>)
    requires pos + |p| <= len
    ensures Stored(len, pos, p) == (p, len)
    decreases |p|
  {
    if p == [] {
    } else {
      StoredFits(len, pos + 1, p[1..]);
      assert [p[0]] + p[1..] == p;
    }
  }

  lemma {:induction false} StoredLoses(len: nat, pos: nat, p: seq<byte>)
    requires pos <= len < pos + |p|
    ensures |Stored(len, pos, p).0| < |p|
    decreases |p|
  {
    if pos == len {
      StoredAtMost(len + 1, pos, p[1..]);
    } else {
      StoredLoses(len, pos + 1, p[1..]);
    }
  }

  lemma {:induction false} StoredAtMost(len: nat, pos: nat, p: seq<byte>)
    ensures |Stored(len, pos, p).0| <= |p|
    decreases |p|
  {
    if p != [] {
      if pos >= len {
        StoredAtMost(len + 1, pos, p[1..]);
      } else {
        StoredAtMost(len, pos + 1, p[1..]);
      }
    }
  }

  /** Decoded bytes are stored whole exactly when they fit the decode buffer: once the append branch
      is taken, bytes are lost. */
  lemma {:induction false} StoredWholeIff(len: nat, p: seq<byte>)
    ensures Stored(len, 0, p).0 == p <==> |p| <= len
  {
    if |p| <= len {
      StoredFits(len, 0, p);
    } else {
      StoredLoses(len, 0, p);
    }
  }

  // ---------- One read ----------

  lemma {:induction false} SourceReadKeeps(src: Source, room: nat, keys: seq<Key>, fed: seq<byte>, delivered: seq<byte>)
    requires History(src, keys, fed, delivered)
    ensures var (src', got) := SourceRead(src, room);
            got.Data? ==> History(src', keys, fed, delivered + got.bytes)
    decreases Depth(src), 0, 0
  {
    hide FrameRead, Wire, Plain, Ctr, Enc;
    match src
    case Link(inflight, script) =>
      var (src', got) := SourceRead(src, room);
      if got.Data? {
        assert inflight == got.bytes + src'.inflight;
      }
    case Layered(r, key, pos, below) =>
      var k, lower := keys[|keys| - 1], keys[..|keys| - 1];
      var consumed, fs :|
        History(below, lower, fed, consumed) && Parsed(DEFAULTS, r, consumed, Enc(k, delivered), fs);
      hide History, Parsed;
      var (r', below', got) := FrameRead(DEFAULTS, r, below, room);
      var consumed', fs' := FrameReadKeeps(DEFAULTS, r, below, room, lower, fed, consumed, Enc(k, delivered), fs);
      if got.Data? {
        var plain := Ctr(key, pos, got.bytes);
        MoreDelivered(k, delivered, got.bytes);
        MakeHistory(r', k, below', keys, fed, delivered + plain, consumed', fs');
      }
  }

  lemma {:induction false} MakeHistory(r: Reader, k: Key, below: Source, keys: seq<Key>, fed: seq<byte>,
      delivered: seq<byte>, consumed: seq<byte>, fs: seq<seq<byte>>)
    requires keys != [] && k == keys[|keys| - 1] && ReaderOk(r)
    requires History(below, keys[..|keys| - 1], fed, consumed) && Parsed(DEFAULTS, r, consumed, Enc(k, delivered), fs)
    ensures History(Layered(r, k.stream, k.from + |delivered|, below), keys, fed, delivered)
  {
    hide Parsed;
  }

  lemma MoreDelivered(k: Key, delivered: seq<byte>, bytes: seq<byte>)
    ensures var plain := Ctr(k.stream, k.from + |delivered|, bytes);
            |plain| == |bytes| && Enc(k, delivered + plain) == Enc(k, delivered) + bytes
  {
    hide Ctr;
    var plain := Ctr(k.stream, k.from + |delivered|, bytes);
    CtrInverse(k.stream, k.from + |delivered|, bytes);
    CtrAppend(k.stream, k.from, delivered, plain);
  }

  lemma {:induction false} RefillSteps(below: Source, d: seq<byte>, size: nat, room: nat)
    requires |d| <= room && LEN_PACKET_SIZE + size <= room
    ensures var (below', got) := SourceRead(below, room - |d|);
            Refill(below, d, size, room) ==
              if |d| >= LEN_PACKET_SIZE + size then (below, Ok(d))
              else if got.Fail? then (below', Err(got.error))
              else if got.bytes == [] then (below', Err(NoProgress))
              else Refill(below', d + got.bytes, size, room)
  {
    hide SourceRead;
  }

  lemma {:induction false} RefillKeeps(below: Source, d: seq<byte>, size: nat, room: nat, keys: seq<Key>,
      fed: seq<byte>, before: seq<byte>)
    requires |d| <= room && LEN_PACKET_SIZE + size <= room
    requires History(below, keys, fed, before + d)
    ensures var (below', full) := Refill(below, d, size, room);
            full.Ok? ==> History(below', keys, fed, before + full.value)
    decreases Depth(below), 1, LEN_PACKET_SIZE + size - |d|
  {
    hide SourceRead, Refill, History;
    RefillSteps(below, d, size, room);
    if |d| < LEN_PACKET_SIZE + size {
      var (below', got) := SourceRead(below, room - |d|);
      SourceReadKeeps(below, room - |d|, keys, fed, before + d);
      if got.Data? && got.bytes != [] {
        Regroup(before, d, got.bytes);
        RefillKeeps(below', d + got.bytes, size, room, keys, fed, before);
      }
    }
  }

  lemma {:induction false} ReadPacketKeeps(
    cfg: Config, r: Reader, below: Source, keys: seq<Key>, fed: seq<byte>, consumed: seq<byte>, returned: seq<byte>,
      fs: seq<seq<byte>>)
    requires ReaderOk(r)
    requires History(below, keys, fed, consumed) && Parsed(cfg, r, consumed, returned, fs)
    ensures var (below', room, packet) := ReadPacket(cfg, r, below);
            && r.room <= room <= Max(r.room, cfg.maxPacketSize + LEN_PACKET_SIZE)
            && (packet.Ok? ==>
                  && |packet.value.payload| + |packet.value.over| + LEN_PACKET_SIZE <= room
                  && |packet.value.payload| <= Min(cfg.maxPacketSize, TWO_32 - 1)
                  && History(below', keys, fed, Wire(fs) + (Framed(packet.value.payload) + packet.value.over)))
    decreases Depth(below), 2, 0
  {
    hide Wire, Plain, History, Parsed, Framed, Refill, FirstBytes, Uint32;
    var (below1, first) := FirstBytes(r, below);
    FirstBytesKeep(cfg, r, below, keys, fed, consumed, returned, fs);
    if first.Data? && LEN_PACKET_SIZE <= |first.bytes| {
      var size := Uint32(first.bytes[..LEN_PACKET_SIZE]);
      if size <= cfg.maxPacketSize {
        var room := Max(r.room, size + LEN_PACKET_SIZE);
        var full := Refill(below1, first.bytes, size, room).1;
        RefillKeeps(below1, first.bytes, size, room, keys, fed, Wire(fs));
        if full.Ok? {
          BufferIsFrame(first.bytes, full.value, size);
        }
      }
    }
  }

  lemma {:induction false} FirstBytesKeep(
    cfg: Config, r: Reader, below: Source, keys: seq<Key>, fed: seq<byte>, consumed: seq<byte>, returned: seq<byte>,
      fs: seq<seq<byte>>)
    requires ReaderOk(r)
    requires History(below, keys, fed, consumed) && Parsed(cfg, r, consumed, returned, fs)
    ensures var (below', first) := FirstBytes(r, below);
            first.Data? ==> History(below', keys, fed, Wire(fs) + first.bytes)
    decreases Depth(below), 1, 0
  {
    if r.overflow == [] {
      SourceReadKeeps(below, r.room, keys, fed, consumed);
      assert Wire(fs) + r.overflow == Wire(fs);
    } else {
      assert r.overflow[..|r.overflow|] == r.overflow;
    }
  }

  lemma BufferIsFrame(first: seq<byte>, buf: seq<byte>, size: nat)
    requires LEN_PACKET_SIZE <= |first| && first <= buf && size == Uint32(first[..LEN_PACKET_SIZE])
    requires LEN_PACKET_SIZE + size <= |buf|
    ensures buf == Framed(buf[LEN_PACKET_SIZE..LEN_PACKET_SIZE + size]) + buf[LEN_PACKET_SIZE + size..]
  {
    assert first[..LEN_PACKET_SIZE] == buf[..LEN_PACKET_SIZE];
    PutOfUint32(first[..LEN_PACKET_SIZE]);
  }

  /** A decoded payload that is not longer than its frame is stored and returned without loss. */
  lemma {:induction false} DeliverKeeps(cfg: Config, pk: Packet, room: nat, below: Source, n: nat,
      returned: seq<byte>, fs: seq<seq<byte>>)
    requires NonLengthening(cfg)
    requires |pk.payload| + |pk.over| + LEN_PACKET_SIZE <= room && |pk.payload| < TWO_32
    requires Small(fs, TWO_32 - 1) && Plain(cfg, fs) == returned
    ensures var (r', below', got) := Deliver(cfg, pk, room, below, n);
            && ReaderOk(r') && r'.room == room && below' == below
            && (got.Data? ==>
                  Parsed(cfg, r', Wire(fs) + (Framed(pk.payload) + pk.over), returned + got.bytes, fs + [pk.payload]))
  {
    hide Wire, Plain, Framed, Stored;
    var p := Detransformed(cfg, pk.payload);
    if p.Ok? {
      StoredFits(room, 0, p.value);
      var k := Min(n, |p.value|);
      var r', got := Reader(p.value[k..], pk.over, room), Data(p.value[..k]);
      assert Deliver(cfg, pk, room, below, n) == (r', below, got);
      WireMore(fs, pk.payload, pk.over);
      PlainAppend(cfg, fs, [pk.payload]);
      PlainOne(cfg, pk.payload);
      assert p.value == p.value[..k] + p.value[k..];
      assert returned + p.value == (returned + p.value[..k]) + p.value[k..];
    }
  }

  lemma {:induction false} WireMore(fs: seq<seq<byte>>, f: seq<byte>, over: seq<byte>)
    ensures Wire(fs) + (Framed(f) + over) == Wire(fs + [f]) + over
  {
    WireAppend(fs, [f]);
    WireOne(f);
  }

  /** One successful Read: what it returns continues what was returned before, at most one more frame
      is parsed, and nothing read from below is lost. */
  lemma {:induction false} FrameReadKeeps(
    cfg: Config, r: Reader, below: Source, n: nat, keys: seq<Key>,
    fed: seq<byte>, consumed: seq<byte>, returned: seq<byte>, fs: seq<seq<byte>>)
    returns (consumed': seq<byte>, fs': seq<seq<byte>>)
    requires ReaderOk(r) && NonLengthening(cfg)
    requires History(below, keys, fed, consumed) && Parsed(cfg, r, consumed, returned, fs)
    ensures var (r', below', got) := FrameRead(cfg, r, below, n);
            && ReaderOk(r')
            && r.room <= r'.room <= Max(r.room, cfg.maxPacketSize + LEN_PACKET_SIZE)
            && (got.Data? ==>
                  && History(below', keys, fed, consumed')
                  && Parsed(cfg, r', consumed', returned + got.bytes, fs'))
    decreases Depth(below), 3, 0
  {
    hide History, ReadPacket, Deliver, Wire, Plain, Framed;
    if r.unread != [] {
      consumed', fs' := consumed, fs;
      var k := Min(n, |r.unread|);
      assert r.unread == r.unread[..k] + r.unread[k..];
    } else {
      var (below', room, packet) := ReadPacket(cfg, r, below);
      ReadPacketKeeps(cfg, r, below, keys, fed, consumed, returned, fs);
      consumed', fs' := consumed, fs;
      if packet.Ok? {
        assert returned + r.unread == returned;
        consumed', fs' := Wire(fs) + (Framed(packet.value.payload) + packet.value.over), fs + [packet.value.payload];
        DeliverKeeps(cfg, packet.value, room, below', n, returned, fs);
      }
    }
  }
}
