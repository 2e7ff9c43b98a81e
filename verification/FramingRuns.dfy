/**
 Whole runs of a framed link: any mix of writes and reads, any cutting of the stream by the link, any
 sizes of the readers' buffers.
 */
module FramingRuns {
  import opened Wrappers
  import opened Bytes
  import opened Framing
  import opened FramingSafety
  import opened FramingWriter

  /** One direction of a framed connection: the reader, the bytes in flight, and what was written and
      delivered so far. `ok` ends with the first error. */
  datatype State = State(reader: Reader, inflight: seq<byte>, written: seq<byte>, delivered: seq<byte>, ok: bool)

  datatype Action =
    | Write(mem: seq<byte>, len: nat)
    | Read(n: nat, script: seq<Event>)

  const START := State(NEW_READER, [], [], [], true)

  /** A slice ends within its memory. */
  predicate Possible(a: Action) {
    a.Write? ==> a.len <= |a.mem|
  }

  /** The writes that get through: with a transform those of one batch or of batches that all fit, and
      without one those that no shift in memory can corrupt. */
  ghost predicate WriteAllowed(cfg: Config, a: Action)
    requires Possible(a)
  {
    a.Write? ==>
      if cfg.transform.Some? then
        BatchesTile(cfg, a.len);
        |Batches(cfg, a.len)| <= 1 || AllFit(cfg, a.mem, Batches(cfg, a.len))
      else cfg.maxPacketSize > 0 && Intact(cfg, a.len, |a.mem|)
  }

  ghost function Step(cfg: Config, s: State, a: Action): State
    requires SmallFits(cfg) && Possible(a)
  {
    if !s.ok then s
    else match a
      case Write(mem, len) =>
        var r := Send(cfg, mem, len);
        s.(inflight := s.inflight + Wire(r.frames), written := s.written + mem[..len], ok := r.outcome == Wrote(len))
      case Read(n, script) =>
        var (reader, src, got) := LinkRead(cfg, s.reader, Link(s.inflight, script), n);
        var s' := s.(reader := reader, inflight := src.inflight);
        if got.Fail? then s'.(ok := false) else s'.(delivered := s.delivered + got.bytes)
  }

  ghost function Run(cfg: Config, actions: seq<Action>): State
    requires SmallFits(cfg) && forall a :: a in actions ==> Possible(a)
  {
    if actions == [] then START
    else Step(cfg, Run(cfg, actions[..|actions| - 1]), actions[|actions| - 1])
  }

  /** Decoding raw bytes: the content of the complete frames they start with. */
  function Decoded(cfg: Config, w: seq<byte>): seq<byte>
    decreases |w|
  {
    if |w| < LEN_PACKET_SIZE || |w| < LEN_PACKET_SIZE + Uint32(w[..LEN_PACKET_SIZE]) then []
    else
      var end := LEN_PACKET_SIZE + Uint32(w[..LEN_PACKET_SIZE]);
      (match Detransformed(cfg, w[LEN_PACKET_SIZE..end]) case Ok(p) => p case Err(_) => []) + Decoded(cfg, w[end..])
  }

  lemma {:induction false} DecodedWire(cfg: Config, fs: seq<seq<byte>>)
    requires Small(fs, TWO_32 - 1)
    ensures Decoded(cfg, Wire(fs)) == Plain(cfg, fs)
    decreases |fs|
  {
    hide PutUint32;
    if fs != [] {
      var f, w := fs[0], Wire(fs);
      Uint32RoundTrip(|f|);
      assert w == PutUint32(|f|) + f + Wire(fs[1..]);
      assert w[..LEN_PACKET_SIZE] == PutUint32(|f|);
      assert w[LEN_PACKET_SIZE..LEN_PACKET_SIZE + |f|] == f;
      assert w[LEN_PACKET_SIZE + |f|..] == Wire(fs[1..]);
      DecodedWire(cfg, fs[1..]);
    }
  }

  ghost predicate Sound(cfg: Config) {
    SmallFits(cfg) && Inverse(cfg) && NonLengthening(cfg) && cfg.maxPacketSize < TWO_32
  }

  /** Everything sent is `gs`; the reader has parsed the first of them and the rest is on its way. */
  ghost predicate Accounts(cfg: Config, s: State, gs: seq<seq<byte>>, k: nat) {
    && k <= |gs|
    && ReaderOk(s.reader)
    && Small(gs, cfg.maxPacketSize)
    && s.written == Plain(cfg, gs)
    && s.delivered + s.reader.unread == Plain(cfg, gs[..k])
    && s.reader.overflow + s.inflight == Wire(gs[k..])
  }

  lemma WriteAccounts(cfg: Config, s: State, a: Action, gs: seq<seq<byte>>, k: nat) returns (gs': seq<seq<byte>>)
    requires Sound(cfg) && Possible(a) && WriteAllowed(cfg, a) && a.Write? && s.ok && Accounts(cfg, s, gs, k)
    ensures Step(cfg, s, a).ok ==> Accounts(cfg, Step(cfg, s, a), gs', k)
  {
    hide Wire, Plain, SmallFits, Inverse, NonLengthening, Send;
    var r := Send(cfg, a.mem, a.len);
    if cfg.transform.Some? {
      BatchesTile(cfg, a.len);
      WriteCarries(cfg, a.mem, a.len);
    } else {
      InverseIsBare(cfg);
      BareCarries(cfg, a.mem, a.len);
      FramesFit(cfg, a.mem, a.len);
    }
    gs' := gs + r.frames;
    PlainAppend(cfg, gs, r.frames);
    assert gs'[..k] == gs[..k] && gs'[k..] == gs[k..] + r.frames;
    WireAppend(gs[k..], r.frames);
    assert s.reader.overflow + (s.inflight + Wire(r.frames)) == (s.reader.overflow + s.inflight) + Wire(r.frames);
  }

  lemma InverseIsBare(cfg: Config)
    requires cfg.transform.None? && Inverse(cfg) && SmallFits(cfg)
    ensures Bare(cfg)
  {
    forall data: seq<byte> ensures Detransformed(cfg, data) == Ok(data) {
      assert Encoded(cfg, data) == Ok(data);
    }
  }

  lemma ReadAccounts(cfg: Config, s: State, a: Action, gs: seq<seq<byte>>, k: nat) returns (k': nat)
    requires Sound(cfg) && a.Read? && s.ok && Accounts(cfg, s, gs, k)
    ensures Step(cfg, s, a).ok ==> Accounts(cfg, Step(cfg, s, a), gs, k')
  {
    hide Plain, Wire, SmallFits, Inverse, NonLengthening, WriteAllowed, FrameRead, History;
    k' := k;
    var below := Link(s.inflight, a.script);
    var fed := Wire(gs);
    WireSplit(gs, k);
    var consumed := Wire(gs[..k]) + s.reader.overflow;
    assert fed == consumed + s.inflight;
    var (reader, src, got) := FrameRead(cfg, s.reader, below, a.n);
    LinkHistory(below, fed, consumed);
    var consumed', fs' := FrameReadKeeps(cfg, s.reader, below, a.n, [], fed, consumed, s.delivered, gs[..k]);
    if got.Data? {
      DepthOfLink(src);
      LinkHistory(src, fed, consumed');
      assert Wire(fs') + (reader.overflow + src.inflight) == fed;
      WirePrefix(fs', gs, reader.overflow + src.inflight);
      k' := |fs'|;
      assert gs[..k'] == fs';
    }
  }

  lemma {:induction false} LinkHistory(src: Source, fed: seq<byte>, delivered: seq<byte>)
    requires src.Link?
    ensures History(src, [], fed, delivered) <==> fed == delivered + src.inflight
  {
  }

  lemma {:induction false} WireSplit(gs: seq<seq<byte>>, k: nat)
    requires k <= |gs|
    ensures Wire(gs) == Wire(gs[..k]) + Wire(gs[k..])
  {
    hide Wire;
    WireAppend(gs[..k], gs[k..]);
    assert gs == gs[..k] + gs[k..];
  }

  lemma {:induction false} RunAccounts(cfg: Config, actions: seq<Action>) returns (gs: seq<seq<byte>>, k: nat)
    requires Sound(cfg) && forall a :: a in actions ==> Possible(a) && WriteAllowed(cfg, a)
    ensures Run(cfg, actions).ok ==> Accounts(cfg, Run(cfg, actions), gs, k)
    ensures Run(cfg, actions).delivered <= Run(cfg, actions).written
    decreases |actions|
  {
    hide WriteAllowed, SmallFits, Inverse, NonLengthening;
    gs, k := [], 0;
    if actions != [] {
      var before, a := actions[..|actions| - 1], actions[|actions| - 1];
      gs, k := RunAccounts(cfg, before);
      var s := Run(cfg, before);
      if s.ok {
        if a.Write? {
          gs := WriteAccounts(cfg, s, a, gs, k);
        } else {
          k := ReadAccounts(cfg, s, a, gs, k);
          DeliveredIsPrefix(cfg, Step(cfg, s, a), gs, k);
        }
      }
    }
  }

  lemma DeliveredIsPrefix(cfg: Config, s: State, gs: seq<seq<byte>>, k: nat)
    ensures Accounts(cfg, s, gs, k) ==> s.delivered <= s.written
  {
    if Accounts(cfg, s, gs, k) {
      PlainAppend(cfg, gs[..k], gs[k..]);
      assert gs == gs[..k] + gs[k..];
    }
  }

  /** Framing safety: until the first error, at which a run stops, delivered bytes, undelivered decoded bytes
      and the decoding of what is still on its way make up exactly what was written; the bytes delivered by
      then are a prefix of it. */
  lemma {:induction false} FramingSafe(cfg: Config, actions: seq<Action>)
    requires Sound(cfg) && forall a :: a in actions ==> Possible(a) && WriteAllowed(cfg, a)
    ensures var s := Run(cfg, actions);
            && s.delivered <= s.written
            && (s.ok ==> s.written == s.delivered + s.reader.unread + Decoded(cfg, s.reader.overflow + s.inflight))
  {
    hide WriteAllowed, SmallFits, Inverse, NonLengthening, Run, Decoded, Wire, Plain;
    var gs, k := RunAccounts(cfg, actions);
    var s := Run(cfg, actions);
    if s.ok {
      DecodedWire(cfg, gs[k..]);
      PlainAppend(cfg, gs[..k], gs[k..]);
      assert gs == gs[..k] + gs[k..];
    }
  }

  /** Whatever was written: until the first error the reader has made frames of what it took from the link. */
  ghost predicate ReaderAccounts(cfg: Config, s: State) {
    && ReaderOk(s.reader)
    && MAX_PACKET_SIZE / 2 <= s.reader.room <= Max(MAX_PACKET_SIZE / 2, cfg.maxPacketSize + LEN_PACKET_SIZE)
    && (s.ok ==> exists consumed, fs :: Parsed(cfg, s.reader, consumed, s.delivered, fs))
  }

  lemma StepReaderAccounts(cfg: Config, s: State, a: Action)
    requires SmallFits(cfg) && NonLengthening(cfg) && Possible(a) && ReaderAccounts(cfg, s)
    ensures ReaderAccounts(cfg, Step(cfg, s, a))
  {
    hide Send, SmallFits, NonLengthening, Parsed, FrameRead;
    if s.ok && a.Read? {
      var consumed, fs :| Parsed(cfg, s.reader, consumed, s.delivered, fs);
      var below := Link(s.inflight, a.script);
      var consumed', fs' := FrameReadKeeps(cfg, s.reader, below, a.n, [], consumed + s.inflight, consumed,
            s.delivered, fs);
    }
  }

  /** Buffer bounds: whatever is written, until the first error the decode buffer never shrinks below its
      first size nor grows past the largest frame, and the overflow always fits it with a header to spare. */
  lemma {:induction false} BufferBounded(cfg: Config, actions: seq<Action>)
    requires SmallFits(cfg) && NonLengthening(cfg) && forall a :: a in actions ==> Possible(a)
    ensures var r := Run(cfg, actions).reader;
            && MAX_PACKET_SIZE / 2 <= r.room <= Max(MAX_PACKET_SIZE / 2, cfg.maxPacketSize + LEN_PACKET_SIZE)
            && |r.overflow| + LEN_PACKET_SIZE <= r.room
    ensures ReaderAccounts(cfg, Run(cfg, actions))
    decreases |actions|
  {
    hide SmallFits, NonLengthening, Step;
    if actions == [] {
      assert Parsed(cfg, NEW_READER, [], [], []) by { NothingParsed(cfg); }
    } else {
      BufferBounded(cfg, actions[..|actions| - 1]);
      StepReaderAccounts(cfg, Run(cfg, actions[..|actions| - 1]), actions[|actions| - 1]);
    }
  }

  lemma NothingParsed(cfg: Config)
    ensures Parsed(cfg, NEW_READER, [], [], [])
  {
    assert [] == [] + NEW_READER.overflow;
  }
}
