/**
 What one `Write` of the framing connection sends, and what it does to the caller's memory. A slice is
 a length and the memory from its first byte to the end of its capacity. The halves of a split and
 the batches share that memory, and Go's append writes into it when the capacity allows it.
 */
module FramingWriter {
  import opened Wrappers
  import opened Bytes
  import opened Framing
  import opened FramingSafety

  datatype Outcome = Wrote(n: nat) | WriteFailed(error: Error) | Panicked

  datatype Sent = Sent(mem: seq<byte>, frames: seq<seq<byte>>, outcome: Outcome)

  /** One batch: where it starts in the written slice, and its length. */
  datatype Batch = Batch(start: nat, len: nat)

  function Encoded(cfg: Config, data: seq<byte>): Result<seq<byte>, Error> {
    match cfg.transform
    case None => Ok(data)
    case Some(f) => f(data)
  }

  /** Without this Write halves a message of at most one byte for ever. */
  ghost predicate SmallFits(cfg: Config) {
    forall p :: |p| <= 1 ==> Fits(cfg, p)
  }

  predicate Fits(cfg: Config, data: seq<byte>) {
    Encoded(cfg, data).Ok? ==> |Encoded(cfg, data).value| <= cfg.maxPacketSize
  }

  /** bactchData, for a slice of length `len`. */
  function Batches(cfg: Config, len: nat): seq<Batch> {
    if cfg.batchSize <= 0 || len < cfg.maxPacketSize then [Batch(0, len)] else Cuts(0, len, cfg.batchSize)
  }

  function Cuts(from: nat, len: nat, size: nat): seq<Batch>
    requires size > 0
    decreases len - from
  {
    if from >= len then [] else [Batch(from, Min(size, len - from))] + Cuts(from + size, len, size)
  }

  /** prependInt on the first `len` bytes: in place when four more bytes fit the capacity. */
  function Prepended(mem: seq<byte>, len: nat): (r: seq<byte>)
    requires len <= |mem|
    ensures |r| == |mem|
  {
    if len + LEN_PACKET_SIZE <= |mem| then Framed(mem[..len]) + mem[len + LEN_PACKET_SIZE..] else mem
  }

  predicate InSlice(bs: seq<Batch>, len: nat) {
    forall i :: 0 <= i < |bs| ==> bs[i].start + bs[i].len <= len
  }

  function Content(mem: seq<byte>, b: Batch): seq<byte>
    requires b.start + b.len <= |mem|
  {
    mem[b.start..b.start + b.len]
  }

  /** Conn.Write of the slice of length `len` in `mem`. */
  function Send(cfg: Config, mem: seq<byte>, len: nat): (r: Sent)
    requires SmallFits(cfg) && len <= |mem|
    ensures |r.mem| == |mem|
    decreases len, 2, 0
  {
    BatchesTile(cfg, len);
    SendBatches(cfg, mem, len, Batches(cfg, len))
  }

  /** The loop over the batches. A batch that does not fit after the transform is split at half the
      length of the whole message, and the remaining batches are dropped. */
  function SendBatches(cfg: Config, mem: seq<byte>, len: nat, bs: seq<Batch>): (r: Sent)
    requires SmallFits(cfg) && len <= |mem| && InSlice(bs, len)
    ensures |r.mem| == |mem|
    decreases len, 1, |bs|
  {
    if bs == [] then Sent(mem, [], Wrote(len))
    else
      var b := bs[0];
      assert |Content(mem, b)| <= 1 ==> Fits(cfg, Content(mem, b));
      match Encoded(cfg, Content(mem, b))
      case Err(e) => Sent(mem, [], WriteFailed(e))
      case Ok(f) =>
        if |f| > cfg.maxPacketSize then Behind(mem[..b.start], SendHalves(cfg, mem[b.start..], len, b.len))
        else
          var mem' := if cfg.transform.None? then mem[..b.start] + Prepended(mem[b.start..], b.len) else mem;
          var rest := SendBatches(cfg, mem', len, bs[1..]);
          rest.(frames := [f] + rest.frames)
  }

  /** A slice of length `n` sent as two writes, the first of them half as long as the message. That one may
      reach behind the slice, as far as its capacity goes; the second then starts behind its end. */
  function SendHalves(cfg: Config, mem: seq<byte>, len: nat, n: nat): (r: Sent)
    requires SmallFits(cfg) && 1 < len && n <= len && n <= |mem|
    ensures |r.mem| == |mem|
    decreases len, 0, 0
  {
    if len / 2 > |mem| then Sent(mem, [], Panicked)
    else
      var first := Send(cfg, mem, len / 2);
      if !first.outcome.Wrote? then first
      else if len / 2 > n then first.(outcome := Panicked)
      else Behind(first.mem[..len / 2], Joined(first, Send(cfg, first.mem[len / 2..], n - len / 2)))
  }

  function Behind(front: seq<byte>, r: Sent): Sent {
    r.(mem := front + r.mem)
  }

  function Joined(first: Sent, second: Sent): Sent
    requires first.outcome.Wrote?
  {
    Sent(second.mem, first.frames + second.frames,
         if second.outcome.Wrote? then Wrote(first.outcome.n + second.outcome.n) else second.outcome)
  }

  ghost predicate Tile(bs: seq<Batch>, from: nat, to: nat) {
    if bs == [] then from == to
    else bs[0].start == from && from + bs[0].len <= to && Tile(bs[1..], from + bs[0].len, to)
  }

  lemma {:induction false} TileInSlice(bs: seq<Batch>, from: nat, to: nat)
    requires Tile(bs, from, to)
    ensures from <= to && InSlice(bs, to)
  {
    if bs != [] {
      TileInSlice(bs[1..], from + bs[0].len, to);
      assert forall i :: 0 < i < |bs| ==> bs[i] == bs[1..][i - 1];
    }
  }

  lemma {:induction false} CutsTile(from: nat, len: nat, size: nat)
    requires size > 0 && from <= len
    ensures Tile(Cuts(from, len, size), from, len)
    ensures forall b :: b in Cuts(from, len, size) ==> 0 < b.len <= size
    ensures |Cuts(from, len, size)| <= 1 <==> len - from <= size
    decreases len - from
  {
    if from < len {
      if from + size <= len {
        CutsTile(from + size, len, size);
      } else {
        assert Cuts(from + size, len, size) == [];
      }
    }
  }

  /** The batches follow each other without a gap and cover the slice. */
  lemma {:induction false} BatchesTile(cfg: Config, len: nat)
    ensures Tile(Batches(cfg, len), 0, len)
    ensures InSlice(Batches(cfg, len), len)
  {
    if cfg.batchSize > 0 && len >= cfg.maxPacketSize {
      CutsTile(0, len, cfg.batchSize);
    } else {
      assert Batches(cfg, len)[1..] == [];
    }
    TileInSlice(Batches(cfg, len), 0, len);
  }

  lemma {:induction false} CutsAre(from: nat, len: nat, size: nat, i: nat)
    requires size > 0 && i < |Cuts(from, len, size)|
    ensures from + i * size < len
    ensures Cuts(from, len, size)[i] == Batch(from + i * size, Min(size, len - (from + i * size)))
    decreases i
  {
    if i > 0 {
      CutsAre(from + size, len, size, i - 1);
      assert from + size + (i - 1) * size == from + i * size;
    }
  }

  /** Below the threshold, or without a batch size, the message is one batch; otherwise batch `i` starts at `i` times
      the batch size and is that long, as far as the message goes. */
  lemma {:induction false} BatchesAre(cfg: Config, len: nat, i: nat)
    requires i < |Batches(cfg, len)|
    ensures if cfg.batchSize <= 0 || len < cfg.maxPacketSize then Batches(cfg, len) == [Batch(0, len)]
            else i * cfg.batchSize < len &&
                   Batches(cfg, len)[i] == Batch(i * cfg.batchSize, Min(cfg.batchSize, len - i * cfg.batchSize))
  {
    if cfg.batchSize > 0 && len >= cfg.maxPacketSize {
      CutsAre(0, len, cfg.batchSize, i);
    }
  }

  /** Parts of a single batch are single batches too. */
  lemma SingleStays(cfg: Config, len: nat, part: nat)
    requires |Batches(cfg, len)| <= 1 && part <= len
    ensures |Batches(cfg, part)| <= 1
  {
    if cfg.batchSize > 0 && part >= cfg.maxPacketSize {
      CutsTile(0, len, cfg.batchSize);
      CutsTile(0, part, cfg.batchSize);
    }
  }

  /** A message of one batch that does not fit after the transform is sent as its two halves. */
  lemma {:induction false} SplitInHalves(cfg: Config, mem: seq<byte>, len: nat)
    requires SmallFits(cfg) && len <= |mem|
    requires Batches(cfg, len) == [Batch(0, len)] && !Fits(cfg, mem[..len])
    ensures len >= 2
    ensures Send(cfg, mem, len) == SendHalves(cfg, mem, len, len)
  {
    var bs := Batches(cfg, len);
    assert bs[0] == Batch(0, len) && Content(mem, bs[0]) == mem[..len];
    assert mem[0..] == mem;
    var r := SendHalves(cfg, mem, len, len);
    assert mem[..0] + r.mem == r.mem;
  }

  // ---------- Writing through a transform that returns fresh memory ----------

  ghost predicate Inverse(cfg: Config) {
    forall p :: Encoded(cfg, p).Ok? ==> Detransformed(cfg, Encoded(cfg, p).value) == Ok(p)
  }

  ghost predicate NeverFails(cfg: Config) {
    forall p :: Encoded(cfg, p).Ok?
  }

  ghost predicate AllFit(cfg: Config, mem: seq<byte>, bs: seq<Batch>)
    requires InSlice(bs, |mem|)
  {
    forall i :: 0 <= i < |bs| ==> Fits(cfg, Content(mem, bs[i]))
  }

  /** The frames carry exactly `data`, each within the limit, and the caller's memory is untouched. */
  ghost predicate Carried(cfg: Config, mem: seq<byte>, n: nat, data: seq<byte>, r: Sent) {
    && r.mem == mem
    && !r.outcome.Panicked?
    && Small(r.frames, cfg.maxPacketSize)
    && (r.outcome.Wrote? ==> r.outcome.n == n && Plain(cfg, r.frames) == data)
    && (NeverFails(cfg) ==> r.outcome.Wrote?)
  }

  lemma {:induction false} FittingBatchesCarried(cfg: Config, mem: seq<byte>, len: nat, bs: seq<Batch>, from: nat)
    requires SmallFits(cfg) && Inverse(cfg) && cfg.transform.Some?
    requires from <= len <= |mem| && InSlice(bs, len) && Tile(bs, from, len)
    requires AllFit(cfg, mem, bs)
    ensures Carried(cfg, mem, len, mem[from..len], SendBatches(cfg, mem, len, bs))
    decreases |bs|
  {
    hide Plain, SmallFits, SendHalves, Small;
    NothingPlain(cfg);
    if bs != [] {
      var b := bs[0];
      var data := Content(mem, b);
      if Encoded(cfg, data).Ok? {
        assert Fits(cfg, data);
        assert forall i :: 0 <= i < |bs[1..]| ==> bs[1..][i] == bs[i + 1];
        TileInSlice(bs[1..], from + b.len, len);
        FittingBatchesCarried(cfg, mem, len, bs[1..], from + b.len);
        var f := Encoded(cfg, data).value;
        var rest := SendBatches(cfg, mem, len, bs[1..]);
        assert Detransformed(cfg, f) == Ok(data);
        FrameInFront(cfg, f, rest.frames);
        assert mem[from..len] == data + mem[from + b.len..len];
      }
    }
  }

  lemma {:induction false} FrameInFront(cfg: Config, f: seq<byte>, fs: seq<seq<byte>>)
    ensures |f| <= cfg.maxPacketSize && Small(fs, cfg.maxPacketSize) ==> Small([f] + fs, cfg.maxPacketSize)
    ensures Detransformed(cfg, f).Ok? ==> Plain(cfg, [f] + fs) == Detransformed(cfg, f).value + Plain(cfg, fs)
  {
    assert ([f] + fs)[1..] == fs;
  }

  /** The splitting writer: a message that is one batch, or all of whose batches fit, is carried. */
  lemma {:induction false} WriteCarries(cfg: Config, mem: seq<byte>, len: nat)
    requires SmallFits(cfg) && Inverse(cfg) && cfg.transform.Some?
    requires len <= |mem| && InSlice(Batches(cfg, len), |mem|)
    requires |Batches(cfg, len)| <= 1 || AllFit(cfg, mem, Batches(cfg, len))
    ensures Carried(cfg, mem, len, mem[..len], Send(cfg, mem, len))
    decreases len
  {
    var bs := Batches(cfg, len);
    BatchesTile(cfg, len);
    hide SmallFits, Inverse, Carried, SendHalves;
    if AllFit(cfg, mem, bs) {
      FittingBatchesCarried(cfg, mem, len, bs, 0);
    } else {
      assert bs[1..] == [] && bs[0] == Batch(0, len) && Content(mem, bs[0]) == mem[..len];
      SplitInHalves(cfg, mem, len);
      var half := len / 2;
      SingleStays(cfg, len, half);
      SingleStays(cfg, len, len - half);
      BatchesTile(cfg, half);
      BatchesTile(cfg, len - half);
      WriteCarries(cfg, mem, half);
      WriteCarries(cfg, mem[half..], len - half);
      HalvesCarried(cfg, mem, len);
    }
  }

  lemma HalvesCarried(cfg: Config, mem: seq<byte>, len: nat)
    requires SmallFits(cfg) && 1 < len <= |mem|
    requires Carried(cfg, mem, len / 2, mem[..len / 2], Send(cfg, mem, len / 2))
    requires Carried(cfg, mem[len / 2..], len - len / 2, mem[len / 2..][..len - len / 2],
               Send(cfg, mem[len / 2..], len - len / 2))
    ensures Carried(cfg, mem, len, mem[..len], SendHalves(cfg, mem, len, len))
  {
    hide Plain, Send, SmallFits, NeverFails;
    var half := len / 2;
    var first, second := Send(cfg, mem, half), Send(cfg, mem[half..], len - half);
    PlainAppend(cfg, first.frames, second.frames);
    assert mem[..len] == mem[..half] + mem[half..][..len - half];
    assert mem == mem[..half] + mem[half..];
  }

  /** With a transform that never fails, Write reports the whole message written exactly when the
      message is one batch or every transformed batch fits; otherwise batches are dropped or the
      split panics. */
  lemma {:induction false} WriteCompleteIff(cfg: Config, mem: seq<byte>, len: nat)
    requires SmallFits(cfg) && Inverse(cfg) && cfg.transform.Some? && NeverFails(cfg)
    requires len <= |mem| && InSlice(Batches(cfg, len), |mem|)
    ensures Send(cfg, mem, len).outcome == Wrote(len)
       <==> |Batches(cfg, len)| <= 1 || AllFit(cfg, mem, Batches(cfg, len))
  {
    var bs := Batches(cfg, len);
    BatchesTile(cfg, len);
    if |bs| <= 1 || AllFit(cfg, mem, bs) {
      WriteCarries(cfg, mem, len);
    } else {
      CutsTile(0, len, cfg.batchSize);
      BatchesDropped(cfg, mem, len, bs);
    }
  }

  /** A first batch that does not fit and is shorter than half the message: the half of the message goes out,
      which reaches into the batches behind, and only then the split panics. */
  lemma {:induction false} HalfSentBeforePanic(cfg: Config, mem: seq<byte>, len: nat)
    requires SmallFits(cfg) && Inverse(cfg) && cfg.transform.Some? && NeverFails(cfg) && len <= |mem|
    requires cfg.maxPacketSize <= len && 0 < cfg.batchSize < len / 2 && !Fits(cfg, mem[..cfg.batchSize])
    requires |Batches(cfg, len / 2)| <= 1
    ensures Send(cfg, mem, len).outcome == Panicked && Plain(cfg, Send(cfg, mem, len).frames) == mem[..len / 2]
  {
    hide Plain, SmallFits, Inverse, Send, SendHalves;
    BatchesTile(cfg, len);
    BatchesTile(cfg, len / 2);
    var b := Batches(cfg, len)[0];
    assert b == Batch(0, cfg.batchSize) && Content(mem, b) == mem[..cfg.batchSize];
    WriteCarries(cfg, mem, len / 2);
    PanicsBehindHalf(cfg, mem, len);
  }

  lemma {:induction false} PanicsBehindHalf(cfg: Config, mem: seq<byte>, len: nat)
    requires SmallFits(cfg) && NeverFails(cfg) && len <= |mem|
    requires cfg.maxPacketSize <= len && 0 < cfg.batchSize < len / 2 && !Fits(cfg, mem[..cfg.batchSize])
    requires Send(cfg, mem, len / 2).outcome.Wrote?
    ensures Send(cfg, mem, len).outcome == Panicked && Send(cfg, mem, len).frames == Send(cfg, mem, len / 2).frames
  {
    hide SmallFits;
    BatchesTile(cfg, len);
    var b := Batches(cfg, len)[0];
    assert b == Batch(0, cfg.batchSize) && Content(mem, b) == mem[..cfg.batchSize] && mem[0..] == mem;
    assert Encoded(cfg, mem[..cfg.batchSize]).Ok?;
    assert 1 < len && SendHalves(cfg, mem, len, b.len) == Send(cfg, mem, len / 2).(outcome := Panicked);
    assert SendBatches(cfg, mem, len, Batches(cfg, len)) == Behind(mem[..0], SendHalves(cfg, mem, len, b.len));
  }

  lemma {:induction false} BatchesDropped(cfg: Config, mem: seq<byte>, len: nat, bs: seq<Batch>)
    requires SmallFits(cfg) && Inverse(cfg) && cfg.transform.Some? && NeverFails(cfg)
    requires len <= |mem| && InSlice(bs, len)
    requires 0 < cfg.batchSize < len && forall b :: b in bs ==> b.len <= cfg.batchSize
    requires !AllFit(cfg, mem, bs)
    ensures var outcome := SendBatches(cfg, mem, len, bs).outcome;
            outcome.Panicked? || (outcome.Wrote? && outcome.n < len)
    decreases |bs|
  {
    hide SmallFits, Inverse, SendBatches, SendHalves, Send;
    var b := bs[0];
    FirstBatch(cfg, mem, len, bs);
    if Fits(cfg, Content(mem, b)) {
      assert forall i :: 0 <= i < |bs[1..]| ==> bs[1..][i] == bs[i + 1];
      BatchesDropped(cfg, mem, len, bs[1..]);
    } else {
      var rest := mem[b.start..];
      if len / 2 <= b.len {
        CutsTile(0, len / 2, cfg.batchSize);
        CutsTile(0, b.len - len / 2, cfg.batchSize);
        PartCarried(cfg, rest, len / 2);
        PartCarried(cfg, rest[len / 2..], b.len - len / 2);
      } else if len / 2 <= |rest| {
        WriteNeverFails(cfg, rest, len / 2);
      }
      PartsWritten(cfg, rest, len, b.len);
    }
  }

  lemma PartsWritten(cfg: Config, mem: seq<byte>, len: nat, n: nat)
    requires SmallFits(cfg) && 1 < len && n <= len && n <= |mem|
    requires len / 2 <= |mem| && len / 2 > n ==> !Send(cfg, mem, len / 2).outcome.WriteFailed?
    requires len / 2 <= n ==> Send(cfg, mem, len / 2).outcome == Wrote(len / 2) && Send(cfg, mem, len / 2).mem == mem
    requires len / 2 <= n ==> Send(cfg, mem[len / 2..], n - len / 2).outcome == Wrote(n - len / 2)
    ensures SendHalves(cfg, mem, len, n).outcome == if len / 2 <= n then Wrote(n) else Panicked
  {
    hide SmallFits, Send;
  }

  lemma {:induction false} WriteNeverFails(cfg: Config, mem: seq<byte>, len: nat)
    requires SmallFits(cfg) && NeverFails(cfg) && len <= |mem|
    ensures !Send(cfg, mem, len).outcome.WriteFailed?
    decreases len, 2, 0
  {
    BatchesTile(cfg, len);
    BatchesNeverFail(cfg, mem, len, Batches(cfg, len));
  }

  lemma {:induction false} BatchesNeverFail(cfg: Config, mem: seq<byte>, len: nat, bs: seq<Batch>)
    requires SmallFits(cfg) && NeverFails(cfg) && len <= |mem| && InSlice(bs, len)
    ensures !SendBatches(cfg, mem, len, bs).outcome.WriteFailed?
    decreases len, 1, |bs|
  {
    hide SmallFits, Prepended, Batches;
    if bs != [] {
      var b := bs[0];
      assert InSlice(bs[1..], len) by { assert forall i :: 0 <= i < |bs[1..]| ==> bs[1..][i] == bs[i + 1]; }
      SplitOnlyLarge(cfg, mem, len, b);
      assert Encoded(cfg, Content(mem, b)).Ok?;
      if |Encoded(cfg, Content(mem, b)).value| <= cfg.maxPacketSize {
        var mem' := if cfg.transform.None? then mem[..b.start] + Prepended(mem[b.start..], b.len) else mem;
        BatchesNeverFail(cfg, mem', len, bs[1..]);
      } else if len / 2 <= |mem| - b.start {
        var rest := mem[b.start..];
        WriteNeverFails(cfg, rest, len / 2);
        if len / 2 <= b.len {
          WriteNeverFails(cfg, Send(cfg, rest, len / 2).mem[len / 2..], b.len - len / 2);
        }
      }
    }
  }

  lemma {:induction false} FirstBatch(cfg: Config, mem: seq<byte>, len: nat, bs: seq<Batch>)
    requires SmallFits(cfg) && cfg.transform.Some? && NeverFails(cfg)
    requires len <= |mem| && InSlice(bs, len) && bs != []
    ensures var b, outcome := bs[0], SendBatches(cfg, mem, len, bs).outcome;
            if Fits(cfg, Content(mem, b)) then outcome == SendBatches(cfg, mem, len, bs[1..]).outcome
            else 1 < len && outcome == SendHalves(cfg, mem[b.start..], len, b.len).outcome
  {
    assert Encoded(cfg, Content(mem, bs[0])).Ok?;
    assert |Content(mem, bs[0])| <= 1 ==> Fits(cfg, Content(mem, bs[0]));
  }

  // ---------- Where a write goes wrong ----------

  /** The batches in front of number `k` are sent whole, and then what the transform makes of that one, fails or does
      not fit. */
  ghost predicate FirstTrouble(cfg: Config, mem: seq<byte>, bs: seq<Batch>, k: nat)
    requires InSlice(bs, |mem|)
  {
    && k < |bs|
    && (forall j :: 0 <= j < k ==> Encoded(cfg, Content(mem, bs[j])).Ok? && Fits(cfg, Content(mem, bs[j])))
    && (Encoded(cfg, Content(mem, bs[k])).Err? || !Fits(cfg, Content(mem, bs[k])))
  }

  lemma {:induction false} TroubleAt(cfg: Config, mem: seq<byte>, len: nat, bs: seq<Batch>, from: nat, k: nat)
    requires SmallFits(cfg) && Inverse(cfg) && cfg.transform.Some?
    requires from <= len <= |mem| && InSlice(bs, len) && Tile(bs, from, len) && FirstTrouble(cfg, mem, bs, k)
    ensures var b, r := bs[k], SendBatches(cfg, mem, len, bs);
            match Encoded(cfg, Content(mem, b))
            case Err(e) => r.outcome == WriteFailed(e) && from <= b.start && Plain(cfg, r.frames) == mem[from..b.start]
            case Ok(_) =>
              && 1 < len && from <= b.start
              && var split := SendHalves(cfg, mem[b.start..], len, b.len);
                 r.outcome == split.outcome && Plain(cfg, r.frames) == mem[from..b.start] + Plain(cfg, split.frames)
    decreases k
  {
    hide Plain, SmallFits, SendHalves, Inverse;
    var b := bs[0];
    assert forall i :: 0 <= i < |bs[1..]| ==> bs[1..][i] == bs[i + 1];
    NothingPlain(cfg);
    if k > 0 {
      TileInSlice(bs[1..], from + b.len, len);
      TroubleAt(cfg, mem, len, bs[1..], from + b.len, k - 1);
      var data := Content(mem, b);
      assert Detransformed(cfg, Encoded(cfg, data).value) == Ok(data) by { SentBack(cfg, data); }
      FrameInFront(cfg, Encoded(cfg, data).value, SendBatches(cfg, mem, len, bs[1..]).frames);
      assert mem[from..bs[k].start] == data + mem[from + b.len..bs[k].start];
    } else {
      assert mem[from..b.start] == [];
      SplitOnlyLarge(cfg, mem, len, b);
    }
  }

  lemma SentBack(cfg: Config, data: seq<byte>)
    requires Inverse(cfg) && Encoded(cfg, data).Ok?
    ensures Detransformed(cfg, Encoded(cfg, data).value) == Ok(data)
  {
  }

  /** What a write that goes wrong has sent, and how it ends. A failing transform ends it with that error behind the
      batches in front. A batch that does not fit is sent in two parts, after which the remaining batches are missing
      and only the length of that batch is reported; unless it is shorter than half the message: then half the
      message is written from its start, as far as the memory goes, and that panics. */
  lemma {:induction false} WriteGoesWrong(cfg: Config, mem: seq<byte>, len: nat, k: nat)
    requires SmallFits(cfg) && Inverse(cfg) && cfg.transform.Some? && len <= |mem|
    requires InSlice(Batches(cfg, len), |mem|) && FirstTrouble(cfg, mem, Batches(cfg, len), k)
    ensures var b, r := Batches(cfg, len)[k], Send(cfg, mem, len);
            match Encoded(cfg, Content(mem, b))
            case Err(e) => r.outcome == WriteFailed(e) && Plain(cfg, r.frames) == mem[..b.start]
            case Ok(_) =>
              if len / 2 <= b.len then
                NeverFails(cfg) ==> r.outcome == Wrote(b.len) && Plain(cfg, r.frames) == mem[..b.start + b.len]
              else if b.start + len / 2 > |mem| then r.outcome == Panicked && Plain(cfg, r.frames) == mem[..b.start]
              else
                var half := Send(cfg, mem[b.start..], len / 2);
                && Plain(cfg, r.frames) == mem[..b.start] + Plain(cfg, half.frames)
                && r.outcome == if half.outcome.Wrote? then Panicked else half.outcome
  {
    hide Plain, SmallFits, Inverse, NeverFails, SendBatches, Send, SendHalves, Batches;
    var bs := Batches(cfg, len);
    BatchesTile(cfg, len);
    TroubleAt(cfg, mem, len, bs, 0, k);
    SendIs(cfg, mem, len);
    var b := bs[k];
    var rest := mem[b.start..];
    assert mem[0..b.start] == mem[..b.start];
    if Encoded(cfg, Content(mem, b)).Ok? {
      SplitIs(cfg, rest, len, b.len);
      if len / 2 <= b.len && NeverFails(cfg) {
        PartsAreBatches(cfg, len, k);
        SplitSent(cfg, rest, len, b.len);
        assert mem[..b.start + b.len] == mem[..b.start] + rest[..b.len];
      } else if b.start + len / 2 > |mem| {
        NothingPlain(cfg);
        assert mem[..b.start] + [] == mem[..b.start];
      }
    }
  }

  lemma {:induction false} SplitIs(cfg: Config, mem: seq<byte>, len: nat, n: nat)
    requires SmallFits(cfg) && 1 < len && n <= len && n <= |mem|
    ensures len / 2 > |mem| ==> SendHalves(cfg, mem, len, n) == Sent(mem, [], Panicked)
    ensures n < len / 2 <= |mem| ==>
              var half, r := Send(cfg, mem, len / 2), SendHalves(cfg, mem, len, n);
              r.frames == half.frames && r.outcome == if half.outcome.Wrote? then Panicked else half.outcome
  {
    hide SmallFits, Send;
  }

  /** The parts of a batch that is split are single batches. */
  lemma {:induction false} PartsAreBatches(cfg: Config, len: nat, k: nat)
    requires k < |Batches(cfg, len)| && len / 2 <= Batches(cfg, len)[k].len
    ensures var n := Batches(cfg, len)[k].len;
            |Batches(cfg, len / 2)| <= 1 && |Batches(cfg, n - len / 2)| <= 1
  {
    BatchesAre(cfg, len, k);
    if cfg.batchSize > 0 && len >= cfg.maxPacketSize {
      CutsTile(0, len / 2, cfg.batchSize);
      CutsTile(0, Batches(cfg, len)[k].len - len / 2, cfg.batchSize);
    }
  }

  lemma {:induction false} SplitSent(cfg: Config, mem: seq<byte>, len: nat, n: nat)
    requires SmallFits(cfg) && Inverse(cfg) && cfg.transform.Some? && NeverFails(cfg)
    requires 1 < len && len / 2 <= n <= len && n <= |mem|
    requires |Batches(cfg, len / 2)| <= 1 && |Batches(cfg, n - len / 2)| <= 1
    ensures var r := SendHalves(cfg, mem, len, n); r.outcome == Wrote(n) && Plain(cfg, r.frames) == mem[..n]
  {
    hide Plain, SmallFits, Inverse, NeverFails, Send, Batches;
    PartCarried(cfg, mem, len / 2);
    PartCarried(cfg, mem[len / 2..], n - len / 2);
    PlainAppend(cfg, Send(cfg, mem, len / 2).frames, Send(cfg, mem[len / 2..], n - len / 2).frames);
    assert mem[..n] == mem[..len / 2] + mem[len / 2..][..n - len / 2];
  }

  lemma {:induction false} SendIs(cfg: Config, mem: seq<byte>, len: nat)
    requires SmallFits(cfg) && len <= |mem|
    ensures InSlice(Batches(cfg, len), len) && Send(cfg, mem, len) == SendBatches(cfg, mem, len, Batches(cfg, len))
  {
    BatchesTile(cfg, len);
  }

  lemma {:induction false} PartCarried(cfg: Config, mem: seq<byte>, len: nat)
    requires SmallFits(cfg) && Inverse(cfg) && cfg.transform.Some? && NeverFails(cfg)
    requires len <= |mem| && |Batches(cfg, len)| <= 1
    ensures Send(cfg, mem, len).outcome == Wrote(len) && Send(cfg, mem, len).mem == mem
    ensures Plain(cfg, Send(cfg, mem, len).frames) == mem[..len]
  {
    hide Send, Inverse;
    BatchesTile(cfg, len);
    WriteCarries(cfg, mem, len);
  }

  /** A write fails with an error of the transform only. */
  lemma {:induction false} FailsWithTransform(cfg: Config, mem: seq<byte>, len: nat)
    requires SmallFits(cfg) && len <= |mem| && Send(cfg, mem, len).outcome.WriteFailed?
    ensures exists data :: Encoded(cfg, data) == Err(Send(cfg, mem, len).outcome.error)
    decreases len, 2, 0
  {
    hide SendBatches, SmallFits;
    BatchesTile(cfg, len);
    BatchesFailWithTransform(cfg, mem, len, Batches(cfg, len));
  }

  lemma {:induction false} BatchesFailWithTransform(cfg: Config, mem: seq<byte>, len: nat, bs: seq<Batch>)
    requires SmallFits(cfg) && len <= |mem| && InSlice(bs, len) && SendBatches(cfg, mem, len, bs).outcome.WriteFailed?
    ensures exists data :: Encoded(cfg, data) == Err(SendBatches(cfg, mem, len, bs).outcome.error)
    decreases len, 1, |bs|
  {
    hide SmallFits, Prepended, Batches;
    if bs != [] {
      var b := bs[0];
      assert InSlice(bs[1..], len) by { assert forall i :: 0 <= i < |bs[1..]| ==> bs[1..][i] == bs[i + 1]; }
      SplitOnlyLarge(cfg, mem, len, b);
      var f := Encoded(cfg, Content(mem, b));
      if f.Ok? && |f.value| <= cfg.maxPacketSize {
        var mem' := if cfg.transform.None? then mem[..b.start] + Prepended(mem[b.start..], b.len) else mem;
        BatchesFailWithTransform(cfg, mem', len, bs[1..]);
      } else if f.Ok? {
        HalvesFailWithTransform(cfg, mem[b.start..], len, b.len);
      }
    }
  }

  lemma {:induction false} HalvesFailWithTransform(cfg: Config, mem: seq<byte>, len: nat, n: nat)
    requires SmallFits(cfg) && 1 < len && n <= len && n <= |mem|
    requires SendHalves(cfg, mem, len, n).outcome.WriteFailed?
    ensures exists data :: Encoded(cfg, data) == Err(SendHalves(cfg, mem, len, n).outcome.error)
    decreases len, 0, 0
  {
    hide SmallFits, Send;
    if len / 2 <= |mem| {
      var first := Send(cfg, mem, len / 2);
      if first.outcome.WriteFailed? {
        FailsWithTransform(cfg, mem, len / 2);
      } else if first.outcome.Wrote? && len / 2 <= n {
        FailsWithTransform(cfg, first.mem[len / 2..], n - len / 2);
      }
    }
  }

  /** Every frame that Write emits fits the limit, also where it is split or batches are dropped. */
  lemma {:induction false} FramesFit(cfg: Config, mem: seq<byte>, len: nat)
    requires SmallFits(cfg) && len <= |mem|
    ensures Small(Send(cfg, mem, len).frames, cfg.maxPacketSize)
    decreases len, 2, 0
  {
    BatchesTile(cfg, len);
    BatchFramesFit(cfg, mem, len, Batches(cfg, len));
  }

  lemma {:induction false} BatchFramesFit(cfg: Config, mem: seq<byte>, len: nat, bs: seq<Batch>)
    requires SmallFits(cfg) && len <= |mem| && InSlice(bs, len)
    ensures Small(SendBatches(cfg, mem, len, bs).frames, cfg.maxPacketSize)
    decreases len, 1, |bs|
  {
    hide SmallFits, SendHalves, Prepended, Batches;
    if bs != [] {
      var b := bs[0];
      assert InSlice(bs[1..], len) by { assert forall i :: 0 <= i < |bs[1..]| ==> bs[1..][i] == bs[i + 1]; }
      SplitOnlyLarge(cfg, mem, len, b);
      var f := Encoded(cfg, Content(mem, b));
      if f.Ok? && |f.value| <= cfg.maxPacketSize {
        var mem' := if cfg.transform.None? then mem[..b.start] + Prepended(mem[b.start..], b.len) else mem;
        BatchFramesFit(cfg, mem', len, bs[1..]);
      } else if f.Ok? {
        var rest := mem[b.start..];
        if len / 2 <= |rest| {
          FramesFit(cfg, rest, len / 2);
        }
        if len / 2 <= b.len {
          var first := Send(cfg, rest, len / 2);
          FramesFit(cfg, first.mem[len / 2..], b.len - len / 2);
        }
        HalvesFit(cfg, rest, len, b.len);
      }
    }
  }

  lemma SplitOnlyLarge(cfg: Config, mem: seq<byte>, len: nat, b: Batch)
    requires SmallFits(cfg) && len <= |mem| && b.start + b.len <= len
    ensures !Fits(cfg, Content(mem, b)) ==> 1 < len
  {
  }

  lemma {:induction false} HalvesFit(cfg: Config, mem: seq<byte>, len: nat, n: nat)
    requires SmallFits(cfg) && 1 < len && n <= len && n <= |mem|
    requires len / 2 <= |mem| ==> Small(Send(cfg, mem, len / 2).frames, cfg.maxPacketSize)
    requires len / 2 <= n ==> Small(Send(cfg, Send(cfg, mem, len / 2).mem[len / 2..], n - len / 2).frames,
               cfg.maxPacketSize)
    ensures Small(SendHalves(cfg, mem, len, n).frames, cfg.maxPacketSize)
  {
    hide SmallFits, Send;
  }

  // ---------- Writing without a transform ----------

  /** No transform, and decoding changes nothing either. */
  ghost predicate Bare(cfg: Config) {
    cfg.transform.None? && (forall data: seq<byte> :: Detransformed(cfg, data) == Ok(data)) && SmallFits(cfg)
  }

  lemma BareLimit(cfg: Config)
    requires Bare(cfg)
    ensures cfg.maxPacketSize >= 1
    ensures forall data: seq<byte> :: Encoded(cfg, data) == Ok(data)
  {
    assert Fits(cfg, [0]);
  }

  /** How the onion circuit uses the connection. */
  lemma DefaultsAreBare()
    ensures Bare(DEFAULTS)
  {
  }

  /** Within the limit a message of one batch is one frame. */
  lemma {:induction false} BareWriteOneFrame(cfg: Config, mem: seq<byte>, len: nat)
    requires Bare(cfg) && len <= |mem| && len <= cfg.maxPacketSize && |Batches(cfg, len)| <= 1
    ensures Send(cfg, mem, len) == Sent(Prepended(mem, len), [mem[..len]], Wrote(len))
    ensures Plain(cfg, [mem[..len]]) == mem[..len]
  {
    OneBatch(cfg, len);
    var bs := Batches(cfg, len);
    assert bs[0] == Batch(0, len) && bs[1..] == [] && Content(mem, bs[0]) == mem[..len];
    var mem' := mem[..0] + Prepended(mem[0..], len);
    assert mem[0..] == mem && mem' == Prepended(mem, len);
    assert SendBatches(cfg, mem', len, bs[1..]) == Sent(mem', [], Wrote(len));
    PlainOne(cfg, mem[..len]);
  }

  lemma {:induction false} OneBatch(cfg: Config, len: nat)
    requires Bare(cfg)
    ensures Batches(cfg, len) != []
    ensures |Batches(cfg, len)| <= 1 ==> Batches(cfg, len) == [Batch(0, len)]
    ensures |Batches(cfg, len)| > 1 ==> 0 < cfg.batchSize < len && Batches(cfg, len)[0] == Batch(0, cfg.batchSize)
  {
    BareLimit(cfg);
    if cfg.batchSize > 0 && len >= cfg.maxPacketSize {
      CutsTile(0, len, cfg.batchSize);
    }
  }

  // Messages that arrive whatever the memory holds.

  /** The length of the first frame of a message that is split. */
  function Leaf(len: nat, max: nat): (l: nat)
    requires max > 0
    ensures l <= max && l <= len && (len > 0 ==> l > 0) && (len > max ==> l <= len / 2)
  {
    if len <= max then len else Leaf(len / 2, max)
  }

  /** The message is one frame; or its frames cover it and the first one, with its header, is too long for
      the capacity, so that nothing is shifted in place. */
  predicate Intact(cfg: Config, len: nat, cap: nat)
    requires cfg.maxPacketSize > 0
  {
    if |Batches(cfg, len)| <= 1 then len <= cfg.maxPacketSize || Leaf(len, cfg.maxPacketSize) + LEN_PACKET_SIZE > cap
    else cfg.batchSize <= cfg.maxPacketSize && cfg.batchSize + LEN_PACKET_SIZE > cap
  }

  lemma NoRoom(mem: seq<byte>, start: nat, len: nat)
    requires start + len <= |mem| < start + len + LEN_PACKET_SIZE
    ensures mem[..start] + Prepended(mem[start..], len) == mem
  {
  }

  /** Batches that leave no room for a header are sent as they are. */
  lemma {:induction false} UnshiftedBatches(cfg: Config, mem: seq<byte>, len: nat, bs: seq<Batch>, from: nat)
    requires Bare(cfg) && from <= len <= |mem| && InSlice(bs, len) && Tile(bs, from, len)
    requires forall b :: b in bs ==> b.len <= cfg.maxPacketSize && b.start + b.len + LEN_PACKET_SIZE > |mem|
    ensures var r := SendBatches(cfg, mem, len, bs);
            r.mem == mem && r.outcome == Wrote(len) && Plain(cfg, r.frames) == mem[from..len]
    decreases |bs|
  {
    hide Plain, Prepended, SendHalves, SmallFits;
    if bs != [] {
      var b := bs[0];
      assert forall i :: 0 <= i < |bs[1..]| ==> bs[1..][i] == bs[i + 1];
      TileInSlice(bs[1..], from + b.len, len);
      NoRoom(mem, b.start, b.len);
      UnshiftedBatches(cfg, mem, len, bs[1..], from + b.len);
      assert Encoded(cfg, Content(mem, b)) == Ok(Content(mem, b));
      FrameInFront(cfg, Content(mem, b), SendBatches(cfg, mem, len, bs[1..]).frames);
      assert mem[from..len] == Content(mem, b) + mem[from + b.len..len];
    } else {
      NothingPlain(cfg);
    }
  }

  lemma {:induction false} NothingPlain(cfg: Config)
    ensures Plain(cfg, []) == [] && Small([], cfg.maxPacketSize)
  {
  }

  lemma {:induction false} CutsReach(from: nat, len: nat, size: nat)
    requires size > 0 && from <= len && (from >= size || from + size <= len)
    ensures forall b :: b in Cuts(from, len, size) ==> b.start + b.len >= size
    decreases len - from
  {
    if from < len {
      if from + size <= len {
        CutsReach(from + size, len, size);
      } else {
        assert Cuts(from + size, len, size) == [];
      }
    }
  }

  /** A message of which no frame is shifted over another arrives, whatever its memory holds. */
  lemma {:induction false} BareCarries(cfg: Config, mem: seq<byte>, len: nat)
    requires Bare(cfg) && cfg.maxPacketSize > 0 && len <= |mem| && Intact(cfg, len, |mem|)
    ensures var r := Send(cfg, mem, len);
            && r.outcome == Wrote(len) && Plain(cfg, r.frames) == mem[..len]
            && (len > cfg.maxPacketSize || |Batches(cfg, len)| > 1 ==> r.mem == mem)
    decreases len, 1
  {
    hide Plain, SmallFits, Batches, Prepended, SendHalves, SendBatches, Cuts;
    OneBatch(cfg, len);
    BatchesTile(cfg, len);
    if |Batches(cfg, len)| > 1 {
      SeveralUnshifted(cfg, mem, len);
    } else if len <= cfg.maxPacketSize {
      BareWriteOneFrame(cfg, mem, len);
    } else {
      BareLimit(cfg);
      assert !Fits(cfg, mem[..len]);
      SplitInHalves(cfg, mem, len);
      HalvesCarry(cfg, mem, len);
    }
  }

  lemma {:induction false} SeveralUnshifted(cfg: Config, mem: seq<byte>, len: nat)
    requires Bare(cfg) && len <= |mem| && |Batches(cfg, len)| > 1
    requires cfg.batchSize <= cfg.maxPacketSize && cfg.batchSize + LEN_PACKET_SIZE > |mem|
    ensures var r := Send(cfg, mem, len); r.mem == mem && r.outcome == Wrote(len) && Plain(cfg, r.frames) == mem[..len]
  {
    hide Plain, SmallFits, Prepended, SendHalves, SendBatches;
    OneBatch(cfg, len);
    BatchesTile(cfg, len);
    CutsTile(0, len, cfg.batchSize);
    CutsReach(0, len, cfg.batchSize);
    UnshiftedBatches(cfg, mem, len, Batches(cfg, len), 0);
  }

  lemma {:induction false} HalvesCarry(cfg: Config, mem: seq<byte>, len: nat)
    requires Bare(cfg) && 0 < cfg.maxPacketSize < len <= |mem| && |Batches(cfg, len)| <= 1 && Intact(cfg, len, |mem|)
    ensures len > 1
    ensures var r := SendHalves(cfg, mem, len, len);
            r.outcome == Wrote(len) && Plain(cfg, r.frames) == mem[..len] && r.mem == mem
    decreases len, 0
  {
    hide Plain, Send, SmallFits, Batches, Prepended, Leaf;
    var half, rest := len / 2, mem[len / 2..];
    SingleStays(cfg, len, half);
    SingleStays(cfg, len, len - half);
    LeafOfHalf(len, cfg.maxPacketSize);
    PartCarries(cfg, mem, half);
    PartCarries(cfg, rest, len - half);
    PlainAppend(cfg, Send(cfg, mem, half).frames, Send(cfg, rest, len - half).frames);
    assert mem[..len] == mem[..half] + rest[..len - half];
    assert mem == mem[..half] + rest;
  }

  lemma LeafOfHalf(len: nat, max: nat)
    requires 0 < max < len
    ensures Leaf(len, max) == Leaf(len / 2, max) <= len / 2
    ensures Leaf(len - len / 2, max) > 0
  {
  }

  /** A part for whose first frame there is no room is sent as it is. */
  lemma {:induction false} PartCarries(cfg: Config, mem: seq<byte>, len: nat)
    requires Bare(cfg) && cfg.maxPacketSize > 0 && len <= |mem| && |Batches(cfg, len)| <= 1
    requires Leaf(len, cfg.maxPacketSize) + LEN_PACKET_SIZE > |mem|
    ensures var r := Send(cfg, mem, len); r.outcome == Wrote(len) && Plain(cfg, r.frames) == mem[..len] && r.mem == mem
    decreases len, 2
  {
    hide Plain, Send, SmallFits, Batches, Prepended;
    BareCarries(cfg, mem, len);
    if len <= cfg.maxPacketSize {
      BareWriteOneFrame(cfg, mem, len);
      NoRoom(mem, 0, len);
      assert mem[0..] == mem && mem[..0] + Prepended(mem, len) == Prepended(mem, len);
    }
  }

  // Messages that do not.

  /** What a message of one batch sends is as long as it, and starts with its first byte. */
  lemma {:induction false} BareStart(cfg: Config, mem: seq<byte>, len: nat)
    requires Bare(cfg) && len <= |mem| && |Batches(cfg, len)| <= 1
    ensures var r := Send(cfg, mem, len);
            r.outcome == Wrote(len) && |Plain(cfg, r.frames)| == len && (len > 0 ==> Plain(cfg, r.frames)[0] == mem[0])
    decreases len
  {
    hide Plain, SmallFits, Batches, Prepended, SendHalves;
    OneBatch(cfg, len);
    BareLimit(cfg);
    if len <= cfg.maxPacketSize {
      BareWriteOneFrame(cfg, mem, len);
    } else {
      assert !Fits(cfg, mem[..len]);
      SplitInHalves(cfg, mem, len);
      var half := len / 2;
      SingleStays(cfg, len, half);
      SingleStays(cfg, len, len - half);
      BareStart(cfg, mem, half);
      var rest := Send(cfg, mem, half).mem[half..];
      BareStart(cfg, rest, len - half);
      HalvesJoined(cfg, mem, len);
    }
  }

  lemma HalvesJoined(cfg: Config, mem: seq<byte>, len: nat)
    requires SmallFits(cfg) && 1 < len <= |mem| && Send(cfg, mem, len / 2).outcome == Wrote(len / 2)
    ensures var half := len / 2;
            var first := Send(cfg, mem, half);
            var second := Send(cfg, first.mem[half..], len - half);
            && Plain(cfg, SendHalves(cfg, mem, len, len).frames) == Plain(cfg, first.frames) + Plain(cfg, second.frames)
            && (second.outcome == Wrote(len - half) ==> SendHalves(cfg, mem, len, len).outcome == Wrote(len))
  {
    hide Plain, Send, SmallFits;
    var half := len / 2;
    PlainAppend(cfg, Send(cfg, mem, half).frames, Send(cfg, Send(cfg, mem, half).mem[half..], len - half).frames);
  }

  /** Behind the first frame of a split comes what the shift left there. */
  lemma {:induction false} BehindLeaf(cfg: Config, mem: seq<byte>, len: nat)
    requires Bare(cfg) && 0 < cfg.maxPacketSize < len <= |mem| && |Batches(cfg, len)| <= 1
    ensures var r, l := Send(cfg, mem, len), Leaf(len, cfg.maxPacketSize);
            |Plain(cfg, r.frames)| == len && Plain(cfg, r.frames)[l] == Prepended(mem, l)[l]
    decreases len
  {
    hide Plain, SmallFits, Batches, Prepended, SendHalves, Send;
    BareStart(cfg, mem, len);
    OneBatch(cfg, len);
    assert !Fits(cfg, mem[..len]) by { BareLimit(cfg); }
    SplitInHalves(cfg, mem, len);
    var half := len / 2;
    SingleStays(cfg, len, half);
    SingleStays(cfg, len, len - half);
    BareStart(cfg, mem, half);
    var first := Send(cfg, mem, half);
    BareStart(cfg, first.mem[half..], len - half);
    HalvesJoined(cfg, mem, len);
    if half <= cfg.maxPacketSize {
      BareWriteOneFrame(cfg, mem, half);
    } else {
      BehindLeaf(cfg, mem, half);
    }
  }

  /** A one at `at` and zeros everywhere else. */
  function OneAt(at: nat, cap: nat): (mem: seq<byte>)
    ensures |mem| == cap && forall i :: 0 <= i < cap ==> mem[i] == if i == at then 1 else 0
  {
    seq(cap, i requires 0 <= i < cap => if i == at then 1 else 0)
  }

  /** The shift of the first `l` bytes overwrites the one behind them. */
  lemma OneOverwritten(l: nat, cap: nat)
    requires 0 < l && l + LEN_PACKET_SIZE <= cap
    ensures Prepended(OneAt(l, cap), l)[l] == 0
  {
  }

  /** Fitting batches send as many bytes as the message has, and the second starts with what the shift of
      the first left there. */
  lemma {:induction false} FittingLength(cfg: Config, mem: seq<byte>, len: nat, bs: seq<Batch>, from: nat)
    requires Bare(cfg) && from <= len <= |mem| && InSlice(bs, len) && Tile(bs, from, len)
    requires forall b :: b in bs ==> 0 < b.len <= cfg.maxPacketSize
    ensures var plain := Plain(cfg, SendBatches(cfg, mem, len, bs).frames);
            |plain| == len - from && (bs != [] ==> plain[0] == mem[from])
    decreases |bs|
  {
    hide Prepended, Plain, SendHalves, SmallFits;
    if bs == [] {
      NothingPlain(cfg);
    } else {
      var b := bs[0];
      assert forall i :: 0 <= i < |bs[1..]| ==> bs[1..][i] == bs[i + 1];
      TileInSlice(bs[1..], from + b.len, len);
      var mem' := mem[..b.start] + Prepended(mem[b.start..], b.len);
      FittingLength(cfg, mem', len, bs[1..], from + b.len);
      FrameInFront(cfg, Content(mem, b), SendBatches(cfg, mem', len, bs[1..]).frames);
    }
  }

  lemma {:induction false} BehindBatch(cfg: Config, mem: seq<byte>, len: nat)
    requires Bare(cfg) && len <= |mem| && |Batches(cfg, len)| > 1 && cfg.batchSize <= cfg.maxPacketSize
    ensures var plain := Plain(cfg, Send(cfg, mem, len).frames);
            |plain| == len && 0 < cfg.batchSize < len &&
              plain[cfg.batchSize] == Prepended(mem, cfg.batchSize)[cfg.batchSize]
  {
    hide Prepended, Plain;
    OneBatch(cfg, len);
    BatchesTile(cfg, len);
    CutsTile(0, len, cfg.batchSize);
    var bs := Batches(cfg, len);
    var b := bs[0];
    assert forall i :: 0 <= i < |bs[1..]| ==> bs[1..][i] == bs[i + 1];
    TileInSlice(bs[1..], b.len, len);
    assert mem[0..] == mem;
    var mem' := mem[..0] + Prepended(mem[0..], b.len);
    assert mem' == Prepended(mem, b.len) && Content(mem, b) == mem[..b.len];
    FittingLength(cfg, mem', len, bs[1..], b.len);
    FrameInFront(cfg, Content(mem, b), SendBatches(cfg, mem', len, bs[1..]).frames);
  }

  /** Batches above the limit: the first is split, the others are dropped. */
  lemma {:induction false} TooShort(cfg: Config, mem: seq<byte>, len: nat)
    requires Bare(cfg) && len <= |mem|
    ensures |Plain(cfg, Send(cfg, mem, len).frames)| <= len
    ensures |Batches(cfg, len)| > 1 && cfg.batchSize > cfg.maxPacketSize ==>
              |Plain(cfg, Send(cfg, mem, len).frames)| < len
    decreases len
  {
    hide Plain, SmallFits, Prepended;
    OneBatch(cfg, len);
    if |Batches(cfg, len)| <= 1 {
      BareStart(cfg, mem, len);
    } else if cfg.batchSize <= cfg.maxPacketSize {
      BehindBatch(cfg, mem, len);
    } else {
      DropsBatches(cfg, mem, len);
    }
  }

  lemma {:induction false} DropsBatches(cfg: Config, mem: seq<byte>, len: nat)
    requires Bare(cfg) && len <= |mem| && |Batches(cfg, len)| > 1 && cfg.batchSize > cfg.maxPacketSize
    ensures |Plain(cfg, Send(cfg, mem, len).frames)| < len
    decreases len, 0
  {
    hide Plain, SmallFits, Prepended, Batches, Cuts;
    OneBatch(cfg, len);
    BatchesTile(cfg, len);
    BareLimit(cfg);
    var bs := Batches(cfg, len);
    assert mem[0..] == mem && Content(mem, bs[0]) == mem[..cfg.batchSize];
    FirstIsSplit(cfg, mem, len);
    var half := len / 2;
    TooShort(cfg, mem, half);
    var first := Send(cfg, mem, half);
    if half <= cfg.batchSize {
      TooShort(cfg, first.mem[half..], cfg.batchSize - half);
      PlainAppend(cfg, first.frames, Send(cfg, first.mem[half..], cfg.batchSize - half).frames);
    }
  }

  lemma {:induction false} FirstIsSplit(cfg: Config, mem: seq<byte>, len: nat)
    requires Bare(cfg) && len <= |mem| && |Batches(cfg, len)| > 1 && cfg.batchSize > cfg.maxPacketSize
    ensures 0 < cfg.batchSize < len && 1 < len
    ensures Send(cfg, mem, len).frames == SendHalves(cfg, mem, len, cfg.batchSize).frames
  {
    hide SendHalves, Cuts, Batches;
    OneBatch(cfg, len);
    BatchesTile(cfg, len);
    BareLimit(cfg);
    var b := Batches(cfg, len)[0];
    assert mem[0..] == mem && |Content(mem, b)| == cfg.batchSize;
  }

  /** For every length and capacity that is not intact there is a message that is lost or corrupted. */
  lemma {:induction false} SplitLoses(cfg: Config, len: nat, cap: nat) returns (mem: seq<byte>)
    requires Bare(cfg) && cfg.maxPacketSize > 0 && len <= cap && !Intact(cfg, len, cap)
    ensures |mem| == cap && Plain(cfg, Send(cfg, mem, len).frames) != mem[..len]
  {
    hide Plain, Send, Prepended, Batches, SmallFits;
    OneBatch(cfg, len);
    var at := if |Batches(cfg, len)| <= 1 then Leaf(len, cfg.maxPacketSize) else cfg.batchSize;
    mem := OneAt(at, cap);
    if |Batches(cfg, len)| <= 1 {
      BehindLeaf(cfg, mem, len);
      OneOverwritten(at, cap);
    } else if cfg.batchSize <= cfg.maxPacketSize {
      BehindBatch(cfg, mem, len);
      OneOverwritten(at, cap);
    } else {
      TooShort(cfg, mem, len);
    }
  }

  /** Without a transform the frames of a message share the caller's memory, and writing one shifts it over
      the start of the next. Messages of a length in memory of a capacity all get through exactly when they
      are one frame, or the frames cover them and there is no room for the shift. */
  lemma {:induction false} BareIntactIff(cfg: Config, len: nat, cap: nat)
    requires Bare(cfg) && cfg.maxPacketSize > 0 && len <= cap
    ensures (forall mem: seq<byte> :: |mem| == cap ==> Plain(cfg, Send(cfg, mem, len).frames) == mem[..len])
       <==> Intact(cfg, len, cap)
  {
    if Intact(cfg, len, cap) {
      forall mem: seq<byte> | |mem| == cap ensures Plain(cfg, Send(cfg, mem, len).frames) == mem[..len] {
        BareCarries(cfg, mem, len);
      }
    } else {
      var mem := SplitLoses(cfg, len, cap);
      assert |mem| == cap;
    }
  }

  /** With any memory behind it, a message gets through whatever it holds exactly when it is one batch and
      within the limit. */
  lemma {:induction false} BareWriteIntactIff(cfg: Config, len: nat)
    requires Bare(cfg)
    ensures (forall mem: seq<byte> :: len <= |mem| ==> Plain(cfg, Send(cfg, mem, len).frames) == mem[..len])
       <==> |Batches(cfg, len)| <= 1 && len <= cfg.maxPacketSize
  {
    hide Plain, Send, Batches, SmallFits;
    BareLimit(cfg);
    if |Batches(cfg, len)| <= 1 && len <= cfg.maxPacketSize {
      forall mem: seq<byte> | len <= |mem| ensures Plain(cfg, Send(cfg, mem, len).frames) == mem[..len] {
        BareCarries(cfg, mem, len);
      }
    } else {
      OneBatch(cfg, len);
      var mem := SplitLoses(cfg, len, len + LEN_PACKET_SIZE);
      assert len <= |mem|;
    }
  }

  // Zeros arrive however they are split.

  ghost predicate Unbatched(cfg: Config) {
    Bare(cfg) && cfg.batchSize <= 0 && cfg.maxPacketSize >= 7
  }

  predicate Zero(s: seq<byte>) {
    forall i :: 0 <= i < |s| ==> s[i] == 0
  }

  /** Writing zeros sends zeros; the four bytes after them are cleared, the rest of the memory stays. */
  lemma {:induction false} ZeroWrite(cfg: Config, mem: seq<byte>, len: nat)
    requires Unbatched(cfg) && 4 <= len <= |mem| && Zero(mem[..len])
    ensures var r := Send(cfg, mem, len);
            && r.outcome == Wrote(len)
            && Zero(Plain(cfg, r.frames)) && |Plain(cfg, r.frames)| == len
            && (len + 4 <= |mem| ==> Zero(r.mem[len..len + 4]) && r.mem[len + 4..] == mem[len + 4..])
    decreases len
  {
    if len <= cfg.maxPacketSize {
      BareWriteOneFrame(cfg, mem, len);
    } else {
      SplitInHalves(cfg, mem, len);
      HalvesOfZeros(cfg, mem, len);
    }
  }

  lemma {:induction false} HalvesOfZeros(cfg: Config, mem: seq<byte>, len: nat)
    requires Unbatched(cfg) && cfg.maxPacketSize < len <= |mem|
    requires Zero(mem[..len / 2]) && Zero(mem[len / 2 + 4..len])
    ensures var r := SendHalves(cfg, mem, len, len);
            && r.outcome == Wrote(len)
            && Zero(Plain(cfg, r.frames)) && |Plain(cfg, r.frames)| == len
            && (len + 4 <= |mem| ==> Zero(r.mem[len..len + 4]) && r.mem[len + 4..] == mem[len + 4..])
    decreases len, 0
  {
    hide Plain, Send, SmallFits;
    var half := len / 2;
    ZeroWrite(cfg, mem, half);
    var first := Send(cfg, mem, half);
    var rest := first.mem[half..];
    RestIsZero(mem, first.mem, half, len);
    ZeroWrite(cfg, rest, len - half);
    var second := Send(cfg, rest, len - half);
    PlainAppend(cfg, first.frames, second.frames);
    if len + 4 <= |mem| {
      MemoryBehind(mem, first.mem, second.mem, half, len);
    }
  }

  /** What the first half left of the second: four cleared bytes, then the bytes as they were. */
  lemma RestIsZero(mem: seq<byte>, mem1: seq<byte>, half: nat, len: nat)
    requires half + 4 <= len <= |mem| == |mem1|
    requires Zero(mem1[half..half + 4]) && mem1[half + 4..] == mem[half + 4..] && Zero(mem[half + 4..len])
    ensures Zero(mem1[half..][..len - half])
    ensures mem1[half..][4..] == mem[half + 4..]
  {
    assert mem1[half..][..len - half] == mem1[half..half + 4] + mem1[half + 4..len];
    assert mem1[half + 4..len] == mem1[half + 4..][..len - half - 4] == mem[half + 4..len];
  }

  lemma MemoryBehind(mem: seq<byte>, mem1: seq<byte>, mem2: seq<byte>, half: nat, len: nat)
    requires half + 4 <= len && len + 4 <= |mem| == |mem1| && |mem2| == |mem| - half
    requires mem1[half + 4..] == mem[half + 4..]
    requires Zero(mem2[len - half..len - half + 4]) && mem2[len - half + 4..] == mem1[half..][len - half + 4..]
    ensures var r := mem1[..half] + mem2;
            Zero(r[len..len + 4]) && r[len + 4..] == mem[len + 4..]
  {
    var r := mem1[..half] + mem2;
    assert r[len..len + 4] == mem2[len - half..len - half + 4];
    assert r[len + 4..] == mem2[len - half + 4..];
    assert mem1[half..][len - half + 4..] == mem1[half + 4..][len - half..];
    assert mem[len + 4..] == mem[half + 4..][len - half..];
  }
}
