/**
 The framing connection of transport/transform/transform.go with its buffers as arrays, updated in
 place: `Read` and `Write` are proved equal to the functions `FrameRead` and `Send`.
 */
module TransformConn {
  import opened Wrappers
  import opened Bytes
  import opened Framing
  import opened FramingSafety
  import opened FramingWriter

  /** make([]byte, n) followed by copying `s` to its start. */
  method NewArray(s: seq<byte>, n: nat) returns (a: array<byte>)
    requires |s| <= n
    ensures fresh(a) && a.Length == n && a[..|s|] == s
  {
    a := new byte[n](i requires 0 <= i => if i < |s| then s[i] else 0);
  }

  lemma {:induction false} FrameReadSteps(cfg: Config, r: Reader, below: Source, n: nat)
    ensures FrameRead(cfg, r, below, n)
         == if r.unread != [] then TakeUnread(r, below, n)
            else
              var (below', room, packet) := ReadPacket(cfg, r, below);
              match packet
              case Err(e) => (Reader([], [], room), below', Fail(e))
              case Ok(pk) => Deliver(cfg, pk, room, below', n)
  {
  }

  ghost function Continued(done: seq<seq<byte>>, rest: Sent): Sent {
    rest.(frames := done + rest.frames)
  }

  lemma ContinuedTwice(done: seq<seq<byte>>, more: seq<seq<byte>>, rest: Sent)
    ensures Continued(done, Continued(more, rest)) == Continued(done + more, rest)
  {
    assert done + (more + rest.frames) == done + more + rest.frames;
  }

  lemma {:induction false} SendIsBatches(cfg: Config, mem: seq<byte>, len: nat)
    requires SmallFits(cfg) && len <= |mem|
    ensures InSlice(Batches(cfg, len), len)
    ensures Send(cfg, mem, len) == SendBatches(cfg, mem, len, Batches(cfg, len))
  {
    BatchesTile(cfg, len);
  }

  /** What a continuation starts and ends with. */
  lemma {:induction false} ContinuedParts(done: seq<seq<byte>>, rest: Sent)
    ensures Continued(done, rest).mem == rest.mem
    ensures Continued(done, rest).outcome == rest.outcome
    ensures Wire(Continued(done, rest).frames) == Wire(done) + Wire(rest.frames)
    ensures Continued([], rest) == rest
  {
    WireAppend(done, rest.frames);
    assert [] + rest.frames == rest.frames;
  }

  /** A write at `off + start` left everything in front of it as it was. */
  lemma MemoryInFront(a: seq<byte>, front: seq<byte>, mem: seq<byte>, off: nat, start: nat)
    requires |front| == off && |mem| == |a| - off && start <= |mem|
    requires a[..off + start] == front + mem[..start]
    ensures a[..off] == front && a[off..] == mem[..start] + a[off + start..]
  {
    assert a[..off] == a[..off + start][..off];
    assert a[off..off + start] == a[..off + start][off..];
    assert a[off..] == a[off..off + start] + a[off + start..];
  }

  lemma StoredSteps(len: nat, pos: nat, p: seq<byte>)
    ensures p == [] ==> Stored(len, pos, p) == ([], len)
    ensures p != [] && pos >= len ==> Stored(len, pos, p) == Stored(len + 1, pos, p[1..])
    ensures p != [] && pos < len ==>
              var (rest, len') := Stored(len, pos + 1, p[1..]); Stored(len, pos, p) == ([p[0]] + rest, len')
  {
  }

  /** One byte more is stored behind those in `kept`, unless the buffer is full. */
  lemma StoredByte(kept: seq<byte>, len: nat, p: seq<byte>)
    requires p != [] && |kept| <= len
    ensures var (stored, len1) := Stored(len, |kept|, p);
            if |kept| < len then
              var (rest, len2) := Stored(len, |kept| + 1, p[1..]);
              kept + stored == (kept + [p[0]]) + rest && len1 == len2
            else (stored, len1) == Stored(len + 1, |kept|, p[1..])
  {
    hide Stored;
    StoredSteps(len, |kept|, p);
    Regroup(kept, [p[0]], Stored(len, |kept| + 1, p[1..]).0);
  }

  lemma SplitIsLarge(cfg: Config, mem: seq<byte>, len: nat, n: nat)
    requires SmallFits(cfg) && n <= len && n <= |mem|
    requires Encoded(cfg, mem[..n]).Ok? && |Encoded(cfg, mem[..n]).value| > cfg.maxPacketSize
    ensures 1 < len
  {
    assert !Fits(cfg, mem[..n]);
  }

  lemma PrefixSlices(a: array<byte>, n: nat, m: nat)
    requires LEN_PACKET_SIZE <= m <= n <= a.Length
    ensures a[..n][LEN_PACKET_SIZE..m] == a[LEN_PACKET_SIZE..m]
    ensures a[..n][m..] == a[m..n]
  {
  }

  /** Header and shifted data in front of the memory that was not touched. */
  lemma PrependedInPlace(mem': seq<byte>, mem: seq<byte>, len: nat)
    requires |mem'| == |mem| && LEN_PACKET_SIZE + len <= |mem|
    requires mem'[..LEN_PACKET_SIZE + len] == Framed(mem[..len])
    requires mem'[LEN_PACKET_SIZE + len..] == mem[LEN_PACKET_SIZE + len..]
    ensures mem' == Prepended(mem, len)
  {
    hide Framed;
    assert mem' == mem'[..LEN_PACKET_SIZE + len] + mem'[LEN_PACKET_SIZE + len..];
  }

  lemma NotPrependedInPlace(mem: seq<byte>, len: nat)
    requires len <= |mem| < LEN_PACKET_SIZE + len
    ensures Prepended(mem, len) == mem
  {
  }

  /** One batch of the loop in Write, of length `n`, and whether the loop goes on after it. */
  ghost function SendPart(cfg: Config, mem: seq<byte>, len: nat, n: nat): (r: (Sent, bool))
    requires SmallFits(cfg) && n <= len && n <= |mem|
    ensures |r.0.mem| == |mem|
  {
    assert n <= 1 ==> Fits(cfg, mem[..n]);
    match Encoded(cfg, mem[..n])
    case Err(e) => (Sent(mem, [], WriteFailed(e)), false)
    case Ok(f) =>
      if |f| > cfg.maxPacketSize then
        (SendHalves(cfg, mem, len, n), false)
      else
        (Sent(if cfg.transform.None? then Prepended(mem, n) else mem, [f], Wrote(len)), true)
  }

  ghost function SendBatch(cfg: Config, mem: seq<byte>, len: nat, b: Batch): (r: (Sent, bool))
    requires SmallFits(cfg) && len <= |mem| && b.start + b.len <= len
    ensures |r.0.mem| == |mem|
  {
    var (r, more) := SendPart(cfg, mem[b.start..], len, b.len);
    (Behind(mem[..b.start], r), more)
  }

  lemma {:induction false} SendBatchesSteps(cfg: Config, mem: seq<byte>, len: nat, bs: seq<Batch>)
    requires SmallFits(cfg) && len <= |mem| && InSlice(bs, len)
    ensures bs == [] ==> SendBatches(cfg, mem, len, bs) == Sent(mem, [], Wrote(len))
    ensures bs != [] ==>
              && bs[0].start + bs[0].len <= len && InSlice(bs[1..], len)
              && var (r, more) := SendBatch(cfg, mem, len, bs[0]);
                 SendBatches(cfg, mem, len, bs) == if more then
                   Continued(r.frames, SendBatches(cfg, r.mem, len, bs[1..])) else r
  {
    if bs != [] {
      assert forall i :: 0 <= i < |bs[1..]| ==> bs[1..][i] == bs[i + 1];
      var b := bs[0];
      assert mem[b.start..][..b.len] == Content(mem, b);
      assert mem[..b.start] + mem[b.start..] == mem;
    }
  }

  /** One round of the loop, behind the frames in `done`. */
  lemma {:induction false} OneBatchMore(cfg: Config, mem: seq<byte>, len: nat, bs: seq<Batch>, done: seq<seq<byte>>)
    requires SmallFits(cfg) && len <= |mem| && InSlice(bs, len) && bs != []
    ensures bs[0].start + bs[0].len <= len && InSlice(bs[1..], len)
    ensures var (r, more) := SendBatch(cfg, mem, len, bs[0]);
            var spec := Continued(done, SendBatches(cfg, mem, len, bs));
            && Wire(done + r.frames) == Wire(done) + Wire(r.frames)
            && if more then spec == Continued(done + r.frames, SendBatches(cfg, r.mem, len, bs[1..]))
               else spec.mem == r.mem && spec.outcome == r.outcome && Wire(spec.frames) == Wire(done) + Wire(r.frames)
  {
    hide SmallFits, SendBatches, SendBatch, Wire, InSlice;
    SendBatchesSteps(cfg, mem, len, bs);
    var r := SendBatch(cfg, mem, len, bs[0]).0;
    WireAppend(done, r.frames);
    ContinuedTwice(done, r.frames, SendBatches(cfg, r.mem, len, bs[1..]));
  }

  class Conn {
    const cfg: Config
    var source: Source     // the connection below, as a reader
    var out: seq<byte>     // what was written to the connection below

    var unread: array<byte>
    var unreadReadPos: nat
    var unreadWritePos: nat
    var packetOverflow: array<byte>
    var packetOverflowWritten: nat

    ghost predicate Valid()
      reads this
    {
      && unreadReadPos <= unreadWritePos <= unread.Length
      && packetOverflowWritten <= packetOverflow.Length
      && packetOverflowWritten + LEN_PACKET_SIZE <= unread.Length
      && unread != packetOverflow
    }

    ghost function Buffers(): Reader
      reads this, unread, packetOverflow
      requires Valid()
    {
      Reader(unread[unreadReadPos..unreadWritePos], packetOverflow[..packetOverflowWritten], unread.Length)
    }

    constructor (cfg: Config, source: Source)
      ensures Valid() && this.cfg == cfg && this.source == source && out == []
      ensures fresh(unread) && fresh(packetOverflow)
      ensures Buffers() == NEW_READER
    {
      this.cfg := cfg;
      this.source := source;
      out := [];
      unread := new byte[MAX_PACKET_SIZE / 2](_ => 0);
      unreadReadPos, unreadWritePos := 0, 0;
      packetOverflow := new byte[0];
      packetOverflowWritten := 0;
    }

    /** Read of io.Reader: fills `buf` from position `lo`. */
    method ReadBelow(buf: array<byte>, lo: nat) returns (n: nat, err: Option<Error>)
      requires lo <= buf.Length
      modifies this`source, buf
      ensures var (src, got) := SourceRead(old(source), buf.Length - lo);
              && source == src
              && buf[..lo] == old(buf[..lo])
              && match got
                 case Data(d) => err == None && n == |d| && buf[lo..lo + n] == d
                 case Fail(e) => err == Some(e) && n == 0
    {
      var (src, got) := SourceRead(source, buf.Length - lo);
      source := src;
      match got
      case Fail(e) =>
        n, err := 0, Some(e);
      case Data(d) =>
        n, err := |d|, None;
        forall i | 0 <= i < |d| {
          buf[lo + i] := d[i];
        }
    }

    method Read(p: array<byte>) returns (n: nat, err: Option<Error>)
      requires Valid() && p != unread && p != packetOverflow
      modifies this`source, this`unread, this`unreadReadPos, this`unreadWritePos, this`packetOverflow,
               this`packetOverflowWritten, unread, packetOverflow, p
      ensures Valid()
      ensures unread == old(unread) || fresh(unread)
      ensures packetOverflow == old(packetOverflow) || fresh(packetOverflow)
      ensures var (r, src, got) := FrameRead(cfg, old(Buffers()), old(source), p.Length);
              && Buffers() == r && source == src
              && match got
                 case Data(d) => err == None && n == |d| && p[..n] == d
                 case Fail(e) => err == Some(e) && n == 0
    {
      hide FrameRead, ReadPacket, SourceRead, Refill, FirstBytes, Stored, Depth;
      ghost var r, below := Buffers(), source;
      FrameReadSteps(cfg, r, below, p.Length);
      if unreadReadPos < unreadWritePos {
        n := ReadUnread(p);
        return n, None;
      }

      unreadReadPos, unreadWritePos := 0, 0;
      var packetSize: nat;
      packetSize, err := ReadLeastOnePacketIntoUnread();
      if err.Some? {
        return 0, err;
      }

      err := DecodePacket(packetSize);
      if err.Some? {
        return 0, err;
      }
      n := ReadUnread(p);
    }

    /** The rest of Read behind a packet read: its payload is detransformed and stored. */
    method DecodePacket(packetSize: nat) returns (err: Option<Error>)
      requires Valid() && unreadReadPos == 0 && unreadWritePos == 0
      requires LEN_PACKET_SIZE + packetSize <= unread.Length
      modifies this`unread, this`unreadWritePos, unread
      ensures Valid() && unreadReadPos == 0
      ensures unread == old(unread) || fresh(unread)
      ensures packetOverflow[..packetOverflowWritten] == old(packetOverflow[..packetOverflowWritten])
      ensures match Detransformed(cfg, old(unread[LEN_PACKET_SIZE..LEN_PACKET_SIZE + packetSize]))
              case Err(e) => err == Some(e) && unreadWritePos == 0 && unread.Length == old(unread.Length)
              case Ok(p) =>
                err == None && (unread[..unreadWritePos], unread.Length) == Stored(old(unread.Length), 0, p)
    {
      hide Stored;
      if cfg.detransform.Some? {
        var plain := cfg.detransform.value(unread[LEN_PACKET_SIZE..LEN_PACKET_SIZE + packetSize]);
        if plain.Err? {
          return Some(plain.error);
        }
        var transformed := NewArray(plain.value, |plain.value|);
        assert transformed[0..transformed.Length] == plain.value;
        WriteUnread(transformed, 0, transformed.Length);
      } else {
        WriteUnread(unread, LEN_PACKET_SIZE, LEN_PACKET_SIZE + packetSize);
      }
      return None;
    }

    /** Starts a packet with the overflow if there is any, otherwise with one read. */
    method StartPacket() returns (n: nat, err: Option<Error>)
      requires Valid() && unreadReadPos == 0 && unreadWritePos == 0
      modifies this`source, this`packetOverflowWritten, unread
      ensures packetOverflowWritten == 0
      ensures var (src, got) := FirstBytes(old(Buffers()), old(source));
              && source == src
              && match got
                 case Data(d) => err == None && n == |d| && unread[..n] == d
                 case Fail(e) => err == Some(e)
    {
      hide SourceRead;
      ghost var r := Buffers();
      if packetOverflowWritten != 0 {
        forall i | 0 <= i < packetOverflowWritten {
          unread[i] := packetOverflow[i];
        }
        n, err := packetOverflowWritten, None;
        packetOverflowWritten := 0;
        assert unread[..n] == r.overflow == r.overflow[..Min(r.room, |r.overflow|)];
      } else {
        n, err := ReadBelow(unread, 0);
        assert unread[..n] == unread[0..0 + n];
      }
    }

    /** Reads into `unread`, behind the bytes already there, until the full packet is read. */
    method ReadFullPacket(read: nat, size: nat) returns (curPacketRead: nat, err: Option<Error>)
      requires read <= unread.Length && LEN_PACKET_SIZE + size <= unread.Length
      modifies this`source, unread
      ensures var (src, full) := Refill(old(source), old(unread[..read]), size, unread.Length);
              && source == src
              && match full
                 case Err(e) => err == Some(e)
                 case Ok(buf) =>
                   err == None && curPacketRead == |buf| <= unread.Length && unread[..curPacketRead] == buf
    {
      hide SourceRead;
      ghost var refilled := Refill(source, unread[..read], size, unread.Length);
      curPacketRead, err := read, None;
      while curPacketRead - LEN_PACKET_SIZE < size
        invariant curPacketRead <= unread.Length && err == None
        invariant Refill(source, unread[..curPacketRead], size, unread.Length) == refilled
        decreases LEN_PACKET_SIZE + size - curPacketRead
      {
        var curRead;
        curRead, err := ReadBelow(unread, curPacketRead);
        if err.Some? {
          return;
        }
        if curRead == 0 {
          return curPacketRead, Some(NoProgress);
        }
        assert unread[..curPacketRead + curRead] ==
                 unread[..curPacketRead] + unread[curPacketRead..curPacketRead + curRead];
        curPacketRead := curPacketRead + curRead;
      }
    }

    method ReadLeastOnePacketIntoUnread() returns (size: nat, err: Option<Error>)
      requires Valid() && unreadReadPos == 0 && unreadWritePos == 0
      modifies this`source, this`unread, this`packetOverflow, this`packetOverflowWritten, unread, packetOverflow
      ensures Valid()
      ensures unread == old(unread) || fresh(unread)
      ensures packetOverflow == old(packetOverflow) || fresh(packetOverflow)
      ensures var (src, room, packet) := ReadPacket(cfg, old(Buffers()), old(source));
              && source == src && unread.Length == room
              && match packet
                 case Err(e) => err == Some(e) && packetOverflowWritten == 0
                 case Ok(pk) =>
                   && err == None && LEN_PACKET_SIZE + size + packetOverflowWritten <= unread.Length
                   && unread[LEN_PACKET_SIZE..LEN_PACKET_SIZE + size] == pk.payload
                   && packetOverflow[..packetOverflowWritten] == pk.over
    {
      hide FrameRead, SourceRead, FirstBytes, Refill, Stored, Uint32, Depth;
      var curPacketRead: nat;
      size := 0;
      curPacketRead, err := StartPacket();
      if err.Some? {
        return size, err;
      }
      if curPacketRead < LEN_PACKET_SIZE {
        return size, Some(MissingPacketSize);
      }
      ghost var d := unread[..curPacketRead];
      assert d[..LEN_PACKET_SIZE] == unread[..LEN_PACKET_SIZE];
      size := Uint32(unread[..LEN_PACKET_SIZE]);
      if size > cfg.maxPacketSize {
        return size, Some(PacketTooLarge);
      }
      if size + LEN_PACKET_SIZE > unread.Length {
        unread := NewArray(unread[..], size + LEN_PACKET_SIZE);
      }
      assert unread[..curPacketRead] == d;

      curPacketRead, err := ReadFullPacket(curPacketRead, size);
      if err.Some? {
        return size, err;
      }
      ghost var buf := unread[..curPacketRead];
      PrefixSlices(unread, curPacketRead, LEN_PACKET_SIZE + size);
      if curPacketRead - LEN_PACKET_SIZE > size {
        WriteIntoPacketOverflow(LEN_PACKET_SIZE + size, curPacketRead - size - LEN_PACKET_SIZE);
      }
      return size, None;
    }

    /** Keeps `unread[from..from + size]` for the next packet. */
    method WriteIntoPacketOverflow(from: nat, size: nat)
      requires unread != packetOverflow && from + size <= unread.Length
      modifies this`packetOverflow, this`packetOverflowWritten, packetOverflow
      ensures unread[..] == old(unread[..])
      ensures packetOverflow == old(packetOverflow) || fresh(packetOverflow)
      ensures packetOverflowWritten == size <= packetOverflow.Length
      ensures packetOverflow[..size] == unread[from..from + size]
    {
      if packetOverflow.Length < size {
        packetOverflow := NewArray(packetOverflow[..], size);
      }
      forall i | 0 <= i < size {
        packetOverflow[i] := unread[from + i];
      }
      packetOverflowWritten := size;
    }

    method ReadUnread(p: array<byte>) returns (n: nat)
      requires Valid() && p != unread && p != packetOverflow
      modifies this`unreadReadPos, p
      ensures Valid()
      ensures n == Min(p.Length, |old(Buffers()).unread|)
      ensures p[..n] == old(Buffers()).unread[..n]
      ensures Buffers() == old(Buffers()).(unread := old(Buffers()).unread[n..])
    {
      n := 0;
      ghost var r, start := Buffers(), unreadReadPos;
      while n < p.Length && unreadReadPos < unreadWritePos
        invariant n <= p.Length && unreadReadPos == start + n <= unreadWritePos
        invariant unread[start..unreadWritePos] == r.unread
        invariant packetOverflow[..packetOverflowWritten] == r.overflow
        invariant p[..n] == r.unread[..n]
      {
        p[n] := unread[unreadReadPos];
        assert p[n] == r.unread[n];
        unreadReadPos := unreadReadPos + 1;
        n := n + 1;
      }
      assert unread[unreadReadPos..unreadWritePos] == unread[start..unreadWritePos][n..];
    }

    /** One byte of writeUread: a full buffer is extended, but the write position stays. */
    method StoreByte(b: byte)
      requires unreadWritePos <= unread.Length && unread != packetOverflow
      modifies this`unread, this`unreadWritePos, unread
      ensures unread != packetOverflow && unreadWritePos <= unread.Length
      ensures old(unreadWritePos < unread.Length) ==>
                && unread == old(unread) && unreadWritePos == old(unreadWritePos) + 1
                && unread[..unreadWritePos] == old(unread[..unreadWritePos]) + [b]
                && forall j :: unreadWritePos <= j < unread.Length ==> unread[j] == old(unread[j])
      ensures old(unreadWritePos == unread.Length) ==>
                && fresh(unread) && unread.Length == old(unread.Length) + 1
                && unreadWritePos == old(unreadWritePos) && unread[..unreadWritePos] == old(unread[..unreadWritePos])
      ensures packetOverflow[..] == old(packetOverflow[..])
    {
      ghost var was := unread[..];
      if unreadWritePos >= unread.Length {
        unread := NewArray(unread[..] + [b], unread.Length + 1);
        assert unread[..|was + [b]|][..|was|] == was;
      } else {
        unread[unreadWritePos] := b;
        unreadWritePos := unreadWritePos + 1;
      }
    }

    /** writeUread of `src[lo..hi]`, which without a detransform lies in `unread` itself, right behind
        the place it is copied to. */
    method WriteUnread(src: array<byte>, lo: nat, hi: nat)
      requires Valid() && unreadReadPos == 0 && unreadWritePos == 0
      requires lo <= hi <= src.Length && src != packetOverflow
      requires src == unread ==> hi - lo <= unread.Length
      modifies this`unread, this`unreadWritePos, unread
      ensures Valid() && unreadReadPos == 0
      ensures unread == old(unread) || fresh(unread)
      ensures var (stored, len) := Stored(old(unread.Length), 0, old(src[lo..hi]));
              unread[..unreadWritePos] == stored && unread.Length == len
      ensures packetOverflow[..packetOverflowWritten] == old(packetOverflow[..packetOverflowWritten])
    {
      hide Stored;
      ghost var data := src[lo..hi];
      ghost var stored := Stored(unread.Length, 0, data);
      var i := 0;
      assert data[0..] == data && unread[..0] + stored.0 == stored.0;
      ghost var overflow := packetOverflow[..packetOverflowWritten];
      while i < hi - lo
        invariant 0 <= i <= hi - lo && unreadWritePos <= i
        invariant unreadWritePos <= unread.Length && old(unread.Length) <= unread.Length
        invariant unread == old(unread) || fresh(unread)
        invariant unread != packetOverflow && (src == unread ==> src == old(unread) && unreadWritePos == i)
        invariant forall j :: i <= j < hi - lo ==> src[lo + j] == data[j]
        invariant packetOverflow[..packetOverflowWritten] == overflow
        invariant var (rest, len) := Stored(unread.Length, unreadWritePos, data[i..]);
                  stored == (unread[..unreadWritePos] + rest, len)
      {
        var b := src[lo + i];
        assert data[i..][0] == b && data[i..][1..] == data[i + 1..];
        StoredByte(unread[..unreadWritePos], unread.Length, data[i..]);
        StoreByte(b);
        i := i + 1;
      }
      StoredSteps(unread.Length, unreadWritePos, data[i..]);
    }

    /** Conn.Write of the slice of length `len` that starts at `off`; the array ends where its capacity
        does. `Panicked` is Go's slice bounds panic. */
    method Write(p: array<byte>, off: nat, len: nat) returns (outcome: Outcome)
      requires SmallFits(cfg) && off + len <= p.Length
      modifies this`out, p
      ensures var r := Send(cfg, old(p[off..]), len);
              && outcome == r.outcome
              && out == old(out) + Wire(r.frames)
              && p[..off] == old(p[..off]) && p[off..] == r.mem
      decreases len, 3
    {
      hide SmallFits, Send, SendBatches, SendBatch, Wire, Batches, Continued, InSlice;
      var batches := BatchData(len);
      SendIsBatches(cfg, p[off..], len);
      ghost var spec := SendBatches(cfg, p[off..], len, batches);
      ghost var done: seq<seq<byte>> := [];
      assert batches[0..] == batches;
      EmptyWire();
      ContinuedParts(done, spec);
      var i := 0;
      while i < |batches|
        invariant 0 <= i <= |batches|
        invariant p[..off] == old(p[..off])
        invariant out == old(out) + Wire(done)
        invariant InSlice(batches[i..], len)
        invariant spec == Continued(done, SendBatches(cfg, p[off..], len, batches[i..]))
      {
        assert batches[i..][0] == batches[i] && batches[i..][1..] == batches[i + 1..];
        OneBatchMore(cfg, p[off..], len, batches[i..], done);
        ghost var sent := SendBatch(cfg, p[off..], len, batches[i]).0;
        Regroup(old(out), Wire(done), Wire(sent.frames));
        var more;
        more, outcome := WriteBatch(p, off, len, batches[i]);
        i := i + 1;
        if !more {
          return;
        }
        done := done + sent.frames;
      }
      assert batches[i..] == [];
      SendBatchesSteps(cfg, p[off..], len, []);
      ContinuedParts(done, SendBatches(cfg, p[off..], len, []));
      return Wrote(len);
    }

    /** One round of the loop over the batches. */
    method WriteBatch(p: array<byte>, off: nat, len: nat, b: Batch) returns (more: bool, outcome: Outcome)
      requires SmallFits(cfg) && off + len <= p.Length && b.start + b.len <= len
      modifies this`out, p
      ensures var (r, goesOn) := SendBatch(cfg, old(p[off..]), len, b);
              && more == goesOn && outcome == r.outcome
              && out == old(out) + Wire(r.frames)
              && p[..off] == old(p[..off]) && p[off..] == r.mem
      decreases len, 2
    {
      hide SmallFits, SendPart;
      ghost var mem, front := p[off..], p[..off];
      assert p[..off + b.start] == front + mem[..b.start];
      assert p[off + b.start..] == mem[b.start..];
      more, outcome := WritePart(p, off + b.start, len, b.len);
      assert p[..][..off + b.start] == p[..off + b.start];
      MemoryInFront(p[..], front, mem, off, b.start);
    }

    /** The batch of length `n` at `off`, of a message of length `len`. */
    method WritePart(p: array<byte>, off: nat, len: nat, n: nat) returns (more: bool, outcome: Outcome)
      requires SmallFits(cfg) && n <= len && off + n <= p.Length
      modifies this`out, p
      ensures var (r, goesOn) := SendPart(cfg, old(p[off..]), len, n);
              && more == goesOn && outcome == r.outcome
              && out == old(out) + Wire(r.frames)
              && p[..off] == old(p[..off]) && p[off..] == r.mem
      decreases len, 1
    {
      hide SmallFits, SendHalves, Wire, Framed, Prepended;
      ghost var mem := p[off..];
      assert mem[..n] == p[off..off + n];
      EmptyWire();
      var encoded := Encoded(cfg, p[off..off + n]);
      if encoded.Err? {
        return false, WriteFailed(encoded.error);
      }
      var transformedData := encoded.value;
      if |transformedData| > cfg.maxPacketSize {
        SplitIsLarge(cfg, mem, len, n);
        outcome := WriteHalves(p, off, len, n);
        more := false;
      } else {
        WriteFrame(p, off, n, transformedData);
        WireOne(transformedData);
        more, outcome := true, Wrote(len);
      }
    }

    /** Writes one frame: the transformed data, which without a transform still is the slice itself. */
    method WriteFrame(p: array<byte>, off: nat, len: nat, transformedData: seq<byte>)
      requires off + len <= p.Length
      requires cfg.transform.None? ==> transformedData == p[off..off + len]
      modifies this`out, p
      ensures out == old(out) + Framed(transformedData)
      ensures p[..off] == old(p[..off])
      ensures p[off..] == if cfg.transform.None? then Prepended(old(p[off..]), len) else old(p[off..])
    {
      hide Framed, Prepended;
      var q, start;
      if cfg.transform.Some? {
        var copied := NewArray(transformedData, |transformedData|);
        assert copied[0..0 + copied.Length] == transformedData;
        q, start := PrependInt(copied, 0, copied.Length);
      } else {
        q, start := PrependInt(p, off, len);
      }
      out := out + q[start..start + LEN_PACKET_SIZE + |transformedData|];
    }

    /** The two recursive writes of a split: the first may use the array behind the batch, the second starts
        behind its end then. */
    method WriteHalves(p: array<byte>, off: nat, len: nat, n: nat) returns (outcome: Outcome)
      requires SmallFits(cfg) && 1 < len && n <= len && off + n <= p.Length
      modifies this`out, p
      ensures var r := SendHalves(cfg, old(p[off..]), len, n);
              && outcome == r.outcome
              && out == old(out) + Wire(r.frames)
              && p[..off] == old(p[..off]) && p[off..] == r.mem
      decreases len, 0
    {
      hide SmallFits, Send, Wire;
      ghost var mem := p[off..];
      var half := len / 2;
      if half > p.Length - off {
        EmptyWire();
        return Panicked;
      }
      ghost var first := Send(cfg, mem, half);
      outcome := Write(p, off, half);
      if outcome.Wrote? && half > n {
        outcome := Panicked;
      } else if outcome.Wrote? {
        ghost var front, kept := p[..off], first.mem[..half];
        assert p[off + half..] == first.mem[half..];
        assert p[..off + half] == front + kept;
        ghost var second := Send(cfg, first.mem[half..], n - half);
        var outcome2 := Write(p, off + half, n - half);
        assert p[..][..off + half] == p[..off + half] && p[..][off + half..] == p[off + half..];
        MemoryInFront(p[..], front, first.mem, off, half);
        WireAppend(first.frames, second.frames);
        Regroup(old(out), Wire(first.frames), Wire(second.frames));
        assert SendHalves(cfg, mem, len, n) == Behind(kept, Joined(first, second));
        outcome := if outcome2.Wrote? then Wrote(outcome.n + outcome2.n) else outcome2;
      }
    }

    /** bactchData, as the starts and lengths of the batches. */
    method BatchData(len: nat) returns (res: seq<Batch>)
      ensures res == Batches(cfg, len)
    {
      if cfg.batchSize <= 0 || len < cfg.maxPacketSize {
        return [Batch(0, len)];
      }
      res := [];
      var i := 0;
      while i < len
        invariant res + Cuts(i, len, cfg.batchSize) == Batches(cfg, len)
        decreases len - i
      {
        res := res + [Batch(i, Min(len, i + cfg.batchSize) - i)];
        i := i + cfg.batchSize;
      }
    }

    /** Moves `len` bytes up by the size of the header and puts the header in their place. */
    static method ShiftBehind(q: array<byte>, start: nat, len: nat, header: seq<byte>)
      requires |header| == LEN_PACKET_SIZE && start + LEN_PACKET_SIZE + len <= q.Length
      modifies q
      ensures q[start..start + LEN_PACKET_SIZE + len] == header + old(q[start..start + len])
      ensures q[..start] == old(q[..start])
      ensures q[start + LEN_PACKET_SIZE + len..] == old(q[start + LEN_PACKET_SIZE + len..])
    {
      forall i | 0 <= i < len {
        q[start + LEN_PACKET_SIZE + i] := q[start + i];
      }
      forall i | 0 <= i < LEN_PACKET_SIZE {
        q[start + i] := header[i];
      }
    }

    /** prependInt: appends four bytes to the slice, in its own array when that is long enough. */
    static method PrependInt(p: array<byte>, off: nat, len: nat) returns (q: array<byte>, start: nat)
      requires off + len <= p.Length
      modifies p
      ensures q == p || fresh(q)
      ensures start + LEN_PACKET_SIZE + len <= q.Length
      ensures q[start..start + LEN_PACKET_SIZE + len] == Framed(old(p[off..off + len]))
      ensures p[..off] == old(p[..off]) && p[off..] == Prepended(old(p[off..]), len)
    {
      hide PutUint32, Prepended;
      ghost var mem, data := p[off..], p[off..off + len];
      var header := PutUint32(len);
      if off + len + LEN_PACKET_SIZE <= p.Length {
        q, start := p, off;
      } else {
        q := NewArray(p[off..off + len], len + LEN_PACKET_SIZE);
        start := 0;
        assert Prepended(mem, len) == mem by {
          NotPrependedInPlace(mem, len);
        }
      }
      assert q[start..start + len] == data;
      ShiftBehind(q, start, len, header);
      assert mem[..len] == data;
      if off + len + LEN_PACKET_SIZE <= p.Length {
        assert p[off..][..LEN_PACKET_SIZE + len] == p[off..off + LEN_PACKET_SIZE + len];
        assert p[off..][LEN_PACKET_SIZE + len..] == p[off + LEN_PACKET_SIZE + len..] == mem[LEN_PACKET_SIZE + len..];
        PrependedInPlace(p[off..], mem, len);
      }
    }
  }
}
