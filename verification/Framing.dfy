/**
 What one `Read` of the framing connection does, as a function: of the connection's buffers, of the
 connection below it, and of the caller's buffer size. A connection below is either a link or again
 a framed and encrypted connection, as the onion client nests them.
 */
module Framing {
  import opened Wrappers
  import opened Bytes

  const MAX_PACKET_SIZE: nat := 10 * 1024
  const LEN_PACKET_SIZE: nat := 4

  datatype Error =
    | Eof
    | NoProgress
    | MissingPacketSize
    | PacketTooLarge
    | TransformFailed(code: nat)
    | LinkFailed(code: nat)

  type TransformFunc = seq<byte> -> Result<seq<byte>, Error>

  /** `None` is Go's nil function: the data passes unchanged, in the memory it already has. */
  datatype Config = Config(
    transform: Option<TransformFunc>,
    detransform: Option<TransformFunc>,
    maxPacketSize: nat,
    batchSize: int)

  const DEFAULTS := Config(None, None, MAX_PACKET_SIZE, 0)

  /** The reading half of a connection: decoded bytes not yet returned, raw bytes read past the last
      frame, and the length of the decode buffer. */
  datatype Reader = Reader(unread: seq<byte>, overflow: seq<byte>, room: nat)

  const NEW_READER := Reader([], [], MAX_PACKET_SIZE / 2)

  /** What the link does at one read: hand over up to `n` bytes, or fail. */
  datatype Event = Give(n: nat) | Raise(error: Error)

  datatype Source =
    | Link(inflight: seq<byte>, script: seq<Event>)
    | Layered(reader: Reader, key: Keystream, pos: nat, below: Source)

  /** A complete frame's payload, and the bytes read past it. */
  datatype Packet = Packet(payload: seq<byte>, over: seq<byte>)

  datatype Got = Data(bytes: seq<byte>) | Fail(error: Error)

  function Depth(src: Source): nat {
    match src
    case Link(_, _) => 0
    case Layered(_, _, _, below) => 1 + Depth(below)
  }

  /** io.Reader.Read with a buffer of `room` bytes. */
  function SourceRead(src: Source, room: nat): (r: (Source, Got))
    ensures Depth(r.0) == Depth(src)
    ensures r.1.Data? ==> |r.1.bytes| <= room
    decreases Depth(src), 0, 0
  {
    match src
    case Link(inflight, script) =>
      if script == [] then (src, Fail(Eof))
      else (
        match script[0]
        case Raise(e) => (Link(inflight, script[1..]), Fail(e))
        case Give(n) =>
          var m := Min(n, Min(room, |inflight|));
          (Link(inflight[m..], script[1..]), Data(inflight[..m]))
      )
    case Layered(reader, key, pos, below) =>
      var (reader', below', got) := FrameRead(DEFAULTS, reader, below, room);
      match got
      case Data(bytes) => (Layered(reader', key, pos + |bytes|, below'), Data(Ctr(key, pos, bytes)))
      case Fail(e) => (Layered(reader', key, pos, below'), Fail(e))
  }

  /** Conn.Read with a buffer of `n` bytes. */
  function FrameRead(cfg: Config, r: Reader, below: Source, n: nat): (o: (Reader, Source, Got))
    ensures Depth(o.1) == Depth(below)
    ensures o.2.Data? ==> |o.2.bytes| <= n
    decreases Depth(below), 3, 0
  {
    if r.unread != [] then TakeUnread(r, below, n)
    else
      var (below', room, packet) := ReadPacket(cfg, r, below);
      match packet
      case Err(e) => (Reader([], [], room), below', Fail(e))
      case Ok(pk) => Deliver(cfg, pk, room, below', n)
  }

  /** readLeastOnePacketIntoUnread; the number is the length of the decode buffer afterwards. */
  function ReadPacket(cfg: Config, r: Reader, below: Source): (o: (Source, nat, Result<Packet, Error>))
    ensures Depth(o.0) == Depth(below)
    decreases Depth(below), 2, 0
  {
    var (below', got) := FirstBytes(r, below);
    match got
    case Fail(e) => (below', r.room, Err(e))
    case Data(d) =>
      if |d| < LEN_PACKET_SIZE then (below', r.room, Err(MissingPacketSize))
      else
        var size := Uint32(d[..LEN_PACKET_SIZE]);
        if size > cfg.maxPacketSize then (below', r.room, Err(PacketTooLarge))
        else
          var room := Max(r.room, size + LEN_PACKET_SIZE);
          var (below'', full) := Refill(below', d, size, room);
          match full
          case Err(e) => (below'', room, Err(e))
          case Ok(buf) => (below'', room,
            Ok(Packet(buf[LEN_PACKET_SIZE..LEN_PACKET_SIZE + size], buf[LEN_PACKET_SIZE + size..])))
  }

  /** Detransforms the payload, stores it and returns the first bytes of it. */
  function Deliver(cfg: Config, pk: Packet, room: nat, below: Source, n: nat): (o: (Reader, Source, Got)) {
    match Detransformed(cfg, pk.payload)
    case Err(e) => (Reader([], pk.over, room), below, Fail(e))
    case Ok(p) =>
      var (stored, room') := Stored(room, 0, p);
      TakeUnread(Reader(stored, pk.over, room'), below, n)
  }

  /** The overflow of the last read if there is any, otherwise one read from below. */
  function FirstBytes(r: Reader, below: Source): (o: (Source, Got))
    ensures Depth(o.0) == Depth(below)
    ensures o.1.Data? ==> |o.1.bytes| <= r.room
    decreases Depth(below), 1, 0
  {
    if r.overflow != [] then (below, Data(r.overflow[..Min(r.room, |r.overflow|)])) else SourceRead(below, r.room)
  }

  /** Reads on until the buffer holds the whole frame. */
  function Refill(below: Source, d: seq<byte>, size: nat, room: nat): (o: (Source, Result<seq<byte>, Error>))
    requires |d| <= room && LEN_PACKET_SIZE + size <= room
    ensures Depth(o.0) == Depth(below)
    ensures o.1.Ok? ==> LEN_PACKET_SIZE + size <= |o.1.value| <= room && d <= o.1.value
    decreases Depth(below), 1, LEN_PACKET_SIZE + size - |d|
  {
    if |d| >= LEN_PACKET_SIZE + size then (below, Ok(d))
    else
      var (below', got) := SourceRead(below, room - |d|);
      match got
      case Fail(e) => (below', Err(e))
      case Data(x) => if x == [] then (below', Err(NoProgress)) else Refill(below', d + x, size, room)
  }

  function Detransformed(cfg: Config, payload: seq<byte>): Result<seq<byte>, Error> {
    match cfg.detransform
    case None => Ok(payload)
    case Some(f) => f(payload)
  }

  function TakeUnread(r: Reader, below: Source, n: nat): (o: (Reader, Source, Got)) {
    var k := Min(n, |r.unread|);
    (r.(unread := r.unread[k..]), below, Data(r.unread[..k]))
  }

  /** writeUread from position `pos` of a buffer of length `len`: the bytes that end up between the
      start position and the write position, and the buffer's new length. A byte that finds the
      buffer full is appended, but the write position stays, so the next byte lands on it. */
  function Stored(len: nat, pos: nat, p: seq<byte>): (o: (seq<byte>, nat))
    decreases |p|
  {
    if p == [] then ([], len)
    else if pos >= len then Stored(len + 1, pos, p[1..])
    else
      var (rest, len') := Stored(len, pos + 1, p[1..]);
      ([p[0]] + rest, len')
  }

  /** Conn.Read straight over a link. */
  function LinkRead(cfg: Config, r: Reader, src: Source, n: nat): (o: (Reader, Source, Got))
    requires src.Link?
    ensures o.1.Link?
  {
    DepthOfLink(FrameRead(cfg, r, src, n).1);
    FrameRead(cfg, r, src, n)
  }

  lemma {:induction false} DepthOfLink(src: Source)
    ensures Depth(src) == 0 <==> src.Link?
  {
  }
}
