/**
 How the client establishes a circuit (onion/client.go), and that the circuit stands when it is done.
 */
module OnionSetup {
  import opened Wrappers
  import opened Bytes
  import opened Framing
  import opened FramingSafety
  import opened FramingWriter
  import opened Onion
  import opened OnionForward
  import opened OnionBackward

  const SUCCESS: seq<byte> := [115, 117, 99, 99, 101, 115, 115]

  lemma SuccessText()
    ensures |SUCCESS| == |"success"| && forall i :: 0 <= i < |SUCCESS| ==> SUCCESS[i] == "success"[i] as int
  {
  }

  /** What protocol selection does on a connection: it writes some bytes, or reads into a buffer. */
  datatype Exchange = Put(bytes: seq<byte>) | Take(n: nat)

  /** One hop: the exchanges of the protocol selection and what it makes of all it read; the encoded request
      for the next address, in the parts that the buffered writer flushes; and the new key. */
  datatype HopPlan = HopPlan(
    selection: seq<Exchange>,
    selects: seq<seq<byte>> -> bool,
    request: seq<seq<byte>>,
    key: Keystream)

  datatype CircuitError =
    | NoPeers
    | DialFailed(error: Error)
    | SelectionFailed(hop: nat, error: Error)
    | NotSelected(hop: nat)
    | NotImplemented
    | ReadResponse(hop: nat, error: Error)
    | Refused(hop: nat, response: seq<byte>)

  type Client = (Source, Sink)

  /** SelectProtocol: the connection afterwards and all that was read. */
  function Select(src: Source, sink: Sink, steps: seq<Exchange>): (o: (Source, Sink, Result<seq<seq<byte>>, Error>))
    decreases |steps|
  {
    if steps == [] then (src, sink, Ok([]))
    else match steps[0]
      case Put(bytes) => Select(src, SinkWrite(sink, bytes), steps[1..])
      case Take(n) =>
        var (src', got) := SourceRead(src, n);
        match got
        case Fail(e) => (src', sink, Err(e))
        case Data(d) =>
          var (src'', sink'', rest) := Select(src', sink, steps[1..]);
          (src'', sink'', match rest case Err(e) => Err(e) case Ok(read) => Ok([d] + read))
  }

  /** sendRequest over the framing connection on top of `sink`. */
  function SendRequest(sink: Sink, parts: seq<seq<byte>>): Sink
    decreases |parts|
  {
    if parts == [] then sink
    else
      DefaultsAreBare();
      SendRequest(WriteEach(sink, Send(DEFAULTS, parts[0], |parts[0]|).frames), parts[1..])
  }

  /** One round of the loop: the connection wrapped once more, or the error that ends it. */
  function Hop(src: Source, sink: Sink, hop: HopPlan, i: nat, encryptRequest: bool): Result<Client, CircuitError> {
    var (src1, sink1, read) := Select(src, sink, hop.selection);
    match read
    case Err(e) => Err(SelectionFailed(i, e))
    case Ok(bytes) =>
      if !hop.selects(bytes) then Err(NotSelected(i))
      else if encryptRequest then Err(NotImplemented)
      else
        var (reader, src2, got) := FrameRead(DEFAULTS, NEW_READER, src1, 1024);
        match got
        case Fail(e) => Err(ReadResponse(i, e))
        case Data(response) =>
          if response != SUCCESS then Err(Refused(i, response))
          else Ok((Layered(reader, hop.key, 0, src2), Wrapped(hop.key, 0, SendRequest(sink1, hop.request))))
  }

  /** The loop of EstablishCircuit from hop `i` on. */
  function Establish(src: Source, sink: Sink, hops: seq<HopPlan>, i: nat, encryptRequest: bool): Result<Client,
      CircuitError>
    requires i <= |hops|
    decreases |hops| - i
  {
    if i == |hops| then Ok((src, sink))
    else match Hop(src, sink, hops[i], i, encryptRequest)
      case Err(e) => Err(e)
      case Ok((src', sink')) => Establish(src', sink', hops, i + 1, encryptRequest)
  }

  /** sendRequest: every flush of the buffered writer is one write. */
  method WriteRequest(sink: Sink, parts: seq<seq<byte>>) returns (written: Sink)
    ensures written == SendRequest(sink, parts)
  {
    written := sink;
    for j := 0 to |parts|
      invariant SendRequest(sink, parts) == SendRequest(written, parts[j..])
    {
      assert parts[j..][0] == parts[j] && parts[j..][1..] == parts[j + 1..];
      DefaultsAreBare();
      written := WriteEach(written, Send(DEFAULTS, parts[j], |parts[j]|).frames);
    }
  }

  /** Without peers or without a connection to the first there is no circuit. */
  function Established(numPeers: nat, dialled: Result<Source, Error>, hops: seq<HopPlan>, encryptRequest: bool):
      Result<Client, CircuitError> {
    if numPeers == 0 then Err(NoPeers)
    else match dialled
      case Err(e) => Err(DialFailed(e))
      case Ok(link) => Establish(link, Out([]), hops, 0, encryptRequest)
  }

  /** EstablishCircuit for `numPeers` peers: `dialled` is the connection to the first. */
  method EstablishCircuit(numPeers: nat, dialled: Result<Source, Error>, hops: seq<HopPlan>, encryptRequest: bool)
    returns (r: Result<Client, CircuitError>)
    requires numPeers > 0 ==> |hops| == numPeers - 1
    ensures r == Established(numPeers, dialled, hops, encryptRequest)
  {
    hide FrameRead, Select;
    if numPeers == 0 {
      return Err(NoPeers);
    }
    if dialled.Err? {
      return Err(DialFailed(dialled.error));
    }
    var src, sink := dialled.value, Out([]);
    for i := 0 to numPeers - 1
      invariant Establish(dialled.value, Out([]), hops, 0, encryptRequest) ==
                  Establish(src, sink, hops, i, encryptRequest)
    {
      var (src1, sink1, read) := Select(src, sink, hops[i].selection);
      if read.Err? {
        return Err(SelectionFailed(i, read.error));
      }
      if !hops[i].selects(read.value) {
        return Err(NotSelected(i));
      }
      if encryptRequest {
        return Err(NotImplemented);
      }
      var sink2 := WriteRequest(sink1, hops[i].request);
      var (reader, src2, got) := FrameRead(DEFAULTS, NEW_READER, src1, 1024);
      if got.Fail? {
        return Err(ReadResponse(i, got.error));
      }
      if got.bytes != SUCCESS {
        return Err(Refused(i, got.bytes));
      }
      src, sink := Layered(reader, hops[i].key, 0, src2), Wrapped(hops[i].key, 0, sink2);
    }
    return Ok((src, sink));
  }

  // ---------- Exactly when there is a circuit ----------

  /** The read of exchange `k` fails, and those in front of it did not. */
  ghost predicate ReadFailsAt(src: Source, sink: Sink, steps: seq<Exchange>, k: nat, e: Error) {
    && k < |steps| && steps[k].Take?
    && var (src', _, read) := Select(src, sink, steps[..k]);
       read.Ok? && SourceRead(src', steps[k].n).1 == Fail(e)
  }

  lemma {:induction false} SelectMore(src: Source, sink: Sink, steps: seq<Exchange>, k: nat)
    requires steps != [] && 0 < k <= |steps|
    ensures var rest := steps[1..][..k - 1];
            match steps[0]
            case Put(bytes) => Select(src, sink, steps[..k]) == Select(src, SinkWrite(sink, bytes), rest)
            case Take(n) =>
              var (src1, got) := SourceRead(src, n);
              var (src', sink', read) := Select(src, sink, steps[..k]);
              && (got.Fail? ==> read == Err(got.error))
              && (got.Data? ==>
                    var (src2, sink2, more) := Select(src1, sink, rest);
                    && src' == src2 && sink' == sink2 && (read.Ok? <==> more.Ok?)
                    && (read.Err? ==> read.error == more.error))
  {
    hide SinkWrite, SourceRead;
    assert steps[..k][1..] == steps[1..][..k - 1];
  }

  /** Protocol selection fails exactly when one of its reads does, and with the error of the first. */
  lemma {:induction false} SelectFailsIff(src: Source, sink: Sink, steps: seq<Exchange>, e: Error)
    ensures Select(src, sink, steps).2 == Err(e) <==> exists k: nat :: ReadFailsAt(src, sink, steps, k, e)
    decreases |steps|
  {
    hide Select, SinkWrite, SourceRead, ReadFailsAt;
    NothingSelected(src, sink);
    if steps == [] {
      NothingFails(src, sink, e);
    } else {
      SelectMore(src, sink, steps, |steps|);
      assert steps[..|steps|] == steps && steps[1..][..|steps| - 1] == steps[1..];
      if steps[0].Take? && SourceRead(src, steps[0].n).1.Fail? {
        FirstReadOnly(src, sink, steps, e);
      } else {
        var src1 := if steps[0].Take? then SourceRead(src, steps[0].n).0 else src;
        var sink1 := if steps[0].Put? then SinkWrite(sink, steps[0].bytes) else sink;
        SelectFailsIff(src1, sink1, steps[1..], e);
        if k: nat :| ReadFailsAt(src, sink, steps, k, e) {
          LaterFails(src, sink, steps, src1, sink1, k, e);
        }
        if k: nat :| ReadFailsAt(src1, sink1, steps[1..], k, e) {
          LaterFails(src, sink, steps, src1, sink1, k + 1, e);
        }
      }
    }
  }

  lemma NothingFails(src: Source, sink: Sink, e: Error)
    ensures forall k: nat :: !ReadFailsAt(src, sink, [], k, e)
  {
  }

  /** Behind a first exchange that did not fail. */
  lemma {:induction false} LaterFails(src: Source, sink: Sink, steps: seq<Exchange>, src1: Source, sink1: Sink, k: nat,
      e: Error)
    requires steps != []
    requires match steps[0]
             case Put(bytes) => src1 == src && sink1 == SinkWrite(sink, bytes)
             case Take(n) => SourceRead(src, n).1.Data? && src1 == SourceRead(src, n).0 && sink1 == sink
    ensures ReadFailsAt(src, sink, steps, k, e) <==> k > 0 && ReadFailsAt(src1, sink1, steps[1..], k - 1, e)
  {
    hide Select, SinkWrite, SourceRead;
    NothingSelected(src, sink);
    assert steps[..0] == [];
    if 0 < k < |steps| {
      SelectMore(src, sink, steps, k);
    }
  }

  lemma {:induction false} NothingSelected(src: Source, sink: Sink)
    ensures Select(src, sink, []) == (src, sink, Ok([]))
  {
  }

  lemma {:induction false} FirstReadOnly(src: Source, sink: Sink, steps: seq<Exchange>, e: Error)
    requires steps != [] && steps[0].Take? && SourceRead(src, steps[0].n).1.Fail?
    ensures SourceRead(src, steps[0].n).1 == Fail(e) <==> exists k: nat :: ReadFailsAt(src, sink, steps, k, e)
  {
    hide Select, SinkWrite, SourceRead;
    NothingSelected(src, sink);
    assert steps[..0] == [];
    forall k: nat | 0 < k < |steps| ensures !ReadFailsAt(src, sink, steps, k, e) {
      SelectMore(src, sink, steps, k);
    }
    if SourceRead(src, steps[0].n).1 == Fail(e) {
      assert ReadFailsAt(src, sink, steps, 0, e);
    }
  }

  /** What a hop leaves of the client's connection if nothing goes wrong. */
  function AfterHop(c: Client, hop: HopPlan): Client {
    var (src1, sink1, _) := Select(c.0, c.1, hop.selection);
    var (reader, src2, _) := FrameRead(DEFAULTS, NEW_READER, src1, 1024);
    (Layered(reader, hop.key, 0, src2), Wrapped(hop.key, 0, SendRequest(sink1, hop.request)))
  }

  function ClientAt(link: Source, hops: seq<HopPlan>, k: nat): Client
    requires k <= |hops|
  {
    if k == 0 then (link, Out([])) else AfterHop(ClientAt(link, hops, k - 1), hops[k - 1])
  }

  predicate Selects(c: Client, hop: HopPlan) {
    var read := Select(c.0, c.1, hop.selection).2;
    read.Ok? && hop.selects(read.value)
  }

  /** The first read of the new framing connection. */
  function Response(c: Client, hop: HopPlan): Got {
    FrameRead(DEFAULTS, NEW_READER, Select(c.0, c.1, hop.selection).0, 1024).2
  }

  predicate Accepts(c: Client, hop: HopPlan, encryptRequest: bool) {
    Selects(c, hop) && !encryptRequest && Response(c, hop) == Data(SUCCESS)
  }

  /** The peers in front of hop `k` accepted theirs. */
  ghost predicate AllAccept(link: Source, hops: seq<HopPlan>, encryptRequest: bool, k: nat)
    requires k <= |hops|
  {
    forall j: nat :: j < k ==> Accepts(ClientAt(link, hops, j), hops[j], encryptRequest)
  }

  /** `err` is what went wrong at hop `k`. */
  predicate Fails(c: Client, hop: HopPlan, encryptRequest: bool, k: nat, err: CircuitError) {
    match err
    case SelectionFailed(i, e) => i == k && Select(c.0, c.1, hop.selection).2 == Err(e)
    case NotSelected(i) => i == k && Select(c.0, c.1, hop.selection).2.Ok? && !Selects(c, hop)
    case NotImplemented => Selects(c, hop) && encryptRequest
    case ReadResponse(i, e) => i == k && Selects(c, hop) && !encryptRequest && Response(c, hop) == Fail(e)
    case Refused(i, response) =>
      i == k && Selects(c, hop) && !encryptRequest && Response(c, hop) == Data(response) && response != SUCCESS
    case _ => false
  }

  lemma HopIs(c: Client, hop: HopPlan, k: nat, encryptRequest: bool)
    ensures var r := Hop(c.0, c.1, hop, k, encryptRequest);
            && (r.Ok? <==> Accepts(c, hop, encryptRequest)) && (r.Ok? ==> r.value == AfterHop(c, hop))
            && forall err :: r == Err(err) <==> Fails(c, hop, encryptRequest, k, err)
  {
    hide Select, FrameRead, SendRequest;
  }

  /** Hop `k` is the first that is not accepted, and `err` is what went wrong. */
  ghost predicate FirstFails(link: Source, hops: seq<HopPlan>, encryptRequest: bool, k: nat, err: CircuitError) {
    k < |hops| && AllAccept(link, hops, encryptRequest, k) &&
    Fails(ClientAt(link, hops, k), hops[k], encryptRequest, k, err)
  }

  lemma {:induction false} EstablishIs(link: Source, hops: seq<HopPlan>, k: nat, encryptRequest: bool)
    requires k <= |hops| && AllAccept(link, hops, encryptRequest, k)
    ensures var c := ClientAt(link, hops, k);
            var r := Establish(c.0, c.1, hops, k, encryptRequest);
            match r
            case Ok(d) => AllAccept(link, hops, encryptRequest, |hops|) && d == ClientAt(link, hops, |hops|)
            case Err(err) => exists i: nat :: FirstFails(link, hops, encryptRequest, i, err)
    decreases |hops| - k
  {
    hide Hop, Accepts, Fails, AfterHop;
    if k < |hops| {
      HopIs(ClientAt(link, hops, k), hops[k], k, encryptRequest);
      if Accepts(ClientAt(link, hops, k), hops[k], encryptRequest) {
        EstablishIs(link, hops, k + 1, encryptRequest);
      } else {
        assert FirstFails(link, hops, encryptRequest, k, Hop(ClientAt(link, hops, k).0, ClientAt(link, hops, k).1,
            hops[k], k, encryptRequest).error);
      }
    }
  }

  lemma OneFailure(c: Client, hop: HopPlan, encryptRequest: bool, k: nat, err: CircuitError)
    requires Fails(c, hop, encryptRequest, k, err)
    ensures !Accepts(c, hop, encryptRequest) && !err.NoPeers? && !err.DialFailed?
    ensures forall other :: Fails(c, hop, encryptRequest, k, other) ==> other == err
  {
    hide Select, FrameRead;
  }

  lemma OneFirstFails(link: Source, hops: seq<HopPlan>, encryptRequest: bool, k: nat, err: CircuitError, i: nat,
      other: CircuitError)
    requires FirstFails(link, hops, encryptRequest, k, err)
    ensures !AllAccept(link, hops, encryptRequest, |hops|) && !err.NoPeers? && !err.DialFailed?
    ensures FirstFails(link, hops, encryptRequest, i, other) ==> other == err
  {
    hide Accepts, Fails, ClientAt;
    OneFailure(ClientAt(link, hops, k), hops[k], encryptRequest, k, err);
    if FirstFails(link, hops, encryptRequest, i, other) {
      OneFailure(ClientAt(link, hops, i), hops[i], encryptRequest, i, other);
    }
  }

  /** There is a circuit exactly when there is a peer, dialling succeeds and every hop is accepted: the protocol is
      selected, the request need not be encrypted, and the response is the text for success. Otherwise the error
      names the first hop that was not accepted, and why. */
  lemma {:induction false} EstablishedIff(numPeers: nat, dialled: Result<Source, Error>, hops: seq<HopPlan>,
      encryptRequest: bool, err: CircuitError)
    ensures var r := Established(numPeers, dialled, hops, encryptRequest);
            && (r.Ok? <==> numPeers > 0 && dialled.Ok? && AllAccept(dialled.value, hops, encryptRequest, |hops|))
            && (r.Ok? ==> r.value == ClientAt(dialled.value, hops, |hops|))
            && (r == Err(NoPeers) <==> numPeers == 0)
            && (forall e :: r == Err(DialFailed(e)) <==> numPeers > 0 && dialled == Err(e))
            && (!err.NoPeers? && !err.DialFailed? ==>
                  (r == Err(err) <==>
                   numPeers > 0 && dialled.Ok? &&
                   exists k: nat :: FirstFails(dialled.value, hops, encryptRequest, k, err)))
  {
    hide Establish, AllAccept, FirstFails, AfterHop;
    if numPeers > 0 && dialled.Ok? {
      var link := dialled.value;
      NothingBefore(link, hops, encryptRequest);
      EstablishIs(link, hops, 0, encryptRequest);
      var r := Establish(link, Out([]), hops, 0, encryptRequest);
      if r.Err? {
        var k: nat :| FirstFails(link, hops, encryptRequest, k, r.error);
        OneFirstFails(link, hops, encryptRequest, k, r.error, k, r.error);
        if i: nat :| FirstFails(link, hops, encryptRequest, i, err) {
          OneFirstFails(link, hops, encryptRequest, k, r.error, i, err);
        }
      } else if i: nat :| FirstFails(link, hops, encryptRequest, i, err) {
        OneFirstFails(link, hops, encryptRequest, i, err, i, err);
        assert false;
      }
    }
  }

  lemma NothingBefore(link: Source, hops: seq<HopPlan>, encryptRequest: bool)
    ensures AllAccept(link, hops, encryptRequest, 0)
  {
  }

  // ---------- What is established ----------

  function KeysOf(hops: seq<HopPlan>): (keys: seq<Keystream>)
    ensures |keys| == |hops| && forall i :: 0 <= i < |hops| ==> keys[i] == hops[i].key
  {
    if hops == [] then [] else KeysOf(hops[..|hops| - 1]) + [hops[|hops| - 1].key]
  }

  /** The layers of the writer have these keys, the outermost last. */
  ghost predicate SinkKeyed(s: Sink, keys: seq<Keystream>)
    decreases |keys|
  {
    if keys == [] then s.Out?
    else s.Wrapped? && s.key == keys[|keys| - 1] && SinkKeyed(s.below, keys[..|keys| - 1])
  }

  /** The layers of the reader have these keys, and their buffers hold the overflow and a header. */
  ghost predicate Keyed(src: Source, keys: seq<Keystream>)
    decreases |keys|
  {
    if keys == [] then src.Link?
    else src.Layered? && src.key == keys[|keys| - 1] && ReaderOk(src.reader) && Keyed(src.below, keys[..|keys| - 1])
  }

  // Writing and reading change buffers and positions, never the keys.

  lemma {:induction false} SinkWriteKeyed(s: Sink, x: seq<byte>, keys: seq<Keystream>)
    requires SinkKeyed(s, keys)
    ensures SinkKeyed(SinkWrite(s, x), keys)
    decreases |keys|, 0
  {
    if keys != [] {
      DefaultsAreBare();
      WriteEachKeyed(s.below, Send(DEFAULTS, Ctr(s.key, s.pos, x), |x|).frames, keys[..|keys| - 1]);
    }
  }

  lemma {:induction false} WriteEachKeyed(s: Sink, fs: seq<seq<byte>>, keys: seq<Keystream>)
    requires SinkKeyed(s, keys)
    ensures SinkKeyed(WriteEach(s, fs), keys)
    decreases |keys|, 1, |fs|
  {
    if fs != [] {
      SinkWriteKeyed(s, Framed(fs[0]), keys);
      WriteEachKeyed(SinkWrite(s, Framed(fs[0])), fs[1..], keys);
    }
  }

  lemma {:induction false} SendRequestKeyed(s: Sink, parts: seq<seq<byte>>, keys: seq<Keystream>)
    requires SinkKeyed(s, keys)
    ensures SinkKeyed(SendRequest(s, parts), keys)
    decreases |parts|
  {
    if parts != [] {
      DefaultsAreBare();
      var frames := Send(DEFAULTS, parts[0], |parts[0]|).frames;
      WriteEachKeyed(s, frames, keys);
      SendRequestKeyed(WriteEach(s, frames), parts[1..], keys);
    }
  }

  lemma {:induction false} SourceReadKeyed(src: Source, room: nat, keys: seq<Keystream>)
    requires Keyed(src, keys)
    ensures Keyed(SourceRead(src, room).0, keys)
    decreases Depth(src), 0, 0
  {
    if src.Layered? {
      FrameReadKeyed(src.reader, src.below, room, keys[..|keys| - 1]);
    }
  }

  lemma {:induction false} RefillKeyed(below: Source, d: seq<byte>, size: nat, room: nat, keys: seq<Keystream>)
    requires |d| <= room && LEN_PACKET_SIZE + size <= room && Keyed(below, keys)
    ensures Keyed(Refill(below, d, size, room).0, keys)
    decreases Depth(below), 1, LEN_PACKET_SIZE + size - |d|
  {
    if |d| < LEN_PACKET_SIZE + size {
      var (below', got) := SourceRead(below, room - |d|);
      SourceReadKeyed(below, room - |d|, keys);
      if got.Data? && got.bytes != [] {
        RefillKeyed(below', d + got.bytes, size, room, keys);
      }
    }
  }

  lemma {:induction false} FrameReadKeyed(r: Reader, below: Source, n: nat, keys: seq<Keystream>)
    requires Keyed(below, keys) && ReaderOk(r)
    ensures Keyed(FrameRead(DEFAULTS, r, below, n).1, keys) && ReaderOk(FrameRead(DEFAULTS, r, below, n).0)
    decreases Depth(below), 3, 0
  {
    hide Keyed, Stored, SourceRead, Refill;
    if r.unread == [] {
      var (below', first) := FirstBytes(r, below);
      if r.overflow == [] {
        SourceReadKeyed(below, r.room, keys);
      }
      if first.Data? && LEN_PACKET_SIZE <= |first.bytes| {
        var size := Uint32(first.bytes[..LEN_PACKET_SIZE]);
        if size <= DEFAULTS.maxPacketSize {
          var room := Max(r.room, size + LEN_PACKET_SIZE);
          RefillKeyed(below', first.bytes, size, room, keys);
          var full := Refill(below', first.bytes, size, room).1;
          if full.Ok? {
            StoredFits(room, 0, full.value[LEN_PACKET_SIZE..LEN_PACKET_SIZE + size]);
          }
        }
      }
    }
  }

  lemma {:induction false} SelectKeyed(src: Source, sink: Sink, steps: seq<Exchange>, keys: seq<Keystream>)
    requires Keyed(src, keys) && SinkKeyed(sink, keys)
    ensures Keyed(Select(src, sink, steps).0, keys) && SinkKeyed(Select(src, sink, steps).1, keys)
    decreases |steps|
  {
    hide SinkWrite, SourceRead;
    if steps != [] {
      match steps[0]
      case Put(bytes) =>
        SinkWriteKeyed(sink, bytes, keys);
        SelectKeyed(src, SinkWrite(sink, bytes), steps[1..], keys);
      case Take(n) =>
        SourceReadKeyed(src, n, keys);
        SelectKeyed(SourceRead(src, n).0, sink, steps[1..], keys);
    }
  }

  /** An established circuit has one layer for every hop, in both directions with the keys in the order of
      the hops: the last hop's layer is the outermost. */
  lemma {:induction false} EstablishedLayers(src: Source, sink: Sink, hops: seq<HopPlan>, i: nat, encryptRequest: bool)
    requires i <= |hops| && Keyed(src, KeysOf(hops)[..i]) && SinkKeyed(sink, KeysOf(hops)[..i])
    ensures var r := Establish(src, sink, hops, i, encryptRequest);
            r.Ok? ==> Keyed(r.value.0, KeysOf(hops)) && SinkKeyed(r.value.1, KeysOf(hops))
    decreases |hops| - i
  {
    hide FrameRead, Select, SendRequest;
    var keys := KeysOf(hops);
    if i == |hops| {
      assert keys[..i] == keys;
    } else {
      var (src1, sink1, read) := Select(src, sink, hops[i].selection);
      SelectKeyed(src, sink, hops[i].selection, keys[..i]);
      SendRequestKeyed(sink1, hops[i].request, keys[..i]);
      FrameReadKeyed(NEW_READER, src1, 1024, keys[..i]);
      assert keys[..i + 1][..i] == keys[..i] && keys[..i + 1][i] == hops[i].key;
      var hop := Hop(src, sink, hops[i], i, encryptRequest);
      if hop.Ok? {
        EstablishedLayers(hop.value.0, hop.value.1, hops, i + 1, encryptRequest);
      }
    }
  }

  /** The keys of the writer's layers and where they stand. */
  function SinkKeys(s: Sink): seq<Key> {
    match s
    case Out(_) => []
    case Wrapped(key, pos, below) => SinkKeys(below) + [Key(key, pos)]
  }

  function SourceKeys(src: Source): seq<Key> {
    match src
    case Link(_, _) => []
    case Layered(_, key, pos, below) => SourceKeys(below) + [Key(key, pos)]
  }

  lemma {:induction false} OutermostSinkKey(s: Sink)
    requires s.Wrapped?
    ensures var keys, n := SinkKeys(s), |SinkKeys(s.below)|;
            |keys| == n + 1 && keys[..n] == SinkKeys(s.below) && keys[n] == Key(s.key, s.pos)
  {
  }

  lemma {:induction false} OutermostSourceKey(src: Source)
    requires src.Layered?
    ensures var keys, n := SourceKeys(src), |SourceKeys(src.below)|;
            |keys| == n + 1 && keys[..n] == SourceKeys(src.below) && keys[n] == Key(src.key, src.pos)
  {
  }

  lemma {:induction false} KeyedSinkStands(s: Sink, keys: seq<Keystream>)
    requires SinkKeyed(s, keys)
    ensures |SinkKeys(s)| == |keys| && forall i :: 0 <= i < |keys| ==> SinkKeys(s)[i].stream == keys[i]
    ensures SinkOk(s, SinkKeys(s), Nothing(|keys| + 1))
    decreases |keys|
  {
    if keys != [] {
      hide SinkKeys;
      var n := |keys| - 1;
      KeyedSinkStands(s.below, keys[..n]);
      OutermostSinkKey(s);
      assert Nothing(|keys| + 1)[..n + 1] == Nothing(n + 1);
    }
  }

  /** The readers of the nested connection hold nothing. */
  predicate Quiet(src: Source) {
    src.Layered? ==> src.reader.unread == [] && src.reader.overflow == [] && Quiet(src.below)
  }

  lemma {:induction false} LayerStands(src: Source, keys: seq<Key>)
    requires src.Layered? && keys != [] && keys[|keys| - 1] == Key(src.key, src.pos)
    requires ReaderOk(src.reader) && src.reader.unread == [] && src.reader.overflow == []
    requires SourceStands(src.below, keys[..|keys| - 1])
    ensures SourceStands(src, keys)
  {
  }

  lemma {:induction false} KeyedSourceStands(src: Source, keys: seq<Keystream>)
    requires Keyed(src, keys) && Quiet(src)
    ensures |SourceKeys(src)| == |keys| && forall i :: 0 <= i < |keys| ==> SourceKeys(src)[i].stream == keys[i]
    ensures SourceStands(src, SourceKeys(src))
    decreases |keys|
  {
    if keys != [] {
      hide SourceKeys, SourceStands;
      KeyedSourceStands(src.below, keys[..|keys| - 1]);
      OutermostSourceKey(src);
      LayerStands(src, SourceKeys(src));
    }
  }

  /** What the client establishes stands, wherever the handshake left its keys: outwards with relays whose
      keys stand at the same positions and that hold nothing, and homewards as well if the client's
      readers hold nothing. */
  lemma {:induction false} EstablishedStands(link: Source, hops: seq<HopPlan>, up: seq<Relay>, down: seq<BackRelay>)
    requires link.Link? && Establish(link, Out([]), hops, 0, false).Ok?
    requires var (src, sink) := Establish(link, Out([]), hops, 0, false).value;
             && |up| == |down| == |hops| == |SinkKeys(sink)| == |SourceKeys(src)|
             && forall i :: 0 <= i < |hops| ==>
                  Stands(SinkKeys(sink)[i], up[i]) && down[i].pos == SourceKeys(src)[i].from
    ensures var (src, sink) := Establish(link, Out([]), hops, 0, false).value;
            var pipes := seq(|hops| + 1, _ => Pipe([], []));
            && (forall i :: 0 <= i < |hops| ==> SinkKeys(sink)[i].stream == SourceKeys(src)[i].stream == hops[i].key)
            && UpStanding(SinkKeys(sink), Up(sink, pipes, up, [], []))
            && (Quiet(src) ==> DownStanding(SourceKeys(src), Down(src, pipes, down, [], [], true)))
  {
    hide Establish, SinkOk, SourceStands, SinkKeyed, Keyed, SourceKeys, SinkKeys;
    var keys := KeysOf(hops);
    assert Keyed(link, keys[..0]) && SinkKeyed(Out([]), keys[..0]) by { NothingKeyed(link); }
    EstablishedLayers(link, Out([]), hops, 0, false);
    var (src, sink) := Establish(link, Out([]), hops, 0, false).value;
    KeyedSinkStands(sink, keys);
    SourceKeysMatch(src, keys);
    if Quiet(src) {
      KeyedSourceStands(src, keys);
    }
  }

  lemma {:induction false} NothingKeyed(link: Source)
    requires link.Link?
    ensures Keyed(link, []) && SinkKeyed(Out([]), [])
  {
  }

  lemma {:induction false} SourceKeysMatch(src: Source, keys: seq<Keystream>)
    requires Keyed(src, keys)
    ensures |SourceKeys(src)| == |keys| && forall i :: 0 <= i < |keys| ==> SourceKeys(src)[i].stream == keys[i]
    decreases |keys|
  {
    if keys != [] {
      SourceKeysMatch(src.below, keys[..|keys| - 1]);
    }
  }
}
