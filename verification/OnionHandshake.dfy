/**
 What goes to and fro while the client adds one hop: through all layers of the circuit so far, whatever the
 links cut.
 */
module OnionHandshake {
  import opened Wrappers
  import opened Bytes
  import opened Framing
  import opened FramingSafety
  import opened FramingWriter
  import opened Onion
  import opened OnionForward
  import opened OnionSetup

  /** What the protocol selection writes. */
  function Puts(steps: seq<Exchange>): seq<byte> {
    if steps == [] then [] else (if steps[0].Put? then steps[0].bytes else []) + Puts(steps[1..])
  }

  /** All messages of the hop leave room for the headers of the layers. */
  predicate HopFits(keys: seq<Key>, hop: HopPlan) {
    PutsFit(keys, hop.selection) && PartsFit(keys, hop.request)
  }

  predicate PutsFit(keys: seq<Key>, steps: seq<Exchange>) {
    forall i :: 0 <= i < |steps| && steps[i].Put? ==> FitsLayers(keys, steps[i].bytes)
  }

  /** A part of the request has a header of its own. */
  predicate PartsFit(keys: seq<Key>, parts: seq<seq<byte>>) {
    forall i :: 0 <= i < |parts| ==> |parts[i]| + LEN_PACKET_SIZE * |keys| <= MAX_PACKET_SIZE
  }

  /** The client's connection: what was written to each layer, and what its outermost one has delivered. */
  ghost predicate ClientOk(c: Client, keys: seq<Key>, xs: seq<seq<byte>>, fed: seq<byte>, delivered: seq<byte>) {
    SinkOk(c.1, keys, xs) && Layers(keys, xs) && History(c.0, keys, fed, delivered)
  }

  /** Protocol selection writes its bytes and reads what comes next. */
  lemma {:induction false} SelectKeeps(src: Source, sink: Sink, steps: seq<Exchange>, keys: seq<Key>,
      xs: seq<seq<byte>>, fed: seq<byte>, delivered: seq<byte>)
    returns (xs': seq<seq<byte>>)
    requires ClientOk((src, sink), keys, xs, fed, delivered) && PutsFit(keys, steps)
    ensures var (src', sink', read) := Select(src, sink, steps);
            read.Ok? ==>
              && ClientOk((src', sink'), keys, xs', fed, delivered + Flat(read.value))
              && xs'[|keys|] == xs[|keys|] + Puts(steps)
    decreases |steps|
  {
    hide SinkOk, Layers, History, SinkWrite, SourceRead, Select, Puts, Flat;
    SinkSize(sink, keys, xs);
    xs' := xs;
    SelectSteps(src, sink, steps);
    if steps == [] {
      assert delivered + [] == delivered && xs[|keys|] + [] == xs[|keys|];
    } else {
      match steps[0]
      case Put(bytes) =>
        xs' := SinkWriteKeeps(sink, keys, xs, bytes);
        SinkSize(SinkWrite(sink, bytes), keys, xs');
        Regroup(xs[|keys|], bytes, Puts(steps[1..]));
        xs' := SelectKeeps(src, SinkWrite(sink, bytes), steps[1..], keys, xs', fed, delivered);
      case Take(n) =>
        SourceReadKeeps(src, n, keys, fed, delivered);
        var (src1, got) := SourceRead(src, n);
        if got.Data? {
          xs' := SelectKeeps(src1, sink, steps[1..], keys, xs, fed, delivered + got.bytes);
          var rest := Select(src1, sink, steps[1..]).2;
          if rest.Ok? {
            Regroup(delivered, got.bytes, Flat(rest.value));
          }
        }
    }
  }

  lemma {:induction false} SelectSteps(src: Source, sink: Sink, steps: seq<Exchange>)
    ensures steps == [] ==> Select(src, sink, steps) == (src, sink, Ok([])) && Puts(steps) == Flat([]) == []
    ensures steps != [] && steps[0].Put? ==>
              && Select(src, sink, steps) == Select(src, SinkWrite(sink, steps[0].bytes), steps[1..])
              && Puts(steps) == steps[0].bytes + Puts(steps[1..])
    ensures steps != [] && steps[0].Take? ==>
              var (src1, got) := SourceRead(src, steps[0].n);
              var (src', sink', read) := Select(src, sink, steps);
              && Puts(steps) == Puts(steps[1..])
              && (read.Ok? ==>
                    && got.Data?
                    && var (src2, sink2, rest) := Select(src1, sink, steps[1..]);
                       rest.Ok? && (src', sink') == (src2, sink2) && Flat(read.value) == got.bytes + Flat(rest.value))
  {
    hide SinkWrite, SourceRead;
    if steps != [] && steps[0].Take? {
      assert [] + Puts(steps[1..]) == Puts(steps[1..]);
    }
  }

  /** The request goes out as frames, one for each part. */
  lemma {:induction false} SendRequestKeeps(sink: Sink, parts: seq<seq<byte>>, keys: seq<Key>, xs: seq<seq<byte>>)
    returns (xs': seq<seq<byte>>)
    requires SinkOk(sink, keys, xs) && Layers(keys, xs) && PartsFit(keys, parts)
    ensures SinkOk(SendRequest(sink, parts), keys, xs') && Layers(keys, xs')
    ensures |xs| == |xs'| == |keys| + 1 && xs'[|keys|] == xs[|keys|] + Wire(parts)
    decreases |parts|
  {
    hide SinkOk, Layers, SinkWrite, WriteEach, Send, Framed;
    SinkSize(sink, keys, xs);
    xs' := xs;
    if parts != [] {
      DefaultsAreBare();
      OneFrame(sink, parts[0]);
      FramedLength(parts[0]);
      var x := Framed(parts[0]);
      xs' := SinkWriteKeeps(sink, keys, xs, x);
      SinkSize(SinkWrite(sink, x), keys, xs');
      Regroup(xs[|keys|], x, Wire(parts[1..]));
      xs' := SendRequestKeeps(SinkWrite(sink, x), parts[1..], keys, xs');
    }
  }

  /** The first packet of a new framing connection. */
  lemma {:induction false} FirstPacketKeeps(src: Source, keys: seq<Key>, fed: seq<byte>, delivered: seq<byte>)
    requires History(src, keys, fed, delivered)
    ensures var (src', room, packet) := ReadPacket(DEFAULTS, NEW_READER, src);
            packet.Ok? ==>
              && |packet.value.payload| + LEN_PACKET_SIZE <= room
              && History(src', keys, fed, delivered + (Framed(packet.value.payload) + packet.value.over))
  {
    hide History, Refill, SourceRead, Framed, Uint32;
    SourceReadKeeps(src, NEW_READER.room, keys, fed, delivered);
    var (src1, first) := FirstBytes(NEW_READER, src);
    if first.Data? && LEN_PACKET_SIZE <= |first.bytes| {
      var size := Uint32(first.bytes[..LEN_PACKET_SIZE]);
      if size <= MAX_PACKET_SIZE {
        var room := Max(NEW_READER.room, size + LEN_PACKET_SIZE);
        RefillKeeps(src1, first.bytes, size, room, keys, fed, delivered);
        var full := Refill(src1, first.bytes, size, room).1;
        if full.Ok? {
          BufferIsFrame(first.bytes, full.value, size);
        }
      }
    }
  }

  /** A response that is accepted is one frame of exactly that text. */
  lemma {:induction false} ResponseKeeps(src: Source, keys: seq<Key>, fed: seq<byte>, delivered: seq<byte>)
    requires History(src, keys, fed, delivered)
    ensures var (reader, src', got) := FrameRead(DEFAULTS, NEW_READER, src, 1024);
            got == Data(SUCCESS) ==>
              && reader.unread == []
              && History(src', keys, fed, delivered + (Framed(SUCCESS) + reader.overflow))
  {
    hide History, ReadPacket, Stored, Framed;
    FirstPacketKeeps(src, keys, fed, delivered);
    var (src', room, packet) := ReadPacket(DEFAULTS, NEW_READER, src);
    if packet.Ok? {
      var p := packet.value.payload;
      StoredFits(room, 0, p);
      assert |p| <= 1024 ==> p[..|p|] == p && p[|p|..] == [];
    }
  }

  /** A hop that succeeds: to the relay went the bytes of the protocol selection and then the request in
      frames; and what came back is what the selection read, one frame that says success, and what the new
      layer keeps as overflow. */
  lemma {:induction false} HopExchanges(src: Source, sink: Sink, hop: HopPlan, i: nat, keys: seq<Key>,
      xs: seq<seq<byte>>, fed: seq<byte>, delivered: seq<byte>)
    returns (xs': seq<seq<byte>>, read: seq<seq<byte>>)
    requires ClientOk((src, sink), keys, xs, fed, delivered) && HopFits(keys, hop)
    requires Hop(src, sink, hop, i, false).Ok?
    ensures var (src', sink') := Hop(src, sink, hop, i, false).value;
            && src'.Layered? && sink'.Wrapped? && src'.key == sink'.key == hop.key && src'.pos == sink'.pos == 0
            && src'.reader.unread == [] && hop.selects(read)
            && ClientOk((src'.below, sink'.below), keys, xs', fed,
                        delivered + Flat(read) + (Framed(SUCCESS) + src'.reader.overflow))
            && |xs| == |xs'| == |keys| + 1
            && xs'[|keys|] == xs[|keys|] + (Puts(hop.selection) + Wire(hop.request))
  {
    hide SinkOk, Layers, History, FrameRead, Select, SendRequest, Framed, Wire;
    SinkSize(sink, keys, xs);
    var selected := SelectKeeps(src, sink, hop.selection, keys, xs, fed, delivered);
    var (src1, sink1, bytes) := Select(src, sink, hop.selection);
    read := bytes.value;
    SinkSize(sink1, keys, selected);
    ResponseKeeps(src1, keys, fed, delivered + Flat(read));
    xs' := SendRequestKeeps(sink1, hop.request, keys, selected);
    Regroup(xs[|keys|], Puts(hop.selection), Wire(hop.request));
  }
}
