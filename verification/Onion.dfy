/**
 The layers of an onion circuit. For every relay the client has one framing connection and, above it, one
 key; each layer frames what the layer above encrypted (onion/client.go). A relay takes the frames of its
 layer off and undoes its key on the way out, and does the reverse on the way back (onion/onion.go).
 */
module Onion {
  import opened Bytes
  import opened Framing
  import opened FramingSafety
  import opened FramingWriter

  /** The buffer of copyWithRandomWait. */
  const RELAY_BUFFER: nat := 1024 * 10

  /** The client's connection as a writer: what was written to the link, or an encrypted framed connection
      over another one. */
  datatype Sink = Out(bytes: seq<byte>) | Wrapped(key: Keystream, pos: nat, below: Sink)

  function SinkDepth(s: Sink): nat {
    match s
    case Out(_) => 0
    case Wrapped(_, _, below) => 1 + SinkDepth(below)
  }

  function Bottom(s: Sink): seq<byte> {
    match s
    case Out(bytes) => bytes
    case Wrapped(_, _, below) => Bottom(below)
  }

  /** A Write: the encrypted copy, whose capacity is its length, goes to the framing connection, which
      writes its frames one by one to the connection below. */
  function SinkWrite(s: Sink, x: seq<byte>): (r: Sink)
    ensures SinkDepth(r) == SinkDepth(s) && Bottom(s) <= Bottom(r)
    decreases SinkDepth(s), 0, 0
  {
    match s
    case Out(bytes) => Out(bytes + x)
    case Wrapped(key, pos, below) =>
      DefaultsAreBare();
      Wrapped(key, pos + |x|, WriteEach(below, Send(DEFAULTS, Ctr(key, pos, x), |x|).frames))
  }

  function WriteEach(s: Sink, fs: seq<seq<byte>>): (r: Sink)
    ensures SinkDepth(r) == SinkDepth(s) && Bottom(s) <= Bottom(r)
    decreases SinkDepth(s), 1, |fs|
  {
    if fs == [] then s else WriteEach(SinkWrite(s, Framed(fs[0])), fs[1..])
  }

  // ---------- One layer ----------

  /** `x` is `y` encrypted and cut into frames. */
  ghost predicate Layer(key: Key, x: seq<byte>, y: seq<byte>) {
    exists gs :: LayerOf(key, x, y, gs)
  }

  ghost predicate LayerOf(key: Key, x: seq<byte>, y: seq<byte>, gs: seq<seq<byte>>) {
    x == Wire(gs) && Small(gs, MAX_PACKET_SIZE) && Plain(DEFAULTS, gs) == Enc(key, y)
  }

  /** Whoever reads frames off some of a layer and undoes the key holds a prefix of what the layer carries,
      and all of it once nothing of the layer is left. */
  lemma PeeledIsPrefix(key: Key, x: seq<byte>, y: seq<byte>, consumed: seq<byte>, r: Reader, out: seq<byte>,
      fs: seq<seq<byte>>)
    requires Layer(key, x, y) && consumed <= x
    requires Parsed(DEFAULTS, r, consumed, Enc(key, out), fs)
    ensures out <= y
    ensures consumed == x && r.unread == [] && r.overflow == [] ==> out == y
  {
    hide Wire, Plain;
    var gs :| LayerOf(key, x, y, gs);
    var rest := r.overflow + x[|consumed|..];
    assert Wire(fs) + rest == Wire(gs);
    WirePrefix(fs, gs, rest);
    var later := gs[|fs|..];
    assert gs == fs + later;
    PlainAppend(DEFAULTS, fs, later);
    var c := Enc(key, y);
    assert c == Enc(key, out) + (r.unread + Plain(DEFAULTS, later));
    CtrPrefix(key.stream, key.from, Enc(key, out), c);
    CtrInverse(key.stream, key.from, out);
    CtrInverse(key.stream, key.from, y);
    if consumed == x && r.unread == [] && r.overflow == [] {
      NoBytesNoFrames(DEFAULTS, later);
    }
  }

  lemma EmptyLayer(key: Key)
    ensures Layer(key, [], [])
  {
    assert LayerOf(key, [], [], []);
  }

  /** One more encrypted frame. */
  lemma LayerGrows(key: Key, x: seq<byte>, y: seq<byte>, more: seq<byte>)
    requires Layer(key, x, y) && |more| <= MAX_PACKET_SIZE
    ensures Layer(key, x + Framed(Ctr(key.stream, key.from + |y|, more)), y + more)
  {
    hide Wire, Plain, Framed;
    var gs :| LayerOf(key, x, y, gs);
    LayerOfGrows(key, x, y, gs, more);
  }

  lemma LayerOfGrows(key: Key, x: seq<byte>, y: seq<byte>, gs: seq<seq<byte>>, more: seq<byte>)
    requires LayerOf(key, x, y, gs) && |more| <= MAX_PACKET_SIZE
    ensures var f := Ctr(key.stream, key.from + |y|, more); LayerOf(key, x + Framed(f), y + more, gs + [f])
  {
    hide Wire, Plain, Framed;
    var f := Ctr(key.stream, key.from + |y|, more);
    WireAppend(gs, [f]);
    WireOne(f);
    PlainAppend(DEFAULTS, gs, [f]);
    PlainOne(DEFAULTS, f);
    CtrAppend(key.stream, key.from, y, more);
  }

  // ---------- All layers of the client ----------

  /** `xs[i]` is what was written to the client's connection after `i` hops since its key stood at the start,
      and `xs[0]` what went out on the link since then. */
  ghost predicate SinkOk(s: Sink, keys: seq<Key>, xs: seq<seq<byte>>)
    decreases |keys|
  {
    && |xs| == |keys| + 1
    && if keys == [] then s.Out?
       else
         var n := |keys| - 1;
         && s.Wrapped? && s.key == keys[n].stream && s.pos == keys[n].from + |xs[n + 1]|
         && SinkOk(s.below, keys[..n], xs[..n + 1])
  }

  ghost predicate Layers(keys: seq<Key>, xs: seq<seq<byte>>) {
    |xs| == |keys| + 1 && forall i :: 0 <= i < |keys| ==> Layer(keys[i], xs[i], xs[i + 1])
  }

  /** A message that leaves room for the headers of all but the innermost layer passes every layer as one
      frame. */
  lemma {:induction false} SinkWriteKeeps(s: Sink, keys: seq<Key>, xs: seq<seq<byte>>, p: seq<byte>)
    returns (xs': seq<seq<byte>>)
    requires SinkOk(s, keys, xs) && Layers(keys, xs)
    requires keys != [] ==> |p| + LEN_PACKET_SIZE * (|keys| - 1) <= MAX_PACKET_SIZE
    ensures SinkOk(SinkWrite(s, p), keys, xs') && Layers(keys, xs')
    ensures xs'[|keys|] == xs[|keys|] + p
    ensures xs'[0] == xs[0] + Bottom(SinkWrite(s, p))[|Bottom(s)|..]
    ensures forall i :: 0 <= i < |xs| ==> xs[i] <= xs'[i]
    decreases |keys|
  {
    hide Layer, Send, Framed, PutUint32;
    if keys == [] {
      xs' := [xs[0] + p];
    } else {
      var n := |keys| - 1;
      var f := Ctr(keys[n].stream, s.pos, p);
      OneFrame(s.below, f);
      FramedLength(f);
      var below := SinkWriteKeeps(s.below, keys[..n], xs[..n + 1], Framed(f));
      LayerGrows(keys[n], xs[n], xs[n + 1], p);
      xs' := below + [xs[n + 1] + p];
      assert xs'[..n + 1] == below;
      forall i | 0 <= i < |keys| ensures Layer(keys[i], xs'[i], xs'[i + 1]) {
        if i < n {
          assert Layer(keys[..n][i], below[i], below[i + 1]);
        }
      }
      forall i | 0 <= i < |xs| ensures xs[i] <= xs'[i] {
        if i <= n {
          assert xs[..n + 1][i] <= below[i];
        }
      }
    }
  }

  lemma FramedLength(f: seq<byte>)
    ensures |Framed(f)| == |f| + LEN_PACKET_SIZE
  {
  }

  lemma {:induction false} OneFrame(below: Sink, f: seq<byte>)
    requires |f| <= MAX_PACKET_SIZE && SmallFits(DEFAULTS)
    ensures WriteEach(below, Send(DEFAULTS, f, |f|).frames) == SinkWrite(below, Framed(f))
  {
    hide Send, Framed;
    BareWriteOneFrame(DEFAULTS, f, |f|);
    assert f[..|f|] == f;
    assert [f][1..] == [];
  }

  /** The circuit before anything was written. */
  function NestSink(keys: seq<Key>): Sink {
    if keys == [] then Out([]) else Wrapped(keys[|keys| - 1].stream, keys[|keys| - 1].from,
         NestSink(keys[..|keys| - 1]))
  }

  function Nothing(n: nat): (xs: seq<seq<byte>>)
    ensures |xs| == n && forall i :: 0 <= i < n ==> xs[i] == []
  {
    seq(n, _ => [])
  }

  lemma NothingLayered(keys: seq<Key>)
    ensures Layers(keys, Nothing(|keys| + 1))
  {
    hide Layer;
    forall key: Key ensures Layer(key, [], []) {
      EmptyLayer(key);
    }
  }

  lemma {:induction false} NothingWritten(keys: seq<Key>)
    ensures SinkOk(NestSink(keys), keys, Nothing(|keys| + 1))
    decreases |keys|
  {
    if keys != [] {
      NothingWritten(keys[..|keys| - 1]);
      assert Nothing(|keys| + 1)[..|keys|] == Nothing(|keys|);
    }
  }

  lemma {:induction false} LayerDecodes(key: Key, fs: seq<seq<byte>>, y: seq<byte>)
    requires Layer(key, Wire(fs), y) && Small(fs, MAX_PACKET_SIZE)
    ensures Plain(DEFAULTS, fs) == Enc(key, y)
  {
    hide Wire, Plain;
    var gs :| LayerOf(key, Wire(fs), y, gs);
    assert Wire(fs) + [] == Wire(gs);
    WirePrefix(fs, gs, []);
    NoBytesNoFrames(DEFAULTS, gs[|fs|..]);
    assert gs == fs + gs[|fs|..] && fs + [] == fs;
  }

  lemma {:induction false} WrittenFrames(s: Sink, fs: seq<seq<byte>>)
    requires s.Out?
    ensures WriteEach(s, fs) == Out(s.bytes + Wire(fs))
    decreases |fs|
  {
    if fs != [] {
      WrittenFrames(SinkWrite(s, Framed(fs[0])), fs[1..]);
      assert (s.bytes + Framed(fs[0])) + Wire(fs[1..]) == s.bytes + (Framed(fs[0]) + Wire(fs[1..]));
    }
  }
}
