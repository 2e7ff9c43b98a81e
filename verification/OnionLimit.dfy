/**
 How long a message of the client may be. Every layer but the innermost also carries the headers of the
 layers above it; a message that is too long for a layer is split there, and a split loses four bytes.
 */
module OnionLimit {
  import opened Bytes
  import opened Framing
  import opened FramingSafety
  import opened FramingWriter
  import opened Onion

  /** Taking the layers off `x` one by one yields `p`. */
  ghost predicate Delivers(keys: seq<Key>, x: seq<byte>, p: seq<byte>)
    decreases |keys|
  {
    if keys == [] then x == p else exists y :: Layer(keys[0], x, y) && Delivers(keys[1..], y, p)
  }

  /** What goes out on the link when the client writes `p` to a fresh circuit. */
  function Written(keys: seq<Key>, p: seq<byte>): seq<byte> {
    Bottom(SinkWrite(NestSink(keys), p))
  }

  ghost predicate Passes(keys: seq<Key>, p: seq<byte>) {
    Delivers(keys, Written(keys, p), p)
  }

  predicate WithinLimit(relays: nat, n: nat)
    requires relays > 0
  {
    n + LEN_PACKET_SIZE * (relays - 1) <= MAX_PACKET_SIZE
  }

  // ---------- Within the limit everything passes ----------

  lemma {:induction false} LayersDeliver(keys: seq<Key>, xs: seq<seq<byte>>)
    requires Layers(keys, xs)
    ensures Delivers(keys, xs[0], xs[|keys|])
    decreases |keys|
  {
    hide Layer;
    if keys != [] {
      assert forall i :: 0 <= i < |keys[1..]| ==> keys[1..][i] == keys[i + 1];
      LayersDeliver(keys[1..], xs[1..]);
      assert Layer(keys[0], xs[0], xs[0 + 1]);
    }
  }

  lemma {:induction false} NestIsEmpty(keys: seq<Key>)
    ensures Bottom(NestSink(keys)) == [] && SinkDepth(NestSink(keys)) == |keys|
    decreases |keys|
  {
    if keys != [] {
      NestIsEmpty(keys[..|keys| - 1]);
    }
  }

  lemma WithinPasses(keys: seq<Key>, p: seq<byte>)
    requires keys != [] && WithinLimit(|keys|, |p|)
    ensures Passes(keys, p)
  {
    hide SinkOk, Layer, SinkWrite, Delivers;
    NothingWritten(keys);
    NothingLayered(keys);
    var xs := SinkWriteKeeps(NestSink(keys), keys, Nothing(|keys| + 1), p);
    LayersDeliver(keys, xs);
    NestIsEmpty(keys);
    assert Nothing(|keys| + 1)[|keys|] + p == p;
    assert xs[0] == [] + Written(keys, p)[0..] == Written(keys, p);
  }

  // ---------- What is delivered is determined ----------

  lemma {:induction false} LayerUnique(key: Key, x: seq<byte>, y: seq<byte>, z: seq<byte>)
    requires Layer(key, x, y) && Layer(key, x, z)
    ensures y == z
  {
    hide Wire, Plain;
    var gs :| LayerOf(key, x, y, gs);
    LayerDecodes(key, gs, z);
    CtrInverse(key.stream, key.from, y);
    CtrInverse(key.stream, key.from, z);
  }

  lemma {:induction false} DeliversOne(keys: seq<Key>, x: seq<byte>, p: seq<byte>, q: seq<byte>)
    requires Delivers(keys, x, p) && Delivers(keys, x, q)
    ensures p == q
    decreases |keys|
  {
    hide Layer;
    if keys != [] {
      var y :| Layer(keys[0], x, y) && Delivers(keys[1..], y, p);
      var z :| Layer(keys[0], x, z) && Delivers(keys[1..], z, q);
      LayerUnique(keys[0], x, y, z);
      DeliversOne(keys[1..], y, p, q);
    }
  }

  // ---------- A byte that never leaves ----------

  /** Where the split of a message of `n` bytes, or of the message that a lower layer makes of it, overwrites
      a byte before it is sent. */
  function Hole(n: nat, layers: nat): int
    requires layers > 0 && !WithinLimit(layers, n)
    decreases layers
  {
    if n > MAX_PACKET_SIZE then Leaf(n, MAX_PACKET_SIZE) else Hole(n + LEN_PACKET_SIZE, layers - 1) - LEN_PACKET_SIZE
  }

  /** Behind `j` headers the message is the first to be too long. */
  lemma {:induction false} HoleBehindHeaders(n: nat, layers: nat) returns (j: nat)
    requires layers > 0 && !WithinLimit(layers, n) && n <= MAX_PACKET_SIZE
    ensures 0 < j < layers && MAX_PACKET_SIZE < n + LEN_PACKET_SIZE * j <= MAX_PACKET_SIZE + LEN_PACKET_SIZE
    ensures Hole(n, layers) == (n + LEN_PACKET_SIZE * j) / 2 - LEN_PACKET_SIZE * j
    decreases layers
  {
    if n + LEN_PACKET_SIZE > MAX_PACKET_SIZE {
      j := 1;
      assert Leaf(n + LEN_PACKET_SIZE, MAX_PACKET_SIZE) == Leaf((n + LEN_PACKET_SIZE) / 2, MAX_PACKET_SIZE);
    } else {
      j := HoleBehindHeaders(n + LEN_PACKET_SIZE, layers - 1);
      j := j + 1;
    }
  }

  /** The byte is one of the message when that is at least as long as its headers. */
  lemma {:induction false} HoleInMessage(n: nat, layers: nat)
    requires layers > 0 && !WithinLimit(layers, n) && n >= LEN_PACKET_SIZE * (layers - 1)
    ensures 0 <= Hole(n, layers) < n
  {
    if n <= MAX_PACKET_SIZE {
      var j := HoleBehindHeaders(n, layers);
    }
  }

  ghost predicate DifferAt(a: seq<byte>, b: seq<byte>, at: int) {
    |a| == |b| && forall i :: 0 <= i < |a| && i != at ==> a[i] == b[i]
  }

  lemma SamePrepended(a: seq<byte>, b: seq<byte>, l: nat)
    requires DifferAt(a, b, l) && l + LEN_PACKET_SIZE <= |a|
    ensures a[..l] == b[..l] && Prepended(a, l) == Prepended(b, l)
  {
    assert a[l + LEN_PACKET_SIZE..] == b[l + LEN_PACKET_SIZE..];
  }

  /** Two messages that differ only where the first shift of a split overwrites them are sent alike. */
  lemma {:induction false} SentAlike(a: seq<byte>, b: seq<byte>, n: nat)
    requires MAX_PACKET_SIZE < n <= |a| && DifferAt(a, b, Leaf(n, MAX_PACKET_SIZE))
    ensures SmallFits(DEFAULTS) && Send(DEFAULTS, a, n) == Send(DEFAULTS, b, n)
    decreases n
  {
    hide Send, SendHalves, Leaf, Prepended;
    DefaultsAreBare();
    var half := n / 2;
    LeafOfHalf(n, MAX_PACKET_SIZE);
    assert !Fits(DEFAULTS, a[..n]) && !Fits(DEFAULTS, b[..n]);
    SplitInHalves(DEFAULTS, a, n);
    SplitInHalves(DEFAULTS, b, n);
    if half <= MAX_PACKET_SIZE {
      LeafWithin(half, MAX_PACKET_SIZE);
      BareWriteOneFrame(DEFAULTS, a, half);
      BareWriteOneFrame(DEFAULTS, b, half);
      SamePrepended(a, b, half);
    } else {
      SentAlike(a, b, half);
    }
    SameHalves(a, b, n);
  }

  lemma {:induction false} LeafWithin(n: nat, max: nat)
    requires 0 < max && n <= max
    ensures Leaf(n, max) == n
  {
  }

  lemma {:induction false} SameHalves(a: seq<byte>, b: seq<byte>, n: nat)
    requires 1 < n <= |a| == |b| && SmallFits(DEFAULTS) && Send(DEFAULTS, a, n / 2) == Send(DEFAULTS, b, n / 2)
    ensures SendHalves(DEFAULTS, a, n, n) == SendHalves(DEFAULTS, b, n, n)
  {
    hide Send, SmallFits;
  }

  /** Two messages that differ only in the byte that never leaves make the same bytes go out. */
  lemma {:induction false} WrittenAlike(s: Sink, a: seq<byte>, b: seq<byte>)
    requires s.Wrapped? && !WithinLimit(SinkDepth(s), |a|) && DifferAt(a, b, Hole(|a|, SinkDepth(s)))
    ensures SinkWrite(s, a).below == SinkWrite(s, b).below && SinkWrite(s, a) == SinkWrite(s, b)
    decreases SinkDepth(s)
  {
    hide Send, Framed, SmallFits;
    DefaultsAreBare();
    var ea, eb := Ctr(s.key, s.pos, a), Ctr(s.key, s.pos, b);
    assert DifferAt(ea, eb, Hole(|a|, SinkDepth(s)));
    if |a| > MAX_PACKET_SIZE {
      SentAlike(ea, eb, |a|);
    } else {
      OneFrame(s.below, ea);
      OneFrame(s.below, eb);
      FramedDiffer(ea, eb, Hole(|a|, SinkDepth(s)));
      WrittenAlike(s.below, Framed(ea), Framed(eb));
    }
  }

  lemma FramedDiffer(a: seq<byte>, b: seq<byte>, at: int)
    requires DifferAt(a, b, at)
    ensures DifferAt(Framed(a), Framed(b), at + LEN_PACKET_SIZE) && |Framed(a)| == |a| + LEN_PACKET_SIZE
  {
  }

  /** Beyond the limit some message does not pass, whatever the keys, as long as a message that long is not
      shorter than its headers. */
  lemma TooLongForKeys(keys: seq<Key>, n: nat) returns (p: seq<byte>)
    requires keys != [] && !WithinLimit(|keys|, n) && n >= LEN_PACKET_SIZE * (|keys| - 1)
    ensures |p| == n && !Passes(keys, p)
  {
    hide Delivers, SinkWrite;
    HoleInMessage(n, |keys|);
    NestIsEmpty(keys);
    var at := Hole(n, |keys|);
    var a := OneAt(at, n);
    var b := OneAt(n, n);
    WrittenAlike(NestSink(keys), a, b);
    assert a[at] != b[at];
    p := a;
    if Passes(keys, a) {
      p := b;
      if Passes(keys, b) {
        DeliversOne(keys, Written(keys, a), a, b);
      }
    }
  }

  /** The longest circuit on which no message over the limit is shorter than its headers. */
  const FEW_RELAYS: nat := 1281

  /** The limit is exact for any keys of up to 1281 relays: messages of a length all pass a fresh circuit
      exactly when they leave room for the headers of all but the innermost layer. */
  lemma OnionLimitForKeys(keys: seq<Key>, n: nat)
    requires 0 < |keys| <= FEW_RELAYS
    ensures (forall p: seq<byte> :: |p| == n ==> Passes(keys, p)) <==> WithinLimit(|keys|, n)
  {
    hide Passes;
    if WithinLimit(|keys|, n) {
      forall p: seq<byte> | |p| == n ensures Passes(keys, p) {
        WithinPasses(keys, p);
      }
    } else {
      var p := TooLongForKeys(keys, n);
    }
  }

  // ---------- Any number of relays ----------

  /** What a message makes of itself behind the headers of all layers, one frame each. */
  function Nested(keys: seq<Key>, p: seq<byte>): (x: seq<byte>)
    ensures |x| == |p| + LEN_PACKET_SIZE * |keys|
    decreases |keys|
  {
    if keys == [] then p
    else
      FramedLength(Enc(keys[0], Nested(keys[1..], p)));
      Framed(Enc(keys[0], Nested(keys[1..], p)))
  }

  lemma {:induction false} NestedLast(keys: seq<Key>, p: seq<byte>)
    requires keys != []
    ensures var n := |keys| - 1; Nested(keys, p) == Nested(keys[..n], Framed(Enc(keys[n], p)))
    decreases |keys|
  {
    hide Framed;
    var n := |keys| - 1;
    if n > 0 {
      NestedLast(keys[1..], p);
      assert keys[1..][..n - 1] == keys[..n][1..] && keys[1..][n - 1] == keys[n];
    } else {
      assert keys[1..] == [] && keys[..0] == [];
    }
  }

  /** The writes to the bottom that a write to `s` makes. */
  function Chunks(s: Sink, x: seq<byte>): seq<seq<byte>>
    decreases SinkDepth(s), 0, 0
  {
    match s
    case Out(_) => [x]
    case Wrapped(key, pos, below) =>
      DefaultsAreBare();
      ChunksEach(below, Send(DEFAULTS, Ctr(key, pos, x), |x|).frames)
  }

  function ChunksEach(s: Sink, fs: seq<seq<byte>>): seq<seq<byte>>
    decreases SinkDepth(s), 1, |fs|
  {
    if fs == [] then [] else Chunks(s, Framed(fs[0])) + ChunksEach(SinkWrite(s, Framed(fs[0])), fs[1..])
  }

  /** `s` with one more layer below all of its own. */
  function Over(s: Sink, k: Key, z: seq<byte>): (r: Sink)
    ensures SinkDepth(r) == SinkDepth(s) + 1
  {
    match s
    case Out(bytes) => Wrapped(k.stream, k.from + |bytes|, Out(z))
    case Wrapped(key, pos, below) => Wrapped(key, pos, Over(below, k, z))
  }

  /** What the lowest layer sends for these writes, behind `z`. */
  function Feed(k: Key, done: nat, z: seq<byte>, chunks: seq<seq<byte>>): seq<byte>
    decreases |chunks|
  {
    if chunks == [] then z
    else
      DefaultsAreBare();
      var c := chunks[0];
      Feed(k, done + |c|, z + Wire(Send(DEFAULTS, Ctr(k.stream, k.from + done, c), |c|).frames), chunks[1..])
  }

  lemma {:induction false} FeedAppend(k: Key, done: nat, z: seq<byte>, a: seq<seq<byte>>, b: seq<seq<byte>>)
    ensures Feed(k, done, z, a + b) == Feed(k, done + |Flat(a)|, Feed(k, done, z, a), b)
    decreases |a|
  {
    hide Send, Wire;
    DefaultsAreBare();
    if a == [] {
      assert a + b == b;
    } else {
      assert (a + b)[1..] == a[1..] + b;
      var c := a[0];
      FeedAppend(k, done + |c|, z + Wire(Send(DEFAULTS, Ctr(k.stream, k.from + done, c), |c|).frames), a[1..], b);
    }
  }

  lemma {:induction false} OverNest(k: Key, keys: seq<Key>)
    ensures NestSink([k] + keys) == Over(NestSink(keys), k, [])
    decreases |keys|
  {
    var all := [k] + keys;
    if keys == [] {
      assert all == [k] && all[..0] == [];
      assert NestSink(all[..0]) == Out([]);
    } else {
      OverNest(k, keys[..|keys| - 1]);
      assert all[..|keys|] == [k] + keys[..|keys| - 1];
    }
  }

  /** A write goes through the layer below as the writes to the bottom do. */
  lemma {:induction false} OverWrite(s: Sink, k: Key, z: seq<byte>, x: seq<byte>)
    ensures Bottom(SinkWrite(s, x)) == Bottom(s) + Flat(Chunks(s, x))
    ensures SinkWrite(Over(s, k, z), x) == Over(SinkWrite(s, x), k, Feed(k, |Bottom(s)|, z, Chunks(s, x)))
    decreases SinkDepth(s), 0, 0
  {
    hide Send, Wire, Framed;
    DefaultsAreBare();
    match s
    case Out(bytes) => OverBottom(bytes, k, z, x);
    case Wrapped(key, pos, below) =>
      OverWriteEach(below, k, z, Send(DEFAULTS, Ctr(key, pos, x), |x|).frames);
  }

  lemma {:induction false} OverBottom(bytes: seq<byte>, k: Key, z: seq<byte>, x: seq<byte>)
    ensures Flat([x]) == x
    ensures SinkWrite(Over(Out(bytes), k, z), x) == Over(Out(bytes + x), k, Feed(k, |bytes|, z, [x]))
  {
    hide Send, Wire, Framed, Flat;
    DefaultsAreBare();
    var fs := Send(DEFAULTS, Ctr(k.stream, k.from + |bytes|, x), |x|).frames;
    assert [x][1..] == [] && Feed(k, |bytes| + |x|, z + Wire(fs), []) == z + Wire(fs);
    FlatOne(x);
    WrittenFrames(Out(z), fs);
  }

  lemma {:induction false} OverWriteEach(s: Sink, k: Key, z: seq<byte>, fs: seq<seq<byte>>)
    ensures Bottom(WriteEach(s, fs)) == Bottom(s) + Flat(ChunksEach(s, fs))
    ensures WriteEach(Over(s, k, z), fs) == Over(WriteEach(s, fs), k, Feed(k, |Bottom(s)|, z, ChunksEach(s, fs)))
    decreases SinkDepth(s), 1, |fs|
  {
    hide Framed, Send, Wire, Bottom, Feed, Flat, Over, Chunks, ChunksEach, SinkWrite, WriteEach;
    EachSteps(s, fs);
    EachSteps(Over(s, k, z), fs);
    if fs == [] {
      NothingFed(s, k, z);
    } else {
      var c, s1 := Chunks(s, Framed(fs[0])), SinkWrite(s, Framed(fs[0]));
      OverWrite(s, k, z, Framed(fs[0]));
      var z1 := Feed(k, |Bottom(s)|, z, c);
      OverWriteEach(s1, k, z1, fs[1..]);
      FlatAppend(c, ChunksEach(s1, fs[1..]));
      FeedAppend(k, |Bottom(s)|, z, c, ChunksEach(s1, fs[1..]));
    }
  }

  lemma {:induction false} EachSteps(s: Sink, fs: seq<seq<byte>>)
    ensures fs == [] ==> WriteEach(s, fs) == s && ChunksEach(s, fs) == []
    ensures fs != [] ==>
              var s1 := SinkWrite(s, Framed(fs[0]));
              && WriteEach(s, fs) == WriteEach(s1, fs[1..])
              && ChunksEach(s, fs) == Chunks(s, Framed(fs[0])) + ChunksEach(s1, fs[1..])
  {
    hide Framed, SinkWrite, Chunks;
  }

  lemma {:induction false} NothingFed(s: Sink, k: Key, z: seq<byte>)
    ensures Flat([]) == [] && Feed(k, |Bottom(s)|, z, []) == z
  {
  }

  /** The writes to the bottom of a wrapped connection are frames. */
  lemma {:induction false} ChunksAreFramed(s: Sink, x: seq<byte>)
    requires s.Wrapped?
    ensures forall c :: c in Chunks(s, x) ==> |c| >= LEN_PACKET_SIZE
    decreases SinkDepth(s), 0, 0
  {
    DefaultsAreBare();
    ChunksEachFramed(s.below, Send(DEFAULTS, Ctr(s.key, s.pos, x), |x|).frames);
  }

  lemma {:induction false} ChunksEachFramed(s: Sink, fs: seq<seq<byte>>)
    ensures forall c :: c in ChunksEach(s, fs) ==> |c| >= LEN_PACKET_SIZE
    decreases SinkDepth(s), 1, |fs|
  {
    if fs != [] {
      if s.Wrapped? {
        ChunksAreFramed(s, Framed(fs[0]));
      }
      ChunksEachFramed(SinkWrite(s, Framed(fs[0])), fs[1..]);
    }
  }

  // ---------- A key under which a layer sends zeros ----------

  /** A keystream that starts with `x`. */
  function Pad(x: seq<byte>): Key {
    Key((i: nat) => if i < |x| then x[i] else 0, 0)
  }

  lemma PadZeros(x: seq<byte>, done: nat, c: seq<byte>)
    requires done + |c| <= |x| && x[done..done + |c|] == c
    ensures Zero(Ctr(Pad(x).stream, done, c))
  {
    forall i | 0 <= i < |c| ensures XorByte(c[i], Pad(x).stream(done + i)) == 0 {
      assert c[i] == x[done..done + |c|][i] == x[done + i];
      XorZero(c[i], c[i]);
    }
  }

  /** Under that key the layer sends zeros, which arrive however they are split. */
  lemma {:induction false} FeedZeros(x: seq<byte>, done: nat, z: seq<byte>, chunks: seq<seq<byte>>, fz: seq<seq<byte>>)
    returns (fs: seq<seq<byte>>)
    requires done + |Flat(chunks)| <= |x| && x[done..done + |Flat(chunks)|] == Flat(chunks)
    requires forall c :: c in chunks ==> |c| >= LEN_PACKET_SIZE
    requires z == Wire(fz) && Small(fz, MAX_PACKET_SIZE) && Zero(Plain(DEFAULTS, fz)) && |Plain(DEFAULTS, fz)| == done
    ensures Feed(Pad(x), done, z, chunks) == Wire(fs) && Small(fs, MAX_PACKET_SIZE)
    ensures Zero(Plain(DEFAULTS, fs)) && |Plain(DEFAULTS, fs)| == done + |Flat(chunks)|
    decreases |chunks|
  {
    hide Send, Wire, Plain;
    DefaultsAreBare();
    fs := fz;
    if chunks != [] {
      var c := chunks[0];
      assert Flat(chunks) == c + Flat(chunks[1..]);
      assert x[done..done + |c|] == x[done..done + |Flat(chunks)|][..|c|] == c;
      PadZeros(x, done, c);
      var zeros := Ctr(Pad(x).stream, done, c);
      assert zeros[..|c|] == zeros;
      ZeroWrite(DEFAULTS, zeros, |c|);
      FramesFit(DEFAULTS, zeros, |c|);
      var more := Send(DEFAULTS, zeros, |c|).frames;
      WireAppend(fz, more);
      PlainAppend(DEFAULTS, fz, more);
      assert x[done + |c|..done + |Flat(chunks)|] == x[done..done + |Flat(chunks)|][|c|..];
      fs := FeedZeros(x, done + |c|, z + Wire(more), chunks[1..], fz + more);
    }
  }

  lemma ZerosUnpad(x: seq<byte>, zeros: seq<byte>)
    requires Zero(zeros) && |zeros| == |x|
    ensures Enc(Pad(x), x) == zeros
  {
    assert x[0..0 + |x|] == x;
    PadZeros(x, 0, x);
  }

  /** With the right key another layer below carries exactly what went out without it, also where it splits. */
  lemma {:induction false} TransparentLayer(keys: seq<Key>, p: seq<byte>) returns (k: Key)
    requires keys != []
    ensures Layer(k, Written([k] + keys, p), Written(keys, p))
  {
    hide Wire, Plain, SinkWrite, Chunks, Feed, Flat, Over;
    var x, s := Written(keys, p), NestSink(keys);
    k := Pad(x);
    NestIsEmpty(keys);
    OverNest(k, keys);
    OverWrite(s, k, [], p);
    ChunksAreFramed(s, p);
    var chunks := Chunks(s, p);
    assert x == [] + Flat(chunks) == Flat(chunks) && x[0..0 + |x|] == x;
    NothingZero();
    var fs := FeedZeros(x, 0, [], chunks, []);
    OverOut(SinkWrite(s, p), k, Wire(fs));
    ZerosUnpad(x, Plain(DEFAULTS, fs));
    assert LayerOf(k, Wire(fs), x, fs);
  }

  lemma NothingZero()
    ensures Wire([]) == [] && Plain(DEFAULTS, []) == [] && Zero([]) && Small([], MAX_PACKET_SIZE)
  {
  }

  lemma {:induction false} OverOut(s: Sink, k: Key, z: seq<byte>)
    ensures Bottom(Over(s, k, z)) == z
    decreases SinkDepth(s)
  {
    if s.Wrapped? {
      OverOut(s.below, k, z);
    }
  }

  /** A message passes with the transparent layer exactly when it does without. */
  lemma TransparentPasses(k: Key, keys: seq<Key>, p: seq<byte>)
    requires Layer(k, Written([k] + keys, p), Written(keys, p))
    ensures Passes([k] + keys, p) <==> Passes(keys, p)
  {
    hide Layer, Written;
    var all := [k] + keys;
    assert all[0] == k && all[1..] == keys;
    if Passes(all, p) {
      var y :| Layer(k, Written(all, p), y) && Delivers(keys, y, p);
      LayerUnique(k, Written(all, p), Written(keys, p), y);
    }
  }

  // ---------- A byte altered on the way ----------

  /** `y` is `x` but for the byte at `at`. */
  ghost predicate AlteredAt(x: seq<byte>, y: seq<byte>, at: nat) {
    DifferAt(x, y, at) && at < |x| && x[at] != y[at]
  }

  lemma UnpadAltered(key: Key, x: seq<byte>, c: seq<byte>, at: nat)
    requires AlteredAt(Enc(key, x), c, at)
    ensures AlteredAt(x, Enc(key, c), at)
  {
    CtrInverse(key.stream, key.from, x);
    CtrInverse(key.stream, key.from, c);
  }

  /** A header whose highest byte is not zero announces a frame over the limit. */
  lemma {:induction false} LongHeader(y: seq<byte>, gs: seq<seq<byte>>)
    requires y == Wire(gs) && Small(gs, MAX_PACKET_SIZE) && |y| >= 4
    ensures y[3] == 0
  {
    var n := |gs[0]|;
    assert y[..4] == PutUint32(n);
    assert y[3] == PutUint32(n)[3] == n / 256 / 256 / 256 % 256;
  }

  lemma HeaderByte(c: seq<byte>)
    requires |c| <= MAX_PACKET_SIZE
    ensures Framed(c)[3] == 0
  {
  }

  /** Altering one byte of the message, or the highest byte of one header, keeps it from being delivered. */
  lemma {:induction false} AlteredFails(keys: seq<Key>, p: seq<byte>, y: seq<byte>, at: nat)
    requires AlteredAt(Nested(keys, p), y, at) && |y| <= MAX_PACKET_SIZE + LEN_PACKET_SIZE
    requires at >= LEN_PACKET_SIZE * |keys| || at % LEN_PACKET_SIZE == 3
    ensures !Delivers(keys, y, p)
    decreases |keys|
  {
    hide PutUint32, Wire, Plain, Framed, Enc, Layer;
    if keys != [] && Delivers(keys, y, p) {
      var z :| Layer(keys[0], y, z) && Delivers(keys[1..], z, p);
      if at < LEN_PACKET_SIZE {
        HeaderAltered(keys[0], Enc(keys[0], Nested(keys[1..], p)), y, z);
      } else {
        BodyAltered(keys[0], Nested(keys[1..], p), y, z, at);
        AlteredFails(keys[1..], p, z, at - LEN_PACKET_SIZE);
      }
    }
  }

  lemma HeaderAltered(key: Key, c: seq<byte>, y: seq<byte>, z: seq<byte>)
    requires |c| <= MAX_PACKET_SIZE && AlteredAt(Framed(c), y, 3)
    ensures !Layer(key, y, z)
  {
    hide PutUint32, Wire, Plain, Framed;
    HeaderByte(c);
    if Layer(key, y, z) {
      var gs :| LayerOf(key, y, z, gs);
      LongHeader(y, gs);
    }
  }

  lemma {:induction false} BodyAltered(key: Key, x: seq<byte>, y: seq<byte>, z: seq<byte>, at: nat)
    requires |x| <= MAX_PACKET_SIZE && AlteredAt(Framed(Enc(key, x)), y, at) && at >= LEN_PACKET_SIZE
    requires Layer(key, y, z)
    ensures AlteredAt(x, z, at - LEN_PACKET_SIZE)
  {
    hide PutUint32, Wire, Plain, Framed, Layer;
    var c' := y[LEN_PACKET_SIZE..];
    SameHeader(Enc(key, x), y, at);
    WireOne(c');
    LayerDecodes(key, [c'], z);
    PlainOne(DEFAULTS, c');
    CtrInverse(key.stream, key.from, z);
    UnpadAltered(key, x, c', at - LEN_PACKET_SIZE);
  }

  lemma SameHeader(c: seq<byte>, y: seq<byte>, at: nat)
    requires AlteredAt(Framed(c), y, at) && at >= LEN_PACKET_SIZE
    ensures y == Framed(y[LEN_PACKET_SIZE..]) && AlteredAt(c, y[LEN_PACKET_SIZE..], at - LEN_PACKET_SIZE)
  {
    hide PutUint32, AlteredAt;
    BehindHeader(PutUint32(|c|), c, y, at);
    assert y == y[..LEN_PACKET_SIZE] + y[LEN_PACKET_SIZE..];
  }

  lemma BehindHeader(header: seq<byte>, c: seq<byte>, y: seq<byte>, at: nat)
    requires AlteredAt(header + c, y, at) && at >= |header|
    ensures |y| == |header| + |c| && y[..|header|] == header && AlteredAt(c, y[|header|..], at - |header|)
  {
    var all := header + c;
    assert forall i :: 0 <= i < |c| ==> c[i] == all[|header| + i];
    assert forall i :: 0 <= i < |header| ==> header[i] == all[i] == y[i];
  }

  // ---------- The outermost layer is the first to be too long ----------

  /** While every layer has room, a message is one write to the bottom. */
  lemma {:induction false} OneChunk(keys: seq<Key>, p: seq<byte>)
    requires keys != [] ==> WithinLimit(|keys|, |p|)
    ensures Chunks(NestSink(keys), p) == [Nested(keys, p)]
    decreases |keys|
  {
    hide Framed, Send;
    if keys != [] {
      var n := |keys| - 1;
      var f := Enc(keys[n], p);
      DefaultsAreBare();
      BareWriteOneFrame(DEFAULTS, f, |f|);
      var one := [f];
      assert f[..|f|] == f && one[1..] == [];
      FramedLength(f);
      OneChunk(keys[..n], Framed(f));
      NestedLast(keys, p);
      assert ChunksEach(SinkWrite(NestSink(keys[..n]), Framed(f)), []) == [];
    }
  }

  /** Under this key the layer sends zeros and a single one, at `at`. */
  function PadBut(x: seq<byte>, at: nat): Key {
    Key((i: nat) => if i < |x| then (if i == at then XorByte(x[i], 1) else x[i]) else 0, 0)
  }

  lemma PadButOne(x: seq<byte>, at: nat)
    requires at < |x|
    ensures Enc(PadBut(x, at), x) == OneAt(at, |x|)
    ensures forall zeros: seq<byte> :: Zero(zeros) && |zeros| == |x| ==> AlteredAt(x, Enc(PadBut(x, at), zeros), at)
  {
    forall i | 0 <= i < |x| ensures Enc(PadBut(x, at), x)[i] == OneAt(at, |x|)[i] {
      XorZero(x[i], x[i]);
      XorSymmetric(x[i], Xor(x[i], 1));
      XorInvolution(1, x[i]);
      XorSymmetric(x[i], 1);
    }
    forall zeros: seq<byte> | Zero(zeros) && |zeros| == |x| ensures AlteredAt(x, Enc(PadBut(x, at), zeros), at) {
      forall i | 0 <= i < |x| ensures Enc(PadBut(x, at), zeros)[i] == PadBut(x, at).stream(i) {
        ZeroXor(PadBut(x, at).stream(i));
      }
      XorInvolution(1, x[at]);
      XorZero(x[at], x[at]);
      XorSymmetric(x[at], 1);
    }
  }

  /** When the outermost layer is the first to be too long, a key of that layer alters a byte of the message
      or the highest byte of a header. */
  lemma {:induction false} OutermostFails(keys: seq<Key>, p: seq<byte>) returns (k: Key)
    requires keys != [] && WithinLimit(|keys|, |p|) && !WithinLimit(|keys| + 1, |p|)
    ensures !Passes([k] + keys, p)
  {
    hide Nested, Delivers, Wire, Plain, Send, Written, Enc;
    var x := Nested(keys, p);
    var at := AlteredPlace(|x|, LEN_PACKET_SIZE * |keys|);
    k := PadBut(x, at);
    var fs := SentAsZeros(at, |x|);
    PadButOne(x, at);
    WrittenBelow(k, keys, p, fs);
    AlteredNotPassed(k, keys, p, x, fs, at);
  }

  lemma AlteredPlace(n: nat, headers: nat) returns (at: nat)
    requires n > LEN_PACKET_SIZE
    ensures n / 2 <= at < n / 2 + LEN_PACKET_SIZE && (at >= headers || at % LEN_PACKET_SIZE == 3)
  {
    at := if n / 2 >= headers then n / 2 else LEN_PACKET_SIZE * (n / 2 / LEN_PACKET_SIZE) + 3;
  }

  /** Below a message that passes all other layers as one write the new layer sends its frames. */
  lemma {:induction false} WrittenBelow(k: Key, keys: seq<Key>, p: seq<byte>, fs: seq<seq<byte>>)
    requires keys != [] && WithinLimit(|keys|, |p|) && SmallFits(DEFAULTS) && k.from == 0
    requires var x := Nested(keys, p); fs == Send(DEFAULTS, Enc(k, x), |x|).frames
    ensures Written([k] + keys, p) == Wire(fs)
  {
    hide Wire, Plain, SinkWrite, Chunks, Feed, Over, Nested, Send;
    NestIsEmpty(keys);
    OverNest(k, keys);
    OverWrite(NestSink(keys), k, [], p);
    OneChunk(keys, p);
    OneFed(k, Nested(keys, p), fs);
    OverOut(SinkWrite(NestSink(keys), p), k, Wire(fs));
  }

  lemma {:induction false} SentAsZeros(at: nat, n: nat) returns (fs: seq<seq<byte>>)
    requires MAX_PACKET_SIZE < n && n / 2 <= at < n / 2 + LEN_PACKET_SIZE
    ensures SmallFits(DEFAULTS) && fs == Send(DEFAULTS, OneAt(at, n), n).frames
    ensures Small(fs, MAX_PACKET_SIZE) && Zero(Plain(DEFAULTS, fs)) && |Plain(DEFAULTS, fs)| == n
  {
    hide Plain, Send, SendHalves;
    DefaultsAreBare();
    var mem := OneAt(at, n);
    fs := Send(DEFAULTS, mem, n).frames;
    assert !Fits(DEFAULTS, mem[..n]);
    SplitInHalves(DEFAULTS, mem, n);
    HalvesOfZeros(DEFAULTS, mem, n);
    FramesFit(DEFAULTS, mem, n);
  }

  lemma {:induction false} OneFed(k: Key, x: seq<byte>, fs: seq<seq<byte>>)
    requires SmallFits(DEFAULTS) && k.from == 0 && fs == Send(DEFAULTS, Enc(k, x), |x|).frames
    ensures Feed(k, 0, [], [x]) == Wire(fs)
  {
    hide Send, Wire;
    assert [x][1..] == [] && [] + Wire(fs) == Wire(fs);
    assert Feed(k, |x|, Wire(fs), []) == Wire(fs);
  }

  lemma {:induction false} AlteredNotPassed(k: Key, keys: seq<Key>, p: seq<byte>, x: seq<byte>, fs: seq<seq<byte>>,
      at: nat)
    requires x == Nested(keys, p) && at < |x| && k == PadBut(x, at) && |x| <= MAX_PACKET_SIZE + LEN_PACKET_SIZE
    requires at >= LEN_PACKET_SIZE * |keys| || at % LEN_PACKET_SIZE == 3
    requires Small(fs, MAX_PACKET_SIZE) && Zero(Plain(DEFAULTS, fs)) && |Plain(DEFAULTS, fs)| == |x|
    ensures !Delivers([k] + keys, Wire(fs), p)
  {
    hide Wire, Plain, Nested;
    var all := [k] + keys;
    assert all[0] == k && all[1..] == keys;
    if Delivers(all, Wire(fs), p) {
      var y :| Layer(k, Wire(fs), y) && Delivers(keys, y, p);
      LayerDecodes(k, fs, y);
      CtrInverse(k.stream, k.from, y);
      PadButOne(x, at);
      AlteredFails(keys, p, y, at);
    }
  }

  // ---------- The limit ----------

  /** Beyond the limit some message does not pass under some keys. */
  lemma {:induction false} FailingKeys(relays: nat, n: nat) returns (keys: seq<Key>, p: seq<byte>)
    requires relays > 0 && !WithinLimit(relays, n)
    ensures |keys| == relays && |p| == n && !Passes(keys, p)
    decreases relays
  {
    hide Passes;
    var plain := Pad([]);
    if relays <= FEW_RELAYS {
      keys := seq(relays, _ => plain);
      p := TooLongForKeys(keys, n);
    } else if !WithinLimit(relays - 1, n) {
      var upper;
      upper, p := FailingKeys(relays - 1, n);
      var k := TransparentLayer(upper, p);
      TransparentPasses(k, upper, p);
      keys := [k] + upper;
    } else {
      var upper := seq(relays - 1, _ => plain);
      p := OneAt(n, n);
      var k := OutermostFails(upper, p);
      keys := [k] + upper;
    }
  }

  /** The exact limit for any number of relays: messages of a length all pass a fresh circuit under all keys
      exactly when they leave room for the headers of all but the innermost layer. */
  lemma OnionLimit(relays: nat, n: nat)
    requires relays > 0
    ensures (forall keys: seq<Key>, p: seq<byte> :: |keys| == relays && |p| == n ==> Passes(keys, p)) <==>
              WithinLimit(relays, n)
  {
    hide Passes;
    if WithinLimit(relays, n) {
      forall keys: seq<Key>, p: seq<byte> | |keys| == relays && |p| == n ensures Passes(keys, p) {
        WithinPasses(keys, p);
      }
    } else {
      var keys, p := FailingKeys(relays, n);
    }
  }

  /** Beyond 1281 relays the limit is not exact for all keys: with 2562 relays the empty message is over it,
      and there are keys under which it passes. */
  lemma ManyHeadersMayPass() returns (keys: seq<Key>)
    ensures |keys| == 2562 && !WithinLimit(|keys|, 0) && Passes(keys, [])
  {
    hide Passes;
    var plain := Pad([]);
    var upper := seq(2561, _ => plain);
    WithinPasses(upper, []);
    var k := TransparentLayer(upper, []);
    TransparentPasses(k, upper, []);
    keys := [k] + upper;
  }
}
