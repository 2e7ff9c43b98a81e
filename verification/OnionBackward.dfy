/**
 From the final node back to the client: every relay encrypts what it reads from the next node and frames
 it for the previous one; the client's nested connections take the layers off, the outermost first.
 */
module OnionBackward {
  import opened Bytes
  import opened Framing
  import opened FramingSafety
  import opened FramingWriter
  import opened FramingComplete
  import opened Onion
  import opened OnionForward

  /** A relay's half: the position of its key, and whether its loop ended. */
  datatype BackRelay = BackRelay(pos: nat, stopped: bool)

  /** Pipe 0 is the client's link, read through `client`; pipe `i` leads from relay `i`, or the final node,
      to relay `i - 1`. */
  datatype Down = Down(client: Source, pipes: seq<Pipe>, relays: seq<BackRelay>, sent: seq<byte>, received: seq<byte>,
      ok: bool)

  datatype DownAction =
    | Reply(p: seq<byte>)
    | CopyBack(relay: nat, script: seq<Event>)
    | ReadBack(n: nat, script: seq<Event>)

  /** The client's connection as a reader, over a link that holds `inflight`. */
  function Loaded(src: Source, inflight: seq<byte>, script: seq<Event>): (r: Source)
    ensures Depth(r) == Depth(src)
  {
    match src
    case Link(_, _) => Link(inflight, script)
    case Layered(reader, key, pos, below) => Layered(reader, key, pos, Loaded(below, inflight, script))
  }

  function AtLink(src: Source): seq<byte> {
    match src
    case Link(inflight, _) => inflight
    case Layered(_, _, _, below) => AtLink(below)
  }

  /** One round of copyWithRandomWait: read through the key, write to the framing connection. */
  function CopyDown(key: Keystream, r: BackRelay, src: Source): (o: (BackRelay, Source, seq<byte>))
    ensures Depth(o.1) == Depth(src)
  {
    var (src', got) := SourceRead(src, RELAY_BUFFER);
    match got
    case Fail(_) => (r.(stopped := true), src', [])
    case Data(d) =>
      if d == [] then (r, src', [])
      else
        DefaultsAreBare();
        (BackRelay(r.pos + |d|, false), src', Wire(Send(DEFAULTS, Ctr(key, r.pos, d), |d|).frames))
  }

  ghost predicate DownShape(keys: seq<Key>, s: Down) {
    |s.pipes| == |keys| + 1 && |s.relays| == |keys|
  }

  predicate DownAllowed(keys: seq<Key>, a: DownAction) {
    a.CopyBack? ==> a.relay < |keys|
  }

  function DownStep(keys: seq<Key>, s: Down, a: DownAction): (s': Down)
    requires DownShape(keys, s) && DownAllowed(keys, a)
    ensures DownShape(keys, s')
  {
    match a
    case Reply(p) => s.(pipes := s.pipes[|keys| := Fill(s.pipes[|keys|], p)], sent := s.sent + p)
    case CopyBack(i, script) =>
      if s.relays[i].stopped then s
      else
        var (r, src, out) := CopyDown(keys[i].stream, s.relays[i], Link(s.pipes[i + 1].inflight, script));
        var from := s.pipes[i + 1].(inflight := AtLink(src));
        s.(relays := s.relays[i := r], pipes := s.pipes[i + 1 := from][i := Fill(s.pipes[i], out)])
    case ReadBack(n, script) =>
      if !s.ok then s
      else
        var (client, got) := SourceRead(Loaded(s.client, s.pipes[0].inflight, script), n);
        var s' := s.(client := client, pipes := s.pipes[0 := s.pipes[0].(inflight := AtLink(client))]);
        if got.Fail? then s'.(ok := false) else s'.(received := s.received + got.bytes)
  }

  function DownRun(keys: seq<Key>, start: Down, actions: seq<DownAction>): (s: Down)
    requires DownShape(keys, start) && forall a :: a in actions ==> DownAllowed(keys, a)
    ensures DownShape(keys, s)
  {
    if actions == [] then start
    else DownStep(keys, DownRun(keys, start, actions[..|actions| - 1]), actions[|actions| - 1])
  }

  /** The circuit stands: relays and the client's layers are at the start of their keys, no reader holds
      anything, and nothing is on its way. */
  ghost predicate DownStanding(keys: seq<Key>, s: Down) {
    && DownShape(keys, s)
    && SourceStands(s.client, keys)
    && (forall i :: 0 <= i <= |keys| ==> s.pipes[i] == Pipe([], []))
    && (forall i :: 0 <= i < |keys| ==> s.relays[i].pos == keys[i].from)
    && s.sent == [] && s.received == [] && s.ok
  }

  ghost predicate SourceStands(src: Source, keys: seq<Key>)
    decreases |keys|
  {
    if keys == [] then src.Link?
    else
      var n := |keys| - 1;
      && src.Layered? && src.key == keys[n].stream && src.pos == keys[n].from
      && ReaderOk(src.reader) && src.reader.unread == [] && src.reader.overflow == []
      && SourceStands(src.below, keys[..n])
  }

  // ---------- What every step keeps ----------

  /** A layer without empty frames. */
  ghost predicate FullLayer(key: Key, x: seq<byte>, y: seq<byte>) {
    exists gs :: LayerOf(key, x, y, gs) && NoneEmpty(gs)
  }

  predicate NoneEmpty(gs: seq<seq<byte>>) {
    forall i :: 0 <= i < |gs| ==> gs[i] != []
  }

  lemma FullIsLayer(key: Key, x: seq<byte>, y: seq<byte>)
    ensures FullLayer(key, x, y) ==> Layer(key, x, y)
    ensures FullLayer(key, [], [])
  {
    assert LayerOf(key, [], [], []) && NoneEmpty([]);
  }

  lemma FullLayerGrows(key: Key, x: seq<byte>, y: seq<byte>, more: seq<byte>)
    requires FullLayer(key, x, y) && 0 < |more| <= MAX_PACKET_SIZE
    ensures FullLayer(key, x + Framed(Ctr(key.stream, key.from + |y|, more)), y + more)
  {
    hide Wire, Plain, Framed;
    var gs :| LayerOf(key, x, y, gs) && NoneEmpty(gs);
    var f := Ctr(key.stream, key.from + |y|, more);
    LayerOfGrows(key, x, y, gs, more);
    assert NoneEmpty(gs + [f]);
  }

  /** A relay made whole frames of all it read, encrypted. */
  ghost predicate BackOk(key: Key, r: BackRelay, from: Pipe, to: Pipe) {
    exists read :: BackRead(key, r, from, to, read)
  }

  ghost predicate BackRead(key: Key, r: BackRelay, from: Pipe, to: Pipe, read: seq<byte>) {
    from.given == read + from.inflight && r.pos == key.from + |read| && FullLayer(key, to.given, read)
  }

  ghost predicate RelaysOk(keys: seq<Key>, s: Down)
    requires DownShape(keys, s)
  {
    forall i :: 0 <= i < |keys| ==> BackOk(keys[i], s.relays[i], s.pipes[i + 1], s.pipes[i])
  }

  ghost predicate DownOk(keys: seq<Key>, s: Down) {
    && DownShape(keys, s)
    && s.sent == s.pipes[|keys|].given
    && s.received <= s.sent
    && RelaysOk(keys, s)
    && (s.ok ==> History(Loaded(s.client, s.pipes[0].inflight, []), keys, s.pipes[0].given, s.received))
  }

  /** More arrives on the link. */
  lemma {:induction false} LoadedHistory(src: Source, inflight: seq<byte>, script: seq<Event>, keys: seq<Key>,
                                         fed: seq<byte>, delivered: seq<byte>, more: seq<byte>, script': seq<Event>)
    requires History(Loaded(src, inflight, script), keys, fed, delivered)
    ensures History(Loaded(src, inflight + more, script'), keys, fed + more, delivered)
    decreases Depth(src)
  {
    match src
    case Link(_, _) =>
      assert fed + more == delivered + (inflight + more);
    case Layered(r, key, pos, below) =>
      var k, lower := keys[|keys| - 1], keys[..|keys| - 1];
      var consumed, fs :|
        History(Loaded(below, inflight, script), lower, fed, consumed) &&
          Parsed(DEFAULTS, r, consumed, Enc(k, delivered), fs);
      LoadedHistory(below, inflight, script, lower, fed, consumed, more, script');
  }

  function ScriptOf(src: Source): seq<Event> {
    match src
    case Link(_, script) => script
    case Layered(_, _, _, below) => ScriptOf(below)
  }

  lemma {:induction false} ReloadSame(src: Source)
    ensures Loaded(src, AtLink(src), ScriptOf(src)) == src
    decreases Depth(src)
  {
    if src.Layered? {
      ReloadSame(src.below);
    }
  }

  lemma {:induction false} LoadedAtLink(src: Source, inflight: seq<byte>, script: seq<Event>)
    ensures AtLink(Loaded(src, inflight, script)) == inflight
    decreases Depth(src)
  {
    if src.Layered? {
      LoadedAtLink(src.below, inflight, script);
    }
  }

  /** One layer on the way back: the connection below delivered a prefix of what the relay framed. */
  lemma BackLayer(key: Key, r: BackRelay, from: Pipe, to: Pipe, reader: Reader, consumed: seq<byte>,
      delivered: seq<byte>, fs: seq<seq<byte>>)
    requires BackOk(key, r, from, to) && consumed <= to.given
    requires Parsed(DEFAULTS, reader, consumed, Enc(key, delivered), fs)
    ensures delivered <= from.given
    ensures from.inflight == [] && consumed == to.given && reader.unread == [] && reader.overflow == [] ==>
              delivered == from.given
  {
    hide Parsed, Layer, FullLayer;
    var read :| BackRead(key, r, from, to, read);
    FullIsLayer(key, to.given, read);
    PeeledIsPrefix(key, to.given, read, consumed, reader, delivered, fs);
  }

  lemma Unnested(src: Source, fed: seq<byte>, delivered: seq<byte>, keys: seq<Key>, n: nat)
    returns (consumed: seq<byte>, fs: seq<seq<byte>>)
    requires 0 < n <= |keys| && History(src, keys[..n], fed, delivered)
    ensures src.Layered? && ReaderOk(src.reader) && History(src.below, keys[..n - 1], fed, consumed)
    ensures src.key == keys[n - 1].stream && src.pos == keys[n - 1].from + |delivered|
    ensures Parsed(DEFAULTS, src.reader, consumed, Enc(keys[n - 1], delivered), fs)
  {
    hide Parsed;
    assert keys[..n][..n - 1] == keys[..n - 1];
    consumed, fs :|
      History(src.below, keys[..n - 1], fed, consumed) &&
        Parsed(DEFAULTS, src.reader, consumed, Enc(keys[n - 1], delivered), fs);
  }

  /** Nothing is left in the readers of the nested connection, nor on the link below. */
  predicate Empty(src: Source) {
    match src
    case Link(inflight, _) => inflight == []
    case Layered(r, _, _, below) => r.unread == [] && r.overflow == [] && Empty(below)
  }

  /** What the first `n` layers deliver is a prefix of what pipe `n` was given, and all of it when nothing is
      on its way. */
  lemma {:induction false} BackPrefix(keys: seq<Key>, s: Down, src: Source, n: nat, delivered: seq<byte>)
    requires DownShape(keys, s) && n <= |keys| && RelaysOk(keys, s)
    requires History(src, keys[..n], s.pipes[0].given, delivered)
    ensures delivered <= s.pipes[n].given
    ensures Empty(src) && (forall i :: 0 < i <= n ==> s.pipes[i].inflight == []) ==> delivered == s.pipes[n].given
    decreases n
  {
    hide Parsed, BackOk;
    if n == 0 {
      assert keys[..n] == [];
    } else {
      hide History;
      var key, fed := keys[n - 1], s.pipes[0].given;
      var consumed, fs := Unnested(src, fed, delivered, keys, n);
      BackPrefix(keys, s, src.below, n - 1, consumed);
      BackLayer(key, s.relays[n - 1], s.pipes[n], s.pipes[n - 1], src.reader, consumed, delivered, fs);
    }
  }

  // ---------- Steps ----------

  lemma {:induction false} SendOne(d: seq<byte>)
    requires |d| <= MAX_PACKET_SIZE && SmallFits(DEFAULTS)
    ensures Wire(Send(DEFAULTS, d, |d|).frames) == Framed(d)
  {
    hide Send, Framed;
    BareWriteOneFrame(DEFAULTS, d, |d|);
    assert d[..|d|] == d;
    WireOne(d);
  }

  lemma CopyDownKeeps(key: Key, r: BackRelay, from: Pipe, to: Pipe, script: seq<Event>)
    requires !r.stopped && BackOk(key, r, from, to)
    ensures var (r', src, out) := CopyDown(key.stream, r, Link(from.inflight, script));
            BackOk(key, r', from.(inflight := AtLink(src)), Fill(to, out))
  {
    hide FullLayer, Send, Wire, Ctr, Framed;
    var read :| BackRead(key, r, from, to, read);
    var (src, got) := SourceRead(Link(from.inflight, script), RELAY_BUFFER);
    assert to.given + [] == to.given;
    if !(got.Data? && got.bytes != []) {
      var (r', src', out) := CopyDown(key.stream, r, Link(from.inflight, script));
      assert BackRead(key, r', from.(inflight := AtLink(src')), Fill(to, out), read);
    } else {
      var d := got.bytes;
      DefaultsAreBare();
      SendOne(Ctr(key.stream, r.pos, d));
      FullLayerGrows(key, to.given, read, d);
      assert from.given == (read + d) + AtLink(src);
      assert BackRead(key, BackRelay(r.pos + |d|, false), from.(inflight := AtLink(src)),
               Fill(to, Framed(Ctr(key.stream, r.pos, d))), read + d);
    }
  }

  /** A relay passes on as much as the link hands over and its buffer has room for, and stops only when the link
      fails. */
  lemma {:induction false} BackRelayMovesOn(keys: seq<Key>, s: Down, i: nat, script: seq<Event>)
    requires DownShape(keys, s) && i < |keys| && !s.relays[i].stopped && script != []
    ensures var s' := DownStep(keys, s, CopyBack(i, script));
            var inflight := s.pipes[i + 1].inflight;
            var m := if script[0].Give? then Min(script[0].n, Min(RELAY_BUFFER, |inflight|)) else 0;
            && (s'.relays[i].stopped <==> script[0].Raise?) && s'.relays[i].pos == s.relays[i].pos + m
            && s'.pipes[i + 1].inflight == inflight[m..]
            && s'.pipes[i].given == s.pipes[i].given +
                 if m == 0 then [] else Framed(Ctr(keys[i].stream, s.relays[i].pos, inflight[..m]))
  {
    hide Send, Wire, Ctr, Framed;
    var inflight := s.pipes[i + 1].inflight;
    if script[0].Give? {
      var m := Min(script[0].n, Min(RELAY_BUFFER, |inflight|));
      LinkGives(inflight, script, RELAY_BUFFER);
      if m > 0 {
        DefaultsAreBare();
        SendOne(Ctr(keys[i].stream, s.relays[i].pos, inflight[..m]));
      }
    }
  }

  lemma DownStandingOk(keys: seq<Key>, s: Down)
    requires DownStanding(keys, s)
    ensures DownOk(keys, s)
  {
    hide History, SourceStands, FullLayer;
    SourceHistory(s.client, keys);
    forall i | 0 <= i < |keys| ensures BackOk(keys[i], s.relays[i], s.pipes[i + 1], s.pipes[i]) {
      FullIsLayer(keys[i], [], []);
      assert BackRead(keys[i], s.relays[i], s.pipes[i + 1], s.pipes[i], []);
    }
  }

  lemma {:induction false} SourceHistory(src: Source, keys: seq<Key>)
    requires SourceStands(src, keys)
    ensures History(Loaded(src, [], []), keys, [], [])
    decreases |keys|
  {
    if keys != [] {
      var n := |keys| - 1;
      SourceHistory(src.below, keys[..n]);
      assert [] == [] + src.reader.overflow;
      assert Parsed(DEFAULTS, src.reader, [], Enc(keys[n], []), []);
    }
  }

  lemma ReplyKeeps(keys: seq<Key>, s: Down, p: seq<byte>)
    requires DownOk(keys, s)
    ensures DownOk(keys, DownStep(keys, s, Reply(p)))
  {
    hide History, BackOk;
    var s' := DownStep(keys, s, Reply(p));
    if keys != [] {
      var i := |keys| - 1;
      BackGiven(keys[i], s.relays[i], s.pipes[i + 1], s.pipes[i], p);
    } else if s.ok {
      LoadedHistory(s.client, s.pipes[0].inflight, [], keys, s.pipes[0].given, s.received, p, []);
    }
  }

  lemma BackGiven(key: Key, r: BackRelay, from: Pipe, to: Pipe, p: seq<byte>)
    requires BackOk(key, r, from, to)
    ensures BackOk(key, r, Fill(from, p), to)
  {
    hide FullLayer;
    var read :| BackRead(key, r, from, to, read);
    assert (read + from.inflight) + p == read + (from.inflight + p);
    assert BackRead(key, r, Fill(from, p), to, read);
  }

  lemma BackSame(key: Key, r: BackRelay, from: Pipe, to: Pipe, to': Pipe)
    requires BackOk(key, r, from, to) && to'.given == to.given
    ensures BackOk(key, r, from, to')
  {
    hide FullLayer;
    var read :| BackRead(key, r, from, to, read);
    assert BackRead(key, r, from, to', read);
  }

  lemma CopyBackKeeps(keys: seq<Key>, s: Down, i: nat, script: seq<Event>)
    requires DownOk(keys, s) && i < |keys|
    ensures DownOk(keys, DownStep(keys, s, CopyBack(i, script)))
  {
    hide History, BackOk, CopyDown;
    if !s.relays[i].stopped {
      var s' := DownStep(keys, s, CopyBack(i, script));
      var from, to := s.pipes[i + 1], s.pipes[i];
      var (r, src, out) := CopyDown(keys[i].stream, s.relays[i], Link(from.inflight, script));
      CopyDownKeeps(keys[i], s.relays[i], from, to, script);
      forall j | 0 <= j < |keys| ensures BackOk(keys[j], s'.relays[j], s'.pipes[j + 1], s'.pipes[j]) {
        if j == i + 1 {
          BackSame(keys[j], s.relays[j], s.pipes[j + 1], s.pipes[j], s'.pipes[j]);
        } else if j + 1 == i {
          BackGiven(keys[j], s.relays[j], s.pipes[i], s.pipes[j], out);
        }
      }
      if i == 0 && s.ok {
        LoadedHistory(s.client, s.pipes[0].inflight, [], keys, s.pipes[0].given, s.received, out, []);
      }
    }
  }

  lemma ReadBackKeeps(keys: seq<Key>, s: Down, n: nat, script: seq<Event>)
    requires DownOk(keys, s)
    ensures DownOk(keys, DownStep(keys, s, ReadBack(n, script)))
  {
    hide History, BackOk, SourceRead;
    if s.ok {
      var s' := DownStep(keys, s, ReadBack(n, script));
      var (inflight, fed) := (s.pipes[0].inflight, s.pipes[0].given);
      var before := Loaded(s.client, inflight, script);
      LoadedHistory(s.client, inflight, [], keys, fed, s.received, [], script);
      assert inflight + [] == inflight && fed + [] == fed;
      SourceReadKeeps(before, n, keys, fed, s.received);
      var (client, got) := SourceRead(before, n);
      if keys != [] {
        BackSame(keys[0], s.relays[0], s.pipes[1], s.pipes[0], s'.pipes[0]);
      }
      if got.Data? {
        ReloadSame(client);
        LoadedHistory(client, AtLink(client), ScriptOf(client), keys, fed, s'.received, [], []);
        assert AtLink(client) + [] == AtLink(client);
        assert keys[..|keys|] == keys;
        BackPrefix(keys, s', Loaded(client, AtLink(client), []), |keys|, s'.received);
      }
    }
  }

  lemma {:induction false} DownRunOk(keys: seq<Key>, start: Down, actions: seq<DownAction>)
    requires DownStanding(keys, start) && forall a :: a in actions ==> DownAllowed(keys, a)
    ensures DownOk(keys, DownRun(keys, start, actions))
    decreases |actions|
  {
    hide DownOk, DownStep;
    if actions == [] {
      DownStandingOk(keys, start);
    } else {
      var before, a := actions[..|actions| - 1], actions[|actions| - 1];
      DownRunOk(keys, start, before);
      var s := DownRun(keys, start, before);
      assert a in actions && DownAllowed(keys, a);
      match a
      case Reply(p) => ReplyKeeps(keys, s, p);
      case CopyBack(i, script) => CopyBackKeeps(keys, s, i, script);
      case ReadBack(n, script) => ReadBackKeeps(keys, s, n, script);
    }
  }

  // ---------- The theorem ----------

  /** Nothing is on its way, the client's connections hold nothing, and no read of the client failed. */
  ghost predicate DownDrained(keys: seq<Key>, s: Down)
    requires DownShape(keys, s)
  {
    && s.ok
    && (forall i :: 0 <= i <= |keys| ==> s.pipes[i].inflight == [])
    && Empty(Loaded(s.client, s.pipes[0].inflight, []))
  }

  /** Onion identity, homewards: over every run the client reads a prefix of what the final node wrote,
      whatever fails on the way, and all of it once the circuit is drained. */
  lemma {:induction false} OnionHomewards(keys: seq<Key>, start: Down, actions: seq<DownAction>)
    requires DownStanding(keys, start) && forall a :: a in actions ==> DownAllowed(keys, a)
    ensures var s := DownRun(keys, start, actions);
            && s.received <= s.sent
            && (DownDrained(keys, s) ==> s.received == s.sent)
  {
    hide DownRun, History, BackOk, SourceStands;
    DownRunOk(keys, start, actions);
    var s := DownRun(keys, start, actions);
    if DownDrained(keys, s) {
      assert keys[..|keys|] == keys;
      BackPrefix(keys, s, Loaded(s.client, s.pipes[0].inflight, []), |keys|, s.received);
    }
  }

  // ---------- Which circuits stand ----------

  function DownMoved(keys: seq<Key>, s: Down): (keys': seq<Key>)
    requires DownShape(keys, s)
    ensures |keys'| == |keys|
    ensures forall i :: 0 <= i < |keys| ==> keys'[i] == Key(keys[i].stream, keys[i].from + |s.pipes[i + 1].given|)
  {
    seq(|keys|, i requires 0 <= i < |keys| => Key(keys[i].stream, keys[i].from + |s.pipes[i + 1].given|))
  }

  function DownRecounted(s: Down): Down {
    s.(pipes := seq(|s.pipes|, _ => Pipe([], [])), sent := [], received := [])
  }

  lemma {:induction false} ClientMoved(keys: seq<Key>, s: Down, src: Source, n: nat, delivered: seq<byte>)
    requires DownShape(keys, s) && n <= |keys| && RelaysOk(keys, s)
    requires History(src, keys[..n], s.pipes[0].given, delivered)
    requires Empty(src) && forall i :: 0 < i <= n ==> s.pipes[i].inflight == []
    ensures SourceStands(src, DownMoved(keys, s)[..n])
    decreases n
  {
    hide Parsed, BackOk;
    if n == 0 {
      assert keys[..n] == [];
    } else {
      var consumed, fs := Unnested(src, s.pipes[0].given, delivered, keys, n);
      ClientMoved(keys, s, src.below, n - 1, consumed);
      BackPrefix(keys, s, src, n, delivered);
      assert DownMoved(keys, s)[..n][..n - 1] == DownMoved(keys, s)[..n - 1];
    }
  }

  /** On the way home, too, a circuit that is drained stands again. */
  lemma {:induction false} DownDrainedStands(keys: seq<Key>, start: Down, actions: seq<DownAction>)
    requires DownStanding(keys, start) && DownShape(keys, start) && forall a :: a in actions ==> DownAllowed(keys, a)
    requires DownDrained(keys, DownRun(keys, start, actions))
    ensures DownStanding(DownMoved(keys, DownRun(keys, start, actions)), DownRecounted(DownRun(keys, start, actions)))
  {
    hide DownRun, History, SourceStands, FullLayer;
    DownRunOk(keys, start, actions);
    var s := DownRun(keys, start, actions);
    assert keys[..|keys|] == keys && DownMoved(keys, s)[..|keys|] == DownMoved(keys, s);
    var client := Loaded(s.client, s.pipes[0].inflight, []);
    ClientMoved(keys, s, client, |keys|, s.received);
    LoadedStands(s.client, s.pipes[0].inflight, [], DownMoved(keys, s));
    forall i | 0 <= i < |keys| ensures s.relays[i].pos == DownMoved(keys, s)[i].from {
      assert BackOk(keys[i], s.relays[i], s.pipes[i + 1], s.pipes[i]);
    }
  }

  lemma {:induction false} LoadedStands(src: Source, inflight: seq<byte>, script: seq<Event>, keys: seq<Key>)
    ensures SourceStands(Loaded(src, inflight, script), keys) <==> SourceStands(src, keys)
    decreases |keys|
  {
    if keys != [] && src.Layered? {
      LoadedStands(src.below, inflight, script, keys[..|keys| - 1]);
    }
  }
}
