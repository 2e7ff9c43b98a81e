/**
 SetValue and GetValue in a network of peers that all run the service: what a node is answered, what a
 successful SetValue leaves behind, and that a later GetValue finds it.
 */
module Network {
  import opened Wrappers
  import opened Bytes
  import opened Ids
  import opened Buckets
  import opened DhtPeer
  import opened GetSearch
  import opened GetService
  import SearchNodes
  import Greedy
  import SetSearch
  import SetBlame
  import opened SetStores

  /** The peers by identifier, those of them that can be reached, and whether connections tell who is at
      the other end. */
  datatype Network = Network(peers: map<Id, PeerState>, reachable: set<Id>, authenticated: bool)

  ghost predicate Named(net: Network) {
    forall id :: id in net.peers ==> net.peers[id].id == id
  }

  /** The identifier that the peer store of `self` was made for. */
  function OwnStoreID(net: Network, self: Peer): Id {
    if self.id in net.peers then net.peers[self.id].storeID else self.id
  }

  /** What `self` learns from contacting one peer. */
  function AskOne(net: Network, self: Peer, key: Id, k: nat, id: Id): Answer {
    if id !in net.peers || id !in net.reachable then SearchOne(OwnStoreID(net, self), Err(UnableToReach))
    else
      var res := Serve(net.peers[id], if net.authenticated then Some(self) else None, Request(key, k)).0;
      SearchOne(OwnStoreID(net, self), Judge(if net.authenticated then Some(id) else None, Transferred(res)))
  }

  /** The network as a search meets it while nothing in it changes. */
  function Ask(net: Network, self: Peer, key: Id, k: nat): Oracle {
    (id: Id) => AskOne(net, self, key, k, id)
  }

  lemma AskIsOne(net: Network, self: Peer, key: Id, k: nat, id: Id)
    ensures Ask(net, self, key, k)(id) == AskOne(net, self, key, k, id)
  {
  }

  // ---------- What a search may rely on ----------

  /** Identifiers of another length never get past searchOnePeer. */
  lemma AskWellSized(net: Network, self: Peer, key: Id, k: nat)
    ensures WellSized(Ask(net, self, key, k), |OwnStoreID(net, self)|)
    ensures self.id in net.peers ==> WellSized(Ask(net, self, key, k), |net.peers[self.id].storeID|)
  {
    hide AddAll, Serve, Transferred, Judge;
  }

  lemma HandleTruthful(p: PeerState, req: Request)
    requires Handle(p, req).Ok?
    ensures SetSearch.TrueNears(Handle(p, req).value.closest, req.key)
  {
    hide ClosestPeers, Peers, History, Greedy.HoldsClosest, Greedy.PlaceAll, Distance;
    if req.key !in p.data {
      HandleNames(p, req);
      ClosestPeersOfStore(p.storeID, p.storeSize, p.ops, req.key, req.k);
    }
  }

  /** No error text that a peer sends is one the asking side expects: the text of an internal error carries
      its cause, and is compared as a whole. */
  lemma SentErrorsUnexpected(e: RequestError)
    ensures ConvertToError(ErrorText(e)).Some? && !IsExpected(ConvertToError(ErrorText(e)).value)
    ensures ConvertToError(DIFFERENT_LENGTH).Some? && !IsExpected(ConvertToError(DIFFERENT_LENGTH).value)
    ensures ConvertToError("") == None
  {
    if e.Internal? {
      assert ErrorText(e)[2] == 't' && INVALID_RESPONSE[2] == 'v';
      assert |ErrorText(e)| >= |INTERNAL_ERROR| + 2;
    }
    assert DIFFERENT_LENGTH[0] == 'd' && INVALID_RESPONSE[0] == 'i' && INVALID_REQUEST[0] == 'i' &&
             INTERNAL_ERROR[0] == 'i';
  }

  /** Which texts the asking side expects. */
  lemma ExpectedTexts(s: string)
    ensures ConvertToError(s).Some? && IsExpected(ConvertToError(s).value) <==>
              s == INVALID_RESPONSE || s == INTERNAL_ERROR
    ensures ConvertToError(s) == None <==> s == ""
    ensures ConvertToError(s) == Some(InvalidRequestError) <==> s == INVALID_REQUEST
    ensures ConvertToError(s) == Some(InvalidResponseError) <==> s == INVALID_RESPONSE
    ensures ConvertToError(s) == Some(InternalServerError) <==> s == INTERNAL_ERROR
  {
    assert INVALID_REQUEST != INVALID_RESPONSE && INVALID_REQUEST != INTERNAL_ERROR by {
      assert INVALID_REQUEST[2] == 'v' && INVALID_REQUEST[8] == 'r' && INVALID_RESPONSE[10] == 's' &&
               INVALID_REQUEST[10] == 'q';
      assert INTERNAL_ERROR[2] == 't';
    }
  }

  /** The peer answers with an error: it has another length of identifiers than the key, or its store has
      than the key or than the requester. */
  predicate Refuses(net: Network, self: Peer, key: Id, id: Id)
    requires id in net.peers
  {
    var p := net.peers[id];
    || |key| != |p.id|
    || (key !in p.data && |key| != |p.storeID|)
    || (net.authenticated && |self.id| != |p.storeID|)
  }

  /** What one contact comes to. An error that the peer sends is expected exactly on connections that tell
      who is at the other end, where the empty identifier in the response gives it away. */
  lemma AskIs(net: Network, self: Peer, key: Id, k: nat, id: Id)
    requires Named(net)
    ensures AskOne(net, self, key, k, id)
         == if id !in net.peers || id !in net.reachable then Expected
            else if Refuses(net, self, key, id) then (if net.authenticated && id != [] then Expected else Fatal)
            else
              var res := Handle(net.peers[id], Request(key, k)).value;
              if res.value.Some? && res.value != Some([]) then Found(res.value.value)
              else if forall i :: 0 <= i < |res.closest| ==>
                        |res.closest[i].peer.id| == |OwnStoreID(net, self)| then Closest(res.closest)
              else Fatal
  {
    hide Handle, AddAll, ConvertToError, ErrorText, EmptyStore;
    if id in net.peers && id in net.reachable {
      var p := net.peers[id];
      HandleNames(p, Request(key, k));
      AddRefuses(p, self);
      match Handle(p, Request(key, k))
      case Err(e) => SentErrorsUnexpected(e);
      case Ok(res) => SentErrorsUnexpected(InvalidRequest);
    }
  }

  lemma HandleNames(p: PeerState, req: Request)
    ensures Handle(p, req).Ok? ==> Handle(p, req).value.contacted.id == p.id && Handle(p, req).value.err == ""
    ensures Handle(p, req).Ok? ==> Handle(p, req).value.value == if req.key in p.data then
              Some(p.data[req.key]) else None
    ensures Handle(p, req).Err? <==> |req.key| != |p.id| || (req.key !in p.data && |req.key| != |p.storeID|)
  {
    hide Distance, Peers, History, KeepAll;
    StorePeersSized(p.storeID, p.storeSize, p.ops);
  }

  lemma AddRefuses(p: PeerState, q: Peer)
    ensures AddPeer(p.storeID, History(p.storeID, p.storeSize, p.ops), q).1 == Some(DifferentLength) <==>
              |p.storeID| != |q.id|
  {
    hide History;
  }

  /** What a peer that answers with peers names: those of its store that the greedy list of `k` slots keeps. */
  lemma AskNames(net: Network, self: Peer, key: Id, k: nat, id: Id)
    requires Named(net) && AskOne(net, self, key, k, id).Closest?
    ensures id in net.peers && |key| == |net.peers[id].id|
    ensures var p := net.peers[id];
            && (key in p.data ==> AskOne(net, self, key, k, id).nodes == [] && p.data[key] == [])
            && (key !in p.data ==>
                  |key| == |p.storeID| && NamesClosest(p, key, k, AskOne(net, self, key, k, id).nodes))
  {
    hide Handle, AskOne, NamesClosest, Refuses;
    AskIs(net, self, key, k, id);
    assert !Refuses(net, self, key, id);
    RefusesIs(net, self, key, id);
    HandleIs(net.peers[id], Request(key, k));
    HandleNames(net.peers[id], Request(key, k));
  }

  lemma RefusesIs(net: Network, self: Peer, key: Id, id: Id)
    requires id in net.peers
    ensures var p := net.peers[id];
            !Refuses(net, self, key, id) ==> |key| == |p.id| && (key in p.data || |key| == |p.storeID|)
  {
  }

  /** Every peer that runs the service reports true distances. */
  lemma AskTruthful(net: Network, self: Peer, key: Id, k: nat)
    requires Named(net)
    ensures SetSearch.Truthful(Ask(net, self, key, k), key)
  {
    hide Handle, SetSearch.TrueNears, AskOne;
    forall id | AskOne(net, self, key, k,
             id).Closest? ensures SetSearch.TrueNears(AskOne(net, self, key, k, id).nodes, key) {
      AskIs(net, self, key, k, id);
      HandleNames(net.peers[id], Request(key, k));
      HandleTruthful(net.peers[id], Request(key, k));
    }
  }

  // ---------- SetValue ----------

  /** One call of SetValue: who makes it and where, its parameters, how its two groups of workers interleave,
      and what became of the store requests. */
  datatype SetCall = SetCall(
    net: Network,
    self: Peer,
    key: Id,
    value: seq<byte>,
    maxStores: nat,
    minStores: int,
    returnedGet: nat,
    returnedSet: nat,
    numWorkers: nat,
    search: seq<nat>,
    storing: seq<StoreEvent>)

  datatype SetOutcome = Stored | AlreadySet | SearchFailed | TooFewFound | RemovalFailed | TooFewStored

  function TablesOf(net: Network): Tables {
    map id | id in net.peers :: net.peers[id].data
  }

  /** What the node finds in its own tables first. An empty value is nil in the table already: it came over
      a connection. */
  function SelfSearch(net: Network, self: Peer, key: Id, k: nat): Result<Response, RequestError>
    requires self.id in net.peers
  {
    match Handle(net.peers[self.id], Request(key, k))
    case Err(e) => Err(e)
    case Ok(res) => Ok(Transferred(res))
  }

  lemma SelfSearchIs(net: Network, self: Peer, key: Id, k: nat)
    requires self.id in net.peers
    ensures var p, r := net.peers[self.id], SelfSearch(net, self, key, k);
            && (r.Err? <==> |key| != |p.id| || (key !in p.data && |key| != |p.storeID|))
            && (r.Ok? ==>
                  && (r.value.value == if key in p.data && p.data[key] != [] then Some(p.data[key]) else None)
                  && (if key in p.data then r.value.closest == []
                      else |key| == |p.storeID| && NamesClosest(p, key, k, r.value.closest))
                  && SetSearch.TrueNears(r.value.closest, key))
  {
    hide Handle, SetSearch.TrueNears, NamesClosest;
    HandleNames(net.peers[self.id], Request(key, k));
    HandleIs(net.peers[self.id], Request(key, k));
    if Handle(net.peers[self.id], Request(key, k)).Ok? {
      HandleTruthful(net.peers[self.id], Request(key, k));
    }
  }

  function SelfNear(self: Peer, key: Id): Near
    requires |self.id| == |key|
  {
    Near(self, Distance(self.id, key))
  }

  function Searched(c: SetCall, own: seq<Near>): SetSearch.SetState
    requires c.maxStores > 0 && |c.self.id| == |c.key|
  {
    SetSearch.SetExec(Ask(c.net, c.self, c.key, c.returnedSet),
                      SetSearch.SetStart(SelfNear(c.self, c.key), own, c.maxStores, c.numWorkers), c.search)
  }

  function PeersOf(ns: seq<SearchNodes.Node>): (r: seq<Peer>)
    ensures |r| == |ns| && forall i :: 0 <= i < |ns| ==> r[i] == ns[i].peer
  {
    seq(|ns|, i requires 0 <= i < |ns| => ns[i].peer)
  }

  function Kept(c: SetCall, results: seq<SearchNodes.Node>): StoreState {
    StoreRun(StoreStart(PeersOf(results), c.numWorkers, TablesOf(c.net)), c.storing, c.key, c.value)
  }

  /** Whether the peers that the search blames can be removed from the node's own store: what that holds by then
      does not matter. */
  function CanRemove(c: SetCall, blamed: seq<Peer>): bool
    requires c.self.id in c.net.peers
  {
    var own := c.net.peers[c.self.id];
    RemoveAll(own.storeID, History(own.storeID, own.storeSize, own.ops), blamed).1 == None
  }

  /** SetValue, and the tables of all peers afterwards. */
  function SetValue(c: SetCall): (SetOutcome, Tables)
    requires c.self.id in c.net.peers
  {
    if |c.self.id| != |c.key| || c.maxStores == 0 then (SearchFailed, TablesOf(c.net))
    else match SelfSearch(c.net, c.self, c.key, c.returnedGet)
      case Err(_) => (SearchFailed, TablesOf(c.net))
      case Ok(res) =>
        if res.value.Some? then (AlreadySet, TablesOf(c.net))
        else
          var s := Searched(c, res.closest);
          var results := SetSearch.Storers(s.slots);
          if |results| < c.minStores then (TooFewFound, TablesOf(c.net))
          else if !CanRemove(c, s.blamed) then (RemovalFailed, TablesOf(c.net))
          else
            var kept := Kept(c, results);
            (if |results| - |kept.failed| < c.minStores then TooFewStored else Stored, kept.tables)
  }

  /** The search of SetValue does not run exactly when identifiers and key differ in length, there are to be no
      storers, or the node's own lookup fails. */
  lemma SearchFailsIff(c: SetCall)
    requires c.self.id in c.net.peers && Named(c.net)
    ensures var p := c.net.peers[c.self.id];
            SetValue(c).0 == SearchFailed <==>
              || |c.self.id| != |c.key| || c.maxStores == 0 || (c.key !in p.data && |c.key| != |p.storeID|)
  {
    hide SetSearch.SetExec, SelfSearch, Distance;
    SelfSearchIs(c.net, c.self, c.key, c.returnedGet);
  }

  lemma OwnOffered(s: SetSearch.SetState, self: Near, own: seq<Near>)
    ensures SetSearch.AllOffered(s, [self] + own) ==> SetSearch.AllOffered(s, own)
  {
    assert forall k :: 0 <= k < |own| ==> ([self] + own)[k + 1] == own[k];
  }

  /** What the storer search is offered: the distances of the peers that the node's own store names, at most
      `returnedGet`, and of those that the contacted peers' stores name, at most `returnedSet`. */
  lemma SearchIsOffered(c: SetCall, p: Peer)
    requires c.self.id in c.net.peers && Named(c.net) && c.maxStores > 0 && |c.self.id| == |c.key|
    requires SelfSearch(c.net, c.self, c.key, c.returnedGet).Ok? && c.key !in c.net.peers[c.self.id].data
    ensures var self := c.net.peers[c.self.id];
            var own := SelfSearch(c.net, c.self, c.key, c.returnedGet).value.closest;
            var s := Searched(c, own);
            && |c.key| == |self.storeID| && NamesClosest(self, c.key, c.returnedGet, own)
            && SetSearch.AllOffered(s, own)
            && (SetSearch.SetFinished(s) && p in s.asked && Ask(c.net, c.self, c.key, c.returnedSet)(p.id).Closest? ==>
                  var ns := Ask(c.net, c.self, c.key, c.returnedSet)(p.id).nodes;
                  && SetSearch.AllOffered(s, ns) && p.id in c.net.peers
                  && (c.key !in c.net.peers[p.id].data ==>
                        |c.key| == |c.net.peers[p.id].storeID| && NamesClosest(c.net.peers[p.id], c.key,
                                                                               c.returnedSet, ns)))
  {
    hide SetSearch.SetExec, SetSearch.SetStart, SelfSearch, Distance, AskOne, Ask, NamesClosest, SetSearch.TrueNears,
         SetSearch.AllOffered;
    SelfSearchIs(c.net, c.self, c.key, c.returnedGet);
    var own := SelfSearch(c.net, c.self, c.key, c.returnedGet).value.closest;
    var oracle, self := Ask(c.net, c.self, c.key, c.returnedSet), SelfNear(c.self, c.key);
    SetSearch.EveryAnswerOffered(oracle, self, own, c.maxStores, c.numWorkers, c.search);
    var s := Searched(c, own);
    OwnOffered(s, self, own);
    if SetSearch.SetFinished(s) && p in s.asked && oracle(p.id).Closest? {
      assert SetSearch.Accounted(oracle, s, p);
      AskNames(c.net, c.self, c.key, c.returnedSet, p.id) by { AskIsOne(c.net, c.self, c.key, c.returnedSet, p.id); }
      AskIsOne(c.net, c.self, c.key, c.returnedSet, p.id);
    }
  }

  /** SetValue reports a value that is already set exactly when the node itself has one: what the peers it
      contacts have does not matter. */
  lemma AlreadySetIff(c: SetCall)
    requires c.self.id in c.net.peers && Named(c.net)
    ensures SetValue(c).0 == AlreadySet <==>
            c.maxStores > 0 && |c.self.id| == |c.key| && c.key in c.net.peers[c.self.id].data &&
              c.net.peers[c.self.id].data[c.key] != []
  {
    hide SetSearch.SetExec, SelfSearch, Distance;
    SelfSearchIs(c.net, c.self, c.key, c.returnedGet);
  }

  /** The call returned: its workers have stopped. */
  ghost predicate Returned(c: SetCall)
    requires c.self.id in c.net.peers && SetValue(c).0 == Stored
  {
    var s := Searched(c, SelfSearch(c.net, c.self, c.key, c.returnedGet).value.closest);
    SetSearch.SetFinished(s) && StoreFinished(Kept(c, SetSearch.Storers(s.slots)))
  }

  /** `holders` are different peers, and each has the value under the key. */
  ghost predicate Hold(tables: Tables, holders: seq<Peer>, key: Id, value: seq<byte>) {
    && (forall i :: 0 <= i < |holders| ==>
          holders[i].id in tables && key in tables[holders[i].id] && tables[holders[i].id][key] == value)
    && AllDiffer(holders)
  }

  lemma {:induction false} DifferentIsOnce(ps: seq<Peer>, p: Peer)
    requires AllDiffer(ps)
    ensures multiset(ps)[p] <= 1
    decreases |ps|
  {
    if ps != [] {
      var front, last := ps[..|ps| - 1], ps[|ps| - 1];
      assert ps == front + [last];
      DifferentIsOnce(front, p);
      assert forall i :: 0 <= i < |front| ==> front[i].id != last.id;
      assert last !in multiset(front);
    }
  }

  lemma SameIdSame(ps: seq<Peer>, p: Peer, q: Peer)
    requires AllDiffer(ps) && p in ps && q in ps && p.id == q.id
    ensures p == q
  {
    var a :| 0 <= a < |ps| && ps[a] == p;
    var b :| 0 <= b < |ps| && ps[b] == q;
  }

  lemma Repeated(ps: seq<Peer>, i: nat, j: nat)
    requires i < j < |ps| && ps[i] == ps[j]
    ensures multiset(ps)[ps[i]] >= 2
  {
    assert ps == ps[..j] + [ps[j]] + ps[j + 1..];
    assert ps[..j][i] in multiset(ps[..j]);
  }

  lemma PartOfDifferent(ps: seq<Peer>, part: seq<Peer>, rest: seq<Peer>)
    requires AllDiffer(ps)
    requires multiset(ps) == multiset(part) + multiset(rest)
    ensures AllDiffer(part)
  {
    forall i, j | 0 <= i < j < |part| ensures part[i].id != part[j].id {
      if part[i].id == part[j].id {
        assert part[i] in multiset(ps) && part[j] in multiset(ps);
        SameIdSame(ps, part[i], part[j]);
        DifferentIsOnce(ps, part[i]);
        Repeated(part, i, j);
      }
    }
  }

  /** A SetValue that returns no error leaves the value with at least the minimum number of peers, all
      different, each of which acknowledged it. */
  lemma SetValueStores(c: SetCall) returns (holders: seq<Peer>)
    requires Named(c.net) && c.self.id in c.net.peers
    requires SetValue(c).0 == Stored && Returned(c)
    ensures holders == Acknowledgers(c) && |holders| >= c.minStores
    ensures Hold(SetValue(c).1, holders, c.key, c.value)
  {
    hide SetSearch.SetFinished, SetSearch.SetExec, Handle, StoreFinished, StoreRun;
    var own := SelfSearch(c.net, c.self, c.key, c.returnedGet).value.closest;
    var s := Searched(c, own);
    var results := SetSearch.Storers(s.slots);
    var kept := Kept(c, results);
    ResultsDifferent(c, own);
    EveryNodeAnswered(PeersOf(results), c.numWorkers, TablesOf(c.net), c.storing, c.key, c.value);
    StoreRunConserves(PeersOf(results), c.numWorkers, TablesOf(c.net), c.storing, c.key, c.value);
    PartOfDifferent(PeersOf(results), kept.acked, kept.failed);
    holders := kept.acked;
  }

  /** Once its search ran, SetValue succeeds exactly when the blamed peers can be removed and enough peers
      acknowledged; and before that enough storers are found, and the blamed removed, nothing is stored. */
  lemma StoredIffAcknowledged(c: SetCall)
    requires Named(c.net) && c.self.id in c.net.peers && c.maxStores > 0 && |c.self.id| == |c.key|
    requires SelfSearch(c.net, c.self, c.key, c.returnedGet).Ok? &&
               SelfSearch(c.net, c.self, c.key, c.returnedGet).value.value == None
    requires var s := Searched(c, SelfSearch(c.net, c.self, c.key, c.returnedGet).value.closest);
             StoreFinished(Kept(c, SetSearch.Storers(s.slots)))
    ensures var s := Searched(c, SelfSearch(c.net, c.self, c.key, c.returnedGet).value.closest);
            var results := SetSearch.Storers(s.slots);
            var removed := |c.net.peers[c.self.id].storeID| == |c.key| || s.blamed == [];
            var (outcome, tables) := SetValue(c);
            && (outcome == Stored <==> removed && |Kept(c, results).acked| >= c.minStores)
            && (outcome == TooFewFound <==> |results| < c.minStores)
            && (outcome == RemovalFailed <==> |results| >= c.minStores && !removed)
            && (outcome == TooFewFound || outcome == RemovalFailed ==> tables == TablesOf(c.net))
  {
    hide SetSearch.SetExec, SelfSearch, StoreFinished, StoreRun, RemoveAll, History, CanRemove;
    var results := SetSearch.Storers(Searched(c, SelfSearch(c.net, c.self, c.key, c.returnedGet).value.closest).slots);
    EveryNodeAnswered(PeersOf(results), c.numWorkers, TablesOf(c.net), c.storing, c.key, c.value);
    RemovalSucceeds(c);
  }

  lemma ResultsDifferent(c: SetCall, own: seq<Near>)
    requires Named(c.net) && c.self.id in c.net.peers && c.maxStores > 0 && |c.self.id| == |c.key|
    requires SelfSearch(c.net, c.self, c.key, c.returnedGet).Ok?
    requires own == SelfSearch(c.net, c.self, c.key, c.returnedGet).value.closest
    ensures AllDiffer(PeersOf(SetSearch.Storers(Searched(c, own).slots)))
  {
    hide SetSearch.SetExec, Handle, SetSearch.Truthful, Ask, Distance, Greedy.LeastEnds, Greedy.Ascending;
    SelfSearchIs(c.net, c.self, c.key, c.returnedGet);
    AskTruthful(c.net, c.self, c.key, c.returnedSet);
    var self := SelfNear(c.self, c.key);
    var l := SetSearch.CandidateListExact(Ask(c.net, c.self, c.key, c.returnedSet), self, own, c.maxStores,
          c.numWorkers, c.key, c.search);
    SetSearch.StorersOfPacked(l, c.maxStores);
  }

  /** Removing the peers that the search blames from the node's own store succeeds exactly when the store
      was made for identifiers of the key's length or nobody is blamed. It was whenever the node has no
      entry for the key, because its own search succeeded. */
  lemma RemovalSucceeds(c: SetCall)
    requires Named(c.net) && c.self.id in c.net.peers && c.maxStores > 0 && |c.self.id| == |c.key|
    requires SelfSearch(c.net, c.self, c.key, c.returnedGet).Ok? &&
               SelfSearch(c.net, c.self, c.key, c.returnedGet).value.value == None
    ensures var own := c.net.peers[c.self.id];
            var blamed := Searched(c, SelfSearch(c.net, c.self, c.key, c.returnedGet).value.closest).blamed;
            && (CanRemove(c, blamed) <==> |own.storeID| == |c.key| || blamed == [])
            && (c.key !in own.data ==> |own.storeID| == |c.key|)
  {
    hide SetSearch.SetExec, SetSearch.SetStart, SelfSearch, SetSearch.Truthful, Ask, Distance, Peers, RemovePeer,
           RemoveAll;
    SelfSearchIs(c.net, c.self, c.key, c.returnedGet);
    AskTruthful(c.net, c.self, c.key, c.returnedSet);
    var own := SelfSearch(c.net, c.self, c.key, c.returnedGet).value.closest;
    SetBlame.BlamedAreSized(Ask(c.net, c.self, c.key, c.returnedSet), SelfNear(c.self, c.key), own,
                             c.maxStores, c.numWorkers, c.key, c.search);
    var blamed := Searched(c, own).blamed;
    if blamed != [] {
      assert blamed[0] in blamed;
    }
  }

  /** The blamed peers are removed one by one, up to the first that cannot be. */
  function RemoveAll(nodeID: Id, buckets: seq<Bucket>, ps: seq<Peer>): (r: (seq<Bucket>, Option<StoreError>))
    requires |buckets| == 8 * |nodeID|
    ensures |r.0| == |buckets|
    ensures r.1 == None <==> forall p :: p in ps ==> |p.id| == |nodeID|
    decreases |ps|
  {
    if ps == [] then (buckets, None)
    else
      var (removed, err) := RemovePeer(nodeID, buckets, ps[0]);
      if err.Some? then (removed, err) else RemoveAll(nodeID, removed, ps[1..])
  }

  function Drops(ps: seq<Peer>): seq<Op> {
    if ps == [] then [] else [Drop(ps[0])] + Drops(ps[1..])
  }

  /** If all can be removed, the store is as if they had been removed one after the other. */
  lemma {:induction false} RemoveAllIs(nodeID: Id, k: nat, ops: seq<Op>, ps: seq<Peer>)
    ensures var (buckets, err) := RemoveAll(nodeID, History(nodeID, k, ops), ps);
            && (err == None <==> forall p :: p in ps ==> |p.id| == |nodeID|)
            && (err.Some? ==> err == Some(DifferentLength))
            && (err == None ==> buckets == History(nodeID, k, ops + Drops(ps)))
    decreases |ps|
  {
    hide Remove, History;
    if ps == [] {
      assert ops + Drops(ps) == ops;
    } else {
      var op := Drop(ps[0]);
      HistoryMore(nodeID, k, ops, op);
      RemoveAllIs(nodeID, k, ops + [op], ps[1..]);
      assert ops + Drops(ps) == (ops + [op]) + Drops(ps[1..]);
    }
  }

  method RemoveNonresponders(store: Store, nonresponders: seq<Peer>) returns (err: Option<StoreError>)
    requires store.Valid()
    modifies store.buckets
    ensures (store.Content(), err) == RemoveAll(store.nodeID, old(store.Content()), nonresponders)
  {
    hide RemovePeer;
    var i := 0;
    assert nonresponders[0..] == nonresponders;
    while i < |nonresponders|
      invariant 0 <= i <= |nonresponders|
      invariant RemoveAll(store.nodeID, old(store.Content()), nonresponders)
             == RemoveAll(store.nodeID, store.Content(), nonresponders[i..])
    {
      assert nonresponders[i..][0] == nonresponders[i] && nonresponders[i..][1..] == nonresponders[i + 1..];
      err := store.Drop(nonresponders[i]);
      if err.Some? {
        return;
      }
      i := i + 1;
    }
    err := None;
  }

  // ---------- GetValue ----------

  datatype GetResult = Got(value: seq<byte>) | NotFound | GetFailed

  datatype GetCall = GetCall(net: Network, self: Peer, key: Id, returned: nat, numWorkers: nat, search: seq<nat>)

  function GetStart(g: GetCall): (s: GetSearch.State)
    requires g.self.id in g.net.peers && |g.self.id| == |g.key| && SelfSearch(g.net, g.self, g.key, g.returned).Ok?
    ensures NodesOk(s)
  {
    Start(SelfNear(g.self, g.key), SelfSearch(g.net, g.self, g.key, g.returned).value.closest, g.numWorkers)
  }

  function GetSearched(g: GetCall): GetSearch.State
    requires g.self.id in g.net.peers && |g.self.id| == |g.key| && SelfSearch(g.net, g.self, g.key, g.returned).Ok?
  {
    Exec(Ask(g.net, g.self, g.key, g.returned), GetStart(g), g.search)
  }

  function GetValue(g: GetCall): GetResult
    requires g.self.id in g.net.peers
  {
    if |g.self.id| != |g.key| then GetFailed
    else match SelfSearch(g.net, g.self, g.key, g.returned)
      case Err(_) => GetFailed
      case Ok(res) =>
        if res.value.Some? then Got(res.value.value)
        else match GetSearched(g).res
          case None => NotFound
          case Some(Failure) => GetFailed
          case Some(Value(v)) => Got(v)
  }

  /** The workers of the search, if there is one, have stopped. */
  ghost predicate GetReturned(g: GetCall)
    requires g.self.id in g.net.peers
  {
    |g.self.id| == |g.key| && SelfSearch(g.net, g.self, g.key, g.returned).Ok? ==> Finished(GetSearched(g))
  }

  /** `id` is the node itself or can be reached from it through the answers of responding peers. */
  ghost predicate Reaches(g: GetCall, id: Id)
    requires g.self.id in g.net.peers
  {
    |g.self.id| == |g.key| && SelfSearch(g.net, g.self, g.key, g.returned).Ok? ==>
      Reachable(Ask(g.net, g.self, g.key, g.returned), SelfNear(g.self, g.key),
                SelfSearch(g.net, g.self, g.key, g.returned).value.closest, id)
  }

  /** The node itself, or a peer that its search contacted, stores `value` under the key. */
  ghost predicate ContactHolds(g: GetCall, value: seq<byte>)
    requires g.self.id in g.net.peers
  {
    exists id :: id in g.net.peers && g.key in g.net.peers[id].data && g.net.peers[id].data[g.key] == value
      && (id == g.self.id
          || (|g.self.id| == |g.key| && SelfSearch(g.net, g.self, g.key, g.returned).Ok? && id in GetSearched(g).asked))
  }

  lemma GoodSearch(g: GetCall)
    requires Named(g.net) && g.self.id in g.net.peers && g.numWorkers > 0
    requires |g.self.id| == |g.key| && SelfSearch(g.net, g.self, g.key, g.returned).Ok?
    ensures GoodStart(SelfNear(g.self, g.key), SelfSearch(g.net, g.self, g.key, g.returned).value.closest,
              g.numWorkers, |g.self.id|)
    ensures WellSized(Ask(g.net, g.self, g.key, g.returned), |g.self.id|)
  {
    hide SelfSearch, Distance, Ask;
    SelfSearchIs(g.net, g.self, g.key, g.returned);
    AskTruthful(g.net, g.self, g.key, g.returned);
  }

  lemma FoundIsStored(g: GetCall, id: Id, v: seq<byte>)
    requires Named(g.net) && Ask(g.net, g.self, g.key, g.returned)(id) == Found(v)
    ensures id in g.net.peers && g.key in g.net.peers[id].data && g.net.peers[id].data[g.key] == v
  {
    hide History, Peers, KeepAll, Distance, AskOne;
    AskIs(g.net, g.self, g.key, g.returned, id);
  }

  /** Whatever GetValue returns is what a contacted peer, or the node itself, stores under the key. */
  lemma GetReturnsStored(g: GetCall)
    requires Named(g.net) && g.self.id in g.net.peers && g.numWorkers > 0
    requires GetValue(g).Got?
    ensures ContactHolds(g, GetValue(g).value)
  {
    hide Exec, Start, SelfSearch, GoodStart, Inv, Ask;
    SelfSearchIs(g.net, g.self, g.key, g.returned);
    if SelfSearch(g.net, g.self, g.key, g.returned).value.value.None? {
      var v := GetValue(g).value;
      GoodSearch(g);
      ResultComesFromAPeer(Ask(g.net, g.self, g.key, g.returned), SelfNear(g.self, g.key),
        SelfSearch(g.net, g.self, g.key, g.returned).value.closest, g.numWorkers, |g.self.id|, g.search);
      var id :| id in GetSearched(g).asked && Ask(g.net, g.self, g.key, g.returned)(id) == Found(v);
      FoundIsStored(g, id, v);
    }
  }

  /** The search of GetValue ran: the node's own lookup found no value. */
  ghost predicate SearchRan(g: GetCall)
    requires g.self.id in g.net.peers
  {
    && |g.self.id| == |g.key| && SelfSearch(g.net, g.self, g.key, g.returned).Ok?
    && SelfSearch(g.net, g.self, g.key, g.returned).value.value == None
  }

  ghost predicate AskedAnswers(g: GetCall, answer: Answer)
    requires g.self.id in g.net.peers && SearchRan(g)
  {
    exists id :: id in GetSearched(g).asked && Ask(g.net, g.self, g.key, g.returned)(id) == answer
  }

  /** What GetValue returns, in all cases: the node's own value; an error for a key of a wrong length; the value or
      the fatal error that a contacted peer answered; and, once the search has ended, not-found exactly when no
      contacted peer answered with either. */
  lemma GetOutcomes(g: GetCall)
    requires Named(g.net) && g.self.id in g.net.peers && g.numWorkers > 0
    ensures var p := g.net.peers[g.self.id];
            && (GetValue(g).Got? && !SearchRan(g) ==>
                  g.key in p.data && GetValue(g).value == p.data[g.key] && p.data[g.key] != [])
            && (|g.self.id| == |g.key| && g.key in p.data && p.data[g.key] != [] ==> GetValue(g) == Got(p.data[g.key]))
            && (!SearchRan(g) ==> GetValue(g) != NotFound)
            && (SearchRan(g) ==>
                  && (forall v :: GetValue(g) == Got(v) ==> AskedAnswers(g, Found(v)))
                  && (GetValue(g) == GetFailed ==> AskedAnswers(g, Fatal))
                  && (Finished(GetSearched(g)) ==>
                        (GetValue(g) == NotFound <==>
                         !AskedAnswers(g, Fatal) && forall v :: !AskedAnswers(g, Found(v)))))
  {
    hide Exec, Start, SelfSearch, GoodStart, Inv, Ask, WellSized;
    SelfSearchIs(g.net, g.self, g.key, g.returned);
    if SearchRan(g) {
      GoodSearch(g);
      var oracle := Ask(g.net, g.self, g.key, g.returned);
      var own := SelfSearch(g.net, g.self, g.key, g.returned).value.closest;
      ResultComesFromAPeer(oracle, SelfNear(g.self, g.key), own, g.numWorkers, |g.self.id|, g.search);
      NoResultNoAnswer(oracle, SelfNear(g.self, g.key), own, g.numWorkers, |g.self.id|, g.search);
    }
  }

  // ---------- Set, then Get ----------

  /** The peers that acknowledged. */
  function Acknowledgers(c: SetCall): seq<Peer>
    requires c.self.id in c.net.peers && SetValue(c).0 == Stored
  {
    var s := Searched(c, SelfSearch(c.net, c.self, c.key, c.returnedGet).value.closest);
    Kept(c, SetSearch.Storers(s.slots)).acked
  }

  /** The peers of `net` have what the call left in their tables. */
  ghost predicate Leaves(c: SetCall, net: Network)
    requires c.self.id in c.net.peers
  {
    forall id :: id in SetValue(c).1 ==> id in net.peers && net.peers[id].data == SetValue(c).1[id]
  }

  /** After a successful SetValue, a GetValue from any node that reaches some acknowledging peer through
      responding peers does not miss the value if that peer responds: it returns what a contacted peer
      stores under the key, or the search meets a fatal error. */
  lemma SetThenGet(c: SetCall, g: GetCall, holder: Peer)
    requires Named(c.net) && c.self.id in c.net.peers && SetValue(c).0 == Stored && Returned(c) && c.value != []
    requires Named(g.net) && g.self.id in g.net.peers && Leaves(c, g.net) && g.key == c.key && g.numWorkers > 0
    requires holder in Acknowledgers(c) && Reaches(g, holder.id)
    requires Ask(g.net, g.self, g.key, g.returned)(holder.id) != Expected
    requires GetReturned(g)
    ensures GetValue(g).Got? || (SearchRan(g) && GetValue(g) == GetFailed && AskedAnswers(g, Fatal)) ||
            (GetValue(g) == GetFailed && (|g.self.id| != |g.key| || SelfSearch(g.net, g.self, g.key, g.returned).Err?))
    ensures GetValue(g).Got? ==> ContactHolds(g, GetValue(g).value)
  {
    hide Exec, Start, Handle, GoodStart, Inv, Ask, Reachable, WellSized, ContactHolds, AskedAnswers;
    GetOutcomes(g);
    if GetValue(g).Got? {
      GetReturnsStored(g);
    }
    if GetValue(g) == NotFound {
      GoodSearch(g);
      GetIsExhaustive(Ask(g.net, g.self, g.key, g.returned), SelfNear(g.self, g.key),
        SelfSearch(g.net, g.self, g.key, g.returned).value.closest, g.numWorkers, |g.self.id|, g.search, holder.id);
      AcknowledgerHas(c, holder);
      HolderAnswers(g, holder.id);
      assert false;
    }
  }

  lemma AcknowledgerHas(c: SetCall, holder: Peer)
    requires c.self.id in c.net.peers && SetValue(c).0 == Stored && holder in Acknowledgers(c)
    ensures holder.id in SetValue(c).1 && c.key in SetValue(c).1[holder.id] &&
              SetValue(c).1[holder.id][c.key] == c.value
  {
    hide SetSearch.SetExec, Handle, StoreRun, StoreStart, SetSearch.SetStart;
    var s := Searched(c, SelfSearch(c.net, c.self, c.key, c.returnedGet).value.closest);
    StoreRunConserves(PeersOf(SetSearch.Storers(s.slots)), c.numWorkers, TablesOf(c.net), c.storing, c.key, c.value);
  }

  /** Who has a value does not answer with peers. */
  lemma HolderAnswers(g: GetCall, id: Id)
    requires Named(g.net) && id in g.net.peers && g.key in g.net.peers[id].data && g.net.peers[id].data[g.key] != []
    ensures !Ask(g.net, g.self, g.key, g.returned)(id).Closest?
  {
    hide History, Peers, KeepAll, Distance, AskOne;
    AskIs(g.net, g.self, g.key, g.returned, id);
  }
}
