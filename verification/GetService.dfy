/**
 The service that answers a search for a value (kademila/kdmgetvalue/kdmgetvalue.go), what the asking side
 makes of a response, and what a search makes of that.
 */
module GetService {
  import opened Wrappers
  import opened Bytes
  import opened Ids
  import opened Greedy
  import opened Buckets
  import opened DhtPeer
  import GetSearch

  datatype Request = Request(key: Id, k: nat)

  datatype Contacted = Contacted(id: Id, dist: Option<nat>, addr: string)

  const NOBODY := Contacted([], None, "")

  datatype Response = Response(value: Option<seq<byte>>, contacted: Contacted, closest: seq<Near>, err: string)

  /** What one peer has: the peer store is the one its history leaves. */
  datatype PeerState = PeerState(
    id: Id,
    addr: string,
    storeID: Id,          // the identifier the peer store was made for
    storeSize: nat,
    ops: seq<Op>,
    data: map<seq<byte>, seq<byte>>)

  // ---------- Error texts ----------

  const INVALID_RESPONSE := "invalid response from peer"
  const INVALID_REQUEST := "invalid request from peer"
  const INTERNAL_ERROR := "internal server error"
  const DIFFERENT_LENGTH := "diffrent len keys"

  /** The errors of HandleRequest: the second wraps a cause. */
  datatype RequestError = InvalidRequest | Internal(cause: string)

  function ErrorText(e: RequestError): string {
    match e
    case InvalidRequest => INVALID_REQUEST
    case Internal(cause) => INTERNAL_ERROR + ": " + cause
  }

  datatype KdmError =
    | UnableToReach
    | InvalidResponseError
    | InvalidRequestError
    | InternalServerError
    | OtherError(text: string)

  /** convertToError. */
  function ConvertToError(s: string): Option<KdmError> {
    if s == "" then None
    else if s == INVALID_RESPONSE then Some(InvalidResponseError)
    else if s == INVALID_REQUEST then Some(InvalidRequestError)
    else if s == INTERNAL_ERROR then Some(InternalServerError)
    else Some(OtherError(s))
  }

  /** isExpectedKDMError. */
  predicate IsExpected(e: KdmError) {
    e.InvalidResponseError? || e.UnableToReach? || e.InternalServerError?
  }

  // ---------- The answering side ----------

  lemma {:induction false} StorePeersSized(nodeID: Id, size: nat, ops: seq<Op>)
    ensures forall p :: p in Peers(History(nodeID, size, ops)) ==> |p.id| == |nodeID|
  {
    hide Peers, History, ClosestPeers;
    ClosestPeersOfStore(nodeID, size, ops, nodeID, 0);
    var ps := Peers(History(nodeID, size, ops));
    forall p | p in ps ensures |p.id| == |nodeID| {
      var i :| 0 <= i < |ps| && ps[i] == p;
    }
  }

  /** HandleRequest. */
  function Handle(p: PeerState, req: Request): Result<Response, RequestError> {
    if |req.key| != |p.id| then Err(InvalidRequest)
    else if req.key in p.data then Ok(Response(Some(p.data[req.key]), Contacted(p.id, None, p.addr), [], ""))
    else
      StorePeersSized(p.storeID, p.storeSize, p.ops);
      match ClosestPeers(p.storeID, History(p.storeID, p.storeSize, p.ops), req.key, req.k)
      case Err(_) => Err(Internal(DIFFERENT_LENGTH))
      case Ok(closest) => Ok(Response(None, Contacted(p.id, Some(Distance(p.id, req.key)), p.addr), closest, ""))
  }

  /** `closest` are peers of the store with their own distances, and these are the ones that the greedy list of all
      stored peers' distances keeps. */
  ghost predicate NamesClosest(p: PeerState, key: Id, k: nat, closest: seq<Near>)
    requires |key| == |p.storeID|
  {
    StorePeersSized(p.storeID, p.storeSize, p.ops);
    var ps := Peers(History(p.storeID, p.storeSize, p.ops));
    Genuine(closest, ps, key) && Dists(closest) == PlaceAll(Offered(ps, key), k)
  }

  /** HandleRequest, case by case. */
  lemma HandleIs(p: PeerState, req: Request)
    ensures Handle(p, req) == Err(InvalidRequest) <==> |req.key| != |p.id|
    ensures Handle(p, req) == Err(Internal(DIFFERENT_LENGTH)) <==>
              |req.key| == |p.id| && req.key !in p.data && |req.key| != |p.storeID|
    ensures Handle(p, req).Err? ==>
              Handle(p, req).error == InvalidRequest || Handle(p, req).error == Internal(DIFFERENT_LENGTH)
    ensures Handle(p, req).Ok? ==>
              var res := Handle(p, req).value;
              && res.err == "" && res.contacted.id == p.id && res.contacted.addr == p.addr
              && (req.key in p.data ==>
                    res.value == Some(p.data[req.key]) && res.closest == [] && res.contacted.dist == None)
              && (req.key !in p.data ==>
                    && res.value == None && res.contacted.dist == Some(Distance(p.id, req.key))
                    && NamesClosest(p, req.key, req.k, res.closest))
  {
    hide ClosestPeers, Peers, History, HoldsClosest, ClosestInOrder, PlaceAll, Distance, KeepAll;
    if |req.key| == |p.storeID| {
      ClosestPeersOfStore(p.storeID, p.storeSize, p.ops, req.key, req.k);
    }
    ClosestPeersFails(p.storeID, History(p.storeID, p.storeSize, p.ops), req.key, req.k) by {
      StorePeersSized(p.storeID, p.storeSize, p.ops);
    }
  }

  lemma {:induction false} ClosestPeersFails(nodeID: Id, buckets: seq<Bucket>, key: Id, k: nat)
    requires forall p :: p in Peers(buckets) ==> |p.id| == |nodeID|
    ensures ClosestPeers(nodeID, buckets, key, k).Ok? <==> |key| == |nodeID|
  {
    hide KeepAll, Peers;
  }

  function Failed(text: string): Response {
    Response(None, NOBODY, [], text)
  }

  /** The registered handler: the response, and the peer with the requester added to its store. */
  function Serve(p: PeerState, requester: Option<Peer>, req: Request): (Response, PeerState) {
    match Handle(p, req)
    case Err(e) => (Failed(ErrorText(e)), p)
    case Ok(res) =>
      if requester == None then (res, p)
      else
        var added := p.(ops := p.ops + [Add(requester.value)]);
        var err := AddPeer(p.storeID, History(p.storeID, p.storeSize, p.ops), requester.value).1;
        (if err == Some(DifferentLength) then Failed(DIFFERENT_LENGTH) else res, added)
  }

  /** What a request leaves behind: the requester is added to the store if it is known and the request was one to
      answer. */
  lemma {:induction false} ServeLeaves(p: PeerState, requester: Option<Peer>, req: Request)
    ensures var p' := Serve(p, requester, req).1;
            var before, after := History(p.storeID, p.storeSize, p.ops), History(p'.storeID, p'.storeSize, p'.ops);
            && p' == p.(ops := p'.ops)
            && (Handle(p, req).Ok? && requester.Some? ==>
                  after == AddPeer(p.storeID, before, requester.value).0 && |p'.ops| == |p.ops| + 1)
            && (Handle(p, req).Err? || requester.None? ==> p' == p)
  {
    hide Handle, AddPeer;
    if requester.Some? {
      var ops' := p.ops + [Add(requester.value)];
      assert ops'[..|ops'| - 1] == p.ops;
    }
  }

  // ---------- The asking side ----------

  /** What arrives of a response: an empty value arrives as none. */
  function Transferred(res: Response): Response {
    if res.value == Some([]) then res.(value := None) else res
  }

  /** The end of Do: `remote` is who the connection says is at the other end, when it does. */
  function Judge(remote: Option<Id>, res: Response): Result<Response, KdmError> {
    if remote.Some? && remote.value != res.contacted.id then Err(InvalidResponseError)
    else match ConvertToError(res.err)
      case Some(e) => Err(e)
      case None => Ok(res)
  }

  /** addNodesToPeerstore: the store afterwards, and whether every peer fitted its identifiers. */
  function AddAll(nodeID: Id, buckets: seq<Bucket>, ns: seq<Near>): (r: (seq<Bucket>, bool))
    requires |buckets| == 8 * |nodeID|
    ensures |r.0| == |buckets|
    ensures r.1 <==> forall i :: 0 <= i < |ns| ==> |ns[i].peer.id| == |nodeID|
    decreases |ns|
  {
    if ns == [] then (buckets, true)
    else
      var (added, err) := AddPeer(nodeID, buckets, ns[0].peer);
      if err == Some(DifferentLength) then (added, false) else AddAll(nodeID, added, ns[1..])
  }

  function Adds(ns: seq<Near>): seq<Op> {
    if ns == [] then [] else [Add(ns[0].peer)] + Adds(ns[1..])
  }

  /** Every peer in front of the first whose identifier does not fit is added. */
  lemma {:induction false} AddAllIs(nodeID: Id, k: nat, ops: seq<Op>, ns: seq<Near>) returns (n: nat)
    ensures n <= |ns| && (forall i :: 0 <= i < n ==> |ns[i].peer.id| == |nodeID|)
    ensures n < |ns| ==> |ns[n].peer.id| != |nodeID|
    ensures AddAll(nodeID, History(nodeID, k, ops), ns).0 == History(nodeID, k, ops + Adds(ns[..n]))
    decreases |ns|
  {
    hide Insert, History;
    n := 0;
    if ns == [] || |ns[0].peer.id| != |nodeID| {
      assert ops + Adds(ns[..n]) == ops;
    } else {
      var op := Add(ns[0].peer);
      HistoryMore(nodeID, k, ops, op);
      var m := AddAllIs(nodeID, k, ops + [op], ns[1..]);
      n := m + 1;
      assert ns[..n][1..] == ns[1..][..m];
      assert ops + Adds(ns[..n]) == (ops + [op]) + Adds(ns[1..][..m]);
    }
  }

  /** searchOnePeer, once the peer is chosen. */
  function SearchOne(nodeID: Id, reply: Result<Response, KdmError>): GetSearch.Answer {
    match reply
    case Err(e) => if IsExpected(e) then GetSearch.Expected else GetSearch.Fatal
    case Ok(res) =>
      if res.value.Some? then GetSearch.Found(res.value.value)
      else if AddAll(nodeID, EmptyStore(nodeID, 0), res.closest).1 then GetSearch.Closest(res.closest)
      else GetSearch.Fatal
  }

  // ---------- The service ----------

  class Service {
    const id: Id
    const addr: string
    const store: Store
    var data: map<seq<byte>, seq<byte>>
    ghost var ops: seq<Op>

    ghost predicate Valid()
      reads this, store.buckets
    {
      store.Valid() && store.Content() == History(store.nodeID, store.k, ops)
    }

    ghost function State(): PeerState
      reads this
    {
      PeerState(id, addr, store.nodeID, store.k, ops, data)
    }

    constructor (id: Id, addr: string, store: Store, ghost ops: seq<Op>)
      requires store.Valid() && store.Content() == History(store.nodeID, store.k, ops)
      ensures Valid() && this.store == store && State() == PeerState(id, addr, store.nodeID, store.k, ops, map[])
    {
      this.id, this.addr, this.store, this.data, this.ops := id, addr, store, map[], ops;
    }

    method HandleRequest(req: Request) returns (r: Result<Response, RequestError>)
      requires Valid()
      ensures r == Handle(State(), req)
    {
      hide History, ClosestPeers, Distance;
      if |req.key| != |id| {
        return Err(InvalidRequest);
      }
      if req.key in data {
        return Ok(Response(Some(data[req.key]), Contacted(id, None, addr), [], ""));
      }
      StorePeersSized(store.nodeID, store.k, ops);
      var peers := store.GetClosestPeers(req.key, req.k);
      if peers.Err? {
        return Err(Internal(DIFFERENT_LENGTH));
      }
      var thisNodeDistance := DistanceBetween(id, req.key);
      var nodes: seq<Near> := [];
      for i := 0 to |peers.value|
        invariant nodes == peers.value[..i]
      {
        nodes := nodes + [Near(peers.value[i].peer, peers.value[i].dist)];
      }
      assert nodes == peers.value;
      return Ok(Response(None, Contacted(id, Some(thisNodeDistance), addr), nodes, ""));
    }

    method TryAddPeerToStore(requester: Option<Peer>) returns (err: Option<StoreError>)
      requires Valid()
      modifies this, store.buckets
      ensures Valid() && data == old(data)
      ensures ops == old(ops) + if requester == None then [] else [Add(requester.value)]
      ensures err == match requester
                     case None => None
                     case Some(p) =>
                       var e := AddPeer(store.nodeID, History(store.nodeID, store.k, old(ops)), p).1;
                       if e == Some(NoSpace) then None else e
    {
      hide AddPeer;
      if requester == None {
        return None;
      }
      err := store.Add(requester.value);
      ghost var before := ops;
      ops := ops + [Add(requester.value)];
      assert ops[..|ops| - 1] == before;
      if err == Some(NoSpace) {
        err := None;
      }
    }

    /** The registered handler. */
    method Answer(requester: Option<Peer>, req: Request) returns (res: Response)
      requires Valid()
      modifies this, store.buckets
      ensures Valid()
      ensures (res, State()) == Serve(old(State()), requester, req)
    {
      hide Handle, AddPeer, History;
      assert ops + [] == ops;
      var r := HandleRequest(req);
      if r.Err? {
        return Failed(ErrorText(r.error));
      }
      var err := TryAddPeerToStore(requester);
      if err.Some? {
        assert err.value == NoSpace || err.value == DifferentLength;
        return Failed(DIFFERENT_LENGTH);
      }
      return r.value;
    }

    /** storage.go: Set. */
    method Set(key: seq<byte>, value: seq<byte>)
      requires Valid()
      modifies this
      ensures Valid() && State() == old(State()).(data := old(data)[key := value])
    {
      data := data[key := value];
    }
  }

  /** addNodesToPeerstore on the store. */
  method AddNodesToPeerstore(store: Store, nodes: seq<Near>) returns (ok: bool)
    requires store.Valid()
    modifies store.buckets
    ensures (store.Content(), ok) == AddAll(store.nodeID, old(store.Content()), nodes)
  {
    hide AddPeer;
    var i := 0;
    assert nodes[0..] == nodes;
    while i < |nodes|
      invariant 0 <= i <= |nodes|
      invariant AddAll(store.nodeID, old(store.Content()), nodes) == AddAll(store.nodeID, store.Content(), nodes[i..])
    {
      assert nodes[i..][0] == nodes[i] && nodes[i..][1..] == nodes[i + 1..];
      var err := store.Add(nodes[i].peer);
      if err == Some(DifferentLength) {
        return false;
      }
      i := i + 1;
    }
    return true;
  }
}
