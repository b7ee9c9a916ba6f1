/** The controller's three HTTP endpoints over the registry. A request is
    reduced to what the handlers look at: its method, and its JSON body as
    `Some(decoded)` or `None` when decoding failed. Key generation and the
    random source are parameters (`None` when they failed). Each handler
    returns the status it writes, the body it encodes (if any) and the
    registry state it leaves. */
module ControlAPI {
  import opened Results
  import opened Ints
  import opened IPv4
  import opened Common
  import opened Registry

  const StatusOK := 200
  const StatusNoContent := 204
  const StatusBadRequest := 400
  const StatusNotFound := 404
  const StatusMethodNotAllowed := 405
  const StatusInternalServerError := 500

  /** The record `handleRegister` hands to the registry: identity and
      request fields set; address, preferred endpoint, relays and time
      left at their zero values for the registry to fill in. */
  function Applicant(id: string, req: RegisterRequest, pub: string): Node {
    Node(id, req.hostname, req.os, req.version, pub, "", req.endpoints, [], "", ZeroTime)
  }

  /** Filing an applicant: `UpsertNode` on the record `Applicant` builds. */
  function Admit(s: Store, id: string, req: RegisterRequest, pub: string, now: Timestamp): (u: Step<Node>)
    ensures u.result.Ok? ==>
      var m := u.result.value;
      m.id == id && m.publicKey == pub && m.hostname == req.hostname
      && m.os == req.os && m.version == req.version && m.endpoints == req.endpoints
      && m.relays == [] && m.lastSeen == now
      && m.endpoint == HostPort.SelectEndpoint(req.endpoints)
      && u.store.nodes == s.nodes[id := m]
      && u.store.byIP == s.byIP[m.tunnelIP := id]
    ensures u.result.Ok? ==>
      var a := ParseIPv4(u.result.value.tunnelIP);
      u.result.value.tunnelIP !in s.byIP && a.Some? && Contains(s.net, a.value)
    ensures u.result.Ok? ==> AllocateIP(s).result == Ok(u.result.value.tunnelIP)
    ensures u.result.Err? <==> AllocateIP(s).result.Err?
    ensures u.result.Err? ==> u.result.msg == "no free ip" && u.store.nodes == s.nodes && u.store.byIP == s.byIP
    ensures u.store.net == s.net && u.store.nextHost == AllocateIP(s).store.nextHost
  {
    var n := Applicant(id, req, pub);
    assert n.tunnelIP == "" && n.endpoint == "";
    UpsertNode(s, n, now)
  }

  /** `handleRegister`. The checks run in the order `handleRegister`
      makes them: method, body, key pair, identifier, then the registry. The peers of the
      response are a listing taken after the new record is filed, leaving
      the new record out. */
  method HandleRegister(s: Store, httpMethod: string, body: Option<RegisterRequest>,
                        keys: Option<KeyPair>, entropy: Option<seq<Byte>>, now: Timestamp)
    returns (status: int, resp: Option<RegisterResponse>, t: Store)
    requires entropy.Some? ==> |entropy.value| == IDBytes
    ensures httpMethod != "POST" ==> status == StatusMethodNotAllowed && resp.None? && t == s
    ensures httpMethod == "POST" && body.None? ==> status == StatusBadRequest && resp.None? && t == s
    ensures httpMethod == "POST" && body.Some? && (keys.None? || entropy.None?) ==>
      status == StatusInternalServerError && resp.None? && t == s
    ensures httpMethod == "POST" && body.Some? && keys.Some? && entropy.Some? ==>
      var id := RandomID(IDBytes, entropy).value;
      var u := Admit(s, id, body.value, keys.value.pub, now);
      t == u.store
      && (u.result.Err? ==> status == StatusInternalServerError && resp.None?)
      && (u.result.Ok? ==>
            status == StatusOK && resp.Some?
            && resp.value.node == u.result.value
            && resp.value.privKey == keys.value.priv
            && resp.value.relayUDP.None?
            && resp.value.networkCIDR == FormatCIDR(s.net)
            && IsPeerListing(t.nodes, id, resp.value.peers))
  {
    if httpMethod != "POST" {
      return StatusMethodNotAllowed, None, s;
    }
    if body.None? {
      return StatusBadRequest, None, s;
    }
    if keys.None? {
      return StatusInternalServerError, None, s;
    }
    var id := RandomID(IDBytes, entropy);
    if id.Err? {
      return StatusInternalServerError, None, s;
    }
    var u := Admit(s, id.value, body.value, keys.value.pub, now);
    t := u.store;
    if u.result.Err? {
      return StatusInternalServerError, None, t;
    }
    var peers := ListPeers(t, id.value);
    status := StatusOK;
    resp := Some(RegisterResponse(u.result.value, peers, keys.value.priv, None, FormatCIDR(t.net)));
  }

  /** A successful registration of a fresh identifier in a consistent
      registry: the new record gets a fresh address of the block, the
      registry stays consistent, and the peers it is sent are exactly the
      records filed before it, one per identifier. */
  lemma RegistrationResponse(s: Store, id: string, req: RegisterRequest, pub: string, now: Timestamp, peers: seq<Node>)
    requires Valid(s) && id !in s.nodes
    requires Admit(s, id, req, pub, now).result.Ok?
    requires IsPeerListing(Admit(s, id, req, pub, now).store.nodes, id, peers)
    ensures Valid(Admit(s, id, req, pub, now).store)
    ensures forall q: Node :: q in peers <==> q.id in s.nodes && s.nodes[q.id] == q
    ensures forall q: Node :: q in peers ==> q.id != id
    ensures |peers| == |s.nodes|
  {
    var u := Admit(s, id, req, pub, now);
    UpsertPreservesValid(s, Applicant(id, req, pub), now);
    ListingAfterFiling(u.store, s.nodes, u.result.value, peers);
  }

  /** A listing that leaves out the record just filed holds the records
      that were there before it. */
  lemma ListingAfterFiling(t: Store, before: map<string, Node>, m: Node, peers: seq<Node>)
    requires Keyed(t) && m.id !in before && t.nodes == before[m.id := m]
    requires IsPeerListing(t.nodes, m.id, peers)
    ensures forall q: Node :: q in peers <==> q.id in before && before[q.id] == q
    ensures |peers| == |before|
  {
    ListingMembers(t, m.id, peers);
    assert t.nodes.Keys - {m.id} == before.Keys;
    assert |before.Keys| == |before|;
  }

  /** `handlePeers`: every record, as `ListPeers("")` lists them (no
      record is filed under the empty identifier it leaves out). */
  method HandlePeers(s: Store, httpMethod: string) returns (status: int, resp: Option<PeerUpdate>)
    ensures httpMethod != "GET" ==> status == StatusMethodNotAllowed && resp.None?
    ensures httpMethod == "GET" ==>
      status == StatusOK && resp.Some? && IsPeerListing(s.nodes, "", resp.value.peers)
  {
    if httpMethod != "GET" {
      return StatusMethodNotAllowed, None;
    }
    var peers := ListPeers(s, "");
    return StatusOK, Some(PeerUpdate(peers));
  }

  /** With no record under the empty identifier, the peer list holds every
      record exactly once. */
  lemma PeerListIsComplete(s: Store, peers: seq<Node>)
    requires Keyed(s) && "" !in s.nodes && IsPeerListing(s.nodes, "", peers)
    ensures forall q: Node :: q in peers <==> q.id in s.nodes && s.nodes[q.id] == q
    ensures |peers| == |s.nodes|
  {
    ListingMembers(s, "", peers);
    assert s.nodes.Keys - {""} == s.nodes.Keys;
    assert |s.nodes.Keys| == |s.nodes|;
  }

  /** `handleAnnounce`: status and resulting registry. */
  function HandleAnnounce(s: Store, httpMethod: string, body: Option<AnnounceRequest>): (r: (int, Store))
    ensures httpMethod != "POST" ==> r == (StatusMethodNotAllowed, s)
    ensures httpMethod == "POST" && body.None? ==> r == (StatusBadRequest, s)
    ensures httpMethod == "POST" && body.Some? ==>
      (r.0 == StatusNotFound <==> body.value.nodeID !in s.nodes)
      && (r.0 == StatusNotFound ==> r.1 == s)
      && (r.0 != StatusNotFound ==>
            r.0 == StatusNoContent
            && r.1.nodes.Keys == s.nodes.Keys
            && body.value.nodeID in r.1.nodes
            && r.1.nodes[body.value.nodeID]
               == s.nodes[body.value.nodeID].(endpoints := body.value.endpoints,
                                              endpoint := HostPort.SelectEndpoint(body.value.endpoints))
            && (forall k :: k in s.nodes && k != body.value.nodeID ==> r.1.nodes[k] == s.nodes[k]))
    ensures r.1 == s || r.1 == s.(nodes := r.1.nodes)
  {
    if httpMethod != "POST" then (StatusMethodNotAllowed, s)
    else match body
      case None => (StatusBadRequest, s)
      case Some(req) =>
        var u := UpdateEndpoints(s, req.nodeID, req.endpoints, req.listenPort);
        if u.result.Err? then (StatusNotFound, u.store) else (StatusNoContent, u.store)
  }

  /** Whatever an announce request holds, the registry stays consistent. */
  lemma AnnounceKeepsValid(s: Store, httpMethod: string, body: Option<AnnounceRequest>)
    requires Valid(s)
    ensures Valid(HandleAnnounce(s, httpMethod, body).1)
  {
    if httpMethod == "POST" && body.Some? {
      UpdateEndpointsPreservesValid(s, body.value.nodeID, body.value.endpoints, body.value.listenPort);
    }
  }
}
