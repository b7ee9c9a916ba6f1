/** The controller's node registry: a block of IPv4 addresses with a
    forward-only allocation cursor, the node records by identifier, and the
    index from tunnel address to identifier. Each operation is atomic (the
    lock that serialises them is not modelled) and returns the next state. */
module Registry {
  import opened Results
  import opened Ints
  import opened IPv4
  import opened HostPort
  import opened StringOrder
  import opened Common
  import NetIP

  datatype Store = Store(
    net: IPNet,                   // the block, host bits cleared
    nextHost: U32,                // offset of the next address to probe
    nodes: map<string, Node>,     // by identifier
    byIP: map<string, string>)    // dotted-quad tunnel address -> identifier

  /** Result of an operation together with the state it leaves. */
  datatype Step<T> = Step(result: Result<T>, store: Store)

  /** The first offset a fresh store probes, leaving room below it. */
  const FirstHost: U32 := 10

  /** Probes one allocation makes before giving up. */
  const MaxProbes: nat := 0x1_0000

  // ---------------------------------------------------------------------
  // Creation

  /** `NewStore`: parse the block; the cursor starts at `FirstHost`. */
  function NewStore(cidr: string): (r: Result<Store>)
    ensures r.Ok? <==> ParseCIDR(cidr).Some?
    ensures r.Err? ==> r.msg == "invalid CIDR address: " + cidr
    ensures r.Ok? ==> r.value.net == ParseCIDR(cidr).value.1
    ensures r.Ok? ==> Contains(r.value.net, ParseCIDR(cidr).value.0)
    ensures r.Ok? ==> r.value.nextHost == FirstHost && r.value.nodes == map[] && r.value.byIP == map[]
    ensures r.Ok? ==> Valid(r.value)
  {
    match ParseCIDR(cidr)
    case None => Err("invalid CIDR address: " + cidr)
    case Some((a, n)) =>
      MaskContains(a, n.prefixLen);
      Ok(Store(n, FirstHost, map[], map[]))
  }

  // ---------------------------------------------------------------------
  // Allocation

  /** The address probe `j` of a scan tests: `incIP(base, cursor + j)`, with
      the cursor a uint32 that wraps. */
  function Candidate(net: IPNet, cursor: U32, j: nat): U32 {
    IncIP(net.ip, Wrap32(cursor + j))
  }

  /** The probe address is what the corrected `incIP` computes from the
      4-byte base `NewStore` keeps, `ip.Mask(n.Mask)`. */
  lemma CandidateIsCorrectedIncIP(cidr: string, cursor: U32, j: nat)
    requires NewStore(cidr).Ok?
    ensures var (a, n) := ParseCIDR(cidr).value;
      NetIP.StoreBaseIP(a, n.prefixLen).Some? && |NetIP.StoreBaseIP(a, n.prefixLen).value| == 4
    ensures var (a, n) := ParseCIDR(cidr).value;
      Candidate(NewStore(cidr).value.net, cursor, j)
      == FromOctets(NetIP.IncIP(NetIP.StoreBaseIP(a, n.prefixLen).value, Wrap32(cursor + j)))
  {
    var (a, n) := ParseCIDR(cidr).value;
    NetIP.CorrectedAllocationOnStoreBase(a, n.prefixLen, Wrap32(cursor + j));
  }

  /** An address the block contains whose text is not in the index. */
  predicate Free(net: IPNet, used: map<string, string>, a: U32) {
    Contains(net, a) && FormatIPv4(a) !in used
  }

  /** How far the uint32 cursor moved forward from `from` to `to`. */
  function Forward(from: U32, to: U32): nat {
    (to - from) % TwoTo32
  }

  /** Adding `k` to the uint32 cursor moves it forward by `k`. */
  lemma ForwardOfWrap(c: U32, k: nat)
    requires k < TwoTo32
    ensures Forward(c, Wrap32(c + k)) == k
  {
    if c + k >= TwoTo32 {
      DivModSplit(1, TwoTo32, c + k - TwoTo32);
      DivModSplit(0, TwoTo32, k);
      assert Wrap32(c + k) - c == k - TwoTo32;
      DivModSplit(0, TwoTo32, k);
      assert (k - TwoTo32) % TwoTo32 == k;
    } else {
      DivModSplit(0, TwoTo32, c + k);
      DivModSplit(0, TwoTo32, k);
    }
  }

  /** The first probe at or after `j` whose candidate is free, if any
      before `MaxProbes`. */
  function ScanFrom(s: Store, j: nat): (r: Option<nat>)
    requires j <= MaxProbes
    ensures r.Some? ==> j <= r.value < MaxProbes && Free(s.net, s.byIP, Candidate(s.net, s.nextHost, r.value))
    ensures r.Some? ==> forall k :: j <= k < r.value ==> !Free(s.net, s.byIP, Candidate(s.net, s.nextHost, k))
    ensures r.None? <==> forall k :: j <= k < MaxProbes ==> !Free(s.net, s.byIP, Candidate(s.net, s.nextHost, k))
    decreases MaxProbes - j
  {
    if j == MaxProbes then None
    else if Free(s.net, s.byIP, Candidate(s.net, s.nextHost, j)) then Some(j)
    else ScanFrom(s, j + 1)
  }

  /** The first probe whose candidate is free, if any within the bound. */
  function FirstFree(s: Store): (r: Option<nat>)
    ensures r.Some? ==> r.value < MaxProbes && Free(s.net, s.byIP, Candidate(s.net, s.nextHost, r.value))
    ensures r.Some? ==> forall j :: 0 <= j < r.value ==> !Free(s.net, s.byIP, Candidate(s.net, s.nextHost, j))
    ensures r.None? <==> forall j :: 0 <= j < MaxProbes ==> !Free(s.net, s.byIP, Candidate(s.net, s.nextHost, j))
  {
    ScanFrom(s, 0)
  }

  /** Probes one allocation makes: up to and including the first free
      candidate, or all of them. */
  function Probes(s: Store): (k: nat)
    ensures 1 <= k <= MaxProbes
    ensures FirstFree(s).Some? ==> k == FirstFree(s).value + 1
  {
    match FirstFree(s)
    case None => MaxProbes
    case Some(j) => j + 1
  }

  /** `allocateIPNoLock`: probe successive offsets, each probe advancing the
      cursor by one, and return the first free address as text. */
  function AllocateIP(s: Store): (r: Step<string>)
    ensures r.store.net == s.net && r.store.nodes == s.nodes && r.store.byIP == s.byIP
    ensures r.store.nextHost == Wrap32(s.nextHost + Probes(s))
    ensures r.result.Ok? ==>
      var a := ParseIPv4(r.result.value);
      a.Some? && Contains(s.net, a.value) && r.result.value !in s.byIP
    ensures r.result.Ok? ==> r.result.value == FormatIPv4(Candidate(s.net, s.nextHost, Probes(s) - 1))
    ensures r.result.Err? <==> forall j :: 0 <= j < MaxProbes ==> !Free(s.net, s.byIP, Candidate(s.net, s.nextHost, j))
    ensures r.result.Err? ==> r.result.msg == "no free ip" && Probes(s) == MaxProbes
  {
    var next := s.(nextHost := Wrap32(s.nextHost + Probes(s)));
    match FirstFree(s)
    case None => Step(Err("no free ip"), next)
    case Some(k) =>
      var a := Candidate(s.net, s.nextHost, k);
      FormatThenParse(a);
      Step(Ok(FormatIPv4(a)), next)
  }

  /** Every probe moves the uint32 cursor forward by one, so an allocation
      moves it forward by its probe count: between 1 and `MaxProbes`, and
      exactly `MaxProbes` when it fails. */
  lemma CursorAdvances(s: Store)
    ensures Forward(s.nextHost, AllocateIP(s).store.nextHost) == Probes(s)
  {
    CursorMovedTo(s, AllocateIP(s).store.nextHost);
  }

  /** The arithmetic half of `CursorAdvances`, with the new cursor given. */
  lemma CursorMovedTo(s: Store, n: U32)
    requires n == Wrap32(s.nextHost + Probes(s))
    ensures Forward(s.nextHost, n) == Probes(s)
  {
    ForwardOfWrap(s.nextHost, Probes(s));
  }

  /** An allocation returns the first free candidate: every probe before it
      found its address outside the block or already indexed. */
  lemma AllocatesFirstFree(s: Store)
    requires AllocateIP(s).result.Ok?
    ensures forall j :: 0 <= j < Probes(s) - 1 ==> !Free(s.net, s.byIP, Candidate(s.net, s.nextHost, j))
    ensures Free(s.net, s.byIP, Candidate(s.net, s.nextHost, Probes(s) - 1))
  {
  }

  /** The cursor has run past the block and the next `MaxProbes` offsets do
      not wrap the address around. */
  predicate PastEnd(s: Store, rounds: nat) {
    s.nextHost >= BlockSize(s.net.prefixLen)
    && s.net.ip + s.nextHost + rounds * MaxProbes < TwoTo32
  }

  /** Once past the block's end, allocation fails. */
  lemma PastEndFails(s: Store)
    requires Masked(s.net) && PastEnd(s, 1)
    ensures AllocateIP(s).result.Err?
    ensures AllocateIP(s).store.nextHost == s.nextHost + MaxProbes
  {
    NoProbeFree(s);
    var r := AllocateIP(s);
    assert r.result.Err?;
    assert Probes(s) == MaxProbes;
    WrapInRange(s.nextHost + MaxProbes);
  }

  /** Past the end, no probe of an allocation finds a free address. */
  lemma NoProbeFree(s: Store)
    requires Masked(s.net) && PastEnd(s, 1)
    ensures forall j :: 0 <= j < MaxProbes ==> !Free(s.net, s.byIP, Candidate(s.net, s.nextHost, j))
  {
    forall j | 0 <= j < MaxProbes
      ensures !Free(s.net, s.byIP, Candidate(s.net, s.nextHost, j))
    {
      PastEndProbe(s, j);
    }
  }

  /** Past the end, probe `j` lands beyond the block. */
  lemma PastEndProbe(s: Store, j: nat)
    requires Masked(s.net) && PastEnd(s, 1) && j < MaxProbes
    ensures !Contains(s.net, Candidate(s.net, s.nextHost, j))
  {
    var h := s.nextHost + j;
    WrapInRange(h);
    WrapInRange(s.net.ip + h);
    assert Candidate(s.net, s.nextHost, j) == s.net.ip + h;
    ContainsRange(s.net, s.net.ip + h);
  }

  /** The store after `k` allocation attempts. */
  function AllocateTimes(s: Store, k: nat): (t: Store)
    ensures t.net == s.net && t.nodes == s.nodes && t.byIP == s.byIP
    decreases k
  {
    if k == 0 then s else AllocateTimes(AllocateIP(s).store, k - 1)
  }

  /** Past the block's end, every later allocation fails too, for as long
      as the cursor does not wrap. */
  lemma {:induction false} StaysExhausted(s: Store, k: nat)
    requires Masked(s.net) && PastEnd(s, k + 1)
    ensures AllocateTimes(s, k).nextHost == s.nextHost + k * MaxProbes
    ensures AllocateIP(AllocateTimes(s, k)).result.Err?
    decreases k
  {
    if k == 0 {
      PastEndFails(s);
    } else {
      PastEndFails(s);
      var t := AllocateIP(s).store;
      assert t.nextHost == s.nextHost + MaxProbes;
      assert t.net.ip + t.nextHost + k * MaxProbes == s.net.ip + s.nextHost + (k + 1) * MaxProbes;
      StaysExhausted(t, k - 1);
      assert AllocateTimes(s, k) == AllocateTimes(t, k - 1);
    }
  }

  // ---------------------------------------------------------------------
  // Records

  /** `UpsertNode`: reserve an address when the record has none, pick the
      preferred endpoint when none is set, stamp `now`, then store the
      record and index its address. */
  function UpsertNode(s: Store, n: Node, now: Timestamp): (r: Step<Node>)
    ensures r.result.Err? <==> n.tunnelIP == "" && AllocateIP(s).result.Err?
    ensures r.result.Err? ==> r.store == s.(nextHost := r.store.nextHost) && r.result.msg == "no free ip"
    ensures r.result.Ok? ==>
      var m := r.result.value;
      m == n.(tunnelIP := m.tunnelIP, endpoint := m.endpoint, lastSeen := now)
      && r.store.net == s.net
      && r.store.nodes == s.nodes[n.id := m]
      && r.store.byIP == s.byIP[m.tunnelIP := n.id]
    ensures r.result.Ok? && n.tunnelIP != "" ==>
      r.result.value.tunnelIP == n.tunnelIP && r.store.nextHost == s.nextHost
    ensures r.result.Ok? && n.tunnelIP == "" ==>
      var t := r.result.value.tunnelIP;
      t !in s.byIP && ParseIPv4(t).Some? && Contains(s.net, ParseIPv4(t).value)
    ensures n.tunnelIP == "" ==>
      r.store.nextHost == AllocateIP(s).store.nextHost
      && (r.result.Ok? ==> r.result.value.tunnelIP == AllocateIP(s).result.value)
    ensures r.result.Ok? ==>
      r.result.value.endpoint == (if n.endpoint != "" then n.endpoint else SelectEndpoint(n.endpoints))
  {
    if n.tunnelIP == "" then
      var a := AllocateIP(s);
      match a.result
      case Err(e) => Step(Err(e), a.store)
      case Ok(ip) => Record(a.store, n.(tunnelIP := ip), now)
    else Record(s, n, now)
  }

  /** The part of `UpsertNode` after the address is settled. */
  function Record(s: Store, n: Node, now: Timestamp): Step<Node> {
    var endpoint := if n.endpoint == "" then SelectEndpoint(n.endpoints) else n.endpoint;
    var m := n.(endpoint := endpoint, lastSeen := now);
    Step(Ok(m), s.(nodes := s.nodes[m.id := m], byIP := s.byIP[m.tunnelIP := m.id]))
  }

  /** `UpdateEndpoints`: replace a known node's candidate endpoints and
      recompute its preferred one. `listenPort` is accepted and unused. */
  function UpdateEndpoints(s: Store, id: string, eps: seq<string>, listenPort: int): (r: Step<()>)
    ensures r.result.Err? <==> id !in s.nodes
    ensures r.result.Err? ==> r.store == s && r.result.msg == "node not found"
    ensures r.result.Ok? ==>
      r.store == s.(nodes := r.store.nodes)
      && r.store.nodes.Keys == s.nodes.Keys
      && (forall k :: k in s.nodes && k != id ==> r.store.nodes[k] == s.nodes[k])
    ensures r.result.Ok? ==>
      var m := r.store.nodes[id];
      m.endpoints == eps
      && m.endpoint == SelectEndpoint(eps)
      && m.(endpoints := s.nodes[id].endpoints, endpoint := s.nodes[id].endpoint) == s.nodes[id]
  {
    if id !in s.nodes then Step(Err("node not found"), s)
    else
      var n := s.nodes[id];
      Step(Ok(()), s.(nodes := s.nodes[id := n.(endpoints := eps, endpoint := SelectEndpoint(eps))]))
  }

  /** The port an announce carries has no effect on the registry. */
  lemma UpdateEndpointsIgnoresPort(s: Store, id: string, eps: seq<string>, p: int, q: int)
    ensures UpdateEndpoints(s, id, eps, p) == UpdateEndpoints(s, id, eps, q)
  {
  }

  // ---------------------------------------------------------------------
  // Consistency of the maps

  /** Every record is filed under its own identifier. */
  ghost predicate Keyed(s: Store) {
    forall id :: id in s.nodes ==> s.nodes[id].id == id
  }

  /** `byIP` is the inverse of the records' addresses. */
  ghost predicate Indexed(s: Store) {
    (forall id :: id in s.nodes ==> s.nodes[id].tunnelIP in s.byIP && s.byIP[s.nodes[id].tunnelIP] == id)
    && (forall ip :: ip in s.byIP ==> s.byIP[ip] in s.nodes && s.nodes[s.byIP[ip]].tunnelIP == ip)
  }

  /** Every indexed address is the text of an address of the block. */
  ghost predicate InBlock(s: Store) {
    forall ip :: ip in s.byIP ==> ParseIPv4(ip).Some? && Contains(s.net, ParseIPv4(ip).value)
  }

  ghost predicate Valid(s: Store) {
    Masked(s.net) && Keyed(s) && Indexed(s) && InBlock(s)
  }

  /** In an indexed store no two records share a tunnel address. */
  lemma AddressesDistinct(s: Store, a: string, b: string)
    requires Indexed(s) && a in s.nodes && b in s.nodes && a != b
    ensures s.nodes[a].tunnelIP != s.nodes[b].tunnelIP
  {
  }

  /** Registering a fresh identifier without an address keeps the store
      consistent, whether allocation succeeds or fails. */
  lemma UpsertPreservesValid(s: Store, n: Node, now: Timestamp)
    requires Valid(s) && n.id !in s.nodes && n.tunnelIP == ""
    ensures Valid(UpsertNode(s, n, now).store)
  {
    var r := UpsertNode(s, n, now);
    if r.result.Ok? {
      FileFreshRecord(s, r.store, r.result.value);
    } else {
      assert r.store == s.(nextHost := r.store.nextHost);
    }
  }

  /** Filing a record under a fresh identifier and a fresh address of the
      block keeps the store consistent. */
  lemma FileFreshRecord(s: Store, t: Store, m: Node)
    requires Valid(s) && m.id !in s.nodes && m.tunnelIP !in s.byIP
    requires ParseIPv4(m.tunnelIP).Some? && Contains(s.net, ParseIPv4(m.tunnelIP).value)
    requires t.net == s.net && t.nodes == s.nodes[m.id := m] && t.byIP == s.byIP[m.tunnelIP := m.id]
    ensures Valid(t)
  {
    forall id | id in t.nodes
      ensures t.nodes[id].tunnelIP in t.byIP && t.byIP[t.nodes[id].tunnelIP] == id
    {
      if id != m.id {
        assert s.nodes[id].tunnelIP in s.byIP;
      }
    }
  }

  /** Endpoint announcements keep the store consistent. */
  lemma UpdateEndpointsPreservesValid(s: Store, id: string, eps: seq<string>, p: int)
    requires Valid(s)
    ensures Valid(UpdateEndpoints(s, id, eps, p).store)
  {
    var t := UpdateEndpoints(s, id, eps, p).store;
    if id in s.nodes {
      assert forall k :: k in t.nodes ==> t.nodes[k].tunnelIP == s.nodes[k].tunnelIP && t.nodes[k].id == s.nodes[k].id;
    }
  }

  /** Why identifiers must be fresh: re-registering a known identifier
      without its address allocates a second one and leaves the first
      address indexed to a record that no longer has it. */
  lemma CollidingIdentifierLeavesStaleIndex(s: Store, n: Node, now: Timestamp)
    requires Valid(s) && n.id in s.nodes && n.tunnelIP == ""
    requires UpsertNode(s, n, now).result.Ok?
    ensures var t := UpsertNode(s, n, now).store;
      var old_ip := s.nodes[n.id].tunnelIP;
      old_ip in t.byIP && t.byIP[old_ip] == n.id && t.nodes[n.id].tunnelIP != old_ip
    ensures !Indexed(UpsertNode(s, n, now).store)
  {
    var t := UpsertNode(s, n, now).store;
    var old_ip := s.nodes[n.id].tunnelIP;
    assert old_ip in s.byIP;
    assert t.byIP[old_ip] == n.id;
  }

  // ---------------------------------------------------------------------
  // Listing

  /** Ordered by tunnel address in Go's string order. */
  ghost predicate SortedByAddress(ns: seq<Node>) {
    forall i, j :: 0 <= i < j < |ns| ==> !Less(ns[j].tunnelIP, ns[i].tunnelIP)
  }

  ghost predicate NoDup<T>(xs: seq<T>) {
    forall i, j :: 0 <= i < j < |xs| ==> xs[i] != xs[j]
  }

  /** `ids` lists every key of `nodes` other than `except`, once each. */
  ghost predicate Enumerates(nodes: map<string, Node>, except: string, ids: seq<string>) {
    NoDup(ids)
    && (forall i :: 0 <= i < |ids| ==> ids[i] in nodes && ids[i] != except)
    && (forall k :: k in nodes && k != except ==> k in ids)
  }

  /** `res` holds the records of `ids`, position by position. */
  ghost predicate ListedBy(nodes: map<string, Node>, res: seq<Node>, ids: seq<string>) {
    |ids| == |res| && forall i :: 0 <= i < |ids| ==> ids[i] in nodes && nodes[ids[i]] == res[i]
  }

  /** `res` is what `ListPeers(except)` may return: the records of every
      other key, each once, sorted by tunnel address. */
  ghost predicate IsPeerListing(nodes: map<string, Node>, except: string, res: seq<Node>) {
    SortedByAddress(res)
    && exists ids :: Enumerates(nodes, except, ids) && ListedBy(nodes, res, ids)
  }

  function InsertAt<T>(xs: seq<T>, p: nat, x: T): (ys: seq<T>)
    requires p <= |xs|
    ensures |ys| == |xs| + 1 && ys[p] == x
    ensures forall i :: 0 <= i < p ==> ys[i] == xs[i]
    ensures forall i :: p < i < |ys| ==> ys[i] == xs[i - 1]
  {
    xs[..p] + [x] + xs[p..]
  }

  /** Where a record with address `t` goes in a sorted listing: after every
      address not above `t`, before every address above it. */
  function InsertionPoint(res: seq<Node>, t: string): (p: nat)
    requires SortedByAddress(res)
    ensures p <= |res|
    ensures forall i :: 0 <= i < p ==> !Less(t, res[i].tunnelIP)
    ensures forall i :: p <= i < |res| ==> Less(t, res[i].tunnelIP)
  {
    if |res| == 0 then 0
    else if Less(t, res[0].tunnelIP) then
      assert forall i :: 0 < i < |res| ==> Less(t, res[i].tunnelIP) by {
        forall i | 0 < i < |res|
          ensures Less(t, res[i].tunnelIP)
        {
          LessThenLessEq(t, res[0].tunnelIP, res[i].tunnelIP);
        }
      }
      0
    else
      1 + InsertionPoint(res[1..], t)
  }

  lemma InsertSorted(res: seq<Node>, n: Node)
    requires SortedByAddress(res)
    ensures SortedByAddress(InsertAt(res, InsertionPoint(res, n.tunnelIP), n))
  {
    var p := InsertionPoint(res, n.tunnelIP);
    var ys := InsertAt(res, p, n);
    forall i, j | 0 <= i < j < |ys|
      ensures !Less(ys[j].tunnelIP, ys[i].tunnelIP)
    {
      if j == p {
        assert !Less(n.tunnelIP, res[i].tunnelIP);
      } else if i == p {
        Asymmetric(n.tunnelIP, res[j - 1].tunnelIP);
      }
    }
  }

  lemma InsertMembers<T>(xs: seq<T>, p: nat, x: T)
    requires p <= |xs|
    ensures forall y :: y in InsertAt(xs, p, x) <==> y == x || y in xs
  {
    var ys := InsertAt(xs, p, x);
    forall y | y in xs
      ensures y in ys
    {
      var i :| 0 <= i < |xs| && xs[i] == y;
      if i < p {
        assert ys[i] == y;
      } else {
        assert ys[i + 1] == y;
      }
    }
  }

  /** What `ListPeers` has built once the keys outside `rest` are visited:
      the records of those keys other than `except`, sorted, with `ids`
      naming them position by position. */
  ghost predicate PartialListing(nodes: map<string, Node>, except: string, rest: set<string>,
                                 res: seq<Node>, ids: seq<string>) {
    rest <= nodes.Keys
    && SortedByAddress(res)
    && |ids| == |res| && NoDup(ids)
    && (forall i :: 0 <= i < |ids| ==>
          ids[i] in nodes && ids[i] !in rest && ids[i] != except && nodes[ids[i]] == res[i])
    && (forall k :: k in nodes && k !in rest && k != except ==> k in ids)
  }

  /** Visiting a key other than `except` inserts its record at its place. */
  lemma InsertKeepsPartial(nodes: map<string, Node>, except: string, rest: set<string>,
                           res: seq<Node>, ids: seq<string>, id: string)
    requires PartialListing(nodes, except, rest, res, ids) && id in rest && id != except
    ensures var n := nodes[id];
      var p := InsertionPoint(res, n.tunnelIP);
      PartialListing(nodes, except, rest - {id}, InsertAt(res, p, n), InsertAt(ids, p, id))
  {
    var n := nodes[id];
    var p := InsertionPoint(res, n.tunnelIP);
    InsertSorted(res, n);
    InsertMembers(ids, p, id);
    var ids' := InsertAt(ids, p, id);
    forall i, j | 0 <= i < j < |ids'|
      ensures ids'[i] != ids'[j]
    {
      if i == p {
        assert ids'[j] == ids[j - 1];
      } else if j == p {
        assert ids'[i] == ids[i];
      }
    }
  }

  /** Visiting `except` itself changes nothing but `rest`. */
  lemma SkipKeepsPartial(nodes: map<string, Node>, except: string, rest: set<string>,
                         res: seq<Node>, ids: seq<string>)
    requires PartialListing(nodes, except, rest, res, ids) && except in rest
    ensures PartialListing(nodes, except, rest - {except}, res, ids)
  {
  }

  /** `ListPeers`: the records of every identifier except `except`, sorted
      by tunnel address. The map is visited in an arbitrary order and each
      record is inserted at its place in the sorted prefix; Go's sort is not
      stable, so records with equal addresses may come in either order. */
  method ListPeers(s: Store, except: string) returns (res: seq<Node>)
    ensures IsPeerListing(s.nodes, except, res)
  {
    res := [];
    ghost var ids: seq<string> := [];
    var rest := s.nodes.Keys;
    while rest != {}
      invariant PartialListing(s.nodes, except, rest, res, ids)
      decreases rest
    {
      var id :| id in rest;
      if id != except {
        var n := s.nodes[id];
        var p := InsertionPoint(res, n.tunnelIP);
        InsertKeepsPartial(s.nodes, except, rest, res, ids, id);
        res := InsertAt(res, p, n);
        ids := InsertAt(ids, p, id);
      } else {
        SkipKeepsPartial(s.nodes, except, rest, res, ids);
      }
      rest := rest - {id};
    }
    assert Enumerates(s.nodes, except, ids) && ListedBy(s.nodes, res, ids);
  }

  lemma {:induction false} NoDupCard<T>(xs: seq<T>)
    requires NoDup(xs)
    ensures |set x | x in xs| == |xs|
  {
    if |xs| > 0 {
      var t := xs[1..];
      NoDupCard(t);
      assert (set x | x in xs) == (set x | x in t) + {xs[0]};
      assert xs[0] !in t;
    }
  }

  /** In a store whose records are filed under their own identifiers, a
      listing holds exactly the records of the other identifiers, each
      once. */
  lemma ListingMembers(s: Store, except: string, res: seq<Node>)
    requires Keyed(s) && IsPeerListing(s.nodes, except, res)
    ensures forall q: Node :: q in res <==> q.id in s.nodes && q.id != except && s.nodes[q.id] == q
    ensures forall i, j :: 0 <= i < j < |res| ==> res[i].id != res[j].id
    ensures |res| == |s.nodes.Keys - {except}|
  {
    var ids :| Enumerates(s.nodes, except, ids) && ListedBy(s.nodes, res, ids);
    ListedRecords(s, except, res, ids);
    ListedIds(s, except, res, ids);
    EnumerationCount(s.nodes, except, ids);
  }

  /** Records are listed under the identifiers that enumerate them. */
  lemma ListedIds(s: Store, except: string, res: seq<Node>, ids: seq<string>)
    requires Keyed(s) && Enumerates(s.nodes, except, ids) && ListedBy(s.nodes, res, ids)
    ensures forall i, j :: 0 <= i < j < |res| ==> res[i].id != res[j].id
  {
    assert forall i :: 0 <= i < |res| ==> res[i].id == ids[i];
  }

  /** An enumeration has one entry per key other than the excluded one. */
  lemma EnumerationCount(nodes: map<string, Node>, except: string, ids: seq<string>)
    requires Enumerates(nodes, except, ids)
    ensures |ids| == |nodes.Keys - {except}|
  {
    NoDupCard(ids);
    assert (set x | x in ids) == nodes.Keys - {except};
  }

  /** The membership half of `ListingMembers`, for one enumeration. */
  lemma ListedRecords(s: Store, except: string, res: seq<Node>, ids: seq<string>)
    requires Keyed(s) && Enumerates(s.nodes, except, ids) && ListedBy(s.nodes, res, ids)
    ensures forall q: Node :: q in res <==> q.id in s.nodes && q.id != except && s.nodes[q.id] == q
  {
    forall q: Node | q.id in s.nodes && q.id != except && s.nodes[q.id] == q
      ensures q in res
    {
      ListedMember(s.nodes, except, res, ids, q.id);
    }
  }

  /** Strictly increasing addresses. */
  ghost predicate StrictlySorted(ns: seq<Node>) {
    forall i, j :: 0 <= i < j < |ns| ==> Less(ns[i].tunnelIP, ns[j].tunnelIP)
  }

  lemma {:induction false} StrictlySortedUnique(a: seq<Node>, b: seq<Node>)
    requires StrictlySorted(a) && StrictlySorted(b)
    requires forall x :: x in a <==> x in b
    ensures a == b
    decreases |a|
  {
    if |a| == 0 {
      if |b| > 0 {
        HeadIsMember(b);
        assert false;
      }
    } else {
      assert |b| > 0 by {
        assert a[0] in b;
      }
      HeadsAgree(a, b);
      forall x
        ensures x in a[1..] <==> x in b[1..]
      {
        if x in a[1..] {
          NotHead(a, x);
          assert x in b;
          NotHeadMember(b, x);
        }
        if x in b[1..] {
          NotHead(b, x);
          assert x in a;
          NotHeadMember(a, x);
        }
      }
      StrictlySortedUnique(a[1..], b[1..]);
    }
  }

  lemma HeadIsMember(a: seq<Node>)
    requires |a| > 0
    ensures a[0] in a
  {
  }

  /** The head of a strictly sorted sequence is its least element. */
  lemma HeadsAgree(a: seq<Node>, b: seq<Node>)
    requires StrictlySorted(a) && StrictlySorted(b) && |a| > 0 && |b| > 0
    requires forall x :: x in a <==> x in b
    ensures a[0] == b[0]
  {
    assert a[0] in b;
    assert b[0] in a;
    var i :| 0 <= i < |a| && a[i] == b[0];
    var j :| 0 <= j < |b| && b[j] == a[0];
    if j > 0 {
      Irreflexive(a[0].tunnelIP);
      if i > 0 {
        Transitive(a[0].tunnelIP, a[i].tunnelIP, a[0].tunnelIP);
      }
      assert false;
    }
  }

  lemma NotHead(a: seq<Node>, x: Node)
    requires |a| > 0 && StrictlySorted(a) && x in a[1..]
    ensures x != a[0] && x in a
  {
    var k :| 1 <= k < |a| && a[k] == x;
    Irreflexive(a[0].tunnelIP);
  }

  lemma NotHeadMember(a: seq<Node>, x: Node)
    requires |a| > 0 && x in a && x != a[0]
    ensures x in a[1..]
  {
    var k :| 0 <= k < |a| && a[k] == x;
    assert k > 0;
    assert a[1..][k - 1] == x;
  }

  /** A listing of records with pairwise distinct addresses is strictly
      sorted. */
  lemma ListingStrict(nodes: map<string, Node>, except: string, res: seq<Node>)
    requires IsPeerListing(nodes, except, res)
    requires forall a, b :: a in nodes && b in nodes && a != b ==> nodes[a].tunnelIP != nodes[b].tunnelIP
    ensures StrictlySorted(res)
  {
    var ids :| Enumerates(nodes, except, ids) && ListedBy(nodes, res, ids);
    forall i, j | 0 <= i < j < |res|
      ensures Less(res[i].tunnelIP, res[j].tunnelIP)
    {
      assert ids[i] != ids[j];
      Connected(res[i].tunnelIP, res[j].tunnelIP);
    }
  }

  /** A listing holds the record of every key it enumerates. */
  lemma ListedMember(nodes: map<string, Node>, except: string, res: seq<Node>, ids: seq<string>, k: string)
    requires Enumerates(nodes, except, ids) && ListedBy(nodes, res, ids)
    requires k in nodes && k != except
    ensures nodes[k] in res
  {
    var j :| 0 <= j < |ids| && ids[j] == k;
    assert res[j] == nodes[k];
  }

  /** Two listings of the same map hold the same records. */
  lemma ListingsShareMembers(nodes: map<string, Node>, except: string, r1: seq<Node>, r2: seq<Node>)
    requires IsPeerListing(nodes, except, r1) && IsPeerListing(nodes, except, r2)
    ensures forall x :: x in r1 ==> x in r2
  {
    var ids1 :| Enumerates(nodes, except, ids1) && ListedBy(nodes, r1, ids1);
    var ids2 :| Enumerates(nodes, except, ids2) && ListedBy(nodes, r2, ids2);
    forall x | x in r1
      ensures x in r2
    {
      var i :| 0 <= i < |r1| && r1[i] == x;
      ListedMember(nodes, except, r2, ids2, ids1[i]);
    }
  }

  /** When addresses are distinct, as they are in an indexed store, the
      listing is determined: every run of `ListPeers` returns the same
      sequence. */
  lemma ListingUnique(s: Store, except: string, r1: seq<Node>, r2: seq<Node>)
    requires Indexed(s)
    requires IsPeerListing(s.nodes, except, r1) && IsPeerListing(s.nodes, except, r2)
    ensures r1 == r2
  {
    ListingStrict(s.nodes, except, r1);
    ListingStrict(s.nodes, except, r2);
    ListingsShareMembers(s.nodes, except, r1, r2);
    ListingsShareMembers(s.nodes, except, r2, r1);
    StrictlySortedUnique(r1, r2);
  }
}
