/** The agent's WireGuard side: the device configuration `applyWG` hands
    to the WireGuard control client, the `ip` commands that create the
    interface and give it its address and route, and the local endpoints an
    agent announces. Key parsing, name resolution, the control client, the
    `ip` tool and the interface list are parameters. */
module WireGuard {
  import opened Results
  import opened Ints
  import opened Text
  import opened IPv4
  import opened HostPort
  import opened Common

  // ---------------------------------------------------------------------
  // Peer configurations

  /** One entry of a peer's allowed IPs. */
  datatype AllowedIP = AllowedIP(ip: U32, prefixLen: nat)

  /** `wgtypes.PeerConfig` as `applyWG` fills it in. A key is the value the
      key parser returns; a UDP address is the value the resolver returns. */
  datatype PeerConfig = PeerConfig(
    publicKey: string,
    replaceAllowedIPs: bool,
    allowedIPs: seq<AllowedIP>,
    endpoint: Option<string>)

  /** `wgtypes.Config`. */
  datatype DeviceConfig = DeviceConfig(
    privateKey: string,
    listenPort: int,
    replacePeers: bool,
    peers: seq<PeerConfig>)

  /** The services `applyWG` consults: `wgtypes.ParseKey` (`None` for text
      that is not a key) and `net.ResolveUDPAddr` (`None` when resolution
      fails). */
  datatype Env = Env(parseKey: string -> Option<string>, resolve: string -> Option<string>)

  /** The configuration for one peer record, or `None` when the record is
      skipped: no key, no address, or a key that does not parse. */
  function PeerConfigOf(p: Node, env: Env): (c: Option<PeerConfig>)
    ensures c.Some? <==> p.publicKey != "" && p.tunnelIP != "" && env.parseKey(p.publicKey).Some?
    ensures c.Some? ==> c.value.publicKey == env.parseKey(p.publicKey).value && c.value.replaceAllowedIPs
    ensures c.Some? ==> |c.value.allowedIPs| <= 1
    ensures c.Some? ==> forall e :: e in c.value.allowedIPs ==> e.prefixLen == 32 && FormatIPv4(e.ip) == p.tunnelIP
    ensures c.Some? ==> c.value.allowedIPs == AllowedOf(p.tunnelIP)
    ensures c.Some? ==> (c.value.endpoint.Some? <==> p.endpoint != "" && env.resolve(p.endpoint).Some?)
    ensures c.Some? && c.value.endpoint.Some? ==> c.value.endpoint == env.resolve(p.endpoint)
  {
    if p.publicKey == "" || p.tunnelIP == "" then None
    else match env.parseKey(p.publicKey)
      case None => None
      case Some(pub) =>
        var allowed := AllowedOf(p.tunnelIP);
        var endpoint := if p.endpoint != "" then env.resolve(p.endpoint) else None;
        Some(PeerConfig(pub, true, allowed, endpoint))
  }

  /** The allowed IPs of a peer: its tunnel address as a single host, or
      none when the address does not parse. */
  function AllowedOf(tunnelIP: string): (allowed: seq<AllowedIP>)
    ensures |allowed| <= 1
    ensures |allowed| == 1 <==> ParseIPv4(tunnelIP).Some?
    ensures forall e :: e in allowed ==> e.prefixLen == 32 && FormatIPv4(e.ip) == tunnelIP
  {
    match ParseIPv4(tunnelIP)
    case Some(a) =>
      ParseThenFormat(tunnelIP);
      [AllowedIP(a, 32)]
    case None => []
  }

  /** The peer loop of `applyWG`: the configurations of the records that
      are not skipped, in the records' order. */
  function BuildPeerConfigs(peers: seq<Node>, env: Env): (cs: seq<PeerConfig>)
    ensures |cs| <= |peers|
    ensures forall i :: 0 <= i < |cs| ==> cs[i].replaceAllowedIPs
    decreases |peers|
  {
    if |peers| == 0 then []
    else
      var rest := BuildPeerConfigs(peers[1..], env);
      match PeerConfigOf(peers[0], env)
      case None => rest
      case Some(c) => [c] + rest
  }

  /** Building distributes over concatenation: a skipped record does not
      stop the records after it from being configured. */
  lemma {:induction false} BuildConcat(a: seq<Node>, b: seq<Node>, env: Env)
    ensures BuildPeerConfigs(a + b, env) == BuildPeerConfigs(a, env) + BuildPeerConfigs(b, env)
    decreases |a|
  {
    if |a| > 0 {
      assert (a + b)[0] == a[0];
      assert (a + b)[1..] == a[1..] + b;
      BuildConcat(a[1..], b, env);
    } else {
      assert a + b == b;
    }
  }

  /** One record contributes its own configuration, or nothing. */
  lemma BuildSingle(p: Node, env: Env)
    ensures BuildPeerConfigs([p], env) == (if PeerConfigOf(p, env).Some? then [PeerConfigOf(p, env).value] else [])
  {
    assert [p][1..] == [];
  }

  /** A skipped record drops out and everything around it stays. */
  lemma BuildSkips(a: seq<Node>, p: Node, b: seq<Node>, env: Env)
    requires PeerConfigOf(p, env).None?
    ensures BuildPeerConfigs(a + [p] + b, env) == BuildPeerConfigs(a, env) + BuildPeerConfigs(b, env)
  {
    BuildConcat(a + [p], b, env);
    BuildConcat(a, [p], env);
    BuildSingle(p, env);
  }

  /** Every record is configured exactly when none is skipped. */
  lemma {:induction false} BuildKeepsAll(peers: seq<Node>, env: Env)
    ensures |BuildPeerConfigs(peers, env)| == |peers| <==> forall i :: 0 <= i < |peers| ==> PeerConfigOf(peers[i], env).Some?
    decreases |peers|
  {
    if |peers| > 0 {
      BuildKeepsAll(peers[1..], env);
      assert forall i :: 0 < i < |peers| ==> peers[i] == peers[1..][i - 1];
    }
  }

  // ---------------------------------------------------------------------
  // The device the configuration is applied to

  /** What the device keeps for one peer. */
  datatype PeerState = PeerState(allowedIPs: seq<AllowedIP>, endpoint: Option<string>)

  /** A WireGuard device: its key, port and peers by public key. */
  datatype Device = Device(privateKey: Option<string>, listenPort: Option<int>, peers: map<string, PeerState>)

  /** Applying one peer configuration, with `wgtypes` semantics: the
      allowed IPs are replaced or appended to, and an absent endpoint keeps
      the one the device had. */
  function ApplyPeer(m: map<string, PeerState>, c: PeerConfig): map<string, PeerState> {
    var prior := if c.publicKey in m then m[c.publicKey] else PeerState([], None);
    var allowed := if c.replaceAllowedIPs then c.allowedIPs else prior.allowedIPs + c.allowedIPs;
    var endpoint := if c.endpoint.Some? then c.endpoint else prior.endpoint;
    m[c.publicKey := PeerState(allowed, endpoint)]
  }

  function ApplyPeers(m: map<string, PeerState>, cs: seq<PeerConfig>): (r: map<string, PeerState>)
    ensures r.Keys == m.Keys + set c | c in cs :: c.publicKey
    decreases |cs|
  {
    if |cs| == 0 then m
    else
      assert (set c | c in cs :: c.publicKey) == {cs[0].publicKey} + set c | c in cs[1..] :: c.publicKey;
      ApplyPeers(ApplyPeer(m, cs[0]), cs[1..])
  }

  /** `ConfigureDevice`: with `ReplacePeers` the old peers are dropped
      before the new ones are applied. */
  function Configure(d: Device, cfg: DeviceConfig): Device {
    Device(Some(cfg.privateKey), Some(cfg.listenPort),
           ApplyPeers(if cfg.replacePeers then map[] else d.peers, cfg.peers))
  }

  /** With every peer configuration replacing its allowed IPs, a peer ends
      up with the allowed IPs of the last configuration for its key,
      whatever the map held before. */
  lemma {:induction false} LastConfigWins(m: map<string, PeerState>, cs: seq<PeerConfig>, k: nat)
    requires k < |cs| && forall i :: 0 <= i < |cs| ==> cs[i].replaceAllowedIPs
    requires forall i :: k < i < |cs| ==> cs[i].publicKey != cs[k].publicKey
    ensures ApplyPeers(m, cs)[cs[k].publicKey].allowedIPs == cs[k].allowedIPs
    decreases |cs|
  {
    if k == 0 {
      KeyUntouched(ApplyPeer(m, cs[0]), cs[1..], cs[0].publicKey);
    } else {
      LastConfigWins(ApplyPeer(m, cs[0]), cs[1..], k - 1);
    }
  }

  /** A key no later configuration names keeps its state. */
  lemma {:induction false} KeyUntouched(m: map<string, PeerState>, cs: seq<PeerConfig>, key: string)
    requires key in m && forall i :: 0 <= i < |cs| ==> cs[i].publicKey != key
    ensures ApplyPeers(m, cs)[key] == m[key]
    decreases |cs|
  {
    if |cs| > 0 {
      KeyUntouched(ApplyPeer(m, cs[0]), cs[1..], key);
    }
  }

  /** Under `ReplacePeers` the configured device does not depend on the
      device before, so applying the same configuration twice is the same
      as applying it once. */
  lemma ConfigureIdempotent(d: Device, cfg: DeviceConfig)
    requires cfg.replacePeers
    ensures Configure(Configure(d, cfg), cfg) == Configure(d, cfg)
    ensures Configure(d, cfg).peers.Keys == set c | c in cfg.peers :: c.publicKey
  {
  }

  // ---------------------------------------------------------------------
  // applyWG

  /** What `applyWG` did: the device name and configuration it handed to
      `ConfigureDevice`, if it got that far, and its result. */
  datatype WgStep = WgStep(configured: Option<(string, DeviceConfig)>, result: Outcome)

  /** `applyWG`. `clientErr` is the error of opening the control client,
      `configureErr` that of `ConfigureDevice`. `applyWG`'s `self`
      argument is not read. */
  function ApplyWG(iface: string, listenPort: int, priv: string, peers: seq<Node>, env: Env,
                   clientErr: Option<string>, configureErr: Option<string>): (r: WgStep)
    ensures r.configured.Some? <==> clientErr.None? && env.parseKey(priv).Some?
    ensures r.result.Pass? <==> r.configured.Some? && configureErr.None?
    ensures clientErr.None? && env.parseKey(priv).None? ==> r.result == Fail("invalid private key")
    ensures r.configured.Some? ==>
      var (dev, cfg) := r.configured.value;
      dev == iface && cfg.privateKey == env.parseKey(priv).value && cfg.listenPort == listenPort
      && cfg.replacePeers && cfg.peers == BuildPeerConfigs(peers, env)
  {
    match clientErr
    case Some(e) => WgStep(None, Fail(e))
    case None =>
      match env.parseKey(priv)
      case None => WgStep(None, Fail("invalid private key"))
      case Some(pk) =>
        var cfg := DeviceConfig(pk, listenPort, true, BuildPeerConfigs(peers, env));
        WgStep(Some((iface, cfg)), if configureErr.Some? then Fail(configureErr.value) else Pass)
  }

  /** The resulting device is a function of the arguments alone: two
      devices configured by `applyWG` with the same arguments end up equal,
      and re-applying changes nothing. */
  lemma ApplyWGDeterminesDevice(d1: Device, d2: Device, iface: string, listenPort: int, priv: string,
                                peers: seq<Node>, env: Env)
    requires ApplyWG(iface, listenPort, priv, peers, env, None, None).configured.Some?
    ensures var cfg := ApplyWG(iface, listenPort, priv, peers, env, None, None).configured.value.1;
      Configure(d1, cfg) == Configure(d2, cfg) && Configure(Configure(d1, cfg), cfg) == Configure(d1, cfg)
  {
    var cfg := ApplyWG(iface, listenPort, priv, peers, env, None, None).configured.value.1;
    ConfigureIdempotent(d1, cfg);
  }

  // ---------------------------------------------------------------------
  // ip(8) commands

  /** The `ip` invocations the agent makes. */
  datatype Cmd =
    | LinkShow(dev: string)
    | LinkAdd(dev: string)
    | LinkUp(dev: string)
    | AddrFlush(dev: string)
    | AddrAdd(addr: string, dev: string)
    | RouteShow(dev: string)
    | RouteAdd(cidr: string, dev: string)

  /** The commands run, in order, and the result reported. */
  datatype Run = Run(cmds: seq<Cmd>, result: Outcome)

  /** `ensureWGDevice`. `ok(c)` tells whether command `c` succeeds. */
  function EnsureDevice(iface: string, ok: Cmd -> bool): (r: Run)
    ensures |r.cmds| >= 1 && r.cmds[0] == LinkShow(iface)
    ensures LinkAdd(iface) in r.cmds <==> !ok(LinkShow(iface))
    ensures LinkUp(iface) in r.cmds <==> ok(LinkShow(iface)) || ok(LinkAdd(iface))
    ensures r.result.Pass? <==> (ok(LinkShow(iface)) || ok(LinkAdd(iface))) && ok(LinkUp(iface))
    ensures LinkAdd(iface) in r.cmds && LinkUp(iface) in r.cmds ==>
      r.cmds == [LinkShow(iface), LinkAdd(iface), LinkUp(iface)]
    ensures LinkAdd(iface) !in r.cmds ==> r.cmds == [LinkShow(iface), LinkUp(iface)]
    ensures LinkUp(iface) !in r.cmds ==> r.cmds == [LinkShow(iface), LinkAdd(iface)]
    ensures r.result.Fail? ==> r.result.msg == (if LinkUp(iface) in r.cmds then "link up" else "add wg dev")
  {
    var probe := [LinkShow(iface)];
    var added := if ok(LinkShow(iface)) then probe else probe + [LinkAdd(iface)];
    if !ok(LinkShow(iface)) && !ok(LinkAdd(iface)) then Run(added, Fail("add wg dev"))
    else
      var cmds := added + [LinkUp(iface)];
      Run(cmds, if ok(LinkUp(iface)) then Pass else Fail("link up"))
  }

  /** `ensureWGDevice` succeeds exactly when its last command is a
      link-up that succeeds, and it fails at the first command that does. */
  lemma EnsureDeviceEndsUp(iface: string, ok: Cmd -> bool)
    ensures var r := EnsureDevice(iface, ok);
      r.result.Pass? <==> r.cmds[|r.cmds| - 1] == LinkUp(iface) && ok(LinkUp(iface))
    ensures var r := EnsureDevice(iface, ok);
      r.result.Fail? ==> !ok(r.cmds[|r.cmds| - 1])
    ensures var r := EnsureDevice(iface, ok);
      forall i :: 0 < i < |r.cmds| - 1 ==> ok(r.cmds[i])
  {
    var r := EnsureDevice(iface, ok);
    if LinkAdd(iface) in r.cmds && LinkUp(iface) in r.cmds {
      assert r.cmds[1] == LinkAdd(iface);
    } else if LinkAdd(iface) !in r.cmds {
      assert r.cmds[1] == LinkUp(iface);
    } else {
      assert r.cmds[1] == LinkAdd(iface);
    }
  }

  /** `ensureWGAddrRoute`. `routes` is the text `ip route show dev` prints
      (used whether or not that command fails). */
  function EnsureAddrRoute(iface: string, selfIP: string, networkCIDR: string, ok: Cmd -> bool, routes: string): (r: Run)
    ensures r.result.Fail? <==> selfIP != "" && !ok(AddrAdd(selfIP + "/32", iface))
    ensures r.result.Fail? ==> r.result.msg == "addr add"
    ensures selfIP == "" ==> forall c :: c in r.cmds ==> !c.AddrFlush? && !c.AddrAdd?
    ensures selfIP != "" ==> |r.cmds| >= 2 && r.cmds[0] == AddrFlush(iface) && r.cmds[1] == AddrAdd(selfIP + "/32", iface)
    ensures RouteAdd(networkCIDR, iface) in r.cmds <==>
      r.result.Pass? && networkCIDR != "" && !ContainsSubstring(routes, networkCIDR)
  {
    var addr := if selfIP != "" then [AddrFlush(iface), AddrAdd(selfIP + "/32", iface)] else [];
    if selfIP != "" && !ok(AddrAdd(selfIP + "/32", iface)) then Run(addr, Fail("addr add"))
    else
      var route :=
        if networkCIDR == "" then []
        else if ContainsSubstring(routes, networkCIDR) then [RouteShow(iface)]
        else [RouteShow(iface), RouteAdd(networkCIDR, iface)];
      Run(addr + route, Pass)
  }

  /** Only the address assignment can fail the step: two runs whose `ip`
      tools agree on that one command run the same commands to the same
      result, whatever the flush and route commands do. */
  lemma OnlyAddrAddMatters(iface: string, selfIP: string, networkCIDR: string,
                           ok1: Cmd -> bool, ok2: Cmd -> bool, routes: string)
    requires ok1(AddrAdd(selfIP + "/32", iface)) == ok2(AddrAdd(selfIP + "/32", iface))
    ensures EnsureAddrRoute(iface, selfIP, networkCIDR, ok1, routes) == EnsureAddrRoute(iface, selfIP, networkCIDR, ok2, routes)
  {
  }

  // ---------------------------------------------------------------------
  // Local endpoints

  /** An interface address as the interface list reports it: none, one
      with a 4-byte form, or an IPv6 address. */
  datatype LocalAddr = NoIP | V4(a: U32) | V6

  /** The addresses `gatherLocalEndpoints` keeps. */
  predicate Eligible(x: LocalAddr) {
    x.V4? && !IsLoopback(x.a) && !IsUnspecified(x.a)
  }

  /** `ip:port` for an address. */
  function EndpointText(a: U32, port: nat): string {
    JoinHostPort(FormatIPv4(a), Itoa(port))
  }

  /** The endpoints of the eligible addresses, in order, before
      de-duplication. */
  function Candidates(addrs: seq<LocalAddr>, port: nat): (eps: seq<string>)
    ensures |eps| <= |addrs|
    decreases |addrs|
  {
    if |addrs| == 0 then []
    else
      var rest := Candidates(addrs[1..], port);
      if Eligible(addrs[0]) then [EndpointText(addrs[0].a, port)] + rest else rest
  }

  /** The first occurrences of the elements of `xs` not in `seen`, in
      order. */
  function DedupFrom(xs: seq<string>, seen: set<string>): seq<string>
    decreases |xs|
  {
    if |xs| == 0 then []
    else if xs[0] in seen then DedupFrom(xs[1..], seen)
    else [xs[0]] + DedupFrom(xs[1..], seen + {xs[0]})
  }

  function Dedup(xs: seq<string>): seq<string> {
    DedupFrom(xs, {})
  }

  /** The endpoints an agent gathers: none without a listening port,
      otherwise the eligible addresses' endpoints, each once. */
  function LocalEndpoints(listenPort: int, addrs: seq<LocalAddr>): seq<string> {
    if listenPort <= 0 then [] else Dedup(Candidates(addrs, listenPort))
  }

  /** `gatherLocalEndpoints` over the addresses of every interface, in the
      order the interface list gives them: one pass collecting candidates,
      one pass dropping repeats with a set of those already seen. */
  method GatherLocalEndpoints(listenPort: int, addrs: seq<LocalAddr>) returns (out: seq<string>)
    ensures listenPort <= 0 ==> out == []
    ensures listenPort > 0 ==> out == Dedup(Candidates(addrs, listenPort))
    ensures out == LocalEndpoints(listenPort, addrs)
  {
    if listenPort <= 0 {
      return [];
    }
    var eps: seq<string> := [];
    var i := |addrs|;
    while i > 0
      invariant 0 <= i <= |addrs|
      invariant eps == Candidates(addrs[i..], listenPort)
    {
      i := i - 1;
      assert addrs[i..][1..] == addrs[i + 1..];
      if Eligible(addrs[i]) {
        eps := [EndpointText(addrs[i].a, listenPort)] + eps;
      }
    }
    assert addrs[0..] == addrs;
    out := DedupMethod(eps);
  }

  /** The de-duplication loop: a set of the endpoints seen so far. */
  method DedupMethod(eps: seq<string>) returns (out: seq<string>)
    ensures out == Dedup(eps)
  {
    out := [];
    var seen: set<string> := {};
    var i := 0;
    while i < |eps|
      invariant 0 <= i <= |eps|
      invariant out + DedupFrom(eps[i..], seen) == Dedup(eps)
    {
      assert eps[i..][1..] == eps[i + 1..];
      if eps[i] !in seen {
        assert out + DedupFrom(eps[i..], seen) == (out + [eps[i]]) + DedupFrom(eps[i + 1..], seen + {eps[i]});
        out := out + [eps[i]];
        seen := seen + {eps[i]};
      }
      i := i + 1;
    }
  }

  ghost predicate Distinct(xs: seq<string>) {
    forall i, j :: 0 <= i < j < |xs| ==> xs[i] != xs[j]
  }

  /** De-duplication keeps exactly the unseen elements, once each. */
  lemma {:induction false} DedupFromSpec(xs: seq<string>, seen: set<string>)
    ensures Distinct(DedupFrom(xs, seen))
    ensures forall x :: x in DedupFrom(xs, seen) <==> x in xs && x !in seen
    decreases |xs|
  {
    if |xs| > 0 {
      var t := xs[1..];
      if xs[0] in seen {
        DedupFromSpec(t, seen);
        assert forall x :: x in xs <==> x == xs[0] || x in t;
      } else {
        DedupFromSpec(t, seen + {xs[0]});
        assert forall x :: x in xs <==> x == xs[0] || x in t;
      }
    }
  }

  /** Index of the first occurrence of `x` in `xs`. */
  function FirstIndex(xs: seq<string>, x: string): (i: nat)
    requires x in xs
    ensures i < |xs| && xs[i] == x && forall j :: 0 <= j < i ==> xs[j] != x
  {
    if xs[0] == x then 0 else 1 + FirstIndex(xs[1..], x)
  }

  /** The elements of `d` come from `xs`, in the order of their first
      occurrences there. */
  ghost predicate FirstOccurrenceOrder(xs: seq<string>, d: seq<string>) {
    forall i, j :: 0 <= i < j < |d| ==> d[i] in xs && d[j] in xs && FirstIndex(xs, d[i]) < FirstIndex(xs, d[j])
  }

  lemma FirstIndexTail(xs: seq<string>, y: string)
    requires |xs| > 0 && y in xs[1..] && y != xs[0]
    ensures y in xs && FirstIndex(xs, y) == 1 + FirstIndex(xs[1..], y)
  {
  }

  /** Prepending an element the list does not hold keeps the order, with
      or without that element in front. */
  lemma ConsOrder(xs: seq<string>, e: seq<string>, withHead: bool)
    requires |xs| > 0 && FirstOccurrenceOrder(xs[1..], e)
    requires forall y :: y in e ==> y in xs[1..] && y != xs[0]
    ensures FirstOccurrenceOrder(xs, if withHead then [xs[0]] + e else e)
  {
    forall y | y in e
      ensures y in xs && FirstIndex(xs, y) == 1 + FirstIndex(xs[1..], y)
    {
      FirstIndexTail(xs, y);
    }
    if withHead {
      var d := [xs[0]] + e;
      forall i, j | 0 <= i < j < |d|
        ensures d[i] in xs && d[j] in xs && FirstIndex(xs, d[i]) < FirstIndex(xs, d[j])
      {
        assert d[j] == e[j - 1];
        if i > 0 {
          assert d[i] == e[i - 1];
        }
      }
    }
  }

  /** Elements of the de-duplicated list appear in the order of their
      first occurrences. */
  lemma {:induction false} DedupFromOrder(xs: seq<string>, seen: set<string>)
    ensures FirstOccurrenceOrder(xs, DedupFrom(xs, seen))
    decreases |xs|
  {
    if |xs| > 0 {
      var t := xs[1..];
      var unseen := xs[0] !in seen;
      var s' := if unseen then seen + {xs[0]} else seen;
      DedupFromOrder(t, s');
      DedupFromSpec(t, s');
      var e := DedupFrom(t, s');
      assert DedupFrom(xs, seen) == if unseen then [xs[0]] + e else e;
      ConsOrder(xs, e, unseen);
    }
  }

  /** The gathered endpoints: no duplicates, the same set as before
      de-duplication, kept in first-occurrence order. */
  lemma DedupSpec(xs: seq<string>)
    ensures Distinct(Dedup(xs))
    ensures forall x :: x in Dedup(xs) <==> x in xs
    ensures FirstOccurrenceOrder(xs, Dedup(xs))
  {
    assert Dedup(xs) == DedupFrom(xs, {});
    DedupFromSpec(xs, {});
    DedupFromOrder(xs, {});
  }

  /** Every gathered endpoint is `a:port` for an eligible address `a`, and
      `SplitHostPort` takes it back apart. */
  lemma {:induction false} CandidatesShape(addrs: seq<LocalAddr>, port: nat, e: string)
    requires e in Candidates(addrs, port)
    ensures exists i :: 0 <= i < |addrs| && Eligible(addrs[i]) && e == EndpointText(addrs[i].a, port)
    ensures ValidHostPort(e)
    decreases |addrs|
  {
    var rest := Candidates(addrs[1..], port);
    if Eligible(addrs[0]) && e == EndpointText(addrs[0].a, port) {
      EndpointSplits(addrs[0].a, port);
    } else {
      CandidatesShape(addrs[1..], port, e);
      var i :| 0 <= i < |addrs| - 1 && Eligible(addrs[1..][i]) && e == EndpointText(addrs[1..][i].a, port);
      assert addrs[i + 1] == addrs[1..][i];
    }
  }

  /** An endpoint text splits into the dotted quad and the port. */
  lemma EndpointSplits(a: U32, port: nat)
    ensures SplitHostPort(EndpointText(a, port)) == Some((FormatIPv4(a), Itoa(port)))
  {
    var h, p := FormatIPv4(a), Itoa(port);
    FormatIPv4Chars(a);
    assert !HasChar(h, ':') && !HasChar(h, '[') && !HasChar(h, ']');
    assert !HasChar(p, ':') && !HasChar(p, '[') && !HasChar(p, ']');
    SplitJoin(h, p);
  }

  /** `e` is the endpoint of the eligible address at index `i`, and splits
      back into that address's dotted quad and the port. */
  predicate EndpointOf(addrs: seq<LocalAddr>, port: nat, i: int, e: string) {
    0 <= i < |addrs| && Eligible(addrs[i]) && e == EndpointText(addrs[i].a, port)
    && SplitHostPort(e) == Some((FormatIPv4(addrs[i].a), Itoa(port)))
  }

  /** What an agent announces: distinct endpoints, one for each eligible
      local address and nothing else, each of which `SplitHostPort` takes
      back apart into the dotted quad and the port. */
  lemma GatheredEndpoints(listenPort: int, addrs: seq<LocalAddr>)
    requires listenPort > 0
    ensures Distinct(LocalEndpoints(listenPort, addrs))
    ensures forall e :: e in LocalEndpoints(listenPort, addrs) ==> exists i :: EndpointOf(addrs, listenPort, i, e)
    ensures forall i :: 0 <= i < |addrs| && Eligible(addrs[i]) ==>
      EndpointText(addrs[i].a, listenPort) in LocalEndpoints(listenPort, addrs)
  {
    var eps := Candidates(addrs, listenPort);
    DedupSpec(eps);
    forall e | e in LocalEndpoints(listenPort, addrs)
      ensures exists i :: EndpointOf(addrs, listenPort, i, e)
    {
      CandidatesShape(addrs, listenPort, e);
      var i :| 0 <= i < |addrs| && Eligible(addrs[i]) && e == EndpointText(addrs[i].a, listenPort);
      EndpointSplits(addrs[i].a, listenPort);
      assert EndpointOf(addrs, listenPort, i, e);
    }
    forall i | 0 <= i < |addrs| && Eligible(addrs[i])
      ensures EndpointText(addrs[i].a, listenPort) in eps
    {
      CandidatesComplete(addrs, listenPort, i);
    }
  }

  /** Every eligible address yields a candidate. */
  lemma {:induction false} CandidatesComplete(addrs: seq<LocalAddr>, port: nat, i: nat)
    requires i < |addrs| && Eligible(addrs[i])
    ensures EndpointText(addrs[i].a, port) in Candidates(addrs, port)
    decreases |addrs|
  {
    if i > 0 {
      CandidatesComplete(addrs[1..], port, i - 1);
      assert addrs[1..][i - 1] == addrs[i];
    }
  }
}
