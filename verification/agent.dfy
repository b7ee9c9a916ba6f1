/** The agent as a state machine: unregistered until a registration
    succeeds, then fetching peers, announcing its endpoints and configuring
    its WireGuard device. The controller's reply to each request is a
    parameter, as is everything the device steps consult. */
module Agent {
  import opened Results
  import opened Text
  import opened Common
  import opened WireGuard
  import HostPort
  import Registry
  import ControlAPI

  /** The agent's configuration. */
  datatype Config = Config(
    controller: string,
    hostname: string,
    os: string,
    version: string,
    endpoints: seq<string>,
    iface: string,
    listenPort: int)

  /** The agent: its configuration, its own record once registered, its
      private key and the overlay network's CIDR text. */
  datatype AgentState = AgentState(cfg: Config, self: Option<Node>, priv: string, netCIDR: string)

  /** The interface name used when none is configured. */
  const DefaultIface := "wg0"

  const NotRegistered := "not registered"

  /** What came back for a request: a transport error, or a status with
      the body decoded (`Err` when decoding failed). */
  datatype Reply<T> = TransportError(err: string) | Response(status: int, body: Result<T>)

  /** The requests the agent sends to the controller. */
  datatype Request = PostRegister(reg: RegisterRequest) | GetPeers | PostAnnounce(ann: AnnounceRequest)

  /** A status code as `%d` prints it. */
  function StatusText(n: int): (s: string)
    ensures |s| >= 1
  {
    if n < 0 then "-" + Itoa(-n) else Itoa(n)
  }

  /** `New`: configured, not yet registered. */
  function New(cfg: Config): (a: AgentState)
    ensures a.cfg == cfg && a.self.None? && a.priv == "" && a.netCIDR == ""
  {
    AgentState(cfg, None, "", "")
  }

  /** The registration request built from the configuration. */
  function RegisterRequestOf(cfg: Config): (req: RegisterRequest)
    ensures req.hostname == cfg.hostname && req.os == cfg.os && req.version == cfg.version
    ensures req.endpoints == cfg.endpoints && req.listenPort == cfg.listenPort
  {
    RegisterRequest(cfg.hostname, cfg.os, cfg.version, cfg.endpoints, cfg.listenPort)
  }

  /** `Register`, given the reply to `PostRegister(RegisterRequestOf(a.cfg))`.
      The agent takes its record, key and network only from a 200 reply
      that decoded; any failure leaves it as it was. */
  function Register(a: AgentState, reply: Reply<RegisterResponse>): (r: (AgentState, Outcome))
    ensures r.1.Pass? <==> reply.Response? && reply.status == ControlAPI.StatusOK && reply.body.Ok?
    ensures r.1.Pass? ==>
      r.0 == a.(self := Some(reply.body.value.node), priv := reply.body.value.privKey,
                netCIDR := reply.body.value.networkCIDR)
    ensures r.1.Fail? ==> r.0 == a
    ensures reply.Response? && reply.status != ControlAPI.StatusOK ==>
      r.1 == Fail("register status " + StatusText(reply.status))
  {
    match reply
    case TransportError(e) => (a, Fail(e))
    case Response(status, body) =>
      if status != ControlAPI.StatusOK then (a, Fail("register status " + StatusText(status)))
      else match body
        case Err(e) => (a, Fail(e))
        case Ok(resp) =>
          (a.(self := Some(resp.node), priv := resp.privKey, netCIDR := resp.networkCIDR), Pass)
  }

  /** `FetchPeers`: the request it sends (none while unregistered) and the
      peers it returns. */
  function FetchPeers(a: AgentState, reply: Reply<PeerUpdate>): (r: (Option<Request>, Result<seq<Node>>))
    ensures a.self.None? ==> r == (None, Err(NotRegistered))
    ensures a.self.Some? ==> r.0 == Some(GetPeers)
    ensures r.1.Ok? <==> a.self.Some? && reply.Response? && reply.status == ControlAPI.StatusOK && reply.body.Ok?
    ensures r.1.Ok? ==> r.1.value == reply.body.value.peers
  {
    if a.self.None? then (None, Err(NotRegistered))
    else match reply
      case TransportError(e) => (Some(GetPeers), Err(e))
      case Response(status, body) =>
        if status != ControlAPI.StatusOK then (Some(GetPeers), Err("peers status " + StatusText(status)))
        else match body
          case Err(e) => (Some(GetPeers), Err(e))
          case Ok(u) => (Some(GetPeers), Ok(u.peers))
  }

  /** `Announce`, given the interface addresses and the reply: the request
      it sends (none while unregistered) and its result. The body of the
      reply is not read. */
  function Announce(a: AgentState, addrs: seq<LocalAddr>, reply: Reply<()>): (r: (Option<Request>, Outcome))
    ensures a.self.None? ==> r == (None, Fail(NotRegistered))
    ensures a.self.Some? ==>
      r.0 == Some(PostAnnounce(AnnounceRequest(a.self.value.id, LocalEndpoints(a.cfg.listenPort, addrs), a.cfg.listenPort)))
    ensures r.1.Pass? <==> a.self.Some? && reply.Response? && reply.status == ControlAPI.StatusNoContent
  {
    if a.self.None? then (None, Fail(NotRegistered))
    else
      var req := PostAnnounce(AnnounceRequest(a.self.value.id, LocalEndpoints(a.cfg.listenPort, addrs), a.cfg.listenPort));
      match reply
      case TransportError(e) => (Some(req), Fail(e))
      case Response(status, _) =>
        if status != ControlAPI.StatusNoContent then (Some(req), Fail("announce status " + StatusText(status)))
        else (Some(req), Pass)
  }

  /** An announce the controller accepts replaces the node's candidate
      endpoints with the agent's gathered ones, and the first of them becomes
      the node's preferred endpoint. */
  lemma AnnounceReachesRegistry(a: AgentState, addrs: seq<LocalAddr>, reply: Reply<()>, s: Registry.Store)
    requires a.self.Some? && a.self.value.id in s.nodes
    ensures var eps := LocalEndpoints(a.cfg.listenPort, addrs);
      var r := ControlAPI.HandleAnnounce(s, "POST", Some(Announce(a, addrs, reply).0.value.ann));
      r.0 == ControlAPI.StatusNoContent
      && a.self.value.id in r.1.nodes
      && r.1.nodes[a.self.value.id].endpoints == eps
      && r.1.nodes[a.self.value.id].endpoint == (if |eps| == 0 then "" else eps[0])
  {
    var eps := LocalEndpoints(a.cfg.listenPort, addrs);
    if |eps| > 0 {
      GatheredEndpoints(a.cfg.listenPort, addrs);
      assert eps[0] in eps;
      var i :| EndpointOf(addrs, a.cfg.listenPort, i, eps[0]);
      assert HostPort.ValidHostPort(eps[0]);
      assert HostPort.FirstValidAt(eps, 0);
    }
  }

  /** While unregistered, fetching and announcing send nothing, so what the
      network would have answered makes no difference. */
  lemma UnregisteredSendsNothing(a: AgentState, addrs: seq<LocalAddr>,
                                 p1: Reply<PeerUpdate>, p2: Reply<PeerUpdate>, n1: Reply<()>, n2: Reply<()>)
    requires a.self.None?
    ensures FetchPeers(a, p1) == FetchPeers(a, p2) && FetchPeers(a, p1).0.None?
    ensures Announce(a, addrs, n1) == Announce(a, addrs, n2) && Announce(a, addrs, n1).0.None?
  {
  }

  /** Only registration moves the agent out of the unregistered state, and
      only a successful one. */
  lemma RegistrationIsTheOnlyWayIn(a: AgentState, reply: Reply<RegisterResponse>)
    requires a.self.None?
    ensures Register(a, reply).0.self.Some? <==> Register(a, reply).1.Pass?
  {
  }

  /** What the device steps consult: the outcome of each `ip` command, the
      route listing, key parsing and resolution, and the errors of the
      WireGuard control client. */
  datatype System = System(
    ok: Cmd -> bool,
    routes: string,
    env: Env,
    clientErr: Option<string>,
    configureErr: Option<string>)

  /** What `ApplyWireGuard` did: the `ip` commands it ran, the
      configuration it handed to the device (if it got that far), and its
      result. */
  datatype Applied = Applied(cmds: seq<Cmd>, configured: Option<(string, DeviceConfig)>, result: Outcome)

  predicate CanApply(a: AgentState) {
    a.self.Some? && a.priv != ""
  }

  function IfaceOf(cfg: Config): (name: string)
    ensures name != ""
    ensures cfg.iface != "" ==> name == cfg.iface
  {
    if cfg.iface == "" then DefaultIface else cfg.iface
  }

  /** `ApplyWireGuard`: guard, default the interface name (kept in the
      configuration), then device, address and route, and peers, stopping at
      the first step that fails. */
  function ApplyWireGuard(a: AgentState, peers: seq<Node>, sys: System): (r: (AgentState, Applied))
    ensures !CanApply(a) ==> r == (a, Applied([], None, Fail(NotRegistered)))
    ensures CanApply(a) ==> r.0 == a.(cfg := a.cfg.(iface := IfaceOf(a.cfg))) && r.0.cfg.iface != ""
    ensures CanApply(a) ==>
      var dev := EnsureDevice(r.0.cfg.iface, sys.ok);
      var ar := EnsureAddrRoute(r.0.cfg.iface, a.self.value.tunnelIP, a.netCIDR, sys.ok, sys.routes);
      var wg := ApplyWG(r.0.cfg.iface, a.cfg.listenPort, a.priv, peers, sys.env, sys.clientErr, sys.configureErr);
      (dev.result.Fail? ==> r.1 == Applied(dev.cmds, None, Fail("ensure wg dev: " + dev.result.msg)))
      && (dev.result.Pass? && ar.result.Fail? ==>
            r.1 == Applied(dev.cmds + ar.cmds, None, Fail("ensure addr/route: " + ar.result.msg)))
      && (dev.result.Pass? && ar.result.Pass? ==> r.1 == Applied(dev.cmds + ar.cmds, wg.configured, wg.result))
    ensures r.1.configured.Some? ==> r.1.configured.value.0 == r.0.cfg.iface && r.1.configured.value.1.replacePeers
    ensures r.1.result.Pass? ==> r.1.configured.Some?
  {
    if !CanApply(a) then (a, Applied([], None, Fail(NotRegistered)))
    else
      var iface := IfaceOf(a.cfg);
      var a' := a.(cfg := a.cfg.(iface := iface));
      var dev := EnsureDevice(iface, sys.ok);
      if dev.result.Fail? then (a', Applied(dev.cmds, None, Fail("ensure wg dev: " + dev.result.msg)))
      else
        var ar := EnsureAddrRoute(iface, a.self.value.tunnelIP, a.netCIDR, sys.ok, sys.routes);
        if ar.result.Fail? then (a', Applied(dev.cmds + ar.cmds, None, Fail("ensure addr/route: " + ar.result.msg)))
        else
          var wg := ApplyWG(iface, a.cfg.listenPort, a.priv, peers, sys.env, sys.clientErr, sys.configureErr);
          (a', Applied(dev.cmds + ar.cmds, wg.configured, wg.result))
  }

  /** The device is configured only after the interface is up and, when
      the agent has an address, that address is assigned. */
  lemma ConfiguredOnlyAfterSetup(a: AgentState, peers: seq<Node>, sys: System)
    requires ApplyWireGuard(a, peers, sys).1.configured.Some?
    ensures CanApply(a)
    ensures var iface := ApplyWireGuard(a, peers, sys).0.cfg.iface;
      var cmds := ApplyWireGuard(a, peers, sys).1.cmds;
      LinkUp(iface) in cmds && sys.ok(LinkUp(iface))
      && (a.self.value.tunnelIP != "" ==>
            AddrAdd(a.self.value.tunnelIP + "/32", iface) in cmds && sys.ok(AddrAdd(a.self.value.tunnelIP + "/32", iface)))
  {
    var r := ApplyWireGuard(a, peers, sys);
    var iface := r.0.cfg.iface;
    var dev := EnsureDevice(iface, sys.ok);
    var ar := EnsureAddrRoute(iface, a.self.value.tunnelIP, a.netCIDR, sys.ok, sys.routes);
    assert r.1.cmds == dev.cmds + ar.cmds;
    if a.self.value.tunnelIP != "" {
      assert ar.cmds[1] in ar.cmds;
    }
  }

  /** "Safe to call repeatedly": a second call from the state the first
      left, with the same peers and the same command outcomes, does exactly
      the same, and the device it configures ends up as after the first. */
  lemma ApplyIsRepeatable(a: AgentState, peers: seq<Node>, sys: System, d: Device)
    ensures var (a1, r1) := ApplyWireGuard(a, peers, sys);
      ApplyWireGuard(a1, peers, sys) == (a1, r1)
    ensures var r1 := ApplyWireGuard(a, peers, sys).1;
      r1.configured.Some? ==>
        Configure(Configure(d, r1.configured.value.1), r1.configured.value.1) == Configure(d, r1.configured.value.1)
  {
    var r1 := ApplyWireGuard(a, peers, sys).1;
    if r1.configured.Some? {
      ConfigureIdempotent(d, r1.configured.value.1);
    }
  }

  /** One round of the agent's poll loop: fetch the peers and, only if that
      worked, apply them. */
  function PollStep(a: AgentState, reply: Reply<PeerUpdate>, sys: System): (r: (AgentState, Option<Applied>))
    ensures FetchPeers(a, reply).1.Err? ==> r == (a, None)
    ensures FetchPeers(a, reply).1.Ok? ==>
      r.1.Some? && (r.0, r.1.value) == ApplyWireGuard(a, FetchPeers(a, reply).1.value, sys)
  {
    match FetchPeers(a, reply).1
    case Err(_) => (a, None)
    case Ok(peers) =>
      var (a', applied) := ApplyWireGuard(a, peers, sys);
      (a', Some(applied))
  }

  /** A poll round never registers or forgets the agent: its record, key
      and network stay, and at most the interface name is filled in. */
  lemma PollKeepsIdentity(a: AgentState, reply: Reply<PeerUpdate>, sys: System)
    ensures var a1 := PollStep(a, reply, sys).0;
      a1.self == a.self && a1.priv == a.priv && a1.netCIDR == a.netCIDR
      && a1.cfg == a.cfg.(iface := a1.cfg.iface)
      && (a.cfg.iface != "" ==> a1.cfg.iface == a.cfg.iface)
  {
  }
}
