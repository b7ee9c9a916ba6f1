# sdwan control plane in Dafny

A model of the control plane of a small SD-WAN overlay. Agents register with
a controller. The controller gives each agent an identifier, a WireGuard key
pair and a tunnel address from one IPv4 block. Agents then fetch the list of
peers, announce their local endpoints and configure a WireGuard interface
from that list.

The project follows the structure of the Go program. Each module is a
`.dfy` file:

- `results.dfy` (`Results`): `Option`, `Result` and the pass/fail `Outcome`
  of Go's `error` returns.
- `ints.dfy` (`Ints`), `text.dfy` (`Text`): uint32 wrap-around, powers of
  two, decimal text (`strconv.Itoa`) and substring search.
- `ipv4.dfy` (`IPv4`): addresses as uint32 values, CIDR blocks, masking and
  containment. It also holds the dotted-quad and CIDR text forms with their
  parsers, and the loopback and unspecified tests.
- `netip.dfy` (`NetIP`): Go's `net.IP` byte slices, just far enough to show
  what the store's `incIP` does to the base address it is given.
- `hostport.dfy` (`HostPort`): `net.SplitHostPort`, `net.JoinHostPort` and
  the registry's pick of a preferred endpoint.
- `base64url.dfy` (`Base64Url`): unpadded base64url (section 5 of RFC 4648,
  no padding), with a decoder used as the encoder's partner.
- `order.dfy` (`StringOrder`): Go's `<` on strings.
- `common.dfy` (`Common`): the shared records (`Node`, the request and
  response bodies) and the random identifier generator.
- `store.dfy` (`Registry`): the controller's node registry.
  - Allocation uses a forward-only uint32 cursor. The registry allocates
    with the corrected `incIP`, which adds the offset to the last four
    bytes of the base. As written, `incIP` reads bytes 12..15, so every
    allocation on an IPv4 block panics (see "## Findings").
  - `UpsertNode` and `UpdateEndpoints`.
  - The peer listing.
  - The consistency invariant the operations keep.
- `http.dfy` (`ControlAPI`): the three HTTP handlers: register, peers and
  announce.
- `wireguard.dfy` (`WireGuard`):
  - The device configuration `applyWG` builds, and a model of a device
    that such a configuration is applied to.
  - The `ip` command sequences of `ensureWGDevice` and `ensureWGAddrRoute`.
  - Local endpoint gathering.
- `agent.dfy` (`Agent`): the agent as a state machine that moves through
  register, fetch peers, announce, apply WireGuard, and one round of the
  poll loop.
- `scenarios.dfy` (`Scenarios`): worked examples on the block
  `100.64.0.0/24`.

Things outside the program are inputs to the model:
- the controller's replies, as seen by the agent
- the outcome of each `ip` command and the route listing
- key generation and key parsing
- DNS resolution
- the random source
- the clock
- the interface address list

The model ranges over every value of them.

The repository's `internal/common/types.go` lacks some fields that the rest
of the code uses:
- `Node.Endpoint`
- `RegisterRequest.ListenPort`
- `RegisterResponse.NetworkCIDR`
- the `AnnounceRequest` type

The model declares them in the form in which the code uses them.

Two points about the registry's timestamps and exhaustion:
- `UpdateEndpoints` (`internal/controller/store.go:94-112`) does not
  refresh a node's last-seen time. `UpsertNode`
  (`internal/controller/store.go:67-91`) does.
- No IPv4 block leaves exactly two allocatable addresses after the starting
  offset, since blocks hold a power of two addresses and allocation starts
  at offset 10. The model proves instead that allocation fails once the
  cursor has passed the block (`Registry.PastEndFails`,
  `Registry.StaysExhausted`).

## Model

| member | source | states |
|---|---|---|
| Common.RandomID | internal/common/types.go:57-67 | A length that is not positive fails with "length must be > 0". Otherwise the result succeeds exactly when the random source did. The identifier is then ⌈4n/3⌉ URL-safe characters that decode back to the bytes drawn. |
| Common.IdentifierShape | internal/controller/http.go:41 | The controller's 12-byte identifiers are 16 characters long and contain no '=' padding. |
| Common.RandomIDInjective | internal/common/types.go:66 | Different random bytes give different identifiers. |
| Base64Url.Encode | internal/common/types.go:66 | Unpadded base64url output is ⌈4n/3⌉ characters long, all from the URL-safe alphabet. |
| Base64Url.DecodeEncode | internal/common/types.go:66 | Decoding the encoded text gives back every byte string. |
| Base64Url.EncodeInjective | internal/common/types.go:66 | Distinct byte strings encode to distinct text. |
| Text.Itoa | internal/agent/wg.go:131 | The decimal spelling is a non-empty run of digits that starts with '0' only for zero. |
| Text.DigitsValueOfItoa | internal/agent/wg.go:131 | Reading the spelling back gives the number. |
| Text.ItoaOfDigitsValue | internal/agent/wg.go:131 | Every canonical digit run is the spelling of its own value. |
| Text.ItoaInjective | internal/agent/wg.go:131 | Distinct numbers have distinct spellings, so distinct ports give distinct endpoint texts. |
| IPv4.MaskRoundsDown | internal/controller/store.go:29 | Masking an address rounds it down to a multiple of the block size. |
| IPv4.MaskContains | internal/controller/store.go:29 | An address lies in the block obtained by masking it. |
| IPv4.ContainsRange | internal/controller/store.go:118 | For a masked block, `Contains` holds exactly on the half-open interval from the network address to the network address plus the block size. |
| IPv4.OctetsRoundTrip | internal/controller/store.go:58-63 | Splitting a uint32 into four big-endian bytes and reassembling them gives the value back. |
| IPv4.FromOctetsRoundTrip | internal/controller/store.go:58-63 | Four bytes reassembled and split again give the same bytes. |
| IPv4.FormatThenParse | internal/controller/store.go:121 | An allocated address's text parses back to the address. |
| IPv4.ParseThenFormat | internal/agent/wg.go:42 | Only canonical dotted-quad text parses, and it is exactly the text of the address it parses to. |
| IPv4.FormatInjective | internal/controller/store.go:122 | Distinct addresses have distinct text, so the index keyed by text is keyed by address. |
| IPv4.ParseCIDR | internal/common/types.go:70-73 | The parsed block has no host bits, and its network address is the given address masked by the prefix. |
| IPv4.CIDRRoundTrip | internal/controller/http.go:63 | The text of a masked block parses back to the same address and block. |
| NetIP.IncIPAsWritten | internal/controller/store.go:54-65 | `incIP` as written fails (index out of range) exactly when the base is shorter than 16 bytes. Otherwise it changes only bytes 12..15, which become the base's uint32 plus the offset with wrap-around. |
| NetIP.IncIP | internal/controller/store.go:54-65 | The corrected `incIP` changes only the last four bytes, which become the base's uint32 plus the offset with wrap-around. |
| NetIP.MaskIP | internal/controller/store.go:29 | `IP.Mask`: each result byte is the address byte AND the mask byte. A 4-byte address under a 16-byte mask whose first twelve bytes are all ones uses the mask's last four bytes. A 16-byte IPv4 address under a 4-byte mask uses its own last four bytes. Both give 4 bytes. Otherwise the result is nil exactly when the lengths differ. |
| NetIP.CorrectedAgreesOn16 | internal/controller/store.go:54-65 | On a 16-byte base, the corrected and as-written `incIP` agree. |
| NetIP.StoreBaseIPIsFourBytes | internal/controller/store.go:23-29 | The base address `NewStore` keeps for an IPv4 block is the 4-byte form. |
| NetIP.AsWrittenAllocationPanics | internal/controller/store.go:114-117 | For every IPv4 block and every cursor, the first probe of an allocation indexes past the end of that 4-byte base. |
| NetIP.StoreBaseIsMask | internal/controller/store.go:23-29 | The base `NewStore` keeps, `ip.Mask(n.Mask)` byte by byte, spells the block's network address `Mask(a, p)`: the parsed address with its low 32 − p bits cleared. |
| NetIP.CorrectedAllocationOnStoreBase | internal/controller/store.go:114-117 | The corrected `incIP` on the 4-byte base gives the network address plus the offset, with uint32 wrap-around. |
| Registry.CandidateIsCorrectedIncIP | internal/controller/store.go:22-34 | The address the registry model probes for a store built by `NewStore` is exactly what the corrected `incIP` computes from the base `NewStore` keeps, at cursor + probe offset. |
| HostPort.BracketFreeSplit | internal/controller/store.go:81 | Without brackets, `SplitHostPort` accepts exactly the strings with one ':'. |
| HostPort.SplitJoin | internal/agent/wg.go:131 | `SplitHostPort` takes a joined host and port back apart, whether or not the host needed brackets. |
| HostPort.SelectEndpoint | internal/controller/store.go:79-86 | The preferred endpoint is empty exactly when no candidate splits. Otherwise it is the candidate at the first position that splits. |
| HostPort.SelectEndpointExample | internal/controller/store.go:103-108 | A leading candidate that does not split is passed over for the next one. |
| StringOrder.Irreflexive | internal/controller/store.go:141 | No string sorts before itself. |
| StringOrder.Asymmetric | internal/controller/store.go:141 | Two strings are never each less than the other. |
| StringOrder.Transitive | internal/controller/store.go:141 | The order on addresses is transitive. |
| StringOrder.Connected | internal/controller/store.go:141 | Any two distinct strings are ordered one way or the other, so the sort is total. |
| StringOrder.ExampleOrder | internal/controller/store.go:141 | Addresses sort as text, not numerically: "100.64.0.100" sorts before "100.64.0.11". |
| Registry.NewStore | internal/controller/store.go:22-34 | A store exists exactly when the CIDR parses; otherwise the error is "invalid CIDR address: " followed by the text. The store's block is the parsed network and contains the given address. The cursor starts at 10, both maps are empty, and the store is consistent. |
| Registry.ScanFrom | internal/controller/store.go:115-126 | The first probe at or after `j` whose address is free. None exactly when no probe up to 65536 is free. |
| Registry.FirstFree | internal/controller/store.go:115-126 | The first free probe of an allocation. Every earlier probe was outside the block or already indexed. |
| Registry.Probes | internal/controller/store.go:115-117 | An allocation makes between 1 and 65536 probes. It makes exactly one more than the index of the first free probe when there is one. |
| Registry.AllocateIP | internal/controller/store.go:114-128 | Allocation returns the text of an unindexed address of the block. It is the candidate of the last probe, and the cursor moves by the probe count with uint32 wrap-around. It fails with "no free ip" exactly when all 65536 probes miss. The records and index are unchanged. |
| Registry.ForwardOfWrap | internal/controller/store.go:117 | Incrementing the uint32 cursor `k` times moves it forward by `k`, measured modulo 2^32. |
| Registry.CursorAdvances | internal/controller/store.go:117 | Every probe advances the cursor by one, including failed probes. |
| Registry.AllocatesFirstFree | internal/controller/store.go:115-126 | A successful allocation returns the first free candidate, and every probe before it was not free. |
| Registry.PastEndFails | internal/controller/store.go:114-128 | Once the cursor is past the block's end, allocation fails and moves the cursor by 65536. |
| Registry.PastEndProbe | internal/controller/store.go:116-120 | Past the end, each probe lands outside the block. |
| Registry.StaysExhausted | internal/controller/store.go:114-128 | Past the block's end, every later allocation fails too, as long as the cursor does not wrap. |
| Registry.UpsertNode | internal/controller/store.go:67-91 | The call fails only when the record has no address and allocation fails; the records and index then stay as they were. Otherwise the stored record is the given one with its address, preferred endpoint and time filled in. A given address is kept and the cursor does not move. Without one, the cursor and the address are those of the allocation, which is fresh and in the block. An already-set endpoint is kept. The record and its index entry are written. |
| Registry.UpdateEndpoints | internal/controller/store.go:94-112 | An unknown node gives "node not found" and leaves the store as it was. Otherwise only that node changes: its candidates are replaced and its preferred endpoint is recomputed from them. Its other fields, including the last-seen time, stay. |
| Registry.UpdateEndpointsIgnoresPort | internal/controller/store.go:94-112 | The announced listen port has no effect. |
| Registry.AddressesDistinct | internal/controller/store.go:88-89 | In an indexed store no two records share a tunnel address. |
| Registry.UpsertPreservesValid | internal/controller/store.go:67-91 | Registering a fresh identifier without an address keeps the store consistent (keyed, indexed, addresses in the block), on success and on failure. |
| Registry.FileFreshRecord | internal/controller/store.go:88-89 | Filing a record under a fresh identifier and a fresh address of the block keeps the store consistent. |
| Registry.UpdateEndpointsPreservesValid | internal/controller/store.go:94-112 | Endpoint announcements keep the store consistent. |
| Registry.CollidingIdentifierLeavesStaleIndex | internal/controller/store.go:71-89 | Re-registering a known identifier without an address allocates a second address. The old address stays indexed to the identifier and the store is no longer indexed consistently. |
| Registry.InsertSorted | internal/controller/store.go:141 | Inserting at the insertion point keeps a listing sorted by address. |
| Registry.ListPeers | internal/controller/store.go:130-143 | The listing holds the records of every other identifier, each exactly once, sorted by tunnel address in Go's string order. |
| Registry.ListingMembers | internal/controller/store.go:130-143 | A record is listed exactly when it is filed under its identifier and that identifier is not excluded. Identifiers are not repeated, and the length is the number of other identifiers. |
| Registry.StrictlySortedUnique | internal/controller/store.go:141 | Two strictly sorted sequences with the same members are equal. |
| Registry.ListingStrict | internal/controller/store.go:141 | With distinct addresses, a listing is strictly increasing. |
| Registry.ListingUnique | internal/controller/store.go:140-142 | In an indexed store the listing is fully determined, even though the sort is not stable and map iteration order is random. |
| ControlAPI.Admit | internal/controller/http.go:46-54 | The filed record keeps the new identifier, the public key and the request's fields. It gets the preferred endpoint picked from the request's candidates and the current time. Its address is the one allocation returns, which is fresh and in the block. The record and its index entry are written. The block is kept and the cursor is where allocation left it. Filing fails exactly when allocation does, with "no free ip" and the records and index unchanged. |
| ControlAPI.HandleRegister | internal/controller/http.go:25-67 | Checks run in order: non-POST gives 405, an undecodable body 400, and a key or identifier failure 500. In all three cases the store is unchanged. A failed upsert gives 500. Success gives 200 with the filed record, the private key, the network's CIDR text and a listing that leaves out the new node. |
| ControlAPI.RegistrationResponse | internal/controller/http.go:54-64 | A registration of a fresh identifier keeps the registry consistent. Its peers are exactly the records filed before it, one per identifier, and never include the new node. This assumes no other request is handled between filing and listing (see "## Left out"). |
| ControlAPI.ListingAfterFiling | internal/controller/http.go:59-61 | A listing that leaves out the record just filed holds exactly the earlier records. |
| ControlAPI.HandlePeers | internal/controller/http.go:69-77 | Non-GET gives 405. GET gives 200 with every record sorted by address. |
| ControlAPI.PeerListIsComplete | internal/controller/http.go:76 | With no record under the empty identifier, the peer list holds every record exactly once. |
| ControlAPI.HandleAnnounce | internal/controller/http.go:79-95 | Non-POST gives 405, and an undecodable body 400. An unknown node gives 404 with no change. Otherwise 204: the node's record is the old one with its candidates replaced and its preferred endpoint re-picked from them. Every other record is unchanged, and no record is added or removed. |
| ControlAPI.AnnounceKeepsValid | internal/controller/http.go:90-94 | Whatever an announce request holds, the registry stays consistent. |
| WireGuard.PeerConfigOf | internal/agent/wg.go:33-57 | A peer gets a configuration exactly when it has a key and an address and the key parses. The configuration replaces allowed IPs with at most the peer's own /32. Its allowed IPs are exactly `AllowedOf` of the peer's address. Its endpoint is the resolved address exactly when the peer has an endpoint and it resolves; otherwise none is set. |
| WireGuard.AllowedOf | internal/agent/wg.go:41-45 | A peer's allowed IPs are one /32 whose text is the tunnel address, exactly when that address parses, and none otherwise. |
| WireGuard.BuildPeerConfigs | internal/agent/wg.go:32-58 | At most one configuration per record, each replacing allowed IPs. |
| WireGuard.BuildConcat | internal/agent/wg.go:33-58 | Building distributes over concatenation: a skipped record does not stop later records from being configured. |
| WireGuard.BuildSingle | internal/agent/wg.go:33-57 | One record contributes its own configuration or nothing. |
| WireGuard.BuildSkips | internal/agent/wg.go:34-40 | A skipped record drops out and the records around it are unaffected. |
| WireGuard.BuildKeepsAll | internal/agent/wg.go:32-58 | Every record is configured exactly when none is skipped. |
| WireGuard.ApplyPeers | internal/agent/wg.go:60-66 | After configuration the device has its old peers plus one peer per configured key. |
| WireGuard.LastConfigWins | internal/agent/wg.go:46-50 | Because every configuration replaces allowed IPs, a peer ends up with the allowed IPs of the last configuration for its key. |
| WireGuard.KeyUntouched | internal/agent/wg.go:60-66 | A peer that no configuration names keeps its state. |
| WireGuard.ConfigureIdempotent | internal/agent/wg.go:63 | With peers replaced, applying a configuration twice is the same as once. The device's peers are exactly the configured keys. |
| WireGuard.ApplyWG | internal/agent/wg.go:18-67 | The device is configured exactly when the client opens and the private key parses. A key that does not parse gives "invalid private key". The configuration carries the parsed key, the port, replace-peers, and the configurations of the records not skipped. The result passes exactly when the device accepted it. |
| WireGuard.ApplyWGDeterminesDevice | internal/agent/wg.go:60-66 | The configured device depends only on the arguments, not on the device's previous state, and re-applying changes nothing. |
| WireGuard.EnsureDevice | internal/agent/wg.go:72-85 | The link is probed first and added only if the probe fails. It is set up only if it exists or was added. The commands run in the order show, add, up. The step passes exactly when the link exists or was added and came up. Otherwise it fails with "add wg dev" when the add failed and "link up" when the set-up failed. |
| WireGuard.EnsureDeviceEndsUp | internal/agent/wg.go:72-85 | The step passes exactly when its last command is a link-up that succeeds. A failure stops at the first command that fails, and every command between the probe and the last one succeeded. |
| WireGuard.EnsureAddrRoute | internal/agent/wg.go:88-105 | With an address, the commands flush it and then add it as a /32. The step fails with "addr add" exactly when that add fails. The route is added exactly when the step passes, a CIDR is given, and the route listing does not mention it. |
| WireGuard.OnlyAddrAddMatters | internal/agent/wg.go:88-105 | Only the address assignment's outcome affects what the step does. The flush and route commands are best-effort. |
| WireGuard.GatherLocalEndpoints | internal/agent/wg.go:108-145 | A non-positive port gives nothing. Otherwise the result is the eligible addresses' `ip:port` texts with repeats dropped. Its collect and dedup loops compute exactly the reference `LocalEndpoints`. |
| WireGuard.DedupMethod | internal/agent/wg.go:134-144 | The set-based loop computes the reference de-duplication. |
| WireGuard.DedupFromSpec | internal/agent/wg.go:134-144 | De-duplication keeps each unseen element exactly once and nothing else. |
| WireGuard.DedupFromOrder | internal/agent/wg.go:134-144 | De-duplicated elements keep the order of their first occurrences. |
| WireGuard.DedupSpec | internal/agent/wg.go:134-144 | The de-duplicated list has no repeats, the same members as its input, and first-occurrence order. |
| WireGuard.CandidatesShape | internal/agent/wg.go:114-132 | Every candidate is `ip:port` for an eligible address (IPv4, not loopback, not unspecified) and splits with `SplitHostPort`. |
| WireGuard.CandidatesComplete | internal/agent/wg.go:114-132 | Every eligible address yields a candidate. |
| WireGuard.EndpointSplits | internal/agent/wg.go:131 | An endpoint text splits back into the dotted quad and the decimal port. |
| WireGuard.GatheredEndpoints | internal/agent/wg.go:108-145 | With a port, the announced endpoints are distinct. Each is the endpoint of an eligible local address and splits back into it. Every eligible address is represented. |
| Agent.New | internal/agent/agent.go:32-34 | A new agent has its configuration, and no record, key or network. |
| Agent.RegisterRequestOf | internal/agent/agent.go:37-43 | The registration request carries the configured hostname, OS, version, candidates and port. |
| Agent.Register | internal/agent/agent.go:36-61 | Registration passes exactly on a 200 reply whose body decoded. It then adopts the record, private key and network CIDR. Any failure leaves the agent unchanged. A non-200 status reports "register status N". |
| Agent.RegistrationIsTheOnlyWayIn | internal/agent/agent.go:36-61 | An unregistered agent gains a record exactly when registration passes. |
| Agent.FetchPeers | internal/agent/agent.go:63-80 | An unregistered agent sends nothing and fails with "not registered". Otherwise the peers are returned exactly on a 200 reply whose body decoded. |
| Agent.Announce | internal/agent/agent.go:103-125 | An unregistered agent sends nothing. Otherwise it posts its identifier, its gathered local endpoints and its port, and passes exactly on 204. |
| Agent.UnregisteredSendsNothing | internal/agent/agent.go:103-106 | While unregistered, fetching and announcing send nothing, so the network's answer makes no difference. |
| Agent.AnnounceReachesRegistry | internal/agent/agent.go:107-112 | The controller answers the agent's announce with 204. The node's candidates become the gathered endpoints. Its preferred endpoint becomes the first of them, or none. |
| Agent.IfaceOf | internal/agent/agent.go:90-92 | The interface name is never empty, and a configured name is kept. |
| Agent.ApplyWireGuard | internal/agent/agent.go:86-100 | Without a record and key it fails with "not registered" and does nothing. Otherwise it fills in the interface name, then runs the device, address/route and peer steps in order. It stops at the first failing step and wraps its error with that step's prefix. It passes only after the device was configured with replaced peers. |
| Agent.ConfiguredOnlyAfterSetup | internal/agent/agent.go:93-99 | The device is configured only after the link came up and, when the agent has an address, that address was assigned. |
| Agent.ApplyIsRepeatable | internal/agent/agent.go:85-100 | A second call from the state the first left, with the same peers and the same command outcomes, does exactly what the first did and leaves the device as the first left it. |
| Agent.PollStep | cmd/agent/main.go:38-49 | A poll round applies the fetched peers only when fetching succeeded, and otherwise changes nothing. |
| Agent.PollKeepsIdentity | cmd/agent/main.go:38-49 | A poll round never changes the agent's record, key or network. At most it fills in the interface name. |
| Scenarios.BlockText | internal/controller/http.go:63 | The block `100.64.0.0/24` prints as "100.64.0.0/24". |
| Scenarios.FreshStore | internal/controller/store.go:22-34 | A controller on `100.64.0.0/24` starts with that block, cursor 10 and empty maps. |
| Scenarios.FreeCursor | internal/controller/store.go:115-126 | When the address under the cursor is free, allocation returns it and advances the cursor by one. |
| Scenarios.AllocateAt | internal/controller/store.go:114-128 | On an empty store over the block, a cursor at `k` allocates the `k`-th address of the block. |
| Scenarios.FirstTwoAddresses | internal/controller/store.go:30 | A fresh registry hands out 100.64.0.10, then 100.64.0.11. |
| Scenarios.ListingLeavesOutCaller | internal/controller/http.go:61 | In a registry of two nodes, each is sent exactly the other. |
| Scenarios.AnnouncedEndpointIsPreferred | internal/controller/store.go:101-108 | Announcing one well-formed endpoint makes it the node's preferred endpoint. |

## Left out

- JSON encoding and decoding, HTTP routing, headers and client timeouts. A request is its method and its decoded body (`None` when decoding failed). A reply is a transport error or a status with a decoded body.
- The store's read/write lock. Each registry operation is atomic and returns the next state.
- Concurrent requests: the handlers run one at a time. `handleRegister` (`internal/controller/http.go:54-61`) calls `UpsertNode` and then `ListPeers`, and each call takes the lock on its own. Another registration could be filed between the two calls and would then appear in the response's peers. The model takes the listing from the state right after filing and does not cover that interleaving.
- `time.Now`: the timestamp is a parameter.
- `KeyPair` and `wgtypes.GeneratePrivateKey`: key generation is a parameter that either yields a pair of key texts or fails. `wgtypes.ParseKey` and `net.ResolveUDPAddr` are also parameters (`Env`).
- `crypto/rand`: the bytes drawn are a parameter.
- `allocateIP` (`internal/controller/store.go:36-52`): it has the same loop as `allocateIPNoLock` but takes the lock itself, and nothing calls it. `Registry.AllocateIP` models both.
- IPv6 blocks and addresses. `ValidateCIDR` is modelled for IPv4 text only, and the interface list reports IPv6 addresses as `V6`, which `gatherLocalEndpoints` skips (`ip.To4() == nil`).
- WireGuard.AllowedOf: `net.ParseIP` also accepts IPv6 text, which would give an IPv6 /32 entry. The model treats such text as not parsing. The controller only assigns IPv4 addresses.
- WireGuard.ApplyWG: `applyWG`'s `self` argument is never read, so the model has no such parameter. When the private key does not parse, the error is "invalid private key" without the `ParseKey` error that `applyWG` wraps after it (`internal/agent/wg.go:27-28`), since key parsing is a parameter that yields no error text.
- Agent.ApplyIsRepeatable: the command outcomes `ok` are the same on both calls. The model does not follow how the first call's `ip` commands change the outcomes of the second; for example, once the first call has added the device, a real `ip link show` would succeed on the second call, but the model gives it the same outcome as on the first.
- `wgctrl`: the control client and the kernel device are not modelled. `Configure` is this model's reading of the `wgtypes` documentation:
  - replace-peers clears the peer table
  - replace-allowed-IPs overwrites the list
  - an absent endpoint keeps the previous one

  The kernel module and wireguard-go silently ignore a peer whose key is the device's own. `/api/peers` includes the caller's own record (`ControlAPI.PeerListIsComplete`), so the real device never holds its own key. The model's device holds every configured key, its own included.
- `ipCmd`, `run` and `runOut`: whether each `ip` command succeeds is a parameter `ok`, and the route listing is a parameter `routes`. The wrapped error texts keep their prefixes ("add wg dev", "link up", "addr add", "ensure wg dev: ", "ensure addr/route: ") but not the command output that `run` appends.
- `net.Interfaces` and `Addrs`: the address list, across all interfaces in order, is a parameter.
- Agent getters `PrivateKey` and `Self`: they read fields of the state.
- The relay (`internal/relay/udp.go`), the controller and relay mains, logging and `time.Sleep`. Only one round of the agent's poll loop is modelled (`Agent.PollStep`).
- Registry.ListPeers: `sort.Slice` is not stable, and map iteration order is random. The contract therefore allows any sorted listing of the other records. `Registry.ListingUnique` shows that such a listing is unique when addresses are distinct.

## Findings

| source | as written | input that shows it | evidently intended | confidence | as-written member | corrected member |
|---|---|---|---|---|---|---|
| internal/controller/store.go:54-65 | `incIP` reads and writes bytes 12..15 of the base. `NewStore` stores `ip.Mask(n.Mask)`, which for an IPv4 CIDR is the 4-byte form, so the index is out of range. | `NewStore("100.64.0.0/24")` followed by any registration: the first probe indexes byte 12 of a 4-byte slice. | Add the offset to the last four bytes of the base, whatever its length. | not executed | NetIP.AsWrittenAllocationPanics | NetIP.CorrectedAllocationOnStoreBase |
