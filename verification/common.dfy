/** The records shared by the controller and the agent, and the random
    identifier generator. Randomness is a parameter: the bytes the random
    source produced, or `None` when it failed. */
module Common {
  import opened Results
  import opened Ints
  import Base64Url

  /** `time.Time`, kept opaque; the zero value is `ZeroTime`. */
  datatype Timestamp = Timestamp(nanos: int)

  const ZeroTime := Timestamp(0)

  /** A participating agent. `endpoint` is the registry's preferred pick
      among `endpoints`; an empty string means "none". */
  datatype Node = Node(
    id: string,
    hostname: string,
    os: string,
    version: string,
    publicKey: string,
    tunnelIP: string,
    endpoints: seq<string>,
    relays: seq<string>,
    endpoint: string,
    lastSeen: Timestamp)

  datatype RegisterRequest = RegisterRequest(
    hostname: string,
    os: string,
    version: string,
    endpoints: seq<string>,
    listenPort: int)

  datatype RegisterResponse = RegisterResponse(
    node: Node,
    peers: seq<Node>,
    privKey: string,
    relayUDP: Option<string>,
    networkCIDR: string)

  datatype PeerUpdate = PeerUpdate(peers: seq<Node>)

  datatype AnnounceRequest = AnnounceRequest(
    nodeID: string,
    endpoints: seq<string>,
    listenPort: int)

  /** A WireGuard key pair as its two text forms. */
  datatype KeyPair = KeyPair(priv: string, pub: string)

  /** Length in bytes of the identifiers the controller mints. */
  const IDBytes := 12

  /** `RandomID(n)`: `n` random bytes in unpadded base64url. `entropy` is
      what the random source produced for a request of `n` bytes. */
  function RandomID(n: int, entropy: Option<seq<Byte>>): (r: Result<string>)
    requires n > 0 && entropy.Some? ==> |entropy.value| == n
    ensures n <= 0 ==> r == Err("length must be > 0")
    ensures n > 0 ==> (r.Ok? <==> entropy.Some?)
    ensures r.Ok? ==> |r.value| == (4 * n + 2) / 3
    ensures r.Ok? ==> forall i :: 0 <= i < |r.value| ==> Base64Url.UrlSafe(r.value[i])
    ensures r.Ok? ==> Base64Url.Decode(r.value) == entropy
  {
    if n <= 0 then Err("length must be > 0")
    else match entropy
      case None => Err("random source failed")
      case Some(b) =>
        Base64Url.DecodeEncode(b);
        Ok(Base64Url.Encode(b))
  }

  /** The controller's 12-byte identifiers are 16 characters long and carry
      no '=' padding. */
  lemma IdentifierShape(b: seq<Byte>)
    requires |b| == IDBytes
    ensures RandomID(IDBytes, Some(b)).Ok?
    ensures |RandomID(IDBytes, Some(b)).value| == 16
    ensures forall i :: 0 <= i < 16 ==> RandomID(IDBytes, Some(b)).value[i] != '='
  {
  }

  /** Distinct random bytes give distinct identifiers. */
  lemma RandomIDInjective(n: int, a: seq<Byte>, b: seq<Byte>)
    requires n > 0 && |a| == n && |b| == n
    requires RandomID(n, Some(a)) == RandomID(n, Some(b))
    ensures a == b
  {
    Base64Url.EncodeInjective(a, b);
  }
}
