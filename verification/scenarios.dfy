/** Worked examples on the documented block `100.64.0.0/24`: the first
    addresses a fresh registry hands out, the listing a registering node is
    sent, and the preferred endpoint an announce sets. */
module Scenarios {
  import opened Results
  import opened Ints
  import opened IPv4
  import opened Text
  import opened HostPort
  import opened Common
  import opened Registry

  /** `100.64.0.0/24`. */
  const Block := IPNet(0x6440_0000, 24)

  /** The bytes of an address, read off its value. */
  lemma OctetsOf(a: U32, o: seq<Byte>)
    requires |o| == 4 && FromOctets(o) == a
    ensures Octets(a) == o
  {
    FromOctetsRoundTrip(o);
  }

  lemma BlockIsMasked()
    ensures Masked(Block) && BlockSize(24) == 256
  {
    BlockLowBits();
    Pow2Of8();
  }

  lemma BlockLowBits()
    ensures LowBits(Block.ip, 8) == 0
  {
    LowBitsMod(Block.ip, 8);
    Pow2Of8();
    DivModSplit(0x64_4000, 256, 0);
  }

  lemma Pow2Of8()
    ensures Pow2(8) == 256
  {
  }

  /** The block holds its first 256 addresses. */
  lemma BlockHolds(k: nat)
    requires k < 256
    ensures Contains(Block, Block.ip + k)
  {
    BlockIsMasked();
    ContainsRange(Block, Block.ip + k);
  }

  lemma BlockText()
    ensures FormatCIDR(Block) == "100.64.0.0/24"
  {
    OctetsOf(Block.ip, [100, 64, 0, 0]);
  }

  /** The registry a controller on `100.64.0.0/24` starts with. */
  lemma FreshStore()
    ensures NewStore("100.64.0.0/24") == Ok(Store(Block, FirstHost, map[], map[]))
  {
    BlockIsMasked();
    BlockText();
    CIDRRoundTrip(Block);
  }

  /** The first allocation from a store whose cursor is at `k` and whose
      index is empty is the `k`-th address of the block. */
  lemma AllocateAt(k: U32)
    requires k < 256
    ensures AllocateIP(Store(Block, k, map[], map[])).result == Ok(FormatIPv4(Block.ip + k))
    ensures AllocateIP(Store(Block, k, map[], map[])).store == Store(Block, k + 1, map[], map[])
  {
    var s := Store(Block, k, map[], map[]);
    CursorAddress(k);
    FreeCursor(s);
  }

  lemma CursorAddress(k: U32)
    requires k < 256
    ensures Candidate(Block, k, 0) == Block.ip + k
    ensures Free(Block, map[], Block.ip + k)
  {
    WrapInRange(k);
    WrapInRange(Block.ip + k);
    BlockHolds(k);
  }

  /** When the address under the cursor is free, allocation returns it and
      moves the cursor by one. */
  lemma FreeCursor(s: Store)
    requires Free(s.net, s.byIP, Candidate(s.net, s.nextHost, 0))
    requires s.nextHost + 1 < TwoTo32
    ensures AllocateIP(s).result == Ok(FormatIPv4(Candidate(s.net, s.nextHost, 0)))
    ensures AllocateIP(s).store == s.(nextHost := s.nextHost + 1)
  {
    FirstProbeWins(s);
    WrapInRange(s.nextHost + 1);
  }

  lemma FirstProbeWins(s: Store)
    requires Free(s.net, s.byIP, Candidate(s.net, s.nextHost, 0))
    ensures FirstFree(s) == Some(0) && Probes(s) == 1
  {
    assert ScanFrom(s, 0) == Some(0);
  }

  lemma AddressTexts()
    ensures FormatIPv4(Block.ip + 10) == "100.64.0.10"
    ensures FormatIPv4(Block.ip + 11) == "100.64.0.11"
  {
    TenthText();
    EleventhText();
  }

  lemma TenthText()
    ensures FormatIPv4(Block.ip + 10) == "100.64.0.10"
  {
    OctetsOf(Block.ip + 10, [100, 64, 0, 10]);
  }

  lemma EleventhText()
    ensures FormatIPv4(Block.ip + 11) == "100.64.0.11"
  {
    OctetsOf(Block.ip + 11, [100, 64, 0, 11]);
  }

  /** A fresh registry on `100.64.0.0/24` hands out `100.64.0.10`, then
      `100.64.0.11`. */
  lemma FirstTwoAddresses()
    ensures NewStore("100.64.0.0/24").Ok?
    ensures var s0 := NewStore("100.64.0.0/24").value;
      var a1 := AllocateIP(s0);
      a1.result == Ok("100.64.0.10") && AllocateIP(a1.store).result == Ok("100.64.0.11")
  {
    FreshStore();
    AllocateAt(10);
    AllocateAt(11);
    AddressTexts();
  }

  /** In a registry of two records, each is sent the other and nothing
      else: after `A` and `B` register, `A` is sent `[B]`. */
  lemma ListingLeavesOutCaller(s: Store, a: Node, b: Node, res: seq<Node>)
    requires a.id != b.id && s.nodes == map[a.id := a, b.id := b]
    requires IsPeerListing(s.nodes, a.id, res)
    ensures res == [b]
  {
    PairKeyed(s, a, b);
    ListingMembers(s, a.id, res);
    OtherKey(s.nodes, a, b);
    OnlyMember(res, b);
  }

  lemma PairKeyed(s: Store, a: Node, b: Node)
    requires a.id != b.id && s.nodes == map[a.id := a, b.id := b]
    ensures Keyed(s)
  {
  }

  lemma OtherKey(m: map<string, Node>, a: Node, b: Node)
    requires a.id != b.id && m == map[a.id := a, b.id := b]
    ensures m.Keys - {a.id} == {b.id}
    ensures |m.Keys - {a.id}| == 1
  {
    assert m.Keys - {a.id} == {b.id};
  }

  lemma OnlyMember(res: seq<Node>, b: Node)
    requires |res| == 1 && res[0] in res && forall q :: q in res ==> q == b
    ensures res == [b]
  {
  }

  /** An announce of one well-formed endpoint makes it the node's
      preferred endpoint. */
  lemma AnnouncedEndpointIsPreferred(s: Store, id: string)
    requires id in s.nodes
    ensures var u := UpdateEndpoints(s, id, ["203.0.113.5:51820"], 51820);
      u.result.Ok? && u.store.nodes[id].endpoint == "203.0.113.5:51820"
  {
    var host, port := "203.0.113.5", "51820";
    assert !HasChar(host, '[') && !HasChar(host, ']') && !HasChar(host, ':');
    assert !HasChar(port, '[') && !HasChar(port, ']') && !HasChar(port, ':');
    SplitJoinPlain(host, port);
    assert ValidHostPort(host + ":" + port);
    assert host + ":" + port == "203.0.113.5:51820";
  }
}
