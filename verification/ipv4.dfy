/** IPv4 addresses as unsigned 32-bit integers, CIDR blocks as
    (network address, prefix length), and the dotted-quad text that Go's
    `net.IP.String` writes and `net.ParseIP` reads for IPv4. */
module IPv4 {
  import opened Results
  import opened Text
  import opened Ints

  type PrefixLen = p: int | 0 <= p <= 32

  /** Number of addresses in a block whose prefix has `p` bits. */
  function BlockSize(p: PrefixLen): (r: nat)
    ensures 1 <= r <= TwoTo32
  {
    Pow2AtMost32(32 - p);
    Pow2(32 - p)
  }

  /** A CIDR block as `net.IPNet` holds it for IPv4. */
  datatype IPNet = IPNet(ip: U32, prefixLen: PrefixLen)

  /** The host bits of `a` under a prefix of length `p`. */
  function HostBits(a: U32, p: PrefixLen): nat {
    LowBits(a, 32 - p)
  }

  /** The network address keeps no host bits. */
  predicate Masked(n: IPNet) {
    HostBits(n.ip, n.prefixLen) == 0
  }

  /** `ip.Mask(CIDRMask(p, 32))`: clear the host bits. */
  function Mask(a: U32, p: PrefixLen): (m: U32)
    ensures m <= a
  {
    a - HostBits(a, p)
  }

  /** `IPNet.Contains`: the address agrees with the network on every prefix bit. */
  predicate Contains(n: IPNet, a: U32) {
    Mask(a, n.prefixLen) == Mask(n.ip, n.prefixLen)
  }

  /** Clearing the host bits is the round-down to a multiple of the block size. */
  lemma MaskRoundsDown(a: U32, p: PrefixLen)
    ensures Mask(a, p) == a / BlockSize(p) * BlockSize(p)
  {
    var size := BlockSize(p);
    LowBitsMod(a, 32 - p);
    assert HostBits(a, p) == a % size;
    DivPlusMod(a, size);
  }

  /** A masked address has no host bits left. */
  lemma MaskIsMasked(a: U32, p: PrefixLen)
    ensures Masked(IPNet(Mask(a, p), p))
  {
    var size := BlockSize(p);
    MaskRoundsDown(a, p);
    LowBitsMod(Mask(a, p), 32 - p);
    MulMod(a / size, size);
  }

  /** An address lies in the block obtained by masking it. */
  lemma MaskContains(a: U32, p: PrefixLen)
    ensures Contains(IPNet(Mask(a, p), p), a)
  {
    MaskIsMasked(a, p);
  }

  /** For a masked network, containment is the half-open interval
      `[network, network + size)`. */
  lemma ContainsRange(n: IPNet, a: U32)
    requires Masked(n)
    ensures Contains(n, a) <==> n.ip <= a < n.ip + BlockSize(n.prefixLen)
  {
    var size := BlockSize(n.prefixLen);
    var q := n.ip / size;
    MaskRoundsDown(a, n.prefixLen);
    MaskRoundsDown(n.ip, n.prefixLen);
    assert Mask(n.ip, n.prefixLen) == n.ip;
    MulCancel(a / size, q, size);
    DivUnique(a, size, q);
  }

  /** `incIP`'s arithmetic on the address: add the offset as a uint32. */
  function IncIP(base: U32, off: U32): U32 {
    Wrap32(base + off)
  }

  // ---------------------------------------------------------------------
  // Octets and dotted-quad text

  /** The four bytes of an address, most significant first. */
  function Octets(a: U32): (o: seq<Byte>)
    ensures |o| == 4
  {
    var b := a / 256;
    var c := b / 256;
    [c / 256, c % 256, b % 256, a % 256]
  }

  function FromOctets(o: seq<Byte>): U32
    requires |o| == 4
  {
    ((o[0] as int * 256 + o[1]) * 256 + o[2]) * 256 + o[3]
  }

  lemma OctetsRoundTrip(a: U32)
    ensures FromOctets(Octets(a)) == a
  {
    var b := a / 256;
    var c := b / 256;
    assert a == b * 256 + a % 256;
    assert b == c * 256 + b % 256;
    assert c == c / 256 * 256 + c % 256;
  }

  lemma FromOctetsRoundTrip(o: seq<Byte>)
    requires |o| == 4
    ensures Octets(FromOctets(o)) == o
  {
    var c := o[0] as int * 256 + o[1];
    var b := c * 256 + o[2];
    var a := b * 256 + o[3];
    DivUnique(a, 256, b);
    DivUnique(b, 256, c);
    DivUnique(c, 256, o[0]);
  }

  /** `net.IP.String()` for an IPv4 address. */
  function FormatIPv4(a: U32): string {
    var o := Octets(a);
    Itoa(o[0]) + ("." + (Itoa(o[1]) + ("." + (Itoa(o[2]) + ("." + Itoa(o[3]))))))
  }

  /** Splits at every '.', as `strings.Split(s, ".")` does. */
  function Fields(s: string): (fs: seq<string>)
    ensures |fs| >= 1
    decreases |s|
  {
    if |s| == 0 then [""]
    else if s[0] == '.' then [""] + Fields(s[1..])
    else
      var rest := Fields(s[1..]);
      [[s[0]] + rest[0]] + rest[1..]
  }

  /** One dotted-quad component as Go accepts it: a digit run without a
      leading zero whose value fits a byte. */
  function ParseOctet(f: string): Option<Byte> {
    if Canonical(f) && DigitsValue(f) < 256 then Some(DigitsValue(f)) else None
  }

  /** The IPv4 text `net.ParseIP` accepts: four components, three dots. */
  function ParseIPv4(s: string): Option<U32> {
    var fs := Fields(s);
    if |fs| != 4 then None
    else
      match (ParseOctet(fs[0]), ParseOctet(fs[1]), ParseOctet(fs[2]), ParseOctet(fs[3]))
      case (Some(a), Some(b), Some(c), Some(d)) => Some(FromOctets([a, b, c, d]))
      case _ => None
  }

  lemma {:induction false} FieldsNoDot(a: string)
    requires !HasChar(a, '.')
    ensures Fields(a) == [a]
    decreases |a|
  {
    if |a| > 0 {
      assert !HasChar(a[1..], '.') by {
        forall i | 0 <= i < |a| - 1 ensures a[1..][i] != '.' {
          assert a[1..][i] == a[i + 1];
        }
      }
      FieldsNoDot(a[1..]);
      assert a == [a[0]] + a[1..];
    }
  }

  lemma {:induction false} FieldsDot(a: string, b: string)
    requires !HasChar(a, '.')
    ensures Fields(a + ("." + b)) == [a] + Fields(b)
    decreases |a|
  {
    if |a| == 0 {
      assert a + ("." + b) == ['.'] + b;
      assert (a + ("." + b))[1..] == b;
    } else {
      assert !HasChar(a[1..], '.') by {
        forall i | 0 <= i < |a| - 1 ensures a[1..][i] != '.' {
          assert a[1..][i] == a[i + 1];
        }
      }
      assert (a + ("." + b))[1..] == a[1..] + ("." + b);
      FieldsDot(a[1..], b);
      assert a == [a[0]] + a[1..];
    }
  }

  lemma DigitsHaveNoDot(s: string)
    requires AllDigits(s)
    ensures !HasChar(s, '.')
  {
  }

  lemma FieldsOfFour(t0: string, t1: string, t2: string, t3: string)
    requires !HasChar(t0, '.') && !HasChar(t1, '.') && !HasChar(t2, '.') && !HasChar(t3, '.')
    ensures Fields(t0 + ("." + (t1 + ("." + (t2 + ("." + t3)))))) == [t0, t1, t2, t3]
  {
    FieldsNoDot(t3);
    FieldsDot(t2, t3);
    FieldsDot(t1, t2 + ("." + t3));
    FieldsDot(t0, t1 + ("." + (t2 + ("." + t3))));
  }

  /** The four components of an address's text are the decimal octets. */
  lemma FieldsOfFormat(a: U32)
    ensures Fields(FormatIPv4(a)) == [Itoa(Octets(a)[0]), Itoa(Octets(a)[1]), Itoa(Octets(a)[2]), Itoa(Octets(a)[3])]
  {
    var o := Octets(a);
    DigitsHaveNoDot(Itoa(o[0]));
    DigitsHaveNoDot(Itoa(o[1]));
    DigitsHaveNoDot(Itoa(o[2]));
    DigitsHaveNoDot(Itoa(o[3]));
    FieldsOfFour(Itoa(o[0]), Itoa(o[1]), Itoa(o[2]), Itoa(o[3]));
  }

  lemma ParseOctetOfItoa(b: Byte)
    ensures ParseOctet(Itoa(b)) == Some(b)
  {
    DigitsValueOfItoa(b);
  }

  /** Every IPv4 address formats to text that parses back to it. */
  lemma FormatThenParse(a: U32)
    ensures ParseIPv4(FormatIPv4(a)) == Some(a)
  {
    var o := Octets(a);
    FieldsOfFormat(a);
    ParseOctetOfItoa(o[0]);
    ParseOctetOfItoa(o[1]);
    ParseOctetOfItoa(o[2]);
    ParseOctetOfItoa(o[3]);
    assert [o[0], o[1], o[2], o[3]] == o;
    OctetsRoundTrip(a);
  }

  /** Join of the fields with '.' restores the text. */
  function JoinDots(fs: seq<string>): string
    requires |fs| >= 1
  {
    if |fs| == 1 then fs[0] else fs[0] + ("." + JoinDots(fs[1..]))
  }

  lemma {:induction false} JoinFields(s: string)
    ensures JoinDots(Fields(s)) == s
    decreases |s|
  {
    if |s| > 0 {
      JoinFields(s[1..]);
      var rest := Fields(s[1..]);
      if s[0] == '.' {
        assert Fields(s)[1..] == rest;
      } else {
        var fs := Fields(s);
        if |rest| == 1 {
          assert fs == [[s[0]] + rest[0]];
        } else {
          assert fs[1..] == rest[1..];
          assert JoinDots(rest) == rest[0] + ("." + JoinDots(rest[1..]));
        }
      }
      assert s == [s[0]] + s[1..];
    }
  }

  /** Only canonical text parses: whatever parses is exactly what
      `FormatIPv4` writes for the parsed address. */
  lemma ParseThenFormat(s: string)
    requires ParseIPv4(s).Some?
    ensures FormatIPv4(ParseIPv4(s).value) == s
  {
    var fs := Fields(s);
    var a, b, c, d := ParseOctet(fs[0]).value, ParseOctet(fs[1]).value, ParseOctet(fs[2]).value, ParseOctet(fs[3]).value;
    ItoaOfDigitsValue(fs[0]);
    ItoaOfDigitsValue(fs[1]);
    ItoaOfDigitsValue(fs[2]);
    ItoaOfDigitsValue(fs[3]);
    FromOctetsRoundTrip([a, b, c, d]);
    JoinFields(s);
    assert JoinDots(fs[2..]) == fs[2] + ("." + fs[3]) by {
      assert fs[2..][1..] == [fs[3]];
    }
    assert JoinDots(fs[1..]) == fs[1] + ("." + JoinDots(fs[2..])) by {
      assert fs[1..][1..] == fs[2..];
    }
    assert JoinDots(fs) == fs[0] + ("." + JoinDots(fs[1..]));
  }

  /** Distinct addresses have distinct text, so keying a map by the text is
      keying it by the address. */
  lemma FormatInjective(a: U32, b: U32)
    requires FormatIPv4(a) == FormatIPv4(b)
    ensures a == b
  {
    FormatThenParse(a);
    FormatThenParse(b);
  }

  lemma FormatIPv4Chars(a: U32)
    ensures forall i :: 0 <= i < |FormatIPv4(a)| ==> IsDigit(FormatIPv4(a)[i]) || FormatIPv4(a)[i] == '.'
  {
  }

  /** `IP.IsLoopback` for IPv4: the 127.0.0.0/8 block. */
  predicate IsLoopback(a: U32) {
    a / 0x100_0000 == 127
  }

  /** `IP.IsUnspecified` for IPv4: 0.0.0.0. */
  predicate IsUnspecified(a: U32) {
    a == 0
  }

  // ---------------------------------------------------------------------
  // CIDR text

  /** `net.ParseCIDR` for IPv4 text: the address, and the block with its
      host bits cleared. The prefix is a digit run (leading zeros allowed)
      of value at most 32. */
  function ParseCIDR(s: string): (r: Option<(U32, IPNet)>)
    ensures r.Some? ==> Masked(r.value.1) && r.value.1.ip == Mask(r.value.0, r.value.1.prefixLen)
  {
    var i := IndexOf(s, '/');
    if i < 0 then None
    else
      var addr, bits := s[..i], s[i + 1..];
      match ParseIPv4(addr)
      case None => None
      case Some(a) =>
        if 1 <= |bits| && AllDigits(bits) && DigitsValue(bits) <= 32 then
          var p: PrefixLen := DigitsValue(bits);
          MaskIsMasked(a, p);
          Some((a, IPNet(Mask(a, p), p)))
        else None
  }

  /** `IPNet.String()`. */
  function FormatCIDR(n: IPNet): string {
    FormatIPv4(n.ip) + ("/" + Itoa(n.prefixLen))
  }

  lemma SlashAfterAddress(a: U32, rest: string)
    ensures IndexOf(FormatIPv4(a) + ("/" + rest), '/') == |FormatIPv4(a)|
  {
    var t := FormatIPv4(a);
    FormatIPv4Chars(a);
    assert !HasChar(t, '/');
    IndexOfAfter(t, '/', rest);
  }

  lemma ParseCIDRParts(s: string, a: U32, p: PrefixLen)
    requires 0 <= IndexOf(s, '/')
    requires ParseIPv4(s[..IndexOf(s, '/')]) == Some(a)
    requires s[IndexOf(s, '/') + 1..] == Itoa(p)
    ensures ParseCIDR(s) == Some((a, IPNet(Mask(a, p), p)))
  {
    DigitsValueOfItoa(p);
  }

  /** A masked block's text parses back to the same block. */
  lemma CIDRRoundTrip(n: IPNet)
    requires Masked(n)
    ensures ParseCIDR(FormatCIDR(n)) == Some((n.ip, n))
  {
    var t := FormatIPv4(n.ip);
    var s := t + ("/" + Itoa(n.prefixLen));
    SlashAfterAddress(n.ip, Itoa(n.prefixLen));
    assert s[..|t|] == t;
    assert s[|t| + 1..] == Itoa(n.prefixLen);
    FormatThenParse(n.ip);
    ParseCIDRParts(s, n.ip, n.prefixLen);
  }
}
