/** Go's `net.IP` byte slices, just far enough to follow how the store's
    base address is built and how `incIP` reads it. An IPv4 address is held
    either in 4 bytes or in 16 bytes behind the IPv4-in-IPv6 prefix. */
module NetIP {
  import opened Results
  import opened Ints
  import opened IPv4

  type IP = seq<Byte>

  /** The twelve bytes `::ffff:` that precede an IPv4 address in the
      16-byte form. */
  const V4InV6Prefix: IP := [0, 0, 0, 0, 0, 0, 0, 0, 0, 0, 255, 255]

  /** `net.IPv4(a, b, c, d)`: the 16-byte form that `ParseCIDR` returns
      as its first result. */
  function To16(a: U32): (ip: IP)
    ensures |ip| == 16 && ip[..12] == V4InV6Prefix
  {
    V4InV6Prefix + Octets(a)
  }

  /** One byte of `CIDRMask` with `k` one-bits still to place. */
  function MaskByte(k: int): Byte {
    if k >= 8 then 255 else if k <= 0 then 0 else 255 - 255 / Pow2(k)
  }

  /** `net.CIDRMask(p, 32)`: four bytes, the first `p` bits set. */
  function CIDRMask(p: PrefixLen): (m: IP)
    ensures |m| == 4
  {
    [MaskByte(p), MaskByte(p - 8), MaskByte(p - 16), MaskByte(p - 24)]
  }

  /** Go's `&` on the low `n` bits of `x` and `y`, one bit at a time from
      the least significant. */
  function AndBits(x: nat, y: nat, n: nat): (r: nat)
    ensures r < Pow2(n)
    decreases n
  {
    if n == 0 then 0
    else 2 * AndBits(x / 2, y / 2, n - 1) + (if x % 2 == 1 && y % 2 == 1 then 1 else 0)
  }

  /** `x & y` on bytes. */
  function AndByte(x: Byte, y: Byte): Byte {
    AndBits(x, y, 8)
  }

  /** Host bits one byte of `CIDRMask` clears when `k` one-bits are still
      to place: all eight, none, or the low `8 - k`. */
  function ByteHostBits(k: int): (h: nat)
    ensures h <= 8
  {
    if k >= 8 then 0 else if k <= 0 then 8 else 8 - k
  }

  predicate AllFF(m: IP) {
    forall i :: 0 <= i < |m| ==> m[i] == 255
  }

  /** A 4-byte address under a 16-byte mask whose first twelve bytes are
      all ones: only the mask's last four bytes apply. */
  predicate V4UnderV6Mask(ip: IP, mask: IP) {
    |mask| == 16 && |ip| == 4 && AllFF(mask[..12])
  }

  /** A 16-byte IPv4 address under a 4-byte mask: only the address's last
      four bytes are masked. */
  predicate V6FormUnderV4Mask(ip: IP, mask: IP) {
    |mask| == 4 && |ip| == 16 && ip[..12] == V4InV6Prefix
  }

  /** `IP.Mask`: a 16-byte IPv4 address under a 4-byte mask is first cut
      down to its 4-byte form; lengths that still disagree give nil. Every
      byte of the result is the address byte AND the mask byte. */
  function MaskIP(ip: IP, mask: IP): (r: Option<IP>)
    ensures V4UnderV6Mask(ip, mask) ==>
      r.Some? && |r.value| == 4 && forall i :: 0 <= i < 4 ==> r.value[i] == AndByte(ip[i], mask[12 + i])
    ensures V6FormUnderV4Mask(ip, mask) ==>
      r.Some? && |r.value| == 4 && forall i :: 0 <= i < 4 ==> r.value[i] == AndByte(ip[12 + i], mask[i])
    ensures !V4UnderV6Mask(ip, mask) && !V6FormUnderV4Mask(ip, mask) ==>
      (r.Some? <==> |ip| == |mask|)
      && (r.Some? ==> |r.value| == |ip| && forall i :: 0 <= i < |ip| ==> r.value[i] == AndByte(ip[i], mask[i]))
  {
    var mask' := if V4UnderV6Mask(ip, mask) then mask[12..] else mask;
    var ip' := if V6FormUnderV4Mask(ip, mask') then ip[12..] else ip;
    if |ip'| != |mask'| then None
    else Some(seq(|ip'|, i requires 0 <= i < |ip'| => AndByte(ip'[i], mask'[i])))
  }

  /** The store's `baseIP` as `NewStore` computes it for an IPv4 block:
      `ip.Mask(n.Mask)` with `ip` from `ParseCIDR`. */
  function StoreBaseIP(a: U32, p: PrefixLen): Option<IP> {
    MaskIP(To16(a), CIDRMask(p))
  }

  /** `incIP` as written: copy the base, read bytes 12..15 as a big-endian
      uint32, add the offset with wrap-around, write the four bytes back.
      Indexing past the end of a shorter slice is a run-time panic in Go,
      which is `None` here. */
  function IncIPAsWritten(base: IP, off: U32): (r: Option<IP>)
    ensures r.None? <==> |base| < 16
    ensures r.Some? ==> |r.value| == |base| && r.value[..12] == base[..12] && r.value[16..] == base[16..]
    ensures r.Some? ==> FromOctets(r.value[12..16]) == IPv4.IncIP(FromOctets(base[12..16]), off)
  {
    if |base| < 16 then None
    else
      var v := IPv4.IncIP(FromOctets(base[12..16]), off);
      FromOctetsRoundTrip(base[12..16]);
      OctetsRoundTrip(v);
      var r := base[..12] + Octets(v) + base[16..];
      assert r[12..16] == Octets(v);
      Some(r)
  }

  /** `incIP` corrected: the IPv4 address is always the LAST four bytes,
      in the 4-byte and in the 16-byte form alike. */
  function IncIP(base: IP, off: U32): (r: IP)
    requires |base| >= 4
    ensures |r| == |base| && r[..|base| - 4] == base[..|base| - 4]
    ensures FromOctets(r[|base| - 4..]) == IPv4.IncIP(FromOctets(base[|base| - 4..]), off)
  {
    var n := |base| - 4;
    var v := IPv4.IncIP(FromOctets(base[n..]), off);
    OctetsRoundTrip(v);
    var r := base[..n] + Octets(v);
    assert r[n..] == Octets(v);
    r
  }

  /** On the 16-byte form the correction changes nothing. */
  lemma CorrectedAgreesOn16(base: IP, off: U32)
    requires |base| == 16
    ensures IncIPAsWritten(base, off) == Some(IncIP(base, off))
  {
    var r := IncIPAsWritten(base, off).value;
    var c := IncIP(base, off);
    FromOctetsRoundTrip(r[12..16]);
    FromOctetsRoundTrip(c[12..]);
    assert r == r[..12] + r[12..16];
    assert c == c[..12] + c[12..];
  }

  /** For every IPv4 block the base the store keeps is the 4-byte form. */
  lemma StoreBaseIPIsFourBytes(a: U32, p: PrefixLen)
    ensures StoreBaseIP(a, p).Some? && |StoreBaseIP(a, p).value| == 4
  {
  }

  /** Hence the first allocation of every IPv4 store, which calls
      `incIP(s.baseIP, 10)`, indexes past the end and panics as written. */
  lemma AsWrittenAllocationPanics(a: U32, p: PrefixLen, off: U32)
    ensures StoreBaseIP(a, p).Some?
    ensures IncIPAsWritten(StoreBaseIP(a, p).value, off).None?
  {
    StoreBaseIPIsFourBytes(a, p);
  }

  /** The corrected `incIP` on that same 4-byte base yields the network
      address plus `off` (mod 2^32), which is what the store model allocates. */
  lemma CorrectedAllocationOnStoreBase(a: U32, p: PrefixLen, off: U32)
    ensures StoreBaseIP(a, p).Some?
    ensures var b := StoreBaseIP(a, p).value;
      |b| == 4 && |IncIP(b, off)| == 4 && FromOctets(IncIP(b, off)) == IPv4.IncIP(Mask(a, p), off)
  {
    StoreBaseIsMask(a, p);
    var b := StoreBaseIP(a, p).value;
    assert b[0..] == b;
    assert IncIP(b, off)[0..] == IncIP(b, off);
  }

  /** An all-ones mask keeps every bit. */
  lemma {:induction false} AndAllOnes(x: nat, n: nat, m: nat)
    requires x < Pow2(n) && m + 1 == Pow2(n)
    ensures AndBits(x, m, n) == x
    decreases n
  {
    if n > 0 {
      var m' := Pow2(n - 1) - 1;
      DivModSplit(m', 2, 1);
      assert m == m' * 2 + 1;
      AndAllOnes(x / 2, n - 1, m');
    }
  }

  /** Halving a mask of high ones over `h > 0` low zeros gives the mask
      over `h - 1` low zeros, with a zero lowest bit. */
  lemma HalveHighOnes(n: nat, h: nat, m: nat)
    requires 0 < h <= n && m + Pow2(h) == Pow2(n)
    ensures m / 2 + Pow2(h - 1) == Pow2(n - 1) && m % 2 == 0
  {
    Pow2Le(h - 1, n - 1);
    var m' := Pow2(n - 1) - Pow2(h - 1);
    assert m == m' * 2;
    DivModSplit(m', 2, 0);
  }

  /** A mask of high ones over `h` low zeros clears exactly the low `h`
      bits: what is left is `x` minus its remainder modulo `2^h`. */
  lemma {:induction false} AndHighOnes(x: nat, n: nat, h: nat, m: nat)
    requires x < Pow2(n) && h <= n && m + Pow2(h) == Pow2(n)
    ensures AndBits(x, m, n) == x - x % Pow2(h)
    decreases n
  {
    if h == 0 {
      AndAllOnes(x, n, m);
    } else {
      HalveHighOnes(n, h, m);
      var p := Pow2(h - 1);
      AndHighOnes(x / 2, n - 1, h - 1, m / 2);
      assert AndBits(x, m, n) == 2 * (x / 2 - (x / 2) % p);
      ModDouble(x, p);
      assert Pow2(h) == 2 * p;
    }
  }

  /** `CIDRMask`'s byte `^byte(0xff >> k)` is the byte with the low
      `ByteHostBits(k)` bits clear. */
  lemma MaskByteHighOnes(k: int)
    ensures MaskByte(k) == Pow2(8) - Pow2(ByteHostBits(k))
  {
    assert Pow2(8) == 256;
    if 0 < k < 8 {
      assert Pow2(1) == 2 && Pow2(2) == 4 && Pow2(3) == 8 && Pow2(4) == 16;
      assert Pow2(5) == 32 && Pow2(6) == 64 && Pow2(7) == 128;
    }
  }

  /** One masked byte keeps the byte less its `ByteHostBits(k)` low bits,
      which is `ClearedOctet(x, h)` for the `h = 8 - k` host bits the byte
      would hold if the whole address were one byte wide. */
  lemma AndMaskByte(x: Byte, k: int, h: int)
    requires h == 8 - k
    ensures AndByte(x, MaskByte(k)) == ClearedOctet(x, h)
  {
    MaskByteHighOnes(k);
    Pow2Le(ByteHostBits(k), 8);
    AndHighOnes(x, 8, ByteHostBits(k), MaskByte(k));
  }

  /** `(q * d + x) % d == x % d`. */
  lemma ModAddMultiple(q: nat, d: nat, x: nat)
    requires d > 0
    ensures (q * d + x) % d == x % d
  {
    assert x == x / d * d + x % d;
    assert q * d + x == (q + x / d) * d + x % d;
    DivModSplit(q + x / d, d, x % d);
  }

  /** Clearing the low bits modulo a divisor `d` of 256 from `hi * 256 + lo`
      touches `lo` alone. */
  lemma ClearLowInLastByte(hi: nat, lo: Byte, d: nat, k: nat)
    requires d > 0 && k * d == 256
    ensures (hi * 256 + lo) - (hi * 256 + lo) % d == hi * 256 + (lo - lo % d)
  {
    assert hi * 256 == (hi * k) * d;
    ModAddMultiple(hi * k, d, lo);
  }

  /** Clearing the low bits modulo `256 * g` from `hi * 256 + lo` clears
      `lo` and the bits of `hi` below `g`. */
  lemma ClearLowPastLastByte(hi: nat, lo: Byte, g: nat)
    requires g > 0
    ensures (hi * 256 + lo) - (hi * 256 + lo) % (256 * g) == (hi - hi % g) * 256
  {
    var q, r := hi / g, hi % g;
    var rest := r * 256 + lo;
    assert hi == q * g + r;
    MulLe(r + 1, g, 256);
    assert rest < 256 * g;
    assert hi * 256 + lo == q * (256 * g) + rest;
    DivModSplit(q, 256 * g, rest);
  }

  /** The two shapes of `2^h` that the byte split uses. */
  lemma Pow2Split(h: nat)
    ensures h <= 8 ==> Pow2(8 - h) * Pow2(h) == 256
    ensures h >= 8 ==> Pow2(h) == 256 * Pow2(h - 8)
  {
    assert Pow2(8) == 256;
    if h <= 8 {
      Pow2Add(8 - h, h);
    } else {
      Pow2Add(8, h - 8);
    }
  }

  /** Clearing `h <= 8` low bits of `v == hi * 256 + lo` touches `lo` alone. */
  lemma ClearLowInLastByteAt(v: nat, hi: nat, lo: Byte, h: nat)
    requires v == hi * 256 + lo && h <= 8
    ensures v - v % Pow2(h) == hi * 256 + (lo - lo % Pow2(h))
  {
    Pow2Split(h);
    ClearLowInLastByte(hi, lo, Pow2(h), Pow2(8 - h));
  }

  /** Clearing `h >= 8` low bits of `v == hi * 256 + lo` clears `lo` and
      the low `h - 8` bits of `hi`. */
  lemma ClearLowPastLastByteAt(v: nat, hi: nat, lo: Byte, h: nat)
    requires v == hi * 256 + lo && h >= 8
    ensures v - v % Pow2(h) == (hi - hi % Pow2(h - 8)) * 256
  {
    Pow2Split(h);
    ClearLowPastLastByte(hi, lo, Pow2(h - 8));
  }

  /** The four bytes of an address with its low `h` bits cleared, as the
      byte-by-byte masking leaves them. */
  function ClearedOctet(o: Byte, h: int): int {
    o - o % Pow2(ByteHostBits(8 - h))
  }

  /** An octet with no host bits in it is kept. */
  lemma OctetKept(o: Byte, h: int)
    requires h <= 0
    ensures ClearedOctet(o, h) == o
  {
    assert ByteHostBits(8 - h) == 0;
    DivModSplit(o, 1, 0);
  }

  /** An octet that is all host bits is cleared. */
  lemma OctetCleared(o: Byte, h: int)
    requires h >= 8
    ensures ClearedOctet(o, h) == 0
  {
    assert ByteHostBits(8 - h) == 8;
    assert Pow2(8) == 256;
    DivModSplit(0, 256, o);
  }

  /** An octet holding `h` host bits loses its remainder modulo `2^h`. */
  lemma OctetSplit(o: Byte, h: int)
    requires 0 <= h <= 8
    ensures ClearedOctet(o, h) == o - o % Pow2(h)
  {
    if h == 0 {
      OctetKept(o, h);
    } else {
      assert ByteHostBits(8 - h) == h;
    }
  }

  /** Host bits only in the last octet. */
  lemma ClearInFourthOctet(o0: Byte, o1: Byte, o2: Byte, o3: Byte, a: nat, h: nat)
    requires a == ((o0 as int * 256 + o1) * 256 + o2) * 256 + o3 && h <= 32
    requires h <= 8
    ensures a - a % Pow2(h)
      == ((ClearedOctet(o0, h - 24) * 256 + ClearedOctet(o1, h - 16)) * 256 + ClearedOctet(o2, h - 8)) * 256
         + ClearedOctet(o3, h)
  {
    var v2: nat := o0 as int * 256 + o1;
    var v3: nat := v2 * 256 + o2;
    OctetKept(o0, h - 24);
    OctetKept(o1, h - 16);
    OctetKept(o2, h - 8);
    OctetSplit(o3, h);
    ClearLowInLastByteAt(a, v3, o3, h);
  }

  /** Host bits reaching into the third octet. */
  lemma ClearInThirdOctet(o0: Byte, o1: Byte, o2: Byte, o3: Byte, a: nat, h: nat)
    requires a == ((o0 as int * 256 + o1) * 256 + o2) * 256 + o3 && h <= 32
    requires 8 < h <= 16
    ensures a - a % Pow2(h)
      == ((ClearedOctet(o0, h - 24) * 256 + ClearedOctet(o1, h - 16)) * 256 + ClearedOctet(o2, h - 8)) * 256
         + ClearedOctet(o3, h)
  {
    var v2: nat := o0 as int * 256 + o1;
    var v3: nat := v2 * 256 + o2;
    OctetKept(o0, h - 24);
    OctetKept(o1, h - 16);
    OctetSplit(o2, h - 8);
    OctetCleared(o3, h);
    ClearLowPastLastByteAt(a, v3, o3, h);
    ClearLowInLastByteAt(v3, v2, o2, h - 8);
  }

  /** Host bits reaching into the second octet. */
  lemma ClearInSecondOctet(o0: Byte, o1: Byte, o2: Byte, o3: Byte, a: nat, h: nat)
    requires a == ((o0 as int * 256 + o1) * 256 + o2) * 256 + o3 && h <= 32
    requires 16 < h <= 24
    ensures a - a % Pow2(h)
      == ((ClearedOctet(o0, h - 24) * 256 + ClearedOctet(o1, h - 16)) * 256 + ClearedOctet(o2, h - 8)) * 256
         + ClearedOctet(o3, h)
  {
    var v2: nat := o0 as int * 256 + o1;
    var v3: nat := v2 * 256 + o2;
    OctetKept(o0, h - 24);
    OctetSplit(o1, h - 16);
    OctetCleared(o2, h - 8);
    OctetCleared(o3, h);
    ClearLowPastLastByteAt(a, v3, o3, h);
    ClearLowPastLastByteAt(v3, v2, o2, h - 8);
    ClearLowInLastByteAt(v2, o0, o1, h - 16);
  }

  /** Host bits reaching into the first octet. */
  lemma ClearInFirstOctet(o0: Byte, o1: Byte, o2: Byte, o3: Byte, a: nat, h: nat)
    requires a == ((o0 as int * 256 + o1) * 256 + o2) * 256 + o3 && h <= 32
    requires 24 < h
    ensures a - a % Pow2(h)
      == ((ClearedOctet(o0, h - 24) * 256 + ClearedOctet(o1, h - 16)) * 256 + ClearedOctet(o2, h - 8)) * 256
         + ClearedOctet(o3, h)
  {
    var v2: nat := o0 as int * 256 + o1;
    var v3: nat := v2 * 256 + o2;
    OctetSplit(o0, h - 24);
    OctetCleared(o1, h - 16);
    OctetCleared(o2, h - 8);
    OctetCleared(o3, h);
    ClearLowPastLastByteAt(a, v3, o3, h);
    ClearLowPastLastByteAt(v3, v2, o2, h - 8);
    ClearLowPastLastByteAt(v2, o0, o1, h - 16);
  }

  /** Clearing the low `h` bits of `((o0 * 256 + o1) * 256 + o2) * 256 + o3`
      leaves, byte by byte, each octet less the host bits inside it. */
  lemma ClearOctetsOf(o0: Byte, o1: Byte, o2: Byte, o3: Byte, a: nat, h: nat)
    requires a == ((o0 as int * 256 + o1) * 256 + o2) * 256 + o3 && h <= 32
    ensures a - a % Pow2(h)
      == ((ClearedOctet(o0, h - 24) * 256 + ClearedOctet(o1, h - 16)) * 256 + ClearedOctet(o2, h - 8)) * 256
         + ClearedOctet(o3, h)
  {
    if h <= 8 {
      ClearInFourthOctet(o0, o1, o2, o3, a, h);
    } else if h <= 16 {
      ClearInThirdOctet(o0, o1, o2, o3, a, h);
    } else if h <= 24 {
      ClearInSecondOctet(o0, o1, o2, o3, a, h);
    } else {
      ClearInFirstOctet(o0, o1, o2, o3, a, h);
    }
  }

  /** Byte by byte, masking with `CIDRMask(p)` leaves each octet less the
      `h = 32 - p` host bits that fall inside it. */
  lemma MaskedOctets(o: seq<Byte>, p: PrefixLen, r: seq<Byte>, h: int)
    requires |o| == 4 && |r| == 4 && h == 32 - p
    requires forall i :: 0 <= i < 4 ==> r[i] == AndByte(o[i], CIDRMask(p)[i])
    ensures r[0] == ClearedOctet(o[0], h - 24) && r[1] == ClearedOctet(o[1], h - 16)
    ensures r[2] == ClearedOctet(o[2], h - 8) && r[3] == ClearedOctet(o[3], h)
  {
    var m := CIDRMask(p);
    assert m == [MaskByte(p), MaskByte(p - 8), MaskByte(p - 16), MaskByte(p - 24)];
    AndMaskByte(o[0], p, h - 24);
    AndMaskByte(o[1], p - 8, h - 16);
    AndMaskByte(o[2], p - 16, h - 8);
    AndMaskByte(o[3], p - 24, h);
  }

  /** Masking four octets byte by byte with `CIDRMask(p)` clears the low
      `32 - p` bits of the address they spell. */
  lemma MaskOctets(o: seq<Byte>, p: PrefixLen, r: seq<Byte>)
    requires |o| == 4 && |r| == 4
    requires forall i :: 0 <= i < 4 ==> r[i] == AndByte(o[i], CIDRMask(p)[i])
    ensures FromOctets(r) == Mask(FromOctets(o), p)
  {
    var h := 32 - p;
    var a := FromOctets(o);
    MaskedOctets(o, p, r, h);
    ClearOctetsOf(o[0], o[1], o[2], o[3], a, h);
    LowBitsMod(a, h);
  }

  /** The base the store keeps spells the block's network address, the
      `Mask(a, p)` that `ParseCIDR` returns and the store model's
      `Candidate` counts up from. */
  lemma StoreBaseIsMask(a: U32, p: PrefixLen)
    ensures StoreBaseIP(a, p).Some? && |StoreBaseIP(a, p).value| == 4
    ensures FromOctets(StoreBaseIP(a, p).value) == Mask(a, p)
  {
    var o, m, ip := Octets(a), CIDRMask(p), To16(a);
    assert V6FormUnderV4Mask(ip, m);
    var b := MaskIP(ip, m).value;
    assert ip[12..] == o;
    forall i | 0 <= i < 4
      ensures b[i] == AndByte(o[i], m[i])
    {
      assert ip[12 + i] == ip[12..][i];
    }
    MaskOctets(o, p, b);
    OctetsRoundTrip(a);
  }
}
