/** Unpadded base64url: the alphabet of section 5 of RFC 4648 ('-' and '_'
    in place of '+' and '/') with the padding left off as section 3.2
    permits. This is Go's `base64.RawURLEncoding`. `Encode` follows the
    encoder; `Decode` is the reference inverse the properties are stated
    against. */
module Base64Url {
  import opened Results
  import opened Ints

  type Sextet = x: int | 0 <= x < 64

  /** The character for a 6-bit value. */
  function Symbol(v: Sextet): (c: char)
    ensures UrlSafe(c)
  {
    if v < 26 then ('A' as int + v) as char
    else if v < 52 then ('a' as int + (v - 26)) as char
    else if v < 62 then ('0' as int + (v - 52)) as char
    else if v == 62 then '-'
    else '_'
  }

  /** The characters of the URL-safe alphabet; '=' is not among them. */
  predicate UrlSafe(c: char) {
    ('A' <= c <= 'Z') || ('a' <= c <= 'z') || ('0' <= c <= '9') || c == '-' || c == '_'
  }

  function SymbolValue(c: char): (r: Option<Sextet>)
    ensures r.Some? <==> UrlSafe(c)
    ensures r.Some? ==> Symbol(r.value) == c
  {
    if 'A' <= c <= 'Z' then Some(c as int - 'A' as int)
    else if 'a' <= c <= 'z' then Some(c as int - 'a' as int + 26)
    else if '0' <= c <= '9' then Some(c as int - '0' as int + 52)
    else if c == '-' then Some(62)
    else if c == '_' then Some(63)
    else None
  }

  lemma SymbolRoundTrip(v: Sextet)
    ensures SymbolValue(Symbol(v)) == Some(v)
  {
  }

  /** Three bytes become four characters. */
  function EncodeGroup(b0: Byte, b1: Byte, b2: Byte): seq<char> {
    var v := (b0 * 256 + b1) * 256 + b2;
    var t := v / 64;
    var u := t / 64;
    [Symbol(u / 64), Symbol(u % 64), Symbol(t % 64), Symbol(v % 64)]
  }

  /** Two trailing bytes become three characters (16 bits, 2 zero bits). */
  function EncodeTail2(b0: Byte, b1: Byte): seq<char> {
    var v := (b0 * 256 + b1) * 4;
    var t := v / 64;
    [Symbol(t / 64), Symbol(t % 64), Symbol(v % 64)]
  }

  /** One trailing byte becomes two characters (8 bits, 4 zero bits). */
  function EncodeTail1(b0: Byte): seq<char> {
    var v := b0 * 16;
    [Symbol(v / 64), Symbol(v % 64)]
  }

  /** `RawURLEncoding.EncodeToString`. */
  function Encode(b: seq<Byte>): (s: string)
    ensures |s| == (4 * |b| + 2) / 3
    ensures forall i :: 0 <= i < |s| ==> UrlSafe(s[i])
    decreases |b|
  {
    if |b| == 0 then []
    else if |b| == 1 then EncodeTail1(b[0])
    else if |b| == 2 then EncodeTail2(b[0], b[1])
    else EncodeGroup(b[0], b[1], b[2]) + Encode(b[3..])
  }

  function DecodeGroup(c0: Sextet, c1: Sextet, c2: Sextet, c3: Sextet): seq<Byte> {
    var w := ((c0 * 64 + c1) * 64 + c2) * 64 + c3;
    var x := w / 256;
    [x / 256, x % 256, w % 256]
  }

  function DecodeTail3(c0: Sextet, c1: Sextet, c2: Sextet): seq<Byte> {
    var x := ((c0 * 64 + c1) * 64 + c2) / 4;
    [x / 256, x % 256]
  }

  function DecodeTail2(c0: Sextet, c1: Sextet): seq<Byte> {
    [(c0 * 64 + c1) / 16]
  }

  /** Reads unpadded base64url back into bytes; a character outside the
      alphabet or a lone trailing character is an error. */
  function Decode(s: string): Option<seq<Byte>>
    decreases |s|
  {
    if |s| == 0 then Some([])
    else if |s| == 1 then None
    else if |s| == 2 then
      match (SymbolValue(s[0]), SymbolValue(s[1]))
      case (Some(c0), Some(c1)) => Some(DecodeTail2(c0, c1))
      case _ => None
    else if |s| == 3 then
      match (SymbolValue(s[0]), SymbolValue(s[1]), SymbolValue(s[2]))
      case (Some(c0), Some(c1), Some(c2)) => Some(DecodeTail3(c0, c1, c2))
      case _ => None
    else
      match (SymbolValue(s[0]), SymbolValue(s[1]), SymbolValue(s[2]), SymbolValue(s[3]), Decode(s[4..]))
      case (Some(c0), Some(c1), Some(c2), Some(c3), Some(rest)) => Some(DecodeGroup(c0, c1, c2, c3) + rest)
      case _ => None
  }

  /** Four sextets of a 24-bit value reassemble it. */
  lemma SextetsOf24(v: nat)
    requires v < 0x100_0000
    ensures v / 64 / 64 / 64 < 64
    ensures ((v / 64 / 64 / 64 * 64 + v / 64 / 64 % 64) * 64 + v / 64 % 64) * 64 + v % 64 == v
  {
    var t := v / 64;
    var u := t / 64;
    assert v == t * 64 + v % 64;
    assert t == u * 64 + t % 64;
    assert u == u / 64 * 64 + u % 64;
  }

  lemma BytesOf24(b0: Byte, b1: Byte, b2: Byte)
    ensures var v := (b0 * 256 + b1) * 256 + b2;
      v < 0x100_0000 && v / 256 / 256 == b0 && v / 256 % 256 == b1 && v % 256 == b2
  {
    DivModSplit(b0 * 256 + b1, 256, b2);
    DivModSplit(b0, 256, b1);
  }

  lemma GroupArith(b0: Byte, b1: Byte, b2: Byte)
    ensures var v := (b0 * 256 + b1) * 256 + b2;
      v / 64 / 64 / 64 < 64 &&
      DecodeGroup(v / 64 / 64 / 64, v / 64 / 64 % 64, v / 64 % 64, v % 64) == [b0, b1, b2]
  {
    var v := (b0 * 256 + b1) * 256 + b2;
    BytesOf24(b0, b1, b2);
    SextetsOf24(v);
  }

  /** A character produced by `Symbol(c)` reads back as `c`. */
  lemma ReadsBack(e: char, c: Sextet)
    requires e == Symbol(c)
    ensures SymbolValue(e) == Some(c)
  {
    SymbolRoundTrip(c);
  }

  lemma GroupRoundTrip(b0: Byte, b1: Byte, b2: Byte)
    ensures var e := EncodeGroup(b0, b1, b2);
      SymbolValue(e[0]).Some? && SymbolValue(e[1]).Some? && SymbolValue(e[2]).Some? && SymbolValue(e[3]).Some? &&
      DecodeGroup(SymbolValue(e[0]).value, SymbolValue(e[1]).value, SymbolValue(e[2]).value, SymbolValue(e[3]).value) == [b0, b1, b2]
  {
    var v := (b0 * 256 + b1) * 256 + b2;
    GroupArith(b0, b1, b2);
    var e := EncodeGroup(b0, b1, b2);
    ReadsBack(e[0], v / 64 / 64 / 64);
    ReadsBack(e[1], v / 64 / 64 % 64);
    ReadsBack(e[2], v / 64 % 64);
    ReadsBack(e[3], v % 64);
  }

  lemma Tail2Arith(b0: Byte, b1: Byte)
    ensures var v := (b0 * 256 + b1) * 4;
      v / 64 / 64 < 64 && DecodeTail3(v / 64 / 64, v / 64 % 64, v % 64) == [b0, b1]
  {
    var x := b0 * 256 + b1;
    var v := x * 4;
    var t := v / 64;
    assert v == t * 64 + v % 64;
    assert t == t / 64 * 64 + t % 64;
    DivModSplit(x, 4, 0);
    DivModSplit(b0, 256, b1);
  }

  lemma Tail2RoundTrip(b0: Byte, b1: Byte)
    ensures var e := EncodeTail2(b0, b1);
      SymbolValue(e[0]).Some? && SymbolValue(e[1]).Some? && SymbolValue(e[2]).Some? &&
      DecodeTail3(SymbolValue(e[0]).value, SymbolValue(e[1]).value, SymbolValue(e[2]).value) == [b0, b1]
  {
    var v := (b0 * 256 + b1) * 4;
    Tail2Arith(b0, b1);
    var e := EncodeTail2(b0, b1);
    ReadsBack(e[0], v / 64 / 64);
    ReadsBack(e[1], v / 64 % 64);
    ReadsBack(e[2], v % 64);
  }

  lemma Tail1RoundTrip(b0: Byte)
    ensures var e := EncodeTail1(b0);
      SymbolValue(e[0]).Some? && SymbolValue(e[1]).Some? &&
      DecodeTail2(SymbolValue(e[0]).value, SymbolValue(e[1]).value) == [b0]
  {
    var v := b0 * 16;
    assert v == v / 64 * 64 + v % 64;
    DivModSplit(b0, 16, 0);
    var e := EncodeTail1(b0);
    ReadsBack(e[0], v / 64);
    ReadsBack(e[1], v % 64);
  }

  lemma DecodeOfGroup(b0: Byte, b1: Byte, b2: Byte, rest: string, tail: seq<Byte>)
    requires Decode(rest) == Some(tail)
    ensures Decode(EncodeGroup(b0, b1, b2) + rest) == Some([b0, b1, b2] + tail)
  {
    var s := EncodeGroup(b0, b1, b2) + rest;
    GroupRoundTrip(b0, b1, b2);
    assert s[4..] == rest;
    assert s[..4] == EncodeGroup(b0, b1, b2);
  }

  lemma DecodeOfTail1(b0: Byte)
    ensures Decode(EncodeTail1(b0)) == Some([b0])
  {
    Tail1RoundTrip(b0);
  }

  lemma DecodeOfTail2(b0: Byte, b1: Byte)
    ensures Decode(EncodeTail2(b0, b1)) == Some([b0, b1])
  {
    Tail2RoundTrip(b0, b1);
  }

  /** Decoding undoes encoding, for every byte string. */
  lemma {:induction false} DecodeEncode(b: seq<Byte>)
    ensures Decode(Encode(b)) == Some(b)
    decreases |b|
  {
    if |b| == 1 {
      assert Encode(b) == EncodeTail1(b[0]);
      DecodeOfTail1(b[0]);
      assert b == [b[0]];
    } else if |b| == 2 {
      assert Encode(b) == EncodeTail2(b[0], b[1]);
      DecodeOfTail2(b[0], b[1]);
      assert b == [b[0], b[1]];
    } else if |b| >= 3 {
      var rest := b[3..];
      DecodeEncode(rest);
      assert Encode(b) == EncodeGroup(b[0], b[1], b[2]) + Encode(rest);
      DecodeOfGroup(b[0], b[1], b[2], Encode(rest), rest);
      HeadGroup(b);
    }
  }

  lemma HeadGroup(b: seq<Byte>)
    requires |b| >= 3
    ensures b == [b[0], b[1], b[2]] + b[3..]
  {
    assert b[..3] == [b[0], b[1], b[2]];
    assert b == b[..3] + b[3..];
  }

  /** Distinct byte strings encode to distinct text. */
  lemma EncodeInjective(a: seq<Byte>, b: seq<Byte>)
    requires Encode(a) == Encode(b)
    ensures a == b
  {
    DecodeEncode(a);
    DecodeEncode(b);
  }
}
