/** Fixed-width integers of the Go program (bytes, uint32) as bounded
    mathematical integers, with the division facts the other modules use. */
module Ints {

  const TwoTo32: nat := 0x1_0000_0000

  type Byte = x: int | 0 <= x < 256
  type U32 = x: int | 0 <= x < TwoTo32

  /** Go's uint32 arithmetic: reduce modulo 2^32. */
  function Wrap32(x: int): U32 {
    x % TwoTo32
  }

  /** A value already in range is left alone. */
  lemma WrapInRange(x: int)
    requires 0 <= x < TwoTo32
    ensures Wrap32(x) == x
  {
    DivModSplit(0, TwoTo32, x);
  }

  function Pow2(n: nat): (r: nat)
    ensures r >= 1
  {
    if n == 0 then 1 else 2 * Pow2(n - 1)
  }

  lemma {:induction false} Pow2Le(m: nat, n: nat)
    requires m <= n
    ensures Pow2(m) <= Pow2(n)
    decreases n
  {
    if m < n {
      Pow2Le(m, n - 1);
    }
  }

  lemma {:induction false} Pow2Add(a: nat, b: nat)
    ensures Pow2(a + b) == Pow2(a) * Pow2(b)
    decreases a
  {
    if a > 0 {
      Pow2Add(a - 1, b);
    }
  }

  lemma Pow2Of32()
    ensures Pow2(32) == TwoTo32
  {
    assert Pow2(8) == 256;
    Pow2Add(8, 8);
    Pow2Add(16, 16);
  }

  /** Powers of two up to the 32nd fit in 33 bits. */
  lemma Pow2AtMost32(n: nat)
    requires n <= 32
    ensures Pow2(n) <= TwoTo32
  {
    Pow2Le(n, 32);
    Pow2Of32();
  }

  /** The low `k` bits of `a`, taken one bit at a time. */
  function LowBits(a: nat, k: nat): (r: nat)
    ensures r <= a
    decreases k
  {
    if k == 0 then 0 else a % 2 + 2 * LowBits(a / 2, k - 1)
  }

  /** The low `k` bits are the remainder modulo `2^k`. */
  lemma {:induction false} LowBitsMod(a: nat, k: nat)
    ensures LowBits(a, k) == a % Pow2(k)
    decreases k
  {
    if k > 0 {
      LowBitsMod(a / 2, k - 1);
      ModDouble(a, Pow2(k - 1));
    }
  }

  /** The remainder modulo `2h` from the remainder of the halved value. */
  lemma ModDouble(a: nat, h: nat)
    requires h > 0
    ensures a % (2 * h) == 2 * ((a / 2) % h) + a % 2
  {
    var q, r := (a / 2) / h, (a / 2) % h;
    assert a / 2 == q * h + r;
    assert a == q * (2 * h) + (2 * r + a % 2);
    DivModSplit(q, 2 * h, 2 * r + a % 2);
  }

  lemma DivPlusMod(a: nat, d: nat)
    requires d > 0
    ensures a - a % d == a / d * d
  {
  }

  lemma MulLe(x: nat, y: nat, d: nat)
    requires x <= y
    ensures x * d <= y * d
  {
    assert y * d == x * d + (y - x) * d;
  }

  lemma MulCancel(x: nat, y: nat, d: nat)
    requires d > 0
    ensures x * d == y * d <==> x == y
  {
    if x < y {
      MulLe(x + 1, y, d);
      MulSucc(x, d);
    } else if y < x {
      MulLe(y + 1, x, d);
      MulSucc(y, d);
    }
  }

  lemma MulSucc(x: int, d: int)
    ensures (x + 1) * d == x * d + d
  {
  }

  /** Division is determined by the interval the dividend falls in. */
  lemma DivUnique(a: nat, d: nat, q: nat)
    requires d > 0
    ensures a / d == q <==> q * d <= a < q * d + d
  {
    var q' := a / d;
    assert a == q' * d + a % d;
    MulSucc(q, d);
    MulSucc(q', d);
    if q * d <= a < q * d + d {
      if q' < q {
        MulLe(q' + 1, q, d);
      } else if q' > q {
        MulLe(q + 1, q', d);
      }
    }
  }

  lemma DivMul(a: nat, d: nat)
    requires d > 0
    ensures a / d * d <= a < a / d * d + d
    ensures (a / d * d) % d == 0
  {
    var q := a / d;
    assert a == q * d + a % d;
    MulMod(q, d);
  }

  lemma MulMod(q: nat, d: nat)
    requires d > 0
    ensures (q * d) % d == 0 && (q * d) / d == q
  {
    DivUnique(q * d, d, q);
  }

  /** `hi * d + lo` with `lo < d` splits back into `hi` and `lo`. */
  lemma DivModSplit(hi: nat, d: nat, lo: nat)
    requires lo < d
    ensures (hi * d + lo) / d == hi && (hi * d + lo) % d == lo
  {
    DivUnique(hi * d + lo, d, hi);
  }
}
