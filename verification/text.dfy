/** Decimal text, as Go's `strconv.Itoa` / `fmt.Sprintf("%d")` writes a
    non-negative integer, and the digit-run reader that `net` uses to parse
    one back. */
module Text {

  predicate IsDigit(c: char) {
    '0' <= c <= '9'
  }

  predicate AllDigits(s: string) {
    forall i :: 0 <= i < |s| ==> IsDigit(s[i])
  }

  function DigitChar(d: nat): (c: char)
    requires d < 10
    ensures IsDigit(c)
  {
    (('0' as int) + d) as char
  }

  function DigitValue(c: char): (d: nat)
    requires IsDigit(c)
    ensures d < 10 && DigitChar(d) == c
  {
    (c as int) - ('0' as int)
  }

  /** Shortest decimal spelling of `n`: digits only, never a leading zero
      except for the number zero itself. */
  function Itoa(n: nat): (s: string)
    ensures 1 <= |s|
    ensures AllDigits(s)
    ensures (s[0] == '0') == (n == 0)
    decreases n
  {
    if n < 10 then [DigitChar(n)] else Itoa(n / 10) + [DigitChar(n % 10)]
  }

  /** The value of a run of decimal digits (the empty run reads as zero). */
  function DigitsValue(s: string): nat
    requires AllDigits(s)
  {
    if |s| == 0 then 0 else 10 * DigitsValue(s[..|s| - 1]) + DigitValue(s[|s| - 1])
  }

  /** A digit run in the form `Itoa` writes: non-empty, no leading zero. */
  predicate Canonical(s: string) {
    1 <= |s| && AllDigits(s) && (|s| > 1 ==> s[0] != '0')
  }

  lemma {:induction false} DigitsValueOfItoa(n: nat)
    ensures DigitsValue(Itoa(n)) == n
    decreases n
  {
    if n >= 10 {
      var s := Itoa(n);
      assert s[..|s| - 1] == Itoa(n / 10);
      DigitsValueOfItoa(n / 10);
    }
  }

  lemma {:induction false} ItoaOfDigitsValue(s: string)
    requires Canonical(s)
    ensures Itoa(DigitsValue(s)) == s
    decreases |s|
  {
    var last := s[|s| - 1];
    if |s| > 1 {
      var p := s[..|s| - 1];
      assert p[0] == s[0];
      ItoaOfDigitsValue(p);
      var v := DigitsValue(p);
      assert v != 0;
      var n := 10 * v + DigitValue(last);
      assert n / 10 == v && n % 10 == DigitValue(last);
      assert s == p + [last];
    }
  }

  /** Itoa is one-to-one: distinct numbers have distinct spellings. */
  lemma ItoaInjective(m: nat, n: nat)
    requires Itoa(m) == Itoa(n)
    ensures m == n
  {
    DigitsValueOfItoa(m);
    DigitsValueOfItoa(n);
  }

  lemma {:induction false} ItoaLength(n: nat)
    ensures n < 10 ==> |Itoa(n)| == 1
    ensures n < 100 ==> |Itoa(n)| <= 2
    ensures n < 1000 ==> |Itoa(n)| <= 3
    decreases n
  {
    if n >= 10 {
      ItoaLength(n / 10);
    }
  }

  /** `sub` occurs in `s` at some position: Go's `strings.Contains`. */
  predicate ContainsSubstring(s: string, sub: string) {
    exists i | 0 <= i <= |s| - |sub| :: OccursAt(s, sub, i)
  }

  predicate OccursAt(s: string, sub: string, i: nat)
    requires i + |sub| <= |s|
  {
    s[i..i + |sub|] == sub
  }

  /** `c` occurs in `s`. */
  predicate HasChar(s: string, c: char) {
    exists i | 0 <= i < |s| :: s[i] == c
  }

  /** Index of the first `c` in `s`, or -1: Go's `strings.IndexByte`. */
  function IndexOf(s: string, c: char): (i: int)
    ensures -1 <= i < |s|
    ensures i == -1 <==> !HasChar(s, c)
    ensures i >= 0 ==> s[i] == c && !HasChar(s[..i], c)
  {
    if |s| == 0 then -1
    else if s[0] == c then 0
    else
      var j := IndexOf(s[1..], c);
      assert forall k | 0 <= k < |s| - 1 :: s[1..][k] == s[k + 1];
      if j == -1 then -1
      else
        assert s[..j + 1] == [s[0]] + s[1..][..j];
        j + 1
  }

  lemma {:induction false} IndexOfAfter(t: string, c: char, rest: string)
    requires !HasChar(t, c)
    ensures IndexOf(t + ([c] + rest), c) == |t|
    decreases |t|
  {
    if |t| > 0 {
      assert (t + ([c] + rest))[1..] == t[1..] + ([c] + rest);
      assert !HasChar(t[1..], c) by {
        forall i | 0 <= i < |t| - 1 ensures t[1..][i] != c {
          assert t[1..][i] == t[i + 1];
        }
      }
      IndexOfAfter(t[1..], c, rest);
    }
  }
}
