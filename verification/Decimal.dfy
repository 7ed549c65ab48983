/** Decimal text: the digits a number is printed with and the number digits stand for. */
module Decimal {
  import opened Words

  const ZERO: Byte := 0x30
  const MINUS: Byte := 0x2d

  predicate IsDigit(c: Byte) {
    ZERO <= c < ZERO + 10
  }

  predicate AllDigits(s: Bytes) {
    forall i | 0 <= i < |s| :: IsDigit(s[i])
  }

  /** The decimal digits of `n`, without leading zeros. */
  function Digits(n: nat): (s: Bytes)
    ensures |s| > 0
  {
    if n < 10 then [ZERO + n] else Digits(n / 10) + [ZERO + n % 10]
  }

  /** Left-pads with zeros to at least `width` characters. */
  function PadTo(s: Bytes, width: nat): (r: Bytes)
    ensures |r| == if |s| < width then width else |s|
  {
    seq(if |s| < width then width - |s| else 0, _ => ZERO) + s
  }

  function FromDigits(s: Bytes): int {
    if s == [] then 0 else FromDigits(s[..|s| - 1]) * 10 + (s[|s| - 1] - ZERO)
  }

  function Pow10(n: nat): (p: nat)
    ensures p > 0
  {
    if n == 0 then 1 else 10 * Pow10(n - 1)
  }

  lemma {:induction false} DigitsBack(n: nat)
    ensures AllDigits(Digits(n)) && FromDigits(Digits(n)) == n
  {
    if n >= 10 {
      DigitsBack(n / 10);
      assert Digits(n)[..|Digits(n)| - 1] == Digits(n / 10);
    } else {
      assert Digits(n)[..0] == [];
    }
  }

  lemma {:induction false} ZerosBefore(count: nat, s: Bytes)
    ensures FromDigits(seq(count, _ => ZERO) + s) == FromDigits(s)
    decreases count + |s|
  {
    var r := seq(count, _ => ZERO) + s;
    if s != [] {
      ZerosBefore(count, s[..|s| - 1]);
      assert r[..|r| - 1] == seq(count, _ => ZERO) + s[..|s| - 1];
    } else if count > 0 {
      ZerosBefore(count - 1, []);
      assert r[..|r| - 1] == seq(count - 1, _ => ZERO) + [];
    }
  }

  lemma PaddedBack(n: nat, width: nat)
    ensures AllDigits(PadTo(Digits(n), width)) && FromDigits(PadTo(Digits(n), width)) == n
  {
    DigitsBack(n);
    var d := Digits(n);
    ZerosBefore(if |d| < width then width - |d| else 0, d);
  }

  /** A number has `k` digits or fewer exactly when it is below 10^k. */
  lemma {:induction false} DigitCount(n: nat, k: nat)
    requires k > 0
    ensures |Digits(n)| <= k <==> n < Pow10(k)
    decreases k
  {
    if k > 1 && n >= 10 {
      DigitCount(n / 10, k - 1);
    } else if k == 1 {
      assert Pow10(1) == 10;
    } else {
      Pow10AtLeast(k);
    }
  }

  lemma {:induction false} Pow10AtLeast(k: nat)
    requires k > 0
    ensures Pow10(k) >= 10
  {
    if k > 1 {
      Pow10AtLeast(k - 1);
    }
  }

  /** The leading `k` digits of a number are the number without the rest. */
  lemma {:induction false} LeadingDigits(n: nat, k: nat)
    requires 0 < k <= |Digits(n)|
    ensures FromDigits(Digits(n)[..k]) == n / Pow10(|Digits(n)| - k)
    decreases n
  {
    var d := Digits(n);
    if k == |d| {
      assert d[..k] == d;
      DigitsBack(n);
      assert Pow10(0) == 1;
    } else {
      assert n >= 10;
      assert d[..k] == Digits(n / 10)[..k];
      LeadingDigits(n / 10, k);
      DivideTwice(n, 10, Pow10(|d| - 1 - k));
    }
  }

  lemma {:induction false} DigitsBound(s: Bytes)
    requires AllDigits(s)
    ensures 0 <= FromDigits(s) < Pow10(|s|)
  {
    if s != [] {
      DigitsBound(s[..|s| - 1]);
    }
  }

  /** Decimal text in bytes: nothing is 0, and one more digit counts ten times what was before it. */
  lemma DecimalReads(s: Bytes, c: Byte)
    requires 0x30 <= c <= 0x39
    ensures FromDigits([]) == 0 && FromDigits(s + [c]) == 10 * FromDigits(s) + (c - 0x30)
  {
    assert (s + [c])[..|s|] == s;
  }
}
