/** Powers of ten and the decimal text of natural numbers. */
module Digits {
  import opened Arithmetic

  function Pow10(n: nat): (p: nat)
    ensures p >= 1
  {
    if n == 0 then 1 else 10 * Pow10(n - 1)
  }

  lemma Pow10Add(a: nat, b: nat)
    ensures Pow10(a + b) == Pow10(a) * Pow10(b)
  {
    if a > 0 {
      Pow10Add(a - 1, b);
    }
  }

  lemma Pow10Monotone(a: nat, b: nat)
    requires a <= b
    ensures Pow10(a) <= Pow10(b)
  {
    Pow10Add(a, b - a);
  }

  /** The powers a decimal scale can reach. */
  lemma Pow10Table()
    ensures Pow10(0) == 1 && Pow10(1) == 10 && Pow10(2) == 100 && Pow10(3) == 1_000
    ensures Pow10(4) == 10_000 && Pow10(5) == 100_000 && Pow10(6) == 1_000_000
  {
    assert Pow10(3) == 1_000;
  }

  /** `c` followed by `n` zeros: the product of `c` and ten to the `n`. */
  function Scaled(c: nat, n: nat): nat {
    if n == 0 then c else 10 * Scaled(c, n - 1)
  }

  lemma {:induction false} ScaledProduct(c: nat, n: nat)
    ensures Scaled(c, n) == c * Pow10(n)
  {
    if n > 0 {
      ScaledProduct(c, n - 1);
      MulAssociative(c, 10, Pow10(n - 1));
    }
  }

  lemma {:induction false} ScaledAdd(a: nat, b: nat, n: nat)
    ensures Scaled(a + b, n) == Scaled(a, n) + Scaled(b, n)
  {
    if n > 0 {
      ScaledAdd(a, b, n - 1);
    }
  }

  lemma {:induction false} ScaledLeq(a: nat, b: nat, n: nat)
    ensures Scaled(a, n) <= Scaled(b, n) <==> a <= b
    ensures Scaled(a, n) == Scaled(b, n) <==> a == b
  {
    if n > 0 {
      ScaledLeq(a, b, n - 1);
    }
  }

  lemma {:induction false} ScaledTwice(c: nat, m: nat, n: nat)
    ensures Scaled(Scaled(c, m), n) == Scaled(c, m + n)
  {
    if n > 0 {
      ScaledTwice(c, m, n - 1);
    }
  }

  lemma {:induction false} ScaledGrows(c: nat, m: nat, n: nat)
    requires m <= n
    ensures c <= Scaled(c, m) <= Scaled(c, n)
  {
    if m < n {
      ScaledGrows(c, m, n - 1);
    } else if m > 0 {
      ScaledGrows(c, m - 1, m - 1);
    }
  }

  lemma {:induction false} ScaledZero(n: nat)
    ensures Scaled(0, n) == 0
  {
    if n > 0 {
      ScaledZero(n - 1);
    }
  }

  lemma ScaledTable(c: nat)
    ensures Scaled(c, 3) == 1_000 * c && Scaled(c, 6) == 1_000_000 * c
  {
    assert Scaled(c, 1) == 10 * c;
    assert Scaled(c, 2) == 10 * Scaled(c, 1);
    assert Scaled(c, 3) == 10 * Scaled(c, 2);
    assert Scaled(c, 4) == 10 * Scaled(c, 3);
    assert Scaled(c, 5) == 10 * Scaled(c, 4);
  }

  lemma ScaledByThousand(c: nat, n: nat)
    ensures Scaled(c, n + 3) == Scaled(c, n) * 1_000
  {
    ScaledTwice(c, n, 3);
    ScaledTable(Scaled(c, n));
  }

  predicate IsDigit(c: char) {
    '0' <= c <= '9'
  }

  predicate AllDigits(s: string) {
    forall i :: 0 <= i < |s| ==> IsDigit(s[i])
  }

  function DigitValue(c: char): nat
    requires IsDigit(c)
  {
    c as int - '0' as int
  }

  function DigitChar(n: nat): (c: char)
    requires n < 10
    ensures IsDigit(c) && DigitValue(c) == n
  {
    ('0' as int + n) as char
  }

  predicate IsHexDigit(c: char) {
    IsDigit(c) || 'a' <= c <= 'f'
  }

  function HexValue(c: char): (n: nat)
    requires IsHexDigit(c)
    ensures n < 16
  {
    if IsDigit(c) then DigitValue(c) else c as int - 'a' as int + 10
  }

  /** Entry `n` of the lowercase hexadecimal digit table. */
  function HexDigit(n: nat): (c: char)
    requires n < 16
    ensures IsHexDigit(c) && HexValue(c) == n
  {
    if n < 10 then DigitChar(n) else ('a' as int + n - 10) as char
  }

  lemma HexDigitOfValue(c: char)
    requires IsHexDigit(c)
    ensures HexDigit(HexValue(c)) == c
  {
  }

  /** The number a digit string denotes, most significant digit first. */
  function DigitsValue(s: string): nat
    requires AllDigits(s)
  {
    if s == "" then 0 else DigitsValue(s[..|s| - 1]) * 10 + DigitValue(s[|s| - 1])
  }

  /** The digits in order. */
  lemma DigitTable(n: nat)
    requires n < 16
    ensures HexDigit(n) == "0123456789abcdef"[n]
    ensures n < 10 ==> DigitChar(n) == "0123456789"[n]
  {
  }

  /** What Rust's `Display` prints for an unsigned integer. */
  function NatText(n: nat): (s: string)
    ensures AllDigits(s) && |s| >= 1
  {
    if n < 10 then [DigitChar(n)] else NatText(n / 10) + [DigitChar(n % 10)]
  }

  /** A digit string that integer printing could have produced. */
  predicate CanonicalDigits(s: string) {
    AllDigits(s) && s != "" && (|s| > 1 ==> s[0] != '0')
  }

  lemma {:induction false} NatTextIsCanonical(n: nat)
    ensures CanonicalDigits(NatText(n)) && DigitsValue(NatText(n)) == n
    ensures n > 0 ==> NatText(n)[0] != '0'
  {
    if n >= 10 {
      NatTextIsCanonical(n / 10);
      assert NatText(n)[..|NatText(n)| - 1] == NatText(n / 10);
    }
  }

  lemma {:induction false} LeadingDigitPositive(s: string)
    requires AllDigits(s) && s != "" && s[0] != '0'
    ensures DigitsValue(s) > 0
  {
    if |s| > 1 {
      LeadingDigitPositive(s[..|s| - 1]);
    }
  }

  /** Printing undoes reading on canonical digit strings. */
  lemma {:induction false} NatTextOfValue(s: string)
    requires CanonicalDigits(s)
    ensures NatText(DigitsValue(s)) == s
  {
    if |s| > 1 {
      var init := s[..|s| - 1];
      LeadingDigitPositive(init);
      NatTextOfValue(init);
      assert s == init + [s[|s| - 1]];
    }
  }

  /** Zeros before the canonical text. */
  ghost predicate ZeroPadded(s: string, n: nat) {
    exists k: nat | k < |s| :: (forall i :: 0 <= i < k ==> s[i] == '0') && s[k..] == NatText(n)
  }

  /** Digit strings of a value are its canonical text behind zeros. */
  lemma {:induction false} ZeroPaddedExact(s: string, n: nat)
    ensures AllDigits(s) && s != "" && DigitsValue(s) == n <==> ZeroPadded(s, n)
  {
    if AllDigits(s) && s != "" {
      var k := StripZeros(s);
      StrippedValue(s, k);
      NatTextOfValue(s[k..]);
    }
    if ZeroPadded(s, n) {
      var k: nat :| k < |s| && (forall i :: 0 <= i < k ==> s[i] == '0') && s[k..] == NatText(n);
      NatTextIsCanonical(n);
      StrippedValue(s, k);
    }
  }

  lemma {:induction false} StrippedValue(s: string, k: nat)
    requires k < |s| && (forall i :: 0 <= i < k ==> s[i] == '0') && AllDigits(s[k..])
    ensures AllDigits(s) && DigitsValue(s) == DigitsValue(s[k..])
  {
    assert s == s[..k] + s[k..];
    ZerosValue(s[..k]);
    AllDigitsConcat(s[..k], s[k..]);
    DigitsValueConcat(s[..k], s[k..]);
  }

  lemma {:induction false} StripZeros(s: string) returns (k: nat)
    requires AllDigits(s) && s != ""
    ensures k < |s| && (forall i :: 0 <= i < k ==> s[i] == '0') && CanonicalDigits(s[k..])
  {
    if s[0] != '0' || |s| == 1 {
      k := 0;
      assert s[0..] == s;
    } else {
      var rest := StripZeros(s[1..]);
      k := rest + 1;
      assert s[1..][rest..] == s[k..];
      assert forall i :: 0 < i < k ==> s[i] == s[1..][i - 1];
    }
  }

  lemma {:induction false} ZerosValue(s: string)
    requires forall i :: 0 <= i < |s| ==> s[i] == '0'
    ensures AllDigits(s) && DigitsValue(s) == 0
  {
    if s != "" {
      ZerosValue(s[..|s| - 1]);
    }
  }

  lemma AllDigitsConcat(a: string, b: string)
    ensures AllDigits(a + b) <==> AllDigits(a) && AllDigits(b)
  {
    assert forall i :: 0 <= i < |a| ==> a[i] == (a + b)[i];
    assert forall i :: 0 <= i < |b| ==> b[i] == (a + b)[|a| + i];
  }

  lemma ShiftIn(high: int, weight: int, low: int)
    ensures (high * weight + low) * 10 == high * (10 * weight) + low * 10
  {
    Distribute(high * weight, low, 10);
    MulRegroup(high, weight, 10, 1);
  }

  lemma {:induction false} DigitsValueConcat(a: string, b: string)
    requires AllDigits(a) && AllDigits(b)
    ensures AllDigits(a + b)
    ensures DigitsValue(a + b) == DigitsValue(a) * Pow10(|b|) + DigitsValue(b)
  {
    if b == "" {
      assert a + b == a;
    } else {
      var init := b[..|b| - 1];
      DigitsValueConcat(a, init);
      assert (a + b)[..|a + b| - 1] == a + init;
      ShiftIn(DigitsValue(a), Pow10(|init|), DigitsValue(init));
    }
  }

  lemma {:induction false} DigitsValueBound(s: string)
    requires AllDigits(s)
    ensures DigitsValue(s) < Pow10(|s|)
    ensures s != "" && s[0] != '0' ==> Pow10(|s| - 1) <= DigitsValue(s)
  {
    if s != "" {
      DigitsValueBound(s[..|s| - 1]);
    }
  }

  /** An integer has at most `k` digits exactly when it is below 10^k. */
  lemma NatTextLength(n: nat, k: nat)
    requires k >= 1
    ensures |NatText(n)| <= k <==> n < Pow10(k)
  {
    var s := NatText(n);
    NatTextIsCanonical(n);
    DigitsValueBound(s);
    if |s| <= k {
      Pow10Monotone(|s|, k);
    } else {
      Pow10Monotone(k, |s| - 1);
    }
  }

  /** Zero-padded decimal text of exactly `width` digits. */
  function Padded(n: nat, width: nat): (s: string)
    requires n < Pow10(width)
    ensures |s| == width && AllDigits(s)
  {
    if width == 0 then "" else Padded(n / 10, width - 1) + [DigitChar(n % 10)]
  }

  lemma {:induction false} PaddedValue(n: nat, width: nat)
    requires n < Pow10(width)
    ensures DigitsValue(Padded(n, width)) == n
  {
    if width > 0 {
      PaddedValue(n / 10, width - 1);
      assert Padded(n, width)[..width - 1] == Padded(n / 10, width - 1);
    }
  }

  lemma {:induction false} PaddedOfValue(s: string)
    requires AllDigits(s)
    ensures DigitsValue(s) < Pow10(|s|)
    ensures Padded(DigitsValue(s), |s|) == s
  {
    DigitsValueBound(s);
    if s != "" {
      var init, last := s[..|s| - 1], s[|s| - 1];
      PaddedOfValue(init);
      assert s == init + [last];
      assert DigitsValue(s) / 10 == DigitsValue(init) && DigitsValue(s) % 10 == DigitValue(last);
    }
  }
}
