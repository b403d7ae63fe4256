/** Bitwise operations on unsigned words, defined bit by bit on naturals. */
module Bits {
  import opened Arithmetic

  function Pow2(n: nat): (p: nat)
    ensures p >= 1
  {
    if n == 0 then 1 else 2 * Pow2(n - 1)
  }

  /** Bit `i` of `x`, counted from the least significant. */
  predicate Bit(x: nat, i: nat) {
    if i == 0 then x % 2 == 1 else Bit(x / 2, i - 1)
  }

  function And(x: nat, y: nat): nat {
    if x == 0 || y == 0 then 0 else 2 * And(x / 2, y / 2) + (if x % 2 == 1 && y % 2 == 1 then 1 else 0)
  }

  function Or(x: nat, y: nat): nat {
    if x == 0 && y == 0 then 0 else 2 * Or(x / 2, y / 2) + (if x % 2 == 1 || y % 2 == 1 then 1 else 0)
  }

  function TrailingZeros(x: nat): nat
    requires x > 0
  {
    if x % 2 == 1 then 0 else 1 + TrailingZeros(x / 2)
  }

  /** The number of set bits. */
  function PopCount(x: nat): nat {
    if x == 0 then 0 else x % 2 + PopCount(x / 2)
  }

  lemma {:induction false} BitOfZero(i: nat)
    ensures !Bit(0, i)
  {
    if i > 0 {
      BitOfZero(i - 1);
    }
  }

  lemma {:induction false} BitOfAnd(x: nat, y: nat, i: nat)
    ensures Bit(And(x, y), i) <==> Bit(x, i) && Bit(y, i)
  {
    if x == 0 || y == 0 {
      BitOfZero(i);
    } else if i > 0 {
      BitOfAnd(x / 2, y / 2, i - 1);
    }
  }

  lemma {:induction false} BitOfOr(x: nat, y: nat, i: nat)
    ensures Bit(Or(x, y), i) <==> Bit(x, i) || Bit(y, i)
  {
    if x == 0 && y == 0 {
      BitOfZero(i);
    } else if i > 0 {
      BitOfOr(x / 2, y / 2, i - 1);
    }
  }

  lemma {:induction false} BitOfPow2(n: nat, i: nat)
    ensures Bit(Pow2(n), i) <==> n == i
  {
    if n == 0 {
      if i > 0 {
        BitOfZero(i - 1);
      }
    } else if i > 0 {
      BitOfPow2(n - 1, i - 1);
    }
  }

  lemma {:induction false} LowestBit(x: nat)
    requires x > 0
    ensures Bit(x, TrailingZeros(x))
    ensures forall i :: 0 <= i < TrailingZeros(x) ==> !Bit(x, i)
  {
    if x % 2 == 0 {
      LowestBit(x / 2);
    }
  }

  lemma {:induction false} NonzeroHasBit(x: nat)
    requires forall i: nat :: !Bit(x, i)
    ensures x == 0
  {
    if x > 0 {
      LowestBit(x);
    }
  }

  /** Masking one bit tests it. */
  lemma MaskTests(x: nat, n: nat)
    ensures And(x, Pow2(n)) == 0 <==> !Bit(x, n)
  {
    BitOfAnd(x, Pow2(n), n);
    BitOfPow2(n, n);
    BitOfZero(n);
    forall i: nat
      ensures Bit(And(x, Pow2(n)), i) ==> i == n
    {
      BitOfAnd(x, Pow2(n), i);
      BitOfPow2(n, i);
    }
    if !Bit(x, n) {
      NonzeroHasBit(And(x, Pow2(n)));
    }
  }

  lemma {:induction false} BitOfPredecessor(x: nat, i: nat)
    requires x > 0
    ensures var low := TrailingZeros(x);
            Bit(x - 1, i) <==> i < low || (i > low && Bit(x, i))
  {
    if i > 0 {
      if x % 2 == 1 {
        assert (x - 1) / 2 == x / 2;
      } else {
        assert (x - 1) / 2 == x / 2 - 1;
        BitOfPredecessor(x / 2, i - 1);
      }
    }
  }

  /** `x & (x - 1)` clears the lowest set bit and nothing else. */
  lemma ClearLowest(x: nat, i: nat)
    requires x > 0
    ensures Bit(And(x, x - 1), i) <==> Bit(x, i) && i != TrailingZeros(x)
  {
    BitOfAnd(x, x - 1, i);
    BitOfPredecessor(x, i);
    LowestBit(x);
  }

  lemma {:induction false} AndSelf(x: nat)
    ensures And(x, x) == x
  {
    if x > 0 {
      AndSelf(x / 2);
    }
  }

  lemma {:induction false} PopCountStep(half: nat, low: nat)
    requires low < 2
    ensures PopCount(2 * half + low) == low + PopCount(half)
  {
    assert (2 * half + low) / 2 == half && (2 * half + low) % 2 == low;
  }

  lemma {:induction false} ClearLowestStep(half: nat)
    ensures And(2 * half + 1, 2 * half) == 2 * half
    ensures half > 0 ==> And(2 * half, 2 * half - 1) == 2 * And(half, half - 1)
  {
    AndSelf(half);
    assert (2 * half + 1) / 2 == half && (2 * half) / 2 == half && (2 * half) % 2 == 0;
    if half > 0 {
      assert (2 * half - 1) / 2 == half - 1;
    }
  }

  lemma {:induction false} OneFewer(half: nat, cleared: nat, doubled: nat)
    requires doubled == 2 * cleared && PopCount(cleared) == PopCount(half) - 1
    ensures PopCount(doubled) == PopCount(2 * half) - 1
  {
    PopCountStep(cleared, 0);
    PopCountStep(half, 0);
  }

  /** Each round of the drain removes exactly one set bit. */
  lemma {:induction false} ClearLowestCount(x: nat, cleared: nat)
    requires x > 0 && cleared == And(x, x - 1)
    ensures PopCount(cleared) == PopCount(x) - 1
  {
    var half := x / 2;
    ClearLowestStep(half);
    if x % 2 == 1 {
      assert x == 2 * half + 1 && cleared == 2 * half;
      PopCountStep(half, 0);
      PopCountStep(half, 1);
    } else {
      assert x == 2 * half;
      ClearLowestCount(half, And(half, half - 1));
      OneFewer(half, And(half, half - 1), cleared);
    }
  }

  lemma {:induction false} BitBeyond(x: nat, n: nat, i: nat)
    requires x < Pow2(n) && n <= i
    ensures !Bit(x, i)
  {
    if n == 0 {
      BitOfZero(i);
    } else {
      BitBeyond(x / 2, n - 1, i - 1);
    }
  }

  lemma {:induction false} OrStaysInWord(x: nat, y: nat, n: nat)
    requires x < Pow2(n) && y < Pow2(n)
    ensures Or(x, y) < Pow2(n)
  {
    if n > 0 {
      OrStaysInWord(x / 2, y / 2, n - 1);
    }
  }

  lemma {:induction false} Pow2Increasing(m: nat, n: nat)
    requires m < n
    ensures Pow2(m) < Pow2(n)
  {
    if m < n - 1 {
      Pow2Increasing(m, n - 1);
    }
  }

  lemma LowestBitInWord(x: nat, n: nat)
    requires 0 < x < Pow2(n)
    ensures TrailingZeros(x) < n
  {
    LowestBit(x);
    if TrailingZeros(x) >= n {
      BitBeyond(x, n, TrailingZeros(x));
    }
  }

  /** Unsigned 64-bit words. */
  const WORD: nat := 0x1_0000_0000_0000_0000

  lemma {:induction false} Pow2Add(m: nat, n: nat)
    ensures Pow2(m + n) == Pow2(m) * Pow2(n)
  {
    if m > 0 {
      Pow2Add(m - 1, n);
      MulAssociative(2, Pow2(m - 1), Pow2(n));
    }
  }

  lemma WordIsPow2()
    ensures Pow2(64) == WORD
  {
    assert Pow2(2) == 4 && Pow2(4) == 16;
    Pow2Add(4, 4);
    Pow2Add(8, 8);
    Pow2Add(16, 16);
    Pow2Add(32, 32);
  }

  lemma WordBits(x: nat)
    requires 0 < x < WORD
    ensures TrailingZeros(x) < 64
  {
    WordIsPow2();
    LowestBitInWord(x, 64);
  }

  lemma OrMaskInWord(x: nat, bit: nat)
    requires x < WORD && bit < 64
    ensures Or(x, Pow2(bit)) < WORD
  {
    WordIsPow2();
    Pow2Increasing(bit, 64);
    OrStaysInWord(x, Pow2(bit), 64);
  }

  lemma {:induction false} AndShrinks(x: nat, y: nat)
    ensures And(x, y) <= x
  {
    if x != 0 && y != 0 {
      AndShrinks(x / 2, y / 2);
    }
  }

  lemma {:induction false} OrZero(x: nat)
    ensures Or(x, 0) == x
  {
    if x > 0 {
      OrZero(x / 2);
    }
  }

  lemma OrDouble(x: nat, y: nat)
    ensures Or(2 * x, y) == 2 * Or(x, y / 2) + y % 2
  {
  }

  lemma OrShift(x: nat, y: nat)
    requires Or(x, y / 2) == x + y / 2
    ensures Or(2 * x, y) == 2 * x + y
  {
    OrDouble(x, y);
  }

  /** Joining a shifted high nibble with a low nibble adds them. */
  lemma OrNibbles(high: nat, low: nat)
    requires low < 16
    ensures Or(16 * high, low) == 16 * high + low
  {
    var low1 := low / 2;
    var low2 := low1 / 2;
    var low3 := low2 / 2;
    OrZero(high);
    OrShift(high, low3);
    OrShift(2 * high, low2);
    OrShift(4 * high, low1);
    OrShift(8 * high, low);
  }

  lemma AndOnes(x: nat, mask: nat)
    ensures And(x, 2 * mask + 1) == 2 * And(x / 2, mask) + x % 2
  {
  }

  lemma AndLowNibble(x: nat)
    ensures And(x, 15) == x % 16
  {
    var x1 := x / 2;
    var x2 := x1 / 2;
    var x3 := x2 / 2;
    AndOnes(x, 7);
    AndOnes(x1, 3);
    AndOnes(x2, 1);
    AndOnes(x3, 0);
  }
}
