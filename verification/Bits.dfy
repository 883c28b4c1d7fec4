/** Unsigned words as naturals, read and built bit by bit.

    `Bit(w, i)` is `(w >> i) & 1`, `Or(a, b)` is `a | b` and `Shl(a, n)` is `a << n` on a word wide
    enough to hold the result. The lemmas characterise each by the bits it sets. */
module Bits {

  type byte = x: nat | x < 0x100

  type word = x: nat | x < 0x1_0000

  /** A byte read as a two's complement number. */
  function SignedByte(v: byte): int {
    if v < 0x80 then v else v - 0x100
  }

  function Pow2(n: nat): (r: nat)
    ensures r > 0
  {
    if n == 0 then 1 else 2 * Pow2(n - 1)
  }

  predicate Bit(w: nat, i: nat) {
    if i == 0 then w % 2 == 1 else Bit(w / 2, i - 1)
  }

  function Or(a: nat, b: nat): nat
    decreases a + b
  {
    if a == 0 && b == 0 then 0
    else (if a % 2 == 1 || b % 2 == 1 then 1 else 0) + 2 * Or(a / 2, b / 2)
  }

  function Shl(a: nat, n: nat): nat {
    if n == 0 then a else 2 * Shl(a, n - 1)
  }

  lemma {:induction false} ZeroHasNoBits(i: nat)
    ensures !Bit(0, i)
  {
    if i > 0 { ZeroHasNoBits(i - 1); }
  }

  lemma OrHalves(a: nat, b: nat)
    requires a > 0 || b > 0
    ensures Or(a, b) / 2 == Or(a / 2, b / 2)
    ensures Or(a, b) % 2 == 1 <==> a % 2 == 1 || b % 2 == 1
  {
  }

  lemma {:induction false} BitOfOr(a: nat, b: nat, i: nat)
    ensures Bit(Or(a, b), i) <==> Bit(a, i) || Bit(b, i)
    decreases i
  {
    if a == 0 && b == 0 {
      ZeroHasNoBits(i);
    } else {
      OrHalves(a, b);
      if i > 0 { BitOfOr(a / 2, b / 2, i - 1); }
    }
  }

  lemma {:induction false} BitOfPow2(j: nat, i: nat)
    ensures Bit(Pow2(j), i) <==> i == j
  {
    if j == 0 {
      if i > 0 { ZeroHasNoBits(i - 1); }
    } else {
      assert Pow2(j) / 2 == Pow2(j - 1);
      if i > 0 { BitOfPow2(j - 1, i - 1); }
    }
  }

  /** Two words with the same bits are the same word. */
  lemma {:induction false} SameBits(a: nat, b: nat)
    requires forall i: nat :: Bit(a, i) == Bit(b, i)
    ensures a == b
    decreases a + b
  {
    assert Bit(a, 0) == Bit(b, 0);
    if a > 0 || b > 0 {
      forall i: nat ensures Bit(a / 2, i) == Bit(b / 2, i) {
        assert Bit(a, i + 1) == Bit(b, i + 1);
      }
      SameBits(a / 2, b / 2);
    }
  }

  /** Two `n`-bit words that agree on their low `n` bits are the same word. */
  lemma {:induction false} SameLowBits(a: nat, b: nat, n: nat)
    requires a < Pow2(n) && b < Pow2(n)
    requires forall i: nat | i < n :: Bit(a, i) == Bit(b, i)
    ensures a == b
  {
    if n > 0 {
      assert Bit(a, 0) == Bit(b, 0);
      forall i: nat | i < n - 1 ensures Bit(a / 2, i) == Bit(b / 2, i) {
        assert Bit(a, i + 1) == Bit(b, i + 1);
      }
      SameLowBits(a / 2, b / 2, n - 1);
    }
  }

  /** A word with no bit at or above `n` is below `2^n`. */
  lemma {:induction false} FitsWhenHighBitsClear(a: nat, n: nat)
    requires forall i: nat | n <= i :: !Bit(a, i)
    ensures a < Pow2(n)
  {
    if n == 0 {
      forall i: nat ensures Bit(a, i) == Bit(0, i) { ZeroHasNoBits(i); }
      SameBits(a, 0);
    } else {
      forall i: nat | n - 1 <= i ensures !Bit(a / 2, i) {
        assert !Bit(a, i + 1);
      }
      FitsWhenHighBitsClear(a / 2, n - 1);
    }
  }

  lemma {:induction false} OrFits(a: nat, b: nat, n: nat)
    requires a < Pow2(n) && b < Pow2(n)
    ensures Or(a, b) < Pow2(n)
  {
    if n > 0 && (a > 0 || b > 0) { OrFits(a / 2, b / 2, n - 1); }
  }

  /** Fields that do not overlap can be added instead of or-ed. */
  lemma {:induction false} OrOfShifted(a: nat, n: nat, b: nat)
    requires b < Pow2(n)
    ensures Or(Shl(a, n), b) == Shl(a, n) + b
  {
    if n == 0 {
      OrZero(a);
    } else if Shl(a, n) == 0 && b == 0 {
    } else {
      OrOfShifted(a, n - 1, b / 2);
    }
  }

  lemma {:induction false} OrZero(a: nat)
    ensures Or(a, 0) == a
  {
    if a > 0 { OrZero(a / 2); }
  }

  lemma {:induction false} ShlIsProduct(a: nat, n: nat)
    ensures Shl(a, n) == a * Pow2(n)
  {
    if n > 0 { ShlIsProduct(a, n - 1); }
  }

  lemma Pow2Of8()
    ensures Pow2(8) == 0x100
  {
    assert Pow2(4) == 16;
    assert Pow2(8) == 16 * Pow2(4);
  }

  lemma Pow2Of16()
    ensures Pow2(16) == 0x1_0000
  {
    Pow2Of8();
    assert Pow2(12) == 16 * Pow2(8);
    assert Pow2(16) == 16 * Pow2(12);
  }

  /** `w` with bit `i` set to `value`: `w | (1 << i)` or `w & ~(1 << i)`. */
  function WithBit(w: nat, i: nat, value: bool): nat {
    if i == 0 then w / 2 * 2 + (if value then 1 else 0) else w % 2 + 2 * WithBit(w / 2, i - 1, value)
  }

  lemma {:induction false} BitOfWithBit(w: nat, i: nat, value: bool, j: nat)
    ensures Bit(WithBit(w, i, value), j) == if j == i then value else Bit(w, j)
  {
    if i > 0 && j > 0 {
      assert WithBit(w, i, value) / 2 == WithBit(w / 2, i - 1, value);
      BitOfWithBit(w / 2, i - 1, value, j - 1);
    } else if i == 0 && j > 0 {
      assert WithBit(w, 0, value) / 2 == w / 2;
    }
  }

  lemma {:induction false} WithBitFits(w: nat, i: nat, value: bool, n: nat)
    requires w < Pow2(n) && i < n
    ensures WithBit(w, i, value) < Pow2(n)
  {
    if i > 0 { WithBitFits(w / 2, i - 1, value, n - 1); }
  }

  /** A status byte with one of its flags set or cleared. */
  function WithFlag(status: byte, i: nat, value: bool): byte
    requires i < 8
  {
    assert WithBit(status, i, value) < 0x100 by {
      Pow2Of8();
      WithBitFits(status, i, value, 8);
    }
    WithBit(status, i, value)
  }

  function And(a: nat, b: nat): nat {
    if a == 0 then 0
    else (if a % 2 == 1 && b % 2 == 1 then 1 else 0) + 2 * And(a / 2, b / 2)
  }

  function Xor(a: nat, b: nat): nat
    decreases a + b
  {
    if a == 0 && b == 0 then 0
    else (if a % 2 != b % 2 then 1 else 0) + 2 * Xor(a / 2, b / 2)
  }

  lemma {:induction false} AndFits(a: nat, b: nat, n: nat)
    requires a < Pow2(n)
    ensures And(a, b) < Pow2(n)
  {
    if n > 0 && a > 0 { AndFits(a / 2, b / 2, n - 1); }
  }

  lemma {:induction false} XorFits(a: nat, b: nat, n: nat)
    requires a < Pow2(n) && b < Pow2(n)
    ensures Xor(a, b) < Pow2(n)
  {
    if n > 0 && (a > 0 || b > 0) { XorFits(a / 2, b / 2, n - 1); }
  }

  lemma {:induction false} BitOfAnd(a: nat, b: nat, i: nat)
    ensures Bit(And(a, b), i) <==> Bit(a, i) && Bit(b, i)
  {
    if a == 0 {
      ZeroHasNoBits(i);
    } else if i > 0 {
      assert And(a, b) / 2 == And(a / 2, b / 2);
      BitOfAnd(a / 2, b / 2, i - 1);
    }
  }

  lemma {:induction false} BitOfXor(a: nat, b: nat, i: nat)
    ensures Bit(Xor(a, b), i) <==> Bit(a, i) != Bit(b, i)
  {
    if a == 0 && b == 0 {
      ZeroHasNoBits(i);
    } else if i > 0 {
      assert Xor(a, b) / 2 == Xor(a / 2, b / 2);
      BitOfXor(a / 2, b / 2, i - 1);
    }
  }

  /** Wrapping a sum at 16 bits early or late makes no difference. */
  lemma WrappedAdd(base: nat, offset: int)
    ensures (base % 0x1_0000 + offset) % 0x1_0000 == (base + offset) % 0x1_0000
  {
    var q := base / 0x1_0000;
    assert base == q * 0x1_0000 + base % 0x1_0000;
    RemainderOfShift(base % 0x1_0000 + offset, q);
  }

  lemma {:induction false} RemainderOfShift(n: int, q: nat)
    ensures (n + q * 0x1_0000) % 0x1_0000 == n % 0x1_0000
  {
    if q > 0 { RemainderOfShift(n, q - 1); }
  }
}
