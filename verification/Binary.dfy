/** Bitwise operators on unbounded integers, as Python has them. */
module Binary {

  ghost function Pow2(n: nat): nat {
    if n == 0 then 1 else 2 * Pow2(n - 1)
  }

  lemma Pow2Values()
    ensures Pow2(4) == 0x10 && Pow2(7) == 0x80 && Pow2(8) == 0x100 && Pow2(12) == 0x1000
    ensures Pow2(16) == 0x1_0000 && Pow2(24) == 0x100_0000 && Pow2(32) == 0x1_0000_0000
  {
    assert Pow2(4) == 16;
    assert Pow2(8) == 256;
    assert Pow2(12) == 4096;
    assert Pow2(16) == 0x1_0000;
    assert Pow2(20) == 0x10_0000;
    assert Pow2(24) == 0x100_0000;
    assert Pow2(28) == 0x1000_0000;
  }

  /** Bit i of v in two's complement, the least significant being bit 0. */
  predicate Bit(v: int, i: nat)
    decreases i, v
  {
    if i == 0 then v % 2 == 1 else Bit(v / 2, i - 1)
  }

  /** `x ^ y` */
  function BitXor(x: nat, y: nat): nat {
    if x == 0 && y == 0 then 0
    else 2 * BitXor(x / 2, y / 2) + (if x % 2 != y % 2 then 1 else 0)
  }

  /** `x | y` */
  function BitOr(x: nat, y: nat): nat {
    if x == 0 && y == 0 then 0
    else 2 * BitOr(x / 2, y / 2) + (if x % 2 == 1 || y % 2 == 1 then 1 else 0)
  }

  /** `x & y` */
  function BitAnd(x: nat, y: nat): nat {
    if x == 0 then 0
    else 2 * BitAnd(x / 2, y / 2) + (if x % 2 == 1 && y % 2 == 1 then 1 else 0)
  }

  /** `v & (2^n - 1)` */
  function LowBits(v: int, n: nat): nat
    decreases n, v
  {
    if n == 0 then 0 else 2 * LowBits(v / 2, n - 1) + v % 2
  }

  /** `v << n` */
  function ShiftLeft(v: nat, n: nat): nat
    decreases n, v
  {
    if n == 0 then v else 2 * ShiftLeft(v, n - 1)
  }

  /** `v >> n` */
  function ShiftRight(v: int, n: nat): int
    decreases n, v
  {
    if n == 0 then v else ShiftRight(v / 2, n - 1)
  }

  lemma {:induction false} BitOfZero(i: nat)
    ensures !Bit(0, i)
  {
    if i > 0 {
      BitOfZero(i - 1);
    }
  }

  lemma {:induction false} BitOfXor(x: nat, y: nat, i: nat)
    ensures Bit(BitXor(x, y), i) <==> Bit(x, i) != Bit(y, i)
    decreases i
  {
    if x == 0 && y == 0 {
      BitOfZero(i);
    } else if i > 0 {
      assert BitXor(x, y) / 2 == BitXor(x / 2, y / 2);
      BitOfXor(x / 2, y / 2, i - 1);
    }
  }

  lemma {:induction false} BitOfOr(x: nat, y: nat, i: nat)
    ensures Bit(BitOr(x, y), i) <==> Bit(x, i) || Bit(y, i)
    decreases i
  {
    if x == 0 && y == 0 {
      BitOfZero(i);
    } else if i > 0 {
      assert BitOr(x, y) / 2 == BitOr(x / 2, y / 2);
      BitOfOr(x / 2, y / 2, i - 1);
    }
  }

  lemma {:induction false} BitOfAnd(x: nat, y: nat, i: nat)
    ensures Bit(BitAnd(x, y), i) <==> Bit(x, i) && Bit(y, i)
    decreases i
  {
    if x == 0 {
      BitOfZero(i);
    } else if i > 0 {
      assert BitAnd(x, y) / 2 == BitAnd(x / 2, y / 2);
      BitOfAnd(x / 2, y / 2, i - 1);
    }
  }

  lemma {:induction false} BitOfLow(v: int, n: nat, i: nat)
    ensures Bit(LowBits(v, n), i) <==> i < n && Bit(v, i)
    decreases n
  {
    if n == 0 {
      BitOfZero(i);
    } else if i > 0 {
      assert LowBits(v, n) / 2 == LowBits(v / 2, n - 1);
      BitOfLow(v / 2, n - 1, i - 1);
    }
  }

  lemma {:induction false} BitOfShiftLeft(v: nat, n: nat, i: nat)
    ensures Bit(ShiftLeft(v, n), i) <==> i >= n && Bit(v, i - n)
    decreases n
  {
    if n > 0 && i > 0 {
      assert ShiftLeft(v, n) / 2 == ShiftLeft(v, n - 1);
      BitOfShiftLeft(v, n - 1, i - 1);
    }
  }

  lemma {:induction false} BitOfShiftRight(v: int, n: nat, i: nat)
    ensures Bit(ShiftRight(v, n), i) == Bit(v, i + n)
    decreases n
  {
    if n > 0 {
      BitOfShiftRight(v / 2, n - 1, i);
    }
  }

  lemma {:induction false} LowBitsBound(v: int, n: nat)
    ensures LowBits(v, n) < Pow2(n)
    ensures LowBits(v, n) == v <==> 0 <= v < Pow2(n)
    decreases n
  {
    if n > 0 {
      LowBitsBound(v / 2, n - 1);
    }
  }

  lemma DoubledFactor(q: int, p: int)
    ensures q * (2 * p) == 2 * (q * p)
  {
  }

  /** `&` with a mask is the remainder and `>>` the floor of the quotient by a power of two. */
  lemma {:induction false} Splits(v: int, n: nat)
    ensures v == ShiftRight(v, n) * Pow2(n) + LowBits(v, n)
    decreases n
  {
    if n > 0 {
      Splits(v / 2, n - 1);
      DoubledFactor(ShiftRight(v, n), Pow2(n - 1));
    }
  }

  /** A natural number is determined by its bits. */
  lemma {:induction false} SameBits(x: nat, y: nat)
    requires forall i: nat :: Bit(x, i) == Bit(y, i)
    ensures x == y
    decreases x + y
  {
    if x + y > 0 {
      forall i: nat ensures Bit(x / 2, i) == Bit(y / 2, i) {
        assert Bit(x, i + 1) == Bit(y, i + 1);
      }
      SameBits(x / 2, y / 2);
      assert Bit(x, 0) == Bit(y, 0);
    }
  }

  /** A natural number below 2^n is determined by its n low bits. */
  lemma {:induction false} SameLowBits(x: nat, y: nat, n: nat)
    requires x < Pow2(n) && y < Pow2(n)
    requires forall i: nat :: i < n ==> Bit(x, i) == Bit(y, i)
    ensures x == y
  {
    if n > 0 {
      forall i: nat | i < n - 1 ensures Bit(x / 2, i) == Bit(y / 2, i) {
        assert Bit(x, i + 1) == Bit(y, i + 1);
      }
      SameLowBits(x / 2, y / 2, n - 1);
      assert Bit(x, 0) == Bit(y, 0);
    }
  }

  lemma {:induction false} AllOnes(v: nat, n: nat, i: nat)
    requires v + 1 == Pow2(n) && i < n
    ensures Bit(v, i)
  {
    var half := Pow2(n - 1) - 1;
    assert v == 2 * half + 1;
    if i > 0 {
      AllOnes(v / 2, n - 1, i - 1);
    }
  }

  lemma {:induction false} OnlyBit(n: nat, v: nat)
    requires v == Pow2(n)
    ensures forall i: nat :: Bit(v, i) <==> i == n
  {
    if n == 0 {
      forall i: nat ensures Bit(1, i) <==> i == 0 {
        if i > 0 {
          BitOfZero(i - 1);
        }
      }
    } else {
      OnlyBit(n - 1, v / 2);
      forall i: nat ensures Bit(v, i) <==> i == n {
        assert i > 0 ==> (Bit(v, i) <==> Bit(v / 2, i - 1));
      }
    }
  }
}
