/** Two's complement bit operations on integers. A `long` is an integer in the 64-bit
    range; `&`, `|`, `^` and `~` act bit by bit, and a negative number has ones in every
    high bit. */
module Bits {
  import opened Arith

  const LONG_MAX: int := 0x7FFF_FFFF_FFFF_FFFF
  const LONG_MIN: int := -0x8000_0000_0000_0000

  type Long = x: int | LONG_MIN <= x <= LONG_MAX

  function Pow2(k: nat): (p: nat)
    ensures p >= 1
  {
    if k == 0 then 1 else 2 * Pow2(k - 1)
  }

  /** Bit k of a number. */
  predicate Bit(x: int, k: nat)
    decreases k
  {
    if k == 0 then x % 2 == 1 else Bit(x / 2, k - 1)
  }

  /** Distance to the numbers whose bits are all alike, 0 and -1. */
  function Size(x: int): nat {
    if x < 0 then -1 - x else x
  }

  function And(a: int, b: int): int
    decreases Size(a)
  {
    if a == 0 then 0
    else if a == -1 then b
    else 2 * And(a / 2, b / 2) + (if a % 2 == 1 && b % 2 == 1 then 1 else 0)
  }

  function Not(a: int): int {
    -1 - a
  }

  function Or(a: int, b: int): int {
    Not(And(Not(a), Not(b)))
  }

  function Xor(a: int, b: int): int
    decreases Size(a)
  {
    if a == 0 then b
    else if a == -1 then Not(b)
    else 2 * Xor(a / 2, b / 2) + (if a % 2 != b % 2 then 1 else 0)
  }

  /** The value kept by a 64-bit `long`. */
  function Wrap(x: int): Long {
    if LONG_MIN <= x <= LONG_MAX then x
    else (x + 0x8000_0000_0000_0000) % 0x1_0000_0000_0000_0000 - 0x8000_0000_0000_0000
  }

  function ShiftLeft(x: int, n: nat): int {
    Wrap(x * Pow2(n))
  }

  // ---- the bit view -------------------------------------------------------

  lemma {:induction false} ZeroBits(k: nat)
    ensures !Bit(0, k)
  {
    if k > 0 {
      ZeroBits(k - 1);
    }
  }

  lemma {:induction false} AllBits(k: nat)
    ensures Bit(-1, k)
  {
    if k > 0 {
      AllBits(k - 1);
    }
  }

  lemma {:induction false} NotBit(a: int, k: nat)
    ensures Bit(Not(a), k) <==> !Bit(a, k)
    decreases k
  {
    if k > 0 {
      assert Not(a) / 2 == Not(a / 2);
      NotBit(a / 2, k - 1);
    }
  }

  lemma {:induction false} AndBit(a: int, b: int, k: nat)
    ensures Bit(And(a, b), k) <==> Bit(a, k) && Bit(b, k)
    decreases k
  {
    if a == 0 {
      ZeroBits(k);
    } else if a == -1 {
      AllBits(k);
    } else if k > 0 {
      AndBit(a / 2, b / 2, k - 1);
    }
  }

  lemma {:induction false} OrBit(a: int, b: int, k: nat)
    ensures Bit(Or(a, b), k) <==> Bit(a, k) || Bit(b, k)
  {
    NotBit(a, k);
    NotBit(b, k);
    AndBit(Not(a), Not(b), k);
    NotBit(And(Not(a), Not(b)), k);
  }

  /** Numbers with the same bits are the same. */
  lemma {:induction false} SameBits(x: int, y: int)
    requires forall k: nat :: Bit(x, k) <==> Bit(y, k)
    ensures x == y
    decreases Size(x) + Size(y)
  {
    assert Bit(x, 0) <==> Bit(y, 0);
    if Size(x) + Size(y) > 0 {
      forall k: nat
        ensures Bit(x / 2, k) <==> Bit(y / 2, k)
      {
        assert Bit(x, k + 1) <==> Bit(y, k + 1);
      }
      SameBits(x / 2, y / 2);
    }
  }

  /** Two numbers share no bit. */
  ghost predicate Apart(a: int, b: int) {
    forall k: nat :: !(Bit(a, k) && Bit(b, k))
  }

  lemma AndZero(a: int, b: int)
    ensures And(a, b) == 0 <==> Apart(a, b)
  {
    if Apart(a, b) {
      forall k: nat
        ensures Bit(And(a, b), k) <==> Bit(0, k)
      {
        AndBit(a, b, k);
        ZeroBits(k);
      }
      SameBits(And(a, b), 0);
    } else {
      var k: nat :| Bit(a, k) && Bit(b, k);
      AndBit(a, b, k);
      ZeroBits(k);
    }
  }

  // ---- powers of two ------------------------------------------------------

  lemma {:induction false} Pow2Add(a: nat, b: nat)
    ensures Pow2(a + b) == Pow2(a) * Pow2(b)
  {
    if b > 0 {
      Pow2Add(a, b - 1);
      assert Pow2(a) * (2 * Pow2(b - 1)) == 2 * (Pow2(a) * Pow2(b - 1));
    }
  }

  lemma {:induction false} Pow2Monotone(a: nat, b: nat)
    requires a <= b
    ensures Pow2(a) <= Pow2(b)
    decreases b
  {
    if a < b {
      Pow2Monotone(a, b - 1);
    }
  }

  lemma {:induction false} Pow2Next8(k: nat)
    ensures Pow2(k + 8) == 0x100 * Pow2(k)
  {
    assert Pow2(k + 1) == 2 * Pow2(k);
    assert Pow2(k + 2) == 4 * Pow2(k);
    assert Pow2(k + 3) == 8 * Pow2(k);
    assert Pow2(k + 4) == 16 * Pow2(k);
    assert Pow2(k + 5) == 32 * Pow2(k);
    assert Pow2(k + 6) == 64 * Pow2(k);
    assert Pow2(k + 7) == 128 * Pow2(k);
  }

  lemma {:induction false} Pow2Values()
    ensures Pow2(24) == 0x100_0000
    ensures Pow2(31) == 0x8000_0000 && Pow2(32) == 0x1_0000_0000
    ensures Pow2(62) == 0x4000_0000_0000_0000
    ensures Pow2(63) == 0x8000_0000_0000_0000 && Pow2(64) == 0x1_0000_0000_0000_0000
  {
    Pow2Next8(0);
    Pow2Next8(8);
    Pow2Next8(16);
    assert Pow2(24) == 0x100_0000;
    Pow2Next8(24);
    assert Pow2(32) == 0x1_0000_0000;
    Pow2Next8(32);
    Pow2Next8(40);
    Pow2Next8(48);
    assert Pow2(56) == 0x100_0000_0000_0000;
    Pow2Next8(56);
  }

  /** A non-negative number below 2^n has no bit at n or above. */
  lemma {:induction false} HighBitsClear(x: int, n: nat, k: nat)
    requires 0 <= x < Pow2(n) && n <= k
    ensures !Bit(x, k)
    decreases k
  {
    if n == 0 {
      ZeroBits(k);
    } else {
      HighBitsClear(x / 2, n - 1, k - 1);
    }
  }

  /** 2^n - 1 has exactly the bits below n. */
  lemma {:induction false} OnesBit(n: nat, k: nat)
    ensures Bit(Pow2(n) - 1, k) <==> k < n
    decreases k
  {
    if n == 0 {
      ZeroBits(k);
    } else {
      assert (Pow2(n) - 1) / 2 == Pow2(n - 1) - 1;
      if k > 0 {
        OnesBit(n - 1, k - 1);
      }
    }
  }

  /** Moving a number up by n places. */
  lemma {:induction false} ShiftedBit(x: int, n: nat, k: nat)
    ensures Bit(x * Pow2(n), k) <==> k >= n && Bit(x, k - n)
    decreases k
  {
    hide Bit, Pow2;
    if n == 0 {
      Pow2Zero();
    } else {
      DoubleOut(x, n);
      DoubleBit(x * Pow2(n - 1), k);
      if k > 0 {
        ShiftedBit(x, n - 1, k - 1);
      }
    }
  }

  lemma Pow2Zero()
    ensures Pow2(0) == 1
  {
  }

  lemma DoubleBit(x: int, k: nat)
    ensures Bit(2 * x, k) <==> k > 0 && Bit(x, k - 1)
  {
    assert 2 * x / 2 == x;
  }

  lemma DoubleOut(x: int, n: nat)
    requires n > 0
    ensures x * Pow2(n) == 2 * (x * Pow2(n - 1))
  {
  }

  lemma OnesUp(n: nat, i: nat)
    ensures (Pow2(n) - 1) * Pow2(i) == Pow2(n + i) - Pow2(i)
  {
    Pow2Add(n, i);
  }

  /** 2^n has exactly bit n; its negation has exactly the bits from n up. */
  lemma {:induction false} PowerBit(n: nat, k: nat)
    ensures Bit(Pow2(n), k) <==> k == n
    ensures Bit(-1 * Pow2(n), k) <==> k >= n
  {
    ShiftedBit(1, n, k);
    ShiftedBit(-1, n, k);
    if k >= n {
      OnesBit(1, k - n);
      AllBits(k - n);
    }
  }

  lemma {:induction false} XorBelow(a: int, b: int, n: nat)
    requires 0 <= a < Pow2(n) && 0 <= b < Pow2(n)
    ensures 0 <= Xor(a, b) < Pow2(n)
  {
    if n > 0 && a > 0 {
      XorBelow(a / 2, b / 2, n - 1);
    }
  }

  lemma {:induction false} AndBelow(a: int, b: int, n: nat)
    requires 0 <= b < Pow2(n)
    ensures 0 <= And(a, b) < Pow2(n)
    decreases n
  {
    if a == 0 || a == -1 {
    } else if n == 0 {
      ZeroAnd(a);
    } else {
      AndBelow(a / 2, b / 2, n - 1);
    }
  }

  lemma {:induction false} ZeroAnd(a: int)
    ensures And(a, 0) == 0
    decreases Size(a)
  {
    if a != 0 && a != -1 {
      ZeroAnd(a / 2);
    }
  }

  lemma {:induction false} AndRange(a: int, b: int, n: nat)
    requires -1 * Pow2(n) <= a < Pow2(n) && -1 * Pow2(n) <= b < Pow2(n)
    ensures -1 * Pow2(n) <= And(a, b) < Pow2(n)
    decreases n
  {
    if n == 0 {
    } else if a != 0 && a != -1 {
      AndRange(a / 2, b / 2, n - 1);
    }
  }

  /** Bit operations stay within a `long`. */
  lemma LongOps(a: int, b: int)
    requires LONG_MIN <= a <= LONG_MAX && LONG_MIN <= b <= LONG_MAX
    ensures LONG_MIN <= And(a, b) <= LONG_MAX
    ensures LONG_MIN <= Or(a, b) <= LONG_MAX
  {
    Pow2Values();
    AndRange(a, b, 63);
    AndRange(Not(a), Not(b), 63);
  }

  lemma {:induction false} OrIsPlus(x: int, y: int, n: nat)
    requires 0 <= y < Pow2(n)
    ensures Or(x * Pow2(n), y) == x * Pow2(n) + y
  {
    hide Or;
    if n == 0 {
      OrZero(x);
    } else {
      OrIsPlus(x, y / 2, n - 1);
      DoubleOut(x, n);
      HalvesPlus(x * Pow2(n - 1), y);
    }
  }

  lemma HalvesPlus(m: int, y: int)
    requires Or(m, y / 2) == m + y / 2
    ensures Or(2 * m, y) == 2 * m + y
  {
    hide Or;
    OrHalves(2 * m, y);
    assert 2 * m / 2 == m;
  }

  lemma OrZero(x: int)
    ensures Or(x, 0) == x
  {
    forall k: nat
      ensures Bit(Or(x, 0), k) <==> Bit(x, k)
    {
      OrBit(x, 0, k);
      ZeroBits(k);
    }
    SameBits(Or(x, 0), x);
  }

  /** The lowest bit of a disjunction, and the rest of it. */
  lemma OrHalves(a: int, b: int)
    requires a % 2 == 0
    ensures Or(a, b) == 2 * Or(a / 2, b / 2) + b % 2
  {
    var r := 2 * Or(a / 2, b / 2) + b % 2;
    forall k: nat
      ensures Bit(Or(a, b), k) <==> Bit(r, k)
    {
      OrBit(a, b, k);
      if k > 0 {
        OrBit(a / 2, b / 2, k - 1);
        assert r / 2 == Or(a / 2, b / 2);
      }
    }
    SameBits(Or(a, b), r);
  }

  /** Masking the bits j..j+n of a small number. */
  lemma MaskIsMod(x: int, n: nat)
    requires x >= 0
    ensures And(x, Pow2(n) - 1) == x % Pow2(n)
  {
    forall k: nat
      ensures Bit(And(x, Pow2(n) - 1), k) <==> Bit(x % Pow2(n), k)
    {
      AndBit(x, Pow2(n) - 1, k);
      OnesBit(n, k);
      if k >= n {
        HighBitsClear(x % Pow2(n), n, k);
      } else {
        LowBitsSame(x, n, k);
      }
    }
    SameBits(And(x, Pow2(n) - 1), x % Pow2(n));
  }

  lemma {:induction false} LowBitsSame(x: int, n: nat, k: nat)
    requires x >= 0 && k < n
    ensures Bit(x % Pow2(n), k) <==> Bit(x, k)
    decreases k
  {
    HalfMod(x, n);
    if k > 0 {
      LowBitsSame(x / 2, n - 1, k - 1);
    }
  }

  lemma HalfMod(x: int, n: nat)
    requires x >= 0 && n > 0
    ensures (x % Pow2(n)) % 2 == x % 2
    ensures (x % Pow2(n)) / 2 == (x / 2) % Pow2(n - 1)
  {
    DoubleMod(x, Pow2(n - 1));
  }

  lemma DoubleMod(x: nat, p: nat)
    requires p >= 1
    ensures x % (2 * p) == 2 * ((x / 2) % p) + x % 2
  {
    var q, r := (x / 2) / p, (x / 2) % p;
    assert x / 2 == p * q + r;
    assert x == (2 * p) * q + (2 * r + x % 2);
    DivModUnique(x, 2 * p, q, 2 * r + x % 2);
  }

  lemma AndHalf(a: int, b: int)
    ensures And(a, b) / 2 == And(a / 2, b / 2)
  {
  }
}
