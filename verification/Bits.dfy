/**
 Shifts, masks and bitwise OR on integers, and scaling of reals by powers of two.
 Everything is defined by doubling and halving, so that the laws are linear.
 */
module Bits {

  /** 1 << k. */
  function Pow2(k: nat): (p: nat)
    ensures p > 0
  {
    if k == 0 then 1 else 2 * Pow2(k - 1)
  }

  /** x << k. */
  function Shl(x: int, k: nat): int {
    if k == 0 then x else 2 * Shl(x, k - 1)
  }

  /** x >> k on a non-negative x. */
  function Shr(x: nat, k: nat): nat {
    if k == 0 then x else Shr(x / 2, k - 1)
  }

  /** The low k bits of x, that is x & ((1 << k) - 1), for x of either sign in two's complement. */
  function Low(x: int, k: nat): (r: nat)
    ensures r < Pow2(k)
    decreases k
  {
    if k == 0 then 0 else x % 2 + 2 * Low(x / 2, k - 1)
  }

  /** x | y on non-negative x and y. */
  function BitOr(x: nat, y: nat): nat
    decreases x + y
  {
    if x == 0 then y
    else if y == 0 then x
    else 2 * BitOr(x / 2, y / 2) + (if x % 2 == 1 || y % 2 == 1 then 1 else 0)
  }

  lemma {:induction false} Pow2Monotone(a: nat, b: nat)
    requires a <= b
    ensures Pow2(a) <= Pow2(b)
  {
    if a < b {
      Pow2Monotone(a, b - 1);
    }
  }

  lemma {:induction false} ShlNat(x: nat, k: nat)
    ensures Shl(x, k) >= x
  {
    if k > 0 {
      ShlNat(x, k - 1);
    }
  }

  lemma {:induction false} ShlInside(x: int, k: nat)
    ensures Shl(2 * x, k) == 2 * Shl(x, k)
  {
    if k > 0 {
      ShlInside(x, k - 1);
    }
  }

  lemma {:induction false} ShlAdd(x: int, y: int, k: nat)
    ensures Shl(x + y, k) == Shl(x, k) + Shl(y, k)
  {
    if k > 0 {
      ShlAdd(x, y, k - 1);
    }
  }

  lemma {:induction false} ShlTwice(x: int, a: nat, b: nat)
    ensures Shl(Shl(x, a), b) == Shl(x, a + b)
  {
    if b > 0 {
      ShlTwice(x, a, b - 1);
    }
  }

  lemma {:induction false} ShlPow2(a: nat, b: nat)
    ensures Shl(Pow2(a), b) == Pow2(a + b)
  {
    if b > 0 {
      ShlPow2(a, b - 1);
    }
  }

  lemma {:induction false} ShlMonotone(x: int, y: int, k: nat)
    requires x <= y
    ensures Shl(x, k) <= Shl(y, k)
  {
    if k > 0 {
      ShlMonotone(x, y, k - 1);
    }
  }

  /** A shifted field and a lower field that fits below it are recovered by shift and mask. */
  lemma {:induction false} Fields(x: nat, k: nat, r: nat)
    requires r < Pow2(k)
    ensures Shl(x, k) + r >= 0
    ensures Shr(Shl(x, k) + r, k) == x && Low(Shl(x, k) + r, k) == r
  {
    ShlNat(x, k);
    if k > 0 {
      ShlNat(x, k - 1);
      Fields(x, k - 1, r / 2);
      assert (Shl(x, k) + r) / 2 == Shl(x, k - 1) + r / 2;
    }
  }

  lemma {:induction false} Rejoin(x: nat, k: nat)
    ensures x == Shl(Shr(x, k), k) + Low(x, k)
  {
    if k > 0 {
      Rejoin(x / 2, k - 1);
    }
  }

  /** The bits that a mask keeps can be cut out before or after the shift. */
  lemma {:induction false} LowSmall(x: nat, k: nat)
    requires x < Pow2(k)
    ensures Low(x, k) == x && Shr(x, k) == 0
  {
    if k > 0 {
      LowSmall(x / 2, k - 1);
    }
  }

  lemma {:induction false} ShrTwice(x: nat, a: nat, b: nat)
    ensures Shr(Shr(x, a), b) == Shr(x, a + b)
  {
    if a > 0 {
      ShrTwice(x / 2, a - 1, b);
    }
  }

  lemma {:induction false} LowTwice(x: int, a: nat, b: nat)
    requires a <= b
    ensures Low(Low(x, b), a) == Low(x, a)
    decreases a
  {
    if a > 0 {
      LowTwice(x / 2, a - 1, b - 1);
      var y := Low(x / 2, b - 1);
      assert Low(x, b) == x % 2 + 2 * y;
      assert (x % 2 + 2 * y) % 2 == x % 2 && (x % 2 + 2 * y) / 2 == y;
    }
  }

  /** A field cut out of x is determined by the bits of x up to its top. */
  lemma {:induction false} FieldOfLow(x: nat, a: nat, b: nat)
    ensures Low(Shr(x, a), b) == Low(Shr(Low(x, a + b), a), b)
  {
    if a > 0 {
      FieldOfLow(x / 2, a - 1, b);
      assert Low(x, a + b) == x % 2 + 2 * Low(x / 2, a + b - 1);
    } else {
      LowTwice(x, b, b);
    }
  }

  lemma {:induction false} LowSplit(x: nat, a: nat, b: nat)
    ensures Low(x, a + b) == Low(x, a) + Shl(Low(Shr(x, a), b), a)
  {
    if a > 0 {
      LowSplit(x / 2, a - 1, b);
    }
  }

  /** Low is the residue modulo a power of two. */
  lemma {:induction false} LowShift(x: int, y: int, k: nat)
    ensures Low(x + Shl(y, k), k) == Low(x, k)
    decreases k
  {
    if k > 0 {
      LowShift(x / 2, y, k - 1);
      assert (x + 2 * Shl(y, k - 1)) / 2 == x / 2 + Shl(y, k - 1);
    }
  }

  /** Fields that do not overlap are joined by OR as by addition. */
  lemma {:induction false} OrDisjoint(x: nat, k: nat, r: nat)
    requires r < Pow2(k)
    ensures Shl(x, k) >= 0 && BitOr(Shl(x, k), r) == Shl(x, k) + r
  {
    ShlNat(x, k);
    if k > 0 {
      ShlNat(x, k - 1);
      OrDisjoint(x, k - 1, r / 2);
    }
  }

  /** OR-ing in one unit of the upper field carries only when that field is even. */
  lemma {:induction false} OrCarry(x: nat, k: nat)
    ensures Shl(x, k) >= 0 && BitOr(Shl(x, k), Pow2(k)) == Shl(if x % 2 == 0 then x + 1 else x, k)
  {
    ShlNat(x, k);
    if k == 0 {
      assert x > 0 ==> BitOr(x / 2, 0) == x / 2;
    } else {
      ShlNat(x, k - 1);
      OrCarry(x, k - 1);
      if x == 0 {
        ShlZero(k);
        ShlPow2(0, k);
      }
    }
  }

  lemma OrHalves(x: nat, y: nat)
    ensures BitOr(x, y) / 2 == BitOr(x / 2, y / 2)
    ensures BitOr(x, y) % 2 == if x % 2 == 1 || y % 2 == 1 then 1 else 0
  {
  }

  lemma {:induction false} LowOr(x: nat, y: nat, k: nat)
    ensures Low(BitOr(x, y), k) == BitOr(Low(x, k), Low(y, k))
    decreases k
  {
    if k > 0 {
      OrHalves(x, y);
      LowOr(x / 2, y / 2, k - 1);
      var a, b := Low(x / 2, k - 1), Low(y / 2, k - 1);
      OrOfDoubles(x % 2, a, y % 2, b);
    }
  }

  lemma OrOfDoubles(p: nat, a: nat, q: nat, b: nat)
    requires p <= 1 && q <= 1
    ensures BitOr(p + 2 * a, q + 2 * b) == (if p == 1 || q == 1 then 1 else 0) + 2 * BitOr(a, b)
  {
    OrHalves(p + 2 * a, q + 2 * b);
    assert (p + 2 * a) / 2 == a && (q + 2 * b) / 2 == b;
  }

  lemma {:induction false} ShrOr(x: nat, y: nat, k: nat)
    ensures Shr(BitOr(x, y), k) == BitOr(Shr(x, k), Shr(y, k))
    decreases k
  {
    if k > 0 {
      OrHalves(x, y);
      ShrOr(x / 2, y / 2, k - 1);
    }
  }

  lemma {:induction false} LowOfShl(x: int, k: nat, j: nat)
    ensures Low(Shl(x, k), k + j) == Shl(Low(x, j), k)
    ensures Low(Shl(x, k), k) == 0
    decreases k
  {
    if k > 0 {
      LowOfShl(x, k - 1, j);
    }
  }

  lemma {:induction false} ShlZero(k: nat)
    ensures Shl(0, k) == 0
  {
    if k > 0 {
      ShlZero(k - 1);
    }
  }

  // ---------------------------------------------------------------------
  // Reals times powers of two
  // ---------------------------------------------------------------------

  /** x * 2^e, for an exponent of either sign. */
  function Scale(x: real, e: int): real
    decreases if e < 0 then -e else e
  {
    if e == 0 then x
    else if e > 0 then 2.0 * Scale(x, e - 1)
    else Scale(x, e + 1) / 2.0
  }

  lemma ScaleStep(x: real, e: int)
    ensures Scale(x, e + 1) == 2.0 * Scale(x, e)
  {
  }

  lemma {:induction false} ScaleInside(x: real, e: int)
    ensures Scale(2.0 * x, e) == 2.0 * Scale(x, e)
    decreases if e < 0 then -e else e
  {
    if e > 0 {
      ScaleInside(x, e - 1);
    } else if e < 0 {
      ScaleInside(x, e + 1);
    }
  }

  lemma {:induction false} ScaleTwice(x: real, a: int, b: int)
    ensures Scale(Scale(x, a), b) == Scale(x, a + b)
    decreases if b < 0 then -b else b
  {
    if b > 0 {
      ScaleTwice(x, a, b - 1);
      ScaleStep(x, a + b - 1);
    } else if b < 0 {
      ScaleTwice(x, a, b + 1);
      ScaleStep(x, a + b);
    }
  }

  lemma {:induction false} ScaleSum(x: real, y: real, e: int)
    ensures Scale(x + y, e) == Scale(x, e) + Scale(y, e)
    ensures Scale(x - y, e) == Scale(x, e) - Scale(y, e)
    decreases if e < 0 then -e else e
  {
    if e > 0 {
      ScaleSum(x, y, e - 1);
    } else if e < 0 {
      ScaleSum(x, y, e + 1);
    }
  }

  lemma {:induction false} ScaleZero(e: int)
    ensures Scale(0.0, e) == 0.0
    decreases if e < 0 then -e else e
  {
    if e > 0 {
      ScaleZero(e - 1);
    } else if e < 0 {
      ScaleZero(e + 1);
    }
  }

  lemma {:induction false} ScaleOrder(x: real, y: real, e: int)
    ensures x < y <==> Scale(x, e) < Scale(y, e)
    ensures x == y <==> Scale(x, e) == Scale(y, e)
    decreases if e < 0 then -e else e
  {
    if e > 0 {
      ScaleOrder(x, y, e - 1);
    } else if e < 0 {
      ScaleOrder(x, y, e + 1);
    }
  }

  lemma {:induction false} ScaleGrows(x: real, a: int, b: int)
    requires x > 0.0 && a < b
    ensures 0.0 < 2.0 * Scale(x, a) <= Scale(x, b)
    decreases b - a
  {
    ScaleZero(a);
    ScaleOrder(0.0, x, a);
    ScaleStep(x, a);
    if a + 1 < b {
      ScaleGrows(x, a + 1, b);
    }
  }

  /** Multiplying and dividing by the integer 1 << k. */
  lemma {:induction false} ScaleIsProduct(x: real, k: nat)
    ensures x * Pow2(k) as real == Scale(x, k)
  {
    if k > 0 {
      ScaleIsProduct(x, k - 1);
      var half := Pow2(k - 1) as real;
      assert Pow2(k) as real == 2.0 * half;
      DoubleInside(x, half);
    }
  }

  lemma DoubleInside(x: real, y: real)
    ensures x * (2.0 * y) == 2.0 * (x * y)
  {
  }

  lemma ScaleIsQuotient(x: real, k: nat)
    ensures x / Pow2(k) as real == Scale(x, 0 - k)
  {
    var q := x / Pow2(k) as real;
    assert q * Pow2(k) as real == x;
    ScaleIsProduct(q, k);
    ScaleTwice(q, k, 0 - k);
    assert Scale(q, k) == x && Scale(q, 0) == q;
  }
}
