/**
  Shifts and bitwise operators on natural numbers, defined bit by bit, and the arithmetic
  they perform on disjoint bits, masks and powers of two.
  */
module Bits {

  /** x << k without truncation. */
  function Shl(x: nat, k: nat): nat
    decreases k
  {
    if k == 0 then x else 2 * Shl(x, k - 1)
  }

  /** x >> k */
  function Shr(x: nat, k: nat): nat
    decreases k
  {
    if k == 0 then x else Shr(x / 2, k - 1)
  }

  /** The low k bits of x. */
  function Low(x: nat, k: nat): nat
    decreases k
  {
    if k == 0 then 0 else 2 * Low(x / 2, k - 1) + x % 2
  }

  function Pow2(k: nat): nat {
    Shl(1, k)
  }

  function And(x: nat, y: nat): nat {
    if x == 0 || y == 0 then 0
    else 2 * And(x / 2, y / 2) + (if x % 2 == 1 && y % 2 == 1 then 1 else 0)
  }

  function Or(x: nat, y: nat): nat {
    if x == 0 then y
    else if y == 0 then x
    else 2 * Or(x / 2, y / 2) + (if x % 2 == 1 || y % 2 == 1 then 1 else 0)
  }

  function Xor(x: nat, y: nat): nat {
    if x == 0 then y
    else if y == 0 then x
    else 2 * Xor(x / 2, y / 2) + (if x % 2 != y % 2 then 1 else 0)
  }

  // ----- shifts -----

  lemma {:induction false} ShlAdd(a: nat, b: nat, k: nat)
    ensures Shl(a + b, k) == Shl(a, k) + Shl(b, k)
    decreases k
  {
    if k > 0 {
      ShlAdd(a, b, k - 1);
    }
  }

  lemma {:induction false} ShlShl(x: nat, j: nat, k: nat)
    ensures Shl(Shl(x, j), k) == Shl(x, j + k)
    decreases k
  {
    if k > 0 {
      ShlShl(x, j, k - 1);
    }
  }

  lemma {:induction false} ShlMul(x: nat, k: nat)
    ensures Shl(x, k) == x * Pow2(k)
    decreases k
  {
    if k > 0 {
      ShlMul(x, k - 1);
      assert x * (2 * Shl(1, k - 1)) == 2 * (x * Shl(1, k - 1));
    }
  }

  lemma {:induction false} Pow2Positive(k: nat)
    ensures Pow2(k) > 0
  {
    if k > 0 {
      Pow2Positive(k - 1);
    }
  }

  lemma ShlMonotone(a: nat, b: nat, k: nat)
    requires a < b
    ensures Shl(a, k) + Pow2(k) <= Shl(b, k)
  {
    ShlAdd(a, 1, k);
    ShlAdd(a + 1, b - a - 1, k);
  }

  lemma Pow2Monotone(a: nat, b: nat)
    requires a <= b
    ensures Pow2(a) <= Pow2(b)
  {
    ShlShl(1, b - a, a);
    Pow2Positive(b - a);
    if Pow2(b - a) > 1 {
      ShlMonotone(1, Pow2(b - a), a);
    }
  }

  lemma {:induction false} ShrShr(x: nat, j: nat, k: nat)
    ensures Shr(Shr(x, j), k) == Shr(x, j + k)
    decreases j
  {
    if j > 0 {
      ShrShr(x / 2, j - 1, k);
    }
  }

  lemma {:induction false} Split(x: nat, k: nat)
    ensures x == Shl(Shr(x, k), k) + Low(x, k) && Low(x, k) < Pow2(k)
    decreases k
  {
    if k > 0 {
      Split(x / 2, k - 1);
    }
  }

  lemma {:induction false} SplitUnique(h: nat, l: nat, k: nat)
    requires l < Pow2(k)
    ensures Shr(Shl(h, k) + l, k) == h && Low(Shl(h, k) + l, k) == l
    decreases k
  {
    if k > 0 {
      SplitUnique(h, l / 2, k - 1);
      assert (Shl(h, k) + l) / 2 == Shl(h, k - 1) + l / 2;
    }
  }

  /** Adding a multiple of 2^k does not change the low k bits. */
  lemma LowAdd(x: nat, m: nat, k: nat)
    ensures Low(x + Shl(m, k), k) == Low(x, k)
  {
    Split(x, k);
    ShlAdd(Shr(x, k), m, k);
    SplitUnique(Shr(x, k) + m, Low(x, k), k);
  }

  lemma LowSmall(x: nat, k: nat)
    requires x < Pow2(k)
    ensures Low(x, k) == x && Shr(x, k) == 0
  {
    ShlZero(k);
    SplitUnique(0, x, k);
  }

  lemma {:induction false} ShlZero(k: nat)
    ensures Shl(0, k) == 0
  {
    if k > 0 {
      ShlZero(k - 1);
    }
  }

  /** Shifting left within w bits keeps the low bits only. */
  lemma {:induction false} LowShl(x: nat, k: nat, w: nat)
    requires k <= w
    ensures Low(Shl(x, k), w) == Shl(Low(x, w - k), k)
    decreases k
  {
    if k > 0 {
      LowShl(x, k - 1, w - 1);
    }
  }

  /** Bit j on top of the low j bits. */
  lemma {:induction false} LowTop(x: nat, j: nat)
    ensures Low(x, j + 1) == Low(x, j) + Shl(Shr(x, j) % 2, j)
    decreases j
  {
    if j > 0 {
      LowTop(x / 2, j - 1);
    }
  }

  lemma {:induction false} ShrMonotone(x: nat, a: nat, k: nat)
    requires x < Shl(a, k)
    ensures Shr(x, k) < a
    decreases k
  {
    if k > 0 {
      ShrMonotone(x / 2, a, k - 1);
    }
  }

  // ----- bitwise operators -----

  /** Or-ing in bits below the lowest set bit adds them. */
  lemma {:induction false} OrDisjoint(h: nat, l: nat, k: nat)
    requires l < Pow2(k)
    ensures Or(Shl(h, k), l) == Shl(h, k) + l
    decreases k
  {
    if k > 0 {
      OrDisjoint(h, l / 2, k - 1);
    }
  }

  /** And-ing with the low k bits keeps them. */
  lemma {:induction false} AndMask(x: nat, k: nat)
    ensures Pow2(k) > 0 && And(x, Pow2(k) - 1) == Low(x, k)
    decreases k
  {
    if k == 0 {
    } else if x == 0 {
      Pow2Positive(k);
      LowSmall(0, k);
    } else {
      AndMask(x / 2, k - 1);
      assert (Pow2(k) - 1) / 2 == Pow2(k - 1) - 1;
      if Pow2(k) - 1 > 0 {
        assert And(x, Pow2(k) - 1) == 2 * And(x / 2, Pow2(k - 1) - 1) + x % 2;
      }
    }
  }

  /** And-ing with a mask whose low k bits are clear. */
  lemma {:induction false} AndHigh(x: nat, m: nat, k: nat)
    ensures And(x, Shl(m, k)) == Shl(And(Shr(x, k), m), k)
    decreases k
  {
    if k > 0 {
      AndHigh(x / 2, m, k - 1);
    }
  }

  /** Xor-ing with k ones subtracts from them. */
  lemma {:induction false} XorOnes(x: nat, k: nat)
    requires x < Pow2(k)
    ensures Xor(x, Pow2(k) - 1) == Pow2(k) - 1 - x
    decreases k
  {
    if k > 0 && x > 0 {
      XorOnes(x / 2, k - 1);
      assert (Pow2(k) - 1) / 2 == Pow2(k - 1) - 1 && (Pow2(k) - 1) % 2 == 1;
    }
  }

  lemma {:induction false} AndSelf(x: nat)
    ensures And(x, x) == x
  {
    if x > 0 {
      AndSelf(x / 2);
    }
  }

  /** `(d & (d - 1)) == 0` holds only for powers of two. */
  lemma {:induction false} PowerOfTwoTest(d: nat) returns (k: nat)
    requires d > 0 && And(d, d - 1) == 0
    ensures d == Pow2(k)
    decreases d
  {
    k := 0;
    if d > 1 {
      if d % 2 == 0 {
        assert (d - 1) / 2 == d / 2 - 1;
        k := PowerOfTwoTest(d / 2);
        k := k + 1;
      } else {
        AndSelf(d / 2);
      }
    }
  }

  lemma {:induction false} ShrBelow(x: nat, s: nat)
    ensures Shr(x, s) <= x
    decreases s
  {
    if s > 0 {
      ShrBelow(x / 2, s - 1);
    }
  }

  lemma NextPower(k: nat)
    ensures Pow2(k + 8) == 0x100 * Pow2(k)
  {
    ShlShl(1, k, 8);
    assert Shl(Pow2(k), 8) == 0x100 * Pow2(k);
  }

  lemma Powers()
    ensures Pow2(8) == 0x100 && Pow2(16) == 0x1_0000 && Pow2(24) == 0x100_0000 && Pow2(32) == 0x1_0000_0000
  {
    NextPower(0);
    NextPower(8);
    NextPower(16);
    NextPower(24);
  }

  // ----- division -----

  lemma QuotientIs(p: nat, q: nat, r: nat)
    requires r < p
    ensures (q * p + r) / p == q
  {
    var d := (q * p + r) / p;
    assert d == q || d - q >= 1 || q - d >= 1;
    if d >= q {
      Scale(p, d - q);
    } else {
      Scale(p, q - d);
    }
    assert (d - q) * p == d * p - q * p;
  }

  lemma Scale(p: nat, n: nat)
    ensures n >= 1 ==> n * p >= p
  {
  }

  // ----- single bits -----

  predicate Bit(x: nat, i: nat) {
    Shr(x, i) % 2 == 1
  }

  lemma {:induction false} ZeroBit(i: nat)
    ensures Shr(0, i) == 0
  {
    if i > 0 {
      ZeroBit(i - 1);
    }
  }

  /** The test x & (1 << i). */
  lemma AndBit(x: nat, i: nat)
    ensures And(x, Shl(1, i)) != 0 <==> Bit(x, i)
  {
    AndHigh(x, 1, i);
    AndMask(Shr(x, i), 1);
    assert And(Shr(x, i), 1) == Shr(x, i) % 2;
    Pow2Positive(i);
    ShlZero(i);
  }

  lemma {:induction false} OrBound(x: nat, y: nat, k: nat)
    requires x < Pow2(k) && y < Pow2(k)
    ensures Or(x, y) < Pow2(k)
  {
    if k > 0 {
      OrBound(x / 2, y / 2, k - 1);
    }
  }

  lemma {:induction false} OrCommutes(x: nat, y: nat)
    ensures Or(x, y) == Or(y, x)
  {
    if x != 0 && y != 0 {
      OrCommutes(x / 2, y / 2);
    }
  }

  lemma OrAbove(low: nat, high: nat, k: nat)
    requires low < Pow2(k)
    ensures Or(low, Shl(high, k)) == low + Shl(high, k)
  {
    OrCommutes(low, Shl(high, k));
    OrDisjoint(high, low, k);
  }

  lemma {:induction false} AndBelow(x: nat, y: nat)
    ensures And(x, y) <= y
  {
    if x != 0 && y != 0 {
      AndBelow(x / 2, y / 2);
    }
  }

  /** Xor with a single bit above x sets it. */
  lemma {:induction false} XorTop(x: nat, k: nat)
    requires x < Pow2(k)
    ensures Xor(x, Pow2(k)) == x + Pow2(k)
  {
    if k > 0 {
      XorTop(x / 2, k - 1);
      XorStep(x, Pow2(k));
    }
  }

  lemma {:induction false} XorCommutes(x: nat, y: nat)
    ensures Xor(x, y) == Xor(y, x)
  {
    if x != 0 && y != 0 {
      XorCommutes(x / 2, y / 2);
    }
  }

  lemma {:induction false} AndCommutes(x: nat, y: nat)
    ensures And(x, y) == And(y, x)
  {
    if x != 0 && y != 0 {
      AndCommutes(x / 2, y / 2);
    }
  }

  lemma {:induction false} XorSelf(x: nat)
    ensures Xor(x, x) == 0
  {
    if x != 0 {
      XorSelf(x / 2);
    }
  }

  /** Xor-ing twice with the same value restores the first. */
  lemma {:induction false} XorTwice(x: nat, y: nat)
    ensures Xor(Xor(x, y), y) == x
  {
    if x == 0 {
      XorSelf(y);
    } else if y != 0 {
      var z := Xor(x, y);
      XorParts(x, y);
      XorTwice(x / 2, y / 2);
      XorStep(z, y);
    }
  }

  lemma XorParts(x: nat, y: nat)
    ensures Xor(x, y) / 2 == Xor(x / 2, y / 2)
    ensures Xor(x, y) % 2 == if x % 2 != y % 2 then 1 else 0
  {
    XorStep(x, y);
  }

  lemma OrStep(x: nat, y: nat)
    ensures Or(x, y) == 2 * Or(x / 2, y / 2) + (if x % 2 == 1 || y % 2 == 1 then 1 else 0)
  {
  }

  lemma XorStep(x: nat, y: nat)
    ensures Xor(x, y) == 2 * Xor(x / 2, y / 2) + (if x % 2 != y % 2 then 1 else 0)
  {
  }
}
