/**
  Signed 64-bit division and remainder by conditional negation, and counting leading and
  trailing zeros without branches.
  */
module Int64 {
  import opened Bits
  import opened UDivMod

  // ----- two's complement in W bits -----

  predicate InRange(a: int, W: nat)
    requires W > 0
  {
    Least(W) <= a < Pow2(W - 1)
  }

  /** The most negative number. */
  function Least(W: nat): int
    requires W > 0
  {
    0 - Pow2(W - 1)
  }

  /** Bit pattern of a signed number. */
  function Pattern(a: int, W: nat): nat
    requires W > 0 && InRange(a, W)
  {
    if a < 0 then Pow2(W) + a else a
  }

  /** Signed number of a bit pattern. */
  function Signed(x: nat, W: nat): int
    requires W > 0
  {
    if x >= Pow2(W - 1) then x - Pow2(W) else x
  }

  /** `a >> (W - 1)`: all ones for negative numbers, zero otherwise. */
  function SignMask(a: int, W: nat): nat
    requires W > 0
  {
    Pow2Positive(W);
    if a < 0 then Pow2(W) - 1 else 0
  }

  /** `(x ^ s) - s` in W bits. */
  function FlipBy(x: nat, s: nat, W: nat): nat
    requires s < Pow2(W)
  {
    var y := Xor(x, s);
    if y >= s then y - s else Low(Pow2(W) + y - s, W)
  }

  function Abs(a: int): nat {
    if a < 0 then -a else a
  }

  /** Flipping by all ones negates in W bits; flipping by zero does nothing. */
  lemma FlipValue(x: nat, negative: bool, W: nat)
    requires W > 0 && x < Pow2(W)
    ensures Pow2(W) > 0
    ensures FlipBy(x, SignMask(if negative then -1 else 0, W), W) == if negative && x > 0 then Pow2(W) - x else x
  {
    Pow2Positive(W);
    if negative {
      XorOnes(x, W);
      if x > 0 {
        LowSmall(Pow2(W) - x, W);
      }
    }
  }

  /** The absolute value as the code computes it. */
  lemma AbsValue(a: int, W: nat)
    requires W > 0 && InRange(a, W)
    ensures Pattern(a, W) < Pow2(W)
    ensures SignMask(a, W) == SignMask(if a < 0 then -1 else 0, W) < Pow2(W)
    ensures FlipBy(Pattern(a, W), SignMask(a, W), W) == Abs(a) < Pow2(W)
  {
    Pow2Positive(W - 1);
    FlipValue(Pattern(a, W), a < 0, W);
  }

  /** `q` is `a / b` rounded toward zero: the rest is smaller than b and has the sign of a. */
  ghost predicate Truncated(a: int, b: int, q: int) {
    var r := a - q * b;
    Abs(r) < Abs(b) && (r == 0 || (r < 0 <==> a < 0))
  }

  /** __divdi3 for double words of 2w bits. It is the truncating quotient of all signed numbers,
      except for the one quotient that does not fit. */
  method Divide(a: int, b: int, w: nat) returns (q: int)
    requires w >= 3 && InRange(a, w + w) && InRange(b, w + w) && b != 0
    ensures Truncated(a, b, q) <==> !(a == Least(w + w) && b == -1)
    ensures a == Least(w + w) && b == -1 ==> q == a
  {
    var W := w + w;
    var sa, sb := SignMask(a, W), SignMask(b, W);
    AbsValue(a, W);
    AbsValue(b, W);
    var ua, ub := FlipBy(Pattern(a, W), sa, W), FlipBy(Pattern(b, W), sb, W);
    var s := Xor(sa, sb);
    var uq, ur := Udivmod(ua, ub, w);
    XorMasks(a, b, W);
    QuotientFits(ua, ub, uq, ur);
    FlipValue(uq, (a < 0) != (b < 0), W);
    q := Signed(FlipBy(uq, s, W), W);
    Pow2Positive(W - 1);
    DivideSigns(a, b, uq, ur, q, Pow2(W - 1));
  }

  lemma XorMasks(a: int, b: int, W: nat)
    requires W > 0
    ensures Xor(SignMask(a, W), SignMask(b, W)) == SignMask(if (a < 0) != (b < 0) then -1 else 0, W)
  {
    Pow2Positive(W);
    XorOnes(Pow2(W) - 1, W);
  }

  lemma QuotientFits(a: nat, b: nat, q: nat, r: nat)
    requires a == q * b + r && b > 0
    ensures q <= a
  {
    assert q * b >= q;
  }

  /** A quotient of half the range needs a divisor of one. */
  lemma LargeQuotient(x: nat, y: nat, q: nat, r: nat, half: nat)
    requires half > 0 && y > 0 && x == q * y + r && x <= half <= q
    ensures y == 1 && r == 0 && q == half == x
  {
    assert y >= 2 ==> q * y >= q * 2;
  }

  /** Putting the signs back. `half` is half the range. */
  lemma DivideSigns(a: int, b: int, uq: nat, ur: nat, q: int, half: int)
    requires half > 0 && -half <= a < half && -half <= b < half && b != 0
    requires ur < Abs(b) && Abs(a) == uq * Abs(b) + ur
    requires q == if (a < 0) != (b < 0) then 0 - (uq as int) else if uq >= half then uq - 2 * half else uq
    ensures Truncated(a, b, q) <==> !(a == -half && b == -1)
    ensures a == -half && b == -1 ==> q == a
  {
    var q' := ModuloSigns(a, b, uq, ur);
    if (a < 0) == (b < 0) && uq >= half {
      LargeQuotient(Abs(a), Abs(b), uq, ur, half);
    }
  }

  /** __moddi3 for double words of 2w bits: the remainder that goes with truncation, on all inputs. */
  method Modulo(a: int, b: int, w: nat) returns (r: int, ghost q: int)
    requires w >= 3 && InRange(a, w + w) && InRange(b, w + w) && b != 0
    ensures r == SignedRemainder(a, b)
    ensures a == q * b + r && Truncated(a, b, q)
  {
    var W := w + w;
    var s := SignMask(b, W);
    AbsValue(b, W);
    var ub := FlipBy(Pattern(b, W), s, W);
    s := SignMask(a, W);
    AbsValue(a, W);
    var ua := FlipBy(Pattern(a, W), s, W);
    var uq, ur := Udivmod(ua, ub, w);
    FlipValue(ur, a < 0, W);
    r := Signed(FlipBy(ur, s, W), W);
    q := ModuloSigns(a, b, uq, ur);
    RemainderSigns(a, b, uq, ur);
  }

  lemma RemainderSigns(a: int, b: int, uq: nat, ur: nat)
    requires b != 0 && ur < Abs(b) && Abs(a) == uq * Abs(b) + ur
    ensures SignedRemainder(a, b) == if a < 0 then 0 - ur else ur
  {
    RemainderIs(Abs(a), Abs(b), uq, ur);
  }

  lemma RemainderIs(n: nat, d: nat, q: nat, r: nat)
    requires r < d && n == q * d + r
    ensures n % d == r
  {
    QuotientIs(d, q, r);
  }

  /** The remainder of the absolute values, with the sign of the dividend. */
  function SignedRemainder(a: int, b: int): int
    requires b != 0
  {
    if a < 0 then 0 - Abs(a) % Abs(b) else Abs(a) % Abs(b)
  }

  lemma ModuloSigns(a: int, b: int, uq: int, ur: int) returns (q: int)
    requires b != 0 && 0 <= uq && 0 <= ur < Abs(b) && Abs(a) == uq * Abs(b) + ur
    ensures a == q * b + (if a < 0 then -ur else ur) && Truncated(a, b, q)
    ensures q == if (a < 0) != (b < 0) then -uq else uq
  {
    q := if (a < 0) != (b < 0) then -uq else uq;
    assert (-uq) * b == -(uq * b);
    assert b < 0 ==> uq * b == -(uq * Abs(b));
  }

  // ----- __clzsi2, __ctzsi2, __clzdi2, __ctzdi2 -----

  /** One stage of __clzsi2 on a value of 2k bits: `t` is k if the upper k bits are zero; the
      half that holds the highest set bit is kept. */
  function ClzStage(x: nat, k: nat): (nat, nat)
  {
    Pow2Positive(k);
    var t := if And(x, Shl(Pow2(k) - 1, k)) == 0 then k else 0;
    (t, Shr(x, k - t))
  }

  /** The mask of a stage is zero exactly for values of k bits. */
  lemma ClzStageTest(x: nat, k: nat)
    requires x < Pow2(k + k)
    ensures Pow2(k) > 0 && (And(x, Shl(Pow2(k) - 1, k)) == 0 <==> Shr(x, k) == 0)
    ensures Shr(x, k) < Pow2(k)
  {
    Pow2Positive(k);
    ShlShl(1, k, k);
    ShrMonotone(x, Pow2(k), k);
    AndHigh(x, Pow2(k) - 1, k);
    AndMask(Shr(x, k), k);
    LowSmall(Shr(x, k), k);
    ShlZero(k);
    ShlGrows(Shr(x, k), k);
  }

  lemma ClzStageValue(x: nat, k: nat)
    requires k > 0 && 0 < x < Pow2(k + k)
    ensures var (t, y) := ClzStage(x, k);
            && 0 < y < Pow2(k) && BitLength(x) <= k + k && BitLength(y) <= k
            && k + k - BitLength(x) == t + (k - BitLength(y))
  {
    ClzStageTest(x, k);
    Split(x, k);
    ShlZero(k);
    if Shr(x, k) == 0 {
      BitLengthFits(x, k);
    } else {
      BitLengthShl(Shr(x, k), Low(x, k), k);
      BitLengthFits(Shr(x, k), k);
    }
  }

  /** `((2 - x) & -((x & 2) == 0))` in words of w bits. */
  function ClzLast(x: nat, w: nat): nat
    requires x <= 3
  {
    Pow2Positive(w);
    var mask := if And(x, 2) == 0 then Pow2(w) - 1 else 0;
    And(if x <= 2 then 2 - x else Pow2(w) + 2 - x, mask)
  }

  lemma ClzLastValue(x: nat, w: nat)
    requires 0 < x <= 3 && w >= 2
    ensures BitLength(x) <= 2 && ClzLast(x, w) == 2 - BitLength(x)
  {
    assert And(1, 2) == 0 && And(2, 2) == 2 && And(3, 2) == 2;
    assert BitLength(1) == 1 && BitLength(2) == 2 && BitLength(3) == 2;
    assert Pow2(2) == 4;
    Pow2Monotone(2, w);
    AndMask(1, w);
    LowSmall(1, w);
  }

  /** Successive stages of __clzsi2, each halving the width: n of them go from k * 2^n bits to k bits. */
  function ClzStages(x: nat, k: nat, n: nat): (nat, nat)
    decreases n
  {
    if n == 0 then (0, x)
    else
      var (t, y) := ClzStage(x, Shl(k, n - 1));
      var (u, z) := ClzStages(y, k, n - 1);
      (t + u, z)
  }

  lemma {:induction false} ClzStagesValue(x: nat, k: nat, n: nat)
    requires k > 0 && 0 < x < Pow2(Shl(k, n))
    ensures var (t, z) := ClzStages(x, k, n);
            && 0 < z < Pow2(k) && BitLength(x) <= Shl(k, n) && BitLength(z) <= k
            && Shl(k, n) - BitLength(x) == t + (k - BitLength(z))
    decreases n
  {
    if n == 0 {
      BitLengthFits(x, k);
    } else {
      var h := Shl(k, n - 1);
      ShlGrows(k, n - 1);
      assert Shl(k, n) == h + h;
      ClzStageValue(x, h);
      ClzStagesValue(ClzStage(x, h).1, k, n - 1);
    }
  }

  /** __clzsi2 for words of 2^(n+1) bits; n is 4 in the code. */
  method ClzWord(a: nat, n: nat) returns (r: nat)
    requires 0 < a < Pow2(Shl(2, n))
    ensures BitLength(a) <= Shl(2, n) && r == Clz(a, Shl(2, n))
  {
    assert Pow2(2) == 4;
    ClzStagesValue(a, 2, n);
    ShlGrows(2, n);
    var (t, x) := ClzStages(a, 2, n);
    ClzLastValue(x, Shl(2, n));
    r := t + ClzLast(x, Shl(2, n));
  }

  /** One stage of __ctzsi2: `t` is k if the low k bits are zero. */
  function CtzStage(x: nat, k: nat): (nat, nat) {
    Pow2Positive(k);
    var t := if And(x, Pow2(k) - 1) == 0 then k else 0;
    (t, Shr(x, t))
  }

  lemma {:induction false} CtzShl(y: nat, k: nat)
    requires y > 0
    ensures Shl(y, k) > 0 && Ctz(Shl(y, k)) == k + Ctz(y)
  {
    if k > 0 {
      CtzShl(y, k - 1);
    }
  }

  lemma {:induction false} CtzBelow(x: nat, k: nat)
    requires x > 0
    ensures Low(x, k) != 0 ==> Ctz(x) < k
    decreases k
  {
    if k > 0 && x % 2 == 0 {
      CtzBelow(x / 2, k - 1);
    }
  }

  lemma CtzStageValue(x: nat, k: nat)
    requires k > 0 && x > 0 && Ctz(x) < k + k
    ensures var (t, y) := CtzStage(x, k); y > 0 && Ctz(x) == t + Ctz(y) && Ctz(y) < k
  {
    AndMask(x, k);
    Split(x, k);
    ShlZero(k);
    if Low(x, k) == 0 {
      CtzShl(Shr(x, k), k);
    } else {
      CtzBelow(x, k);
    }
  }

  /** Successive stages of __ctzsi2. */
  function CtzStages(x: nat, k: nat, n: nat): (nat, nat)
    decreases n
  {
    if n == 0 then (0, x)
    else
      var (t, y) := CtzStage(x, Shl(k, n - 1));
      var (u, z) := CtzStages(y, k, n - 1);
      (t + u, z)
  }

  lemma {:induction false} CtzStagesValue(x: nat, k: nat, n: nat)
    requires k > 0 && x > 0 && Ctz(x) < Shl(k, n)
    ensures var (t, z) := CtzStages(x, k, n); z > 0 && Ctz(x) == t + Ctz(z) && Ctz(z) < k
    decreases n
  {
    if n > 0 {
      var h := Shl(k, n - 1);
      ShlGrows(k, n - 1);
      CtzStageValue(x, h);
      CtzStagesValue(CtzStage(x, h).1, k, n - 1);
    }
  }

  /** `((2 - (x >> 1)) & -((x & 1) == 0))` in words of w bits, after `x &= 3`. */
  function CtzLast(x: nat, w: nat): nat {
    Pow2Positive(w);
    AndThree(x);
    var y := And(x, 3);
    var mask := if And(y, 1) == 0 then Pow2(w) - 1 else 0;
    And(2 - Shr(y, 1), mask)
  }

  lemma AndThree(x: nat)
    ensures And(x, 3) == 2 * (x / 2 % 2) + x % 2 && Shr(And(x, 3), 1) == x / 2 % 2
  {
    assert Pow2(2) == 4;
    AndMask(x, 2);
    assert Low(x, 2) == 2 * Low(x / 2, 1) + x % 2;
    assert Low(x / 2, 1) == 2 * Low(x / 2 / 2, 0) + x / 2 % 2;
    assert Shr(And(x, 3), 1) == Shr(And(x, 3) / 2, 0);
  }

  lemma CtzLastValue(x: nat, w: nat)
    requires x > 0 && Ctz(x) < 2 && w >= 2
    ensures CtzLast(x, w) == Ctz(x)
  {
    AndThree(x);
    assert And(1, 1) == 1 && And(2, 1) == 0 && And(3, 1) == 1;
    assert Pow2(2) == 4;
    Pow2Monotone(2, w);
    AndMask(1, w);
    LowSmall(1, w);
  }

  lemma {:induction false} CtzFits(x: nat, w: nat)
    requires 0 < x < Pow2(w)
    ensures Ctz(x) < w
    decreases w
  {
    if x % 2 == 0 {
      CtzFits(x / 2, w - 1);
    }
  }

  /** __ctzsi2 for words of 2^(n+1) bits. */
  method CtzWord(a: nat, n: nat) returns (r: nat)
    requires 0 < a < Pow2(Shl(2, n))
    ensures r == Ctz(a) < Shl(2, n)
  {
    CtzFits(a, Shl(2, n));
    ShlGrows(2, n);
    CtzStagesValue(a, 2, n);
    var (t, x) := CtzStages(a, 2, n);
    CtzLastValue(x, Shl(2, n));
    r := t + CtzLast(x, Shl(2, n));
  }

  /** `(h & f) | (l & ~f)` selects a half by a mask of w bits that is all ones or zero. */
  lemma Select(h: nat, l: nat, w: nat)
    requires h < Pow2(w) && l < Pow2(w)
    ensures Pow2(w) > 0
    ensures Or(And(h, Pow2(w) - 1), And(l, 0)) == h
    ensures Or(And(h, 0), And(l, Pow2(w) - 1)) == l
  {
    AndMask(h, w);
    AndMask(l, w);
    LowSmall(h, w);
    LowSmall(l, w);
  }

  /** `-(zero)` as a mask of w bits. */
  function ZeroMask(zero: bool, w: nat): nat {
    Pow2Positive(w);
    if zero then Pow2(w) - 1 else 0
  }

  /** `f & (sizeof(si_int) * CHAR_BIT)` */
  lemma MaskedWidth(zero: bool, w: nat)
    ensures And(ZeroMask(zero, w), w) == if zero then w else 0
  {
    WidthFits(w);
    AndMask(w, w);
    LowSmall(w, w);
    AndCommutes(ZeroMask(zero, w), w);
  }

  lemma {:induction false} WidthFits(w: nat)
    ensures w < Pow2(w)
  {
    if w > 0 {
      WidthFits(w - 1);
    }
  }

  /** __clzdi2 on a non-zero double word. */
  method ClzDouble(a: nat, n: nat) returns (r: nat)
    requires 0 < a < Pow2(Shl(2, n) + Shl(2, n))
    ensures BitLength(a) <= Shl(2, n) + Shl(2, n) && r == Clz(a, Shl(2, n) + Shl(2, n))
  {
    var w := Shl(2, n);
    HalvesJoin(a, w);
    var x := Halves(a, w);
    var f, g := ZeroMask(x.high == 0, w), ZeroMask(x.high != 0, w);
    Select(x.high, x.low, w);
    ShlZero(w);
    if x.high != 0 {
      LengthOfPair(x, w);
    }
    r := ClzWord(Or(And(x.high, g), And(x.low, f)), n);
    MaskedWidth(x.high == 0, w);
    r := r + And(f, w);
  }

  /** __ctzdi2 on a non-zero double word. */
  method CtzDouble(a: nat, n: nat) returns (r: nat)
    requires 0 < a < Pow2(Shl(2, n) + Shl(2, n))
    ensures r == Ctz(a)
  {
    var w := Shl(2, n);
    HalvesJoin(a, w);
    var x := Halves(a, w);
    var f, g := ZeroMask(x.low == 0, w), ZeroMask(x.low != 0, w);
    Select(x.high, x.low, w);
    CtzOfPair(x, w);
    r := CtzWord(Or(And(x.high, f), And(x.low, g)), n);
    MaskedWidth(x.low == 0, w);
    r := r + And(f, w);
  }

  lemma CtzOfPair(u: Udwords, w: nat)
    requires u.Valid(w) && u.All(w) > 0
    ensures u.low == 0 ==> u.high > 0 && Ctz(u.All(w)) == w + Ctz(u.high)
    ensures u.low > 0 ==> Ctz(u.All(w)) == Ctz(u.low)
  {
    ShlZero(w);
    if u.low == 0 {
      CtzShl(u.high, w);
    } else {
      CtzFits(u.low, w);
      CtzLowBits(u.high, u.low, w);
    }
  }

  lemma {:induction false} CtzLowBits(h: nat, l: nat, k: nat)
    requires 0 < l < Pow2(k)
    ensures Ctz(Shl(h, k) + l) == Ctz(l)
    decreases k
  {
    if l % 2 == 0 {
      CtzLowBits(h, l / 2, k - 1);
      assert (Shl(h, k) + l) / 2 == Shl(h, k - 1) + l / 2;
    }
  }

  // ----- 32-bit words -----

  lemma Words()
    ensures Pow2(32) == 0x1_0000_0000 && Pow2(63) == 0x8000_0000_0000_0000 && Pow2(64) == 0x1_0000_0000_0000_0000
    ensures Shl(2, 4) == 32
  {
    Powers();
    ShlShl(1, 32, 32);
    ShlMul(0x1_0000_0000, 32);
    assert Pow2(64) == 2 * Pow2(63);
  }

  /** __udivmoddi4 */
  method Udivmoddi4(a: nat, b: nat) returns (quot: nat, rem: nat)
    requires a < 0x1_0000_0000_0000_0000 && 0 < b < 0x1_0000_0000_0000_0000
    ensures a == quot * b + rem && rem < b
  {
    Words();
    quot, rem := Udivmod(a, b, 32);
  }

  /** __divdi3 */
  method Divdi3(a: int, b: int) returns (q: int)
    requires -0x8000_0000_0000_0000 <= a < 0x8000_0000_0000_0000
    requires -0x8000_0000_0000_0000 <= b < 0x8000_0000_0000_0000 && b != 0
    ensures Truncated(a, b, q) <==> !(a == -0x8000_0000_0000_0000 && b == -1)
    ensures a == -0x8000_0000_0000_0000 && b == -1 ==> q == a
  {
    Words();
    q := Divide(a, b, 32);
  }

  /** __moddi3 */
  method Moddi3(a: int, b: int) returns (r: int, ghost q: int)
    requires -0x8000_0000_0000_0000 <= a < 0x8000_0000_0000_0000
    requires -0x8000_0000_0000_0000 <= b < 0x8000_0000_0000_0000 && b != 0
    ensures r == SignedRemainder(a, b) && a == q * b + r && Truncated(a, b, q)
  {
    Words();
    r, q := Modulo(a, b, 32);
  }
}
