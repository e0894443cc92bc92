/**
  __udivmoddi4: double-word unsigned division by shifting and subtracting on single-word
  halves. The word width `w` (n_uword_bits in the code) is a parameter.
  */
module UDivMod {
  import opened Bits

  /** The union of a double word with its two halves. */
  datatype Udwords = Udwords(high: nat, low: nat)
  {
    predicate Valid(w: nat) {
      high < Pow2(w) && low < Pow2(w)
    }

    function All(w: nat): nat {
      Shl(high, w) + low
    }
  }

  function Halves(x: nat, w: nat): Udwords {
    Udwords(Shr(x, w), Low(x, w))
  }

  lemma HalvesJoin(x: nat, w: nat)
    requires x < Pow2(w + w)
    ensures Halves(x, w).Valid(w) && Halves(x, w).All(w) == x
  {
    Split(x, w);
    ShlShl(1, w, w);
    ShrMonotone(x, Pow2(w), w);
  }

  /** Left shift within a word. */
  function ShlWord(x: nat, k: nat, w: nat): nat {
    Low(Shl(x, k), w)
  }

  /** `(h << (w - sr)) | (l >> sr)` joins the low bits of h with the high bits of l. */
  lemma JoinBits(h: nat, l: nat, sr: nat, w: nat)
    requires 1 <= sr < w && l < Pow2(w)
    ensures Or(ShlWord(h, w - sr, w), Shr(l, sr)) == Shl(Low(h, sr), w - sr) + Shr(l, sr) < Pow2(w)
    ensures ShlWord(h, w - sr, w) == Shl(Low(h, sr), w - sr) < Pow2(w)
  {
    LowShl(h, w - sr, w);
    HighPartFits(l, sr, w);
    OrDisjoint(Low(h, sr), Shr(l, sr), w - sr);
    LowPartFits(h, sr, w);
  }

  lemma HighPartFits(l: nat, sr: nat, w: nat)
    requires sr < w && l < Pow2(w)
    ensures Shr(l, sr) < Pow2(w - sr)
  {
    ShlShl(1, w - sr, sr);
    ShrMonotone(l, Pow2(w - sr), sr);
  }

  lemma LowPartFits(h: nat, sr: nat, w: nat)
    requires sr < w
    ensures Shl(Low(h, sr), w - sr) + Pow2(w - sr) <= Pow2(w)
  {
    Split(h, sr);
    ShlMonotone(Low(h, sr), Pow2(sr), w - sr);
    ShlShl(1, sr, w - sr);
  }

  /** The initial quotient and remainder registers: n << (2w - sr) and n >> sr. */
  ghost predicate Start(n: nat, sr: nat, q: Udwords, r: Udwords, w: nat) {
    sr <= w + w && q.Valid(w) && r.Valid(w) && q.All(w) == Shl(Low(n, sr), w + w - sr) && r.All(w) == Shr(n, sr)
  }

  /** Shifting a pair of halves right. */
  lemma PairShr(h: nat, l: nat, sr: nat, w: nat)
    requires 1 <= sr < w
    ensures Shr(Shl(h, w) + l, sr) == Shl(Shr(h, sr), w) + (Shl(Low(h, sr), w - sr) + Shr(l, sr))
  {
    var h1, h0, l1, l0 := Shr(h, sr), Low(h, sr), Shr(l, sr), Low(l, sr);
    var x := Shl(h1, w) + (Shl(h0, w - sr) + l1);
    assert Shl(h, w) + l == Shl(x, sr) + l0 by {
      Split(h, sr);
      Split(l, sr);
      ShlAdd(Shl(h1, sr), h0, w);
      ShlShl(h1, sr, w);
      ShlShl(h1, w, sr);
      ShlShl(h0, w - sr, sr);
      ShlAdd(Shl(h1, w), Shl(h0, w - sr) + l1, sr);
      ShlAdd(Shl(h0, w - sr), l1, sr);
    }
    Split(l, sr);
    SplitUnique(x, l0, sr);
  }

  lemma StartBelow(n: Udwords, sr: nat, w: nat)
    requires n.Valid(w) && 1 <= sr < w
    ensures Start(n.All(w), sr, Udwords(ShlWord(n.low, w - sr, w), 0),
                  Udwords(Shr(n.high, sr), Or(ShlWord(n.high, w - sr, w), Shr(n.low, sr))), w)
  {
    Pow2Positive(w);
    JoinBits(n.high, n.low, sr, w);
    JoinBits(n.low, 0, sr, w);
    ShlShl(Low(n.low, sr), w - sr, w);
    assert Low(n.All(w), sr) == Low(n.low, sr) by {
      ShlShl(n.high, w - sr, sr);
      LowAdd(n.low, Shl(n.high, w - sr), sr);
    }
    PairShr(n.high, n.low, sr, w);
    ShrBelow(n.high, sr);
  }

  lemma StartAtWord(n: Udwords, w: nat)
    requires n.Valid(w)
    ensures Start(n.All(w), w, Udwords(n.low, 0), Udwords(0, n.high), w)
  {
    Pow2Positive(w);
    SplitUnique(n.high, n.low, w);
    ShlZero(w);
  }

  /** The low w + t bits of a pair, shifted to the top. */
  lemma PairLow(h: nat, l: nat, t: nat, w: nat)
    requires 1 <= t < w && l < Pow2(w)
    ensures Shl(Low(Shl(h, w) + l, w + t), w - t) == Shl(Shl(Low(h, t), w - t) + Shr(l, t), w) + Shl(Low(l, t), w - t)
  {
    var h1, h0, l1, l0 := Shr(h, t), Low(h, t), Shr(l, t), Low(l, t);
    assert Low(Shl(h, w) + l, w + t) == Shl(h0, w) + l by {
      Split(h, t);
      ShlAdd(Shl(h1, t), h0, w);
      ShlShl(h1, t, w);
      ShlMonotone(h0, Pow2(t), w);
      ShlShl(1, t, w);
      SplitUnique(h1, Shl(h0, w) + l, w + t);
    }
    assert Shl(l, w - t) == Shl(l1, w) + Shl(l0, w - t) by {
      Split(l, t);
      ShlAdd(Shl(l1, t), l0, w - t);
      ShlShl(l1, t, w - t);
    }
    ShlAdd(Shl(h0, w), l, w - t);
    ShlShl(h0, w, w - t);
    ShlShl(h0, w - t, w);
    ShlAdd(Shl(h0, w - t), l1, w);
  }

  lemma StartAbove(n: Udwords, sr: nat, w: nat)
    requires n.Valid(w) && w < sr < w + w
    ensures Start(n.All(w), sr,
                  Udwords(Or(ShlWord(n.high, w + w - sr, w), Shr(n.low, sr - w)), ShlWord(n.low, w + w - sr, w)),
                  Udwords(0, Shr(n.high, sr - w)), w)
  {
    var t := sr - w;
    Pow2Positive(w);
    JoinBits(n.high, n.low, t, w);
    JoinBits(n.low, 0, t, w);
    PairLow(n.high, n.low, t, w);
    SplitUnique(n.high, n.low, w);
    ShrShr(n.All(w), w, t);
    ShrBelow(n.high, t);
    ShlZero(w);
  }

  // ----- the shift-subtract loop -----

  /** `(x << 1) | b`: the bit shifted out on top is `x >> (w - 1)`. */
  lemma ShiftIn(x: nat, b: nat, w: nat)
    requires x < Pow2(w) && b < 2 && w > 0
    ensures Or(ShlWord(x, 1, w), b) + Shl(Shr(x, w - 1), w) == 2 * x + b
    ensures Or(ShlWord(x, 1, w), b) < Pow2(w) && Shr(x, w - 1) < 2
  {
    var t, x0 := Shr(x, w - 1), Low(x, w - 1);
    Split(x, w - 1);
    LowShl(x, 1, w);
    assert Shl(x0, 1) == 2 * Shl(x0, 0) == 2 * x0;
    assert Pow2(1) == 2;
    OrDisjoint(x0, b, 1);
    ShlShl(1, 1, w - 1);
    ShrMonotone(x, 2, w - 1);
  }

  /** Both halves together: shift a pair left by one, taking `b` in at the bottom. */
  function ShiftPair(u: Udwords, b: nat, w: nat): Udwords
    requires w > 0
  {
    Udwords(Or(ShlWord(u.high, 1, w), Shr(u.low, w - 1)), Or(ShlWord(u.low, 1, w), b))
  }

  lemma ShiftPairValue(u: Udwords, b: nat, w: nat)
    requires u.Valid(w) && b < 2 && w > 0
    ensures ShiftPair(u, b, w).Valid(w) && Shr(u.high, w - 1) < 2
    ensures ShiftPair(u, b, w).All(w) + Shl(Shr(u.high, w - 1), w + w) == 2 * u.All(w) + b
  {
    ShiftIn(u.low, b, w);
    ShiftIn(u.high, Shr(u.low, w - 1), w);
    var v, top, mid := ShiftPair(u, b, w), Shr(u.high, w - 1), Shr(u.low, w - 1);
    ShlShl(top, w, w);
    ShlAdd(v.high, Shl(top, w), w);
    ShlAdd(2 * u.high, mid, w);
    ShlAdd(u.high, u.high, w);
  }

  lemma PairBound(u: Udwords, w: nat)
    requires u.Valid(w)
    ensures u.All(w) < Pow2(w + w)
  {
    ShlMonotone(u.high, Pow2(w), w);
    ShlShl(1, w, w);
  }

  /** What the registers hold when `i` bits of the dividend are still to be brought down: the
      dividend's low i bits on top of the quotient bits found so far, the newest of which is
      still in `carry`. The quotient so far is 2 * half + carry, and m is that times d. */
  ghost predicate Dividing(n: nat, d: nat, i: nat, q: Udwords, r: Udwords, carry: nat, half: nat, m: nat, w: nat) {
    && w > 0 && i <= w + w && n < Pow2(w + w) && q.Valid(w) && r.Valid(w) && carry < 2 && 2 * half + carry <= m
    && q.All(w) == Shl(Low(n, i), w + w - i) + half
    && r.All(w) < d
    && Shl(m + r.All(w), i) + Low(n, i) == n
  }

  lemma QuotientBound(n: nat, d: nat, i: nat, q: Udwords, r: Udwords, carry: nat, half: nat, m: nat, w: nat)
    requires Dividing(n, d, i, q, r, carry, half, m, w)
    ensures m + r.All(w) == Shr(n, i) < Pow2(w + w - i)
  {
    Split(n, i);
    SplitUnique(m + r.All(w), Low(n, i), i);
    ShlShl(1, w + w - i, i);
    ShrMonotone(n, Pow2(w + w - i), i);
  }

  /** The quotient register holds the remaining dividend bits above the quotient bits. */
  lemma TopBit(n: nat, i: nat, half: nat, carry: nat, W: nat)
    requires 0 < i <= W && carry < 2 && 2 * half + carry < Pow2(W - i)
    ensures 2 * (Shl(Low(n, i), W - i) + half) + carry ==
            Shl(Shr(n, i - 1) % 2, W) + (Shl(Low(n, i - 1), W - (i - 1)) + (2 * half + carry))
    ensures Shl(Low(n, i - 1), W - (i - 1)) + (2 * half + carry) < Pow2(W)
  {
    TopBitSplit(n, i - 1, W);
    LowPartFits(n, i - 1, W);
    assert Shl(Low(n, i), W - i + 1) == 2 * Shl(Low(n, i), W - i);
    assert Pow2(W - (i - 1)) == 2 * Pow2(W - i);
  }

  lemma TopBitSplit(n: nat, j: nat, W: nat)
    requires j < W
    ensures Shl(Low(n, j + 1), W - j) == Shl(Low(n, j), W - j) + Shl(Shr(n, j) % 2, W)
  {
    var b := Shr(n, j) % 2;
    LowTop(n, j);
    ShlAdd(Low(n, j), Shl(b, j), W - j);
    ShlShl(b, j, W - j);
  }

  /** Bringing down bit i - 1 of the dividend. */
  lemma BringDown(n: nat, d: nat, i: nat, q: Udwords, r: Udwords, carry: nat, half: nat, m: nat, w: nat)
    requires Dividing(n, d, i, q, r, carry, half, m, w) && i > 0
    ensures Shr(q.high, w - 1) == Shr(n, i - 1) % 2
    ensures ShiftPair(q, carry, w).Valid(w)
    ensures ShiftPair(q, carry, w).All(w) == Shl(Low(n, i - 1), w + w - (i - 1)) + (2 * half + carry)
  {
    var W, b := w + w, Shr(n, i - 1) % 2;
    var q' := ShiftPair(q, carry, w);
    var rest := Shl(Low(n, i - 1), W - (i - 1)) + (2 * half + carry);
    assert Shl(Shr(q.high, w - 1), W) + q'.All(w) == Shl(b, W) + rest && rest < Pow2(W) by {
      QuotientBound(n, d, i, q, r, carry, half, m, w);
      TopBit(n, i, half, carry, W);
      ShiftPairValue(q, carry, w);
    }
    ShiftPairValue(q, carry, w);
    PairBound(q', w);
    SplitUnique(b, rest, W);
    SplitUnique(Shr(q.high, w - 1), q'.All(w), W);
  }

  /** The invariant with bit i - 1 moved from the dividend to the remainder. */
  lemma MoveBit(n: nat, x: nat, i: nat)
    requires i > 0 && Shl(x, i) + Low(n, i) == n
    ensures Shl(2 * x + Shr(n, i - 1) % 2, i - 1) + Low(n, i - 1) == n
    ensures 2 * x + Shr(n, i - 1) % 2 <= n
  {
    var b := Shr(n, i - 1) % 2;
    LowTop(n, i - 1);
    ShlAdd(2 * x, b, i - 1);
    ShlAdd(x, x, i - 1);
    ShlGrows(2 * x + b, i - 1);
  }

  lemma {:induction false} ShlGrows(x: nat, k: nat)
    ensures x <= Shl(x, k)
    decreases k
  {
    if k > 0 {
      ShlGrows(x, k - 1);
    }
  }

  /** Nothing is lost when the remainder is shifted: twice the old remainder plus the new bit
      is at most the dividend. */
  lemma RemainderShift(n: nat, d: nat, i: nat, q: Udwords, r: Udwords, carry: nat, half: nat, m: nat, w: nat)
    requires Dividing(n, d, i, q, r, carry, half, m, w) && i > 0
    ensures var r' := ShiftPair(r, Shr(q.high, w - 1), w);
            && r'.Valid(w) && r'.All(w) == 2 * r.All(w) + Shr(n, i - 1) % 2
            && Shl(2 * m + r'.All(w), i - 1) + Low(n, i - 1) == n
            && r'.All(w) <= n
  {
    var b := Shr(n, i - 1) % 2;
    BringDown(n, d, i, q, r, carry, half, m, w);
    ShiftPairValue(r, b, w);
    MoveBit(n, m + r.All(w), i);
    NoTop(Shr(r.high, w - 1), w + w, 2 * r.All(w) + b);
  }

  lemma NoTop(top: nat, k: nat, x: nat)
    requires Shl(top, k) <= x < Pow2(k)
    ensures top == 0 && Shl(top, k) == 0
  {
    if top > 0 {
      ShlMonotone(0, top, k);
    }
    ShlZero(k);
  }

  // ----- the branch-free comparison -----

  /** `(di_int)(d.all - r.all - 1) >> (n_udword_bits - 1)` as a double word of W bits. */
  function CompareMask(d: nat, r: nat, W: nat): nat
    requires W > 0 && d < Pow2(W) && r < Pow2(W)
  {
    var x := if d >= r + 1 then d - r - 1 else Pow2(W) + d - r - 1;
    if x >= Pow2(W - 1) then Pow2(W) - 1 else 0
  }

  /** The sign bit decides `r >= d` as long as neither difference leaves the signed range. */
  lemma CompareMaskDecides(d: nat, r: nat, W: nat)
    requires W > 0 && d < Pow2(W) && r < Pow2(W)
    requires r < 2 * d && (d > Pow2(W - 1) ==> r >= Pow2(W - 1))
    ensures CompareMask(d, r, W) == if r >= d then Pow2(W) - 1 else 0
    ensures And(CompareMask(d, r, W), 1) == if r >= d then 1 else 0
    ensures And(d, CompareMask(d, r, W)) == if r >= d then d else 0
  {
    assert Pow2(W) == 2 * Pow2(W - 1);
    AndMask(d, W);
    LowSmall(d, W);
    if r >= d {
      AndMask(Pow2(W) - 1, 1);
      assert Pow2(1) == 2 && Low(Pow2(W) - 1, 1) == 2 * Low((Pow2(W) - 1) / 2, 0) + (Pow2(W) - 1) % 2;
    }
  }

  /** The condition under which the sign bit can be trusted. For divisors above half the range
      the loop runs once, and the shifted remainder is the dividend itself. */
  ghost predicate SignSafe(n: nat, d: nat, i: nat, m: nat, w: nat)
    requires w > 0
  {
    d < Pow2(w + w) && (d > Pow2(w + w - 1) ==> i <= 1 && n >= Pow2(w + w - 1) && (i == 1 ==> m == 0))
  }

  /** The comparison of one turn: the divisor is subtracted exactly when it fits. */
  lemma CompareStep(n: nat, d: nat, i: nat, q: Udwords, r: Udwords, carry: nat, half: nat, m: nat, w: nat)
    requires Dividing(n, d, i, q, r, carry, half, m, w) && i > 0 && SignSafe(n, d, i, m, w)
    ensures var r1 := ShiftPair(r, Shr(q.high, w - 1), w).All(w);
            && r1 < Pow2(w + w) && r1 < 2 * d
            && var s := CompareMask(d, r1, w + w);
               && And(s, 1) == (if r1 >= d then 1 else 0) && And(d, s) == if r1 >= d then d else 0
  {
    RemainderShift(n, d, i, q, r, carry, half, m, w);
    var r1 := ShiftPair(r, Shr(q.high, w - 1), w).All(w);
    assert d > Pow2(w + w - 1) ==> r1 == n by {
      OneLeft(n, d, i, r1, m, w);
    }
    CompareMaskDecides(d, r1, w + w);
  }

  /** For a divisor above half the range only the last bit is brought down. */
  lemma OneLeft(n: nat, d: nat, i: nat, r1: nat, m: nat, w: nat)
    requires w > 0 && i > 0 && SignSafe(n, d, i, m, w) && Shl(2 * m + r1, i - 1) + Low(n, i - 1) == n
    ensures d > Pow2(w + w - 1) ==> r1 == n
  {
  }

  /** The registers after subtracting t, which is the divisor or zero. */
  lemma SubtractStep(n: nat, d: nat, i: nat, q: Udwords, r: Udwords, carry: nat, half: nat, m: nat, w: nat,
                     t: nat, c: nat)
    requires Dividing(n, d, i, q, r, carry, half, m, w) && i > 0
    requires var r1 := ShiftPair(r, Shr(q.high, w - 1), w).All(w);
             && r1 < Pow2(w + w) && r1 < 2 * d && c == (if r1 >= d then 1 else 0) && t == if r1 >= d then d else 0
    ensures var r1 := ShiftPair(r, Shr(q.high, w - 1), w).All(w);
            && t <= r1
            && Dividing(n, d, i - 1, ShiftPair(q, carry, w), Halves(r1 - t, w), c, 2 * half + carry, 2 * m + t, w)
  {
    BringDown(n, d, i, q, r, carry, half, m, w);
    RemainderShift(n, d, i, q, r, carry, half, m, w);
    var r1 := ShiftPair(r, Shr(q.high, w - 1), w).All(w);
    HalvesJoin(r1 - t, w);
  }

  /** m is the quotient found so far times the divisor. */
  ghost predicate Found(m: nat, half: nat, carry: nat, d: nat) {
    m == (2 * half + carry) * d
  }

  lemma FoundStep(m: nat, half: nat, carry: nat, d: nat, c: nat, t: nat)
    requires Found(m, half, carry, d) && c < 2 && t == if c == 1 then d else 0
    ensures Found(2 * m + t, 2 * half + carry, c, d)
  {
    assert (2 * (2 * half + carry) + c) * d == 2 * ((2 * half + carry) * d) + c * d;
  }

  /** One turn of the loop. */
  method Turn(n: nat, d: nat, i: nat, q: Udwords, r: Udwords, carry: nat, w: nat, ghost half: nat, ghost m: nat)
    returns (q': Udwords, r': Udwords, carry': nat, ghost half': nat, ghost m': nat)
    requires Dividing(n, d, i, q, r, carry, half, m, w) && i > 0 && SignSafe(n, d, i, m, w) && Found(m, half, carry, d)
    ensures Dividing(n, d, i - 1, q', r', carry', half', m', w) && Found(m', half', carry', d)
  {
    CompareStep(n, d, i, q, r, carry, half, m, w);
    r' := ShiftPair(r, Shr(q.high, w - 1), w);
    q' := ShiftPair(q, carry, w);
    var s := CompareMask(d, r'.All(w), w + w);
    carry' := And(s, 1);
    ghost var t := And(d, s);
    SubtractStep(n, d, i, q, r, carry, half, m, w, t, carry');
    FoundStep(m, half, carry, d, carry', t);
    r' := Halves(r'.All(w) - And(d, s), w);
    half', m' := 2 * half + carry, 2 * m + t;
  }

  /** The result of a division. */
  ghost predicate Divided(n: nat, d: nat, quot: nat, rem: nat) {
    n == quot * d + rem && rem < d
  }

  method ShiftSubtract(n: nat, d: nat, sr0: nat, q0: Udwords, r0: Udwords, w: nat) returns (quot: nat, rem: nat)
    requires w > 0 && 1 <= sr0 && Start(n, sr0, q0, r0, w) && n < Pow2(w + w)
    requires SignSafe(n, d, sr0, 0, w) && r0.All(w) < d
    ensures Divided(n, d, quot, rem)
  {
    var q, r, sr: nat, carry: nat := q0, r0, sr0, 0;
    ghost var half: nat, m: nat := 0, 0;
    Split(n, sr0);
    while sr > 0
      invariant Dividing(n, d, sr, q, r, carry, half, m, w) && Found(m, half, carry, d)
      invariant sr > 0 ==> SignSafe(n, d, sr, m, w)
    {
      LastTurn(n, d, sr, m, w);
      q, r, carry, half, m := Turn(n, d, sr, q, r, carry, w, half, m);
      sr := sr - 1;
    }
    FinalQuotient(n, d, q, r, carry, half, m, w);
    quot := Or(Low(Shl(q.All(w), 1), w + w), carry);
    rem := r.All(w);
  }

  /** For a divisor above half the range the turn is the last one; below, nothing can go wrong. */
  lemma LastTurn(n: nat, d: nat, i: nat, m: nat, w: nat)
    requires w > 0 && i > 0 && SignSafe(n, d, i, m, w)
    ensures i > 1 ==> d <= Pow2(w + w - 1) && d < Pow2(w + w)
  {
  }

  lemma FinalQuotient(n: nat, d: nat, q: Udwords, r: Udwords, carry: nat, half: nat, m: nat, w: nat)
    requires Dividing(n, d, 0, q, r, carry, half, m, w)
    ensures Or(Low(Shl(q.All(w), 1), w + w), carry) == 2 * half + carry && n == m + r.All(w)
  {
    ShlZero(w + w);
    assert q.All(w) == half;
    assert Shl(half, 1) == 2 * Shl(half, 0) == 2 * half && Pow2(1) == 2;
    LowSmall(2 * half, w + w);
    OrDisjoint(half, carry, 1);
  }

  // ----- bit counts -----

  /** Number of bits up to the highest set one. */
  function BitLength(x: nat): nat {
    if x == 0 then 0 else 1 + BitLength(x / 2)
  }

  /** __builtin_clz for a non-zero word of w bits. */
  function Clz(x: nat, w: nat): nat
    requires BitLength(x) <= w
  {
    w - BitLength(x)
  }

  /** __builtin_ctz for a non-zero word. */
  function Ctz(x: nat): nat
    requires x > 0
  {
    if x % 2 == 1 then 0 else 1 + Ctz(x / 2)
  }

  lemma {:induction false} BitLengthBounds(x: nat)
    ensures x < Pow2(BitLength(x))
    ensures x > 0 ==> BitLength(x) > 0 && Pow2(BitLength(x) - 1) <= x
  {
    if x > 0 {
      BitLengthBounds(x / 2);
    }
  }

  lemma {:induction false} BitLengthFits(x: nat, w: nat)
    requires x < Pow2(w)
    ensures BitLength(x) <= w
    decreases w
  {
    if x > 0 {
      BitLengthFits(x / 2, w - 1);
    }
  }

  /** With so many leading zeros the next bit is set. */
  lemma ClzIs(x: nat, w: nat)
    requires 0 < x < Pow2(w)
    ensures BitLength(x) <= w && Clz(x, w) < w && Pow2(w - 1 - Clz(x, w)) <= x < Pow2(w - Clz(x, w))
  {
    BitLengthBounds(x);
    BitLengthFits(x, w);
  }

  /** With so many trailing zeros the next bit is set. */
  lemma {:induction false} CtzIs(x: nat)
    requires x > 0
    ensures Shr(x, Ctz(x)) % 2 == 1 && Shl(Shr(x, Ctz(x)), Ctz(x)) == x
  {
    if x % 2 == 0 {
      CtzIs(x / 2);
      ShlMul(Shr(x / 2, Ctz(x / 2)), Ctz(x / 2));
      ShlMul(Shr(x, Ctz(x)), Ctz(x));
    }
  }

  lemma {:induction false} CtzOfPower(k: nat)
    ensures Pow2(k) > 0 && Ctz(Pow2(k)) == k
  {
    if k > 0 {
      CtzOfPower(k - 1);
    }
  }

  lemma {:induction false} Pow2Large(w: nat)
    requires w >= 3
    ensures Pow2(w) >= 2 * w + 2
  {
    if w == 3 {
      assert Pow2(2) == 4;
    } else {
      Pow2Large(w - 1);
    }
  }

  /** Difference of two bit counts as an unsigned word. */
  function WrapSub(a: nat, b: nat, w: nat): nat
    requires b <= a + Pow2(w)
  {
    if a >= b then a - b else Pow2(w) + a - b
  }

  /** Shifting the dividend right until it has one bit less than the divisor leaves it smaller. */
  lemma ShiftedBelow(n: nat, d: nat, sr: nat)
    requires d > 0 && BitLength(n) <= BitLength(d) - 1 + sr
    ensures Shr(n, sr) < d
  {
    BitLengthBounds(n);
    BitLengthBounds(d);
    Pow2Monotone(BitLength(n), BitLength(d) - 1 + sr);
    ShlShl(1, BitLength(d) - 1, sr);
    ShrMonotone(n, Pow2(BitLength(d) - 1), sr);
  }

  lemma {:induction false} BitLengthShl(h: nat, l: nat, k: nat)
    requires h > 0 && l < Pow2(k)
    ensures BitLength(Shl(h, k) + l) == BitLength(h) + k
    decreases k
  {
    if k > 0 {
      BitLengthShl(h, l / 2, k - 1);
      assert (Shl(h, k) + l) / 2 == Shl(h, k - 1) + l / 2;
      ShlGrows(h, k);
    }
  }

  lemma SmallerLength(n: nat, d: nat)
    requires BitLength(n) < BitLength(d)
    ensures n < d
  {
    BitLengthBounds(n);
    BitLengthBounds(d);
    Pow2Monotone(BitLength(n), BitLength(d) - 1);
  }

  // ----- the special cases -----

  lemma PowerDivide(n: nat, k: nat)
    ensures n == Shr(n, k) * Pow2(k) + Low(n, k) && Low(n, k) < Pow2(k)
  {
    Split(n, k);
    ShlMul(Shr(n, k), k);
  }

  /** K 0 / K 0: divide the high halves. */
  lemma DivideHighs(nh: nat, dh: nat, w: nat)
    requires dh > 0
    ensures Shl(nh, w) == (nh / dh) * Shl(dh, w) + Shl(nh % dh, w) && Shl(nh % dh, w) < Shl(dh, w)
  {
    Pow2Positive(w);
    ShlMonotone(nh % dh, dh, w);
    ShlMul(nh, w);
    ShlMul(dh, w);
    ShlMul(nh % dh, w);
    Distribute(nh, dh, nh / dh, nh % dh, Pow2(w));
  }

  lemma Distribute(n: nat, d: nat, q: nat, r: nat, p: nat)
    requires n == d * q + r
    ensures n * p == q * (d * p) + r * p
  {
    assert (d * q) * p == q * (d * p);
  }

  /** K K / K 0 with a power of two: the high half is shifted, its low bits stay in the remainder. */
  lemma DividePowerHigh(n: Udwords, k: nat, w: nat)
    requires n.Valid(w)
    ensures n.All(w) == Shr(n.high, k) * Shl(Pow2(k), w) + (Shl(Low(n.high, k), w) + n.low)
    ensures Shl(Low(n.high, k), w) + n.low < Shl(Pow2(k), w)
  {
    var q, l := Shr(n.high, k), Low(n.high, k);
    Split(n.high, k);
    ShlAdd(Shl(q, k), l, w);
    ShlShl(q, k, w);
    ShlShl(1, k, w);
    ShlMul(q, k + w);
    ShlMonotone(l, Pow2(k), w);
  }

  /** K X / 0 K with a power of two. */
  lemma DividePowerLow(n: Udwords, k: nat, w: nat)
    requires n.Valid(w) && 1 <= k < w
    ensures n.All(w) ==
            Udwords(Shr(n.high, k), Or(ShlWord(n.high, w - k, w), Shr(n.low, k))).All(w) * Pow2(k) + Low(n.low, k)
    ensures Low(n.low, k) < Pow2(k)
  {
    var q := Udwords(Shr(n.high, k), Or(ShlWord(n.high, w - k, w), Shr(n.low, k)));
    assert q.All(w) == Shr(n.All(w), k) by {
      JoinBits(n.high, n.low, k, w);
      PairShr(n.high, n.low, k, w);
    }
    assert Low(n.All(w), k) == Low(n.low, k) by {
      ShlShl(n.high, w - k, k);
      LowAdd(n.low, Shl(n.high, w - k), k);
    }
    PowerDivide(n.All(w), k);
  }

  lemma LengthOfPair(u: Udwords, w: nat)
    requires u.Valid(w) && u.high > 0
    ensures 0 < BitLength(u.high) <= w && BitLength(u.All(w)) == BitLength(u.high) + w && u.All(w) > 0
  {
    BitLengthFits(u.high, w);
    BitLengthBounds(u.high);
    BitLengthShl(u.high, u.low, w);
    BitLengthBounds(u.All(w));
  }

  /** A divisor above half the range has full length, and so has every dividend that is not shorter. */
  lemma FullLength(n: nat, d: nat, W: nat)
    requires W > 0 && d > Pow2(W - 1) && BitLength(d) <= W && BitLength(n) >= BitLength(d)
    ensures BitLength(d) == W && n >= Pow2(W - 1)
  {
    BitLengthBounds(n);
    BitLengthBounds(d);
    if BitLength(d) < W {
      Pow2Monotone(BitLength(d), W - 1);
    }
    Pow2Monotone(W - 1, BitLength(n) - 1);
  }

  /** The shift count when the divisor has a high half. */
  lemma HighCount(n: Udwords, d: Udwords, w: nat)
    requires n.Valid(w) && d.Valid(w) && n.high > 0 && d.high > 0 && w > 0
    ensures BitLength(n.high) <= w && 0 < BitLength(d.high) <= w
    ensures BitLength(n.high) < BitLength(d.high) ==> n.All(w) < d.All(w)
    ensures BitLength(n.high) >= BitLength(d.high) ==>
              var sr := BitLength(n.high) - BitLength(d.high) + 1;
              Shr(n.All(w), sr) < d.All(w) && SignSafe(n.All(w), d.All(w), sr, 0, w)
  {
    LengthOfPair(n, w);
    LengthOfPair(d, w);
    PairBound(d, w);
    var x, y := n.All(w), d.All(w);
    if BitLength(n.high) < BitLength(d.high) {
      SmallerLength(x, y);
    } else {
      ShiftedBelow(x, y, BitLength(n.high) - BitLength(d.high) + 1);
      if y > Pow2(w + w - 1) {
        FullLength(x, y, w + w);
      }
    }
  }

  /** The shift count when the divisor fits one word and is not a power of two. */
  lemma LowCount(n: Udwords, d: Udwords, w: nat)
    requires n.Valid(w) && d.Valid(w) && n.high > 0 && d.high == 0 && d.low > 0 && And(d.low, d.low - 1) != 0 && w > 0
    ensures BitLength(n.high) <= w && 2 <= BitLength(d.low) <= w && BitLength(n.high) > 0
    ensures d.All(w) == d.low
    ensures var sr := 1 + w + BitLength(n.high) - BitLength(d.low);
            Shr(n.All(w), sr) < d.All(w) && SignSafe(n.All(w), d.All(w), sr, 0, w)
  {
    BitLengthFits(n.high, w);
    BitLengthFits(d.low, w);
    BitLengthBounds(d.low);
    OneBit(d.low);
    ShlZero(w);
    BitLengthShl(n.high, n.low, w);
    ShiftedBelow(n.All(w), d.low, 1 + w + BitLength(n.high) - BitLength(d.low));
    Pow2Monotone(w, w + w - 1);
    Pow2Monotone(w, w + w);
  }

  // ----- __udivmoddi4 -----

  /** The shift count for a divisor with a high half: the number of bits by which the dividend is longer,
      plus one, or a large number if it is shorter. */
  lemma HighShift(n: Udwords, d: Udwords, w: nat)
    requires w >= 3 && n.Valid(w) && d.Valid(w) && n.high > 0 && d.high > 0
    ensures BitLength(n.high) <= w && BitLength(d.high) <= w < Pow2(w)
    ensures var sr := WrapSub(Clz(d.high, w), Clz(n.high, w), w);
      && (sr > w - 1 ==> n.All(w) < d.All(w))
      && (sr == w - 1 ==> BitLength(d.high) == 1)
      && (sr <= w - 1 ==> Shr(n.All(w), sr + 1) < d.All(w) && SignSafe(n.All(w), d.All(w), sr + 1, 0, w))
  {
    Pow2Large(w);
    HighCount(n, d, w);
    CountDifference(BitLength(n.high), BitLength(d.high), w);
  }

  /** The difference of two leading-zero counts: the difference of the lengths, or large. */
  lemma CountDifference(n: nat, d: nat, w: nat)
    requires n <= w && 0 < d <= w && 2 * w < Pow2(w)
    ensures n >= d ==> WrapSub(w - d, w - n, w) == n - d
    ensures n < d ==> WrapSub(w - d, w - n, w) > w
  {
  }

  /** Sets up the registers for a shift count of at most one word and runs the loop. */
  method DivideWithin(n: Udwords, d: Udwords, sr: nat, w: nat) returns (quot: nat, rem: nat)
    requires w > 0 && n.Valid(w) && d.Valid(w) && 1 <= sr <= w
    requires Shr(n.All(w), sr) < d.All(w) && SignSafe(n.All(w), d.All(w), sr, 0, w)
    ensures Divided(n.All(w), d.All(w), quot, rem)
  {
    PairBound(n, w);
    var q, r;
    if sr == w {
      StartAtWord(n, w);
      q, r := Udwords(n.low, 0), Udwords(0, n.high);
    } else {
      StartBelow(n, sr, w);
      q := Udwords(ShlWord(n.low, w - sr, w), 0);
      r := Udwords(Shr(n.high, sr), Or(ShlWord(n.high, w - sr, w), Shr(n.low, sr)));
    }
    quot, rem := ShiftSubtract(n.All(w), d.All(w), sr, q, r, w);
  }

  /** The same for a shift count of more than one word. */
  method DivideBeyond(n: Udwords, d: Udwords, sr: nat, w: nat) returns (quot: nat, rem: nat)
    requires w > 0 && n.Valid(w) && d.Valid(w) && w < sr < w + w
    requires Shr(n.All(w), sr) < d.All(w) && SignSafe(n.All(w), d.All(w), sr, 0, w)
    ensures Divided(n.All(w), d.All(w), quot, rem)
  {
    PairBound(n, w);
    StartAbove(n, sr, w);
    var q := Udwords(Or(ShlWord(n.high, w + w - sr, w), Shr(n.low, sr - w)), ShlWord(n.low, w + w - sr, w));
    var r := Udwords(0, Shr(n.high, sr - w));
    quot, rem := ShiftSubtract(n.All(w), d.All(w), sr, q, r, w);
  }

  /** Dividend and divisor with zero low halves. */
  method DivideHighWords(n: Udwords, d: Udwords, w: nat) returns (quot: nat, rem: nat)
    requires n.low == 0 && d.low == 0 && d.high > 0
    ensures Divided(n.All(w), d.All(w), quot, rem)
  {
    DivideHighs(n.high, d.high, w);
    quot, rem := n.high / d.high, Udwords(n.high % d.high, 0).All(w);
  }

  /** With a divisor that is no power of two the dividend can be longer by at most w - 2 bits. */
  lemma HighShiftMany(n: Udwords, d: Udwords, w: nat)
    requires w >= 3 && n.Valid(w) && d.Valid(w) && n.high > 0 && d.high > 0 && And(d.high, d.high - 1) != 0
    ensures BitLength(n.high) <= w && BitLength(d.high) <= w < Pow2(w)
    ensures var sr := WrapSub(Clz(d.high, w), Clz(n.high, w), w);
      if sr > w - 2 then n.All(w) < d.All(w)
      else Shr(n.All(w), sr + 1) < d.All(w) && SignSafe(n.All(w), d.All(w), sr + 1, 0, w)
  {
    HighShift(n, d, w);
    OneBit(d.high);
  }

  /** Divisor whose high half is a power of two and whose low half is zero. */
  method DivideByHighPower(n: Udwords, d: Udwords, w: nat) returns (quot: nat, rem: nat)
    requires n.Valid(w) && d.low == 0 && d.high > 0 && And(d.high, d.high - 1) == 0
    ensures Divided(n.All(w), d.All(w), quot, rem)
  {
    ghost var k := PowerOfTwoTest(d.high);
    CtzOfPower(k);
    AndMask(n.high, k);
    DividePowerHigh(n, k, w);
    quot := Shr(n.high, Ctz(d.high));
    rem := Udwords(And(n.high, d.high - 1), n.low).All(w);
  }

  lemma ShorterDividend(n: nat, d: nat)
    requires n < d
    ensures Divided(n, d, 0, n)
  {
  }

  /** Dividend with a non-zero high half, divisor with a zero low half. */
  method DivideByHigh(n: Udwords, d: Udwords, w: nat) returns (quot: nat, rem: nat)
    requires w >= 3 && n.Valid(w) && d.Valid(w) && n.high > 0 && d.low == 0 && d.high > 0
    ensures Divided(n.All(w), d.All(w), quot, rem)
  {
    if n.low == 0 {
      quot, rem := DivideHighWords(n, d, w);
      return;
    }
    if And(d.high, d.high - 1) == 0 {
      quot, rem := DivideByHighPower(n, d, w);
      return;
    }
    HighShiftMany(n, d, w);
    var sr := WrapSub(Clz(d.high, w), Clz(n.high, w), w);
    if sr > w - 2 {
      ShorterDividend(n.All(w), d.All(w));
      return 0, n.All(w);
    }
    quot, rem := DivideWithin(n, d, sr + 1, w);
  }

  /** A word of length one is 1, which is a power of two. */
  lemma OneBit(x: nat)
    requires x > 0
    ensures BitLength(x) == 1 ==> And(x, x - 1) == 0
  {
    BitLengthBounds(x);
    assert Pow2(1) == 2;
  }

  /** Divisor of one word that is a power of two. */
  method DivideByLowPower(n: Udwords, d: nat, w: nat) returns (quot: nat, rem: nat)
    requires n.Valid(w) && 0 < d < Pow2(w) && And(d, d - 1) == 0
    ensures Divided(n.All(w), d, quot, rem)
  {
    ghost var k := PowerOfTwoTest(d);
    CtzOfPower(k);
    AndMask(n.low, k);
    rem := And(n.low, d - 1);
    if d == 1 {
      return n.All(w), rem;
    }
    var sr := Ctz(d);
    PowerBelow(sr, w);
    DividePowerLow(n, sr, w);
    quot := Udwords(Shr(n.high, sr), Or(ShlWord(n.high, w - sr, w), Shr(n.low, sr))).All(w);
  }

  /** Dividend with a non-zero high half, divisor of one non-zero word. */
  method DivideByLow(n: Udwords, d: Udwords, w: nat) returns (quot: nat, rem: nat)
    requires w >= 3 && n.Valid(w) && d.Valid(w) && n.high > 0 && d.high == 0 && d.low > 0
    ensures Divided(n.All(w), d.All(w), quot, rem)
  {
    ShlZero(w);
    if And(d.low, d.low - 1) == 0 {
      quot, rem := DivideByLowPower(n, d.low, w);
      return;
    }
    LowCount(n, d, w);
    var sr := 1 + w + Clz(d.low, w) - Clz(n.high, w);
    if sr <= w {
      quot, rem := DivideWithin(n, d, sr, w);
    } else {
      quot, rem := DivideBeyond(n, d, sr, w);
    }
  }

  lemma PowerBelow(k: nat, w: nat)
    requires Pow2(k) < Pow2(w)
    ensures k < w
  {
    if k >= w {
      Pow2Monotone(w, k);
    }
  }

  /** Dividend with a non-zero high half, divisor with both halves non-zero. */
  method DivideByBoth(n: Udwords, d: Udwords, w: nat) returns (quot: nat, rem: nat)
    requires w >= 3 && n.Valid(w) && d.Valid(w) && n.high > 0 && d.high > 0 && d.low > 0
    ensures Divided(n.All(w), d.All(w), quot, rem)
  {
    HighShift(n, d, w);
    var sr := WrapSub(Clz(d.high, w), Clz(n.high, w), w);
    if sr > w - 1 {
      ShorterDividend(n.All(w), d.All(w));
      return 0, n.All(w);
    }
    quot, rem := DivideWithin(n, d, sr + 1, w);
  }

  lemma WordQuotient(n: nat, d: nat)
    requires d > 0
    ensures Divided(n, d, n / d, n % d)
  {
  }

  /** Dividend of one word. */
  method DivideWord(n: nat, d: Udwords, w: nat) returns (quot: nat, rem: nat)
    requires n < Pow2(w) && d.Valid(w) && d.All(w) != 0
    ensures Divided(n, d.All(w), quot, rem)
  {
    ShlZero(w);
    if d.high == 0 {
      WordQuotient(n, d.low);
      quot, rem := n / d.low, n % d.low;
    } else {
      ShlMonotone(0, d.high, w);
      ShorterDividend(n, d.All(w));
      quot, rem := 0, n;
    }
  }

  /** __udivmoddi4 for words of w bits: every dividend, every non-zero divisor. */
  method Udivmod(a: nat, b: nat, w: nat) returns (quot: nat, rem: nat)
    requires w >= 3 && a < Pow2(w + w) && b < Pow2(w + w) && b != 0
    ensures a == quot * b + rem && rem < b
  {
    var n, d := Halves(a, w), Halves(b, w);
    HalvesJoin(a, w);
    HalvesJoin(b, w);
    ShlZero(w);
    if n.high == 0 {
      quot, rem := DivideWord(n.low, d, w);
    } else if d.low == 0 {
      quot, rem := DivideByHigh(n, d, w);
    } else if d.high == 0 {
      quot, rem := DivideByLow(n, d, w);
    } else {
      quot, rem := DivideByBoth(n, d, w);
    }
  }
}
