/**
  Arithmetic of 32-bit words and their bytes: how shifts of a word are put together from
  table look-ups for its four bytes.
  */
module ByteShifts {
  import opened Bits
  import opened Words

  type Byte = x: nat | x < 256

  /** The four bytes of a word, lowest first. */
  datatype Quad = Quad(b0: Byte, b1: Byte, b2: Byte, b3: Byte)

  function Split32(x: Word): Quad {
    Quad(x % 256, x / 0x100 % 256, x / 0x1_0000 % 256, x / 0x100_0000)
  }

  function Join32(q: Quad): Word {
    q.b0 + 0x100 * q.b1 + 0x1_0000 * q.b2 + 0x100_0000 * q.b3
  }

  lemma JoinSplit(x: Word)
    ensures Join32(Split32(x)) == x
  {
    var h := x / 0x100;
    var g := h / 0x100;
    assert x / 0x1_0000 == g;
    assert x / 0x100_0000 == g / 0x100;
  }

  lemma SplitJoin(q: Quad)
    ensures Split32(Join32(q)) == q
  {
    var x := Join32(q);
    assert x == q.b0 + 0x100 * (q.b1 + 0x100 * q.b2 + 0x1_0000 * q.b3);
    assert x / 0x100 == q.b1 + 0x100 * (q.b2 + 0x100 * q.b3);
    assert x / 0x1_0000 == q.b2 + 0x100 * q.b3;
  }

  // ----- the shifts the expansions implement -----

  function Sll(x: Word, s: nat): Word {
    Wrap(Shl(x, s))
  }

  function Srl(x: Word, s: nat): (r: Word)
    ensures r <= x
    decreases s
  {
    ShrBelow(x, s);
    Shr(x, s)
  }

  function Signed(x: Word): int {
    if x < W / 2 then x else x - W
  }

  /** The shifts multiply and divide by 2^s. */
  lemma ShiftsScale(x: Word, s: nat)
    ensures Sll(x, s) == x * Pow2(s) % W
    ensures Pow2(s) > 0 && Srl(x, s) == x / Pow2(s)
  {
    ShlMul(x, s);
    Split(x, s);
    ShlMul(Shr(x, s), s);
    QuotientIs(Pow2(s), Shr(x, s), Low(x, s));
  }

  /** Arithmetic right shift: ones come in from the left when the sign bit is set. */
  function Sra(x: Word, s: nat): Word {
    if x < W / 2 then Srl(x, s) else W - 1 - Srl(W - 1 - x, s)
  }

  /** It is division by 2^s rounding down. */
  lemma SraFloors(x: Word, s: nat)
    ensures Signed(Sra(x, s)) * Pow2(s) <= Signed(x) < (Signed(Sra(x, s)) + 1) * Pow2(s)
  {
    if x < W / 2 {
      SrlFloors(x, s);
    } else {
      var y := W - 1 - x;
      SrlFloors(y, s);
      var r: int := Shr(y, s);
      assert Signed(Sra(x, s)) == -1 - r;
      assert (-1 - r) * Pow2(s) == -((r + 1) * Pow2(s));
    }
  }

  lemma SrlFloors(y: nat, s: nat)
    ensures Shr(y, s) * Pow2(s) <= y < (Shr(y, s) + 1) * Pow2(s)
  {
    Split(y, s);
    ShlMul(Shr(y, s), s);
  }

  // ----- left shift -----

  lemma WrapPlus(a: nat, k: nat)
    ensures Wrap(a + k * W) == Wrap(a)
  {
  }

  lemma WrapTimes(a: nat, c: nat)
    ensures Wrap(Wrap(a) * c) == Wrap(a * c)
  {
    var q := a / W;
    assert a * c == Wrap(a) * c + (q * c) * W by {
      assert a == Wrap(a) + q * W;
    }
    WrapPlus(Wrap(a) * c, q * c);
  }

  lemma WrapAdd(a: nat, b: nat)
    ensures Wrap(Wrap(a) + Wrap(b)) == Wrap(a + b) == Wrap(Wrap(a) + b)
  {
  }

  lemma ByteAtTop(y: nat)
    ensures y % 256 * 0x100_0000 == Wrap(y * 0x100_0000)
  {
    WrapPlus(y % 256 * 0x100_0000, y / 256);
  }

  lemma HalfAtTop(y: nat)
    ensures y % 0x1_0000 * 0x1_0000 == Wrap(y * 0x1_0000)
  {
    WrapPlus(y % 0x1_0000 * 0x1_0000, y / 0x1_0000);
  }

  lemma ShlTimes(x: nat, c: nat, s: nat)
    ensures Shl(x, s) * c == Shl(x * c, s)
  {
    ShlMul(x, s);
    ShlMul(x * c, s);
    assert x * Pow2(s) * c == x * c * Pow2(s);
  }

  lemma ShlBytes(q: Quad, s: nat)
    ensures Shl(Join32(q), s) ==
            Shl(q.b0, s) + Shl(q.b1, s) * 0x100 + Shl(q.b2, s) * 0x1_0000 + Shl(q.b3, s) * 0x100_0000
  {
    ShlTimes(q.b1, 0x100, s);
    ShlTimes(q.b2, 0x1_0000, s);
    ShlTimes(q.b3, 0x100_0000, s);
    ShlAdd(q.b0, q.b1 * 0x100, s);
    ShlAdd(q.b0 + q.b1 * 0x100, q.b2 * 0x1_0000, s);
    ShlAdd(q.b0 + q.b1 * 0x100 + q.b2 * 0x1_0000, q.b3 * 0x100_0000, s);
  }

  /** The sum of the four table entries, each moved to its place, wraps to the shifted word. */
  lemma SllFromBytes(q: Quad, s: nat, t3: nat, t2: nat, t1: nat, t0: nat)
    requires t3 == Sll(q.b3, s) % 256 * 0x100_0000
    requires t2 == Sll(q.b2, s) % 0x1_0000 * 0x1_0000
    requires t1 == Wrap(Sll(q.b1, s) * 0x100) && t0 == Sll(q.b0, s)
    ensures Wrap(t3 + t2 + t1 + t0) == Sll(Join32(q), s)
  {
    ByteAtTop(Sll(q.b3, s));
    HalfAtTop(Sll(q.b2, s));
    WrapTimes(Shl(q.b3, s), 0x100_0000);
    WrapTimes(Shl(q.b2, s), 0x1_0000);
    WrapTimes(Shl(q.b1, s), 0x100);
    ShlBytes(q, s);
    var a3, a2, a1, a0 := Shl(q.b3, s) * 0x100_0000, Shl(q.b2, s) * 0x1_0000, Shl(q.b1, s) * 0x100, Shl(q.b0, s);
    WrapFour(a3, a2, a1, a0);
  }

  lemma WrapFour(a: nat, b: nat, c: nat, d: nat)
    ensures Wrap(Wrap(a) + Wrap(b) + Wrap(c) + Wrap(d)) == Wrap(a + b + c + d)
  {
    WrapAdd(a, b);
    WrapAdd(Wrap(a) + Wrap(b), Wrap(c));
    WrapAdd(a + b, c);
    WrapAdd(Wrap(a) + Wrap(b) + Wrap(c), Wrap(d));
    WrapAdd(a + b + c, d);
  }

  // ----- right shift -----

  /** Shifting right distributes over parts that share no bit. */
  lemma ShrSum(h: nat, l: nat, m: nat, s: nat)
    requires l < Pow2(m)
    ensures Shr(Shl(h, m) + l, s) == Shr(Shl(h, m), s) + Shr(l, s)
  {
    if s >= m {
      SplitUnique(h, l, m);
      Pow2Positive(m);
      SplitUnique(h, 0, m);
      LowSmall(l, m);
      ShrShr(Shl(h, m) + l, m, s - m);
      ShrShr(Shl(h, m), m, s - m);
      ShrShr(l, m, s - m);
      ZeroBit(s - m);
    } else {
      var a := Shl(h, m - s);
      ShlShl(h, m - s, s);
      Split(l, s);
      ShlAdd(a, Shr(l, s), s);
      SplitUnique(a + Shr(l, s), Low(l, s), s);
      Pow2Positive(s);
      SplitUnique(a, 0, s);
    }
  }

  lemma ShrShl(x: nat, k: nat, s: nat)
    ensures Shr(Shl(x, k), k + s) == Shr(x, s)
  {
    Pow2Positive(k);
    SplitUnique(x, 0, k);
    ShrShr(Shl(x, k), k, s);
  }

  lemma ShlByte(x: nat)
    ensures Shl(x, 8) == 0x100 * x && Shl(x, 16) == 0x1_0000 * x && Shl(x, 24) == 0x100_0000 * x
  {
    Powers();
    ShlMul(x, 8);
    ShlMul(x, 16);
    ShlMul(x, 24);
  }

  lemma SllPlaces(x: Word)
    ensures Sll(x, 8) == Wrap(x * 0x100) && Sll(x, 16) == Wrap(x * 0x1_0000) && Sll(x, 24) == Wrap(x * 0x100_0000)
  {
    ShlByte(x);
  }

  lemma ShrByte(x: nat)
    ensures Shr(x, 8) == x / 0x100 && Shr(x, 16) == x / 0x1_0000 && Shr(x, 24) == x / 0x100_0000
  {
    var y := x / 0x100;
    assert Shr(x, 8) == y by {
      ShrEight(x);
    }
    ShrEight(y);
    ShrEight(y / 0x100);
    ShrShr(x, 8, 8);
    ShrShr(x, 16, 8);
  }

  lemma ShrEight(x: nat)
    ensures Shr(x, 8) == x / 0x100
  {
    ShrShr(x, 4, 4);
    assert Shr(x, 4) == x / 16;
    assert Shr(x / 16, 4) == x / 16 / 16;
  }

  /** A power of 256 as a place value. */
  predicate Place(c: nat) {
    c == 0x100 || c == 0x1_0000 || c == 0x100_0000
  }

  lemma PlacePower(c: nat) returns (m: nat)
    requires Place(c)
    ensures c == Pow2(m)
  {
    Powers();
    m := if c == 0x100 then 8 else if c == 0x1_0000 then 16 else 24;
  }

  lemma ShrDisjoint(h: nat, l: nat, c: nat, s: nat)
    requires Place(c) && l < c
    ensures Shr(c * h + l, s) == Shr(c * h, s) + Shr(l, s)
  {
    var m := PlacePower(c);
    ShlMul(h, m);
    ShrSum(h, l, m, s);
  }

  function LowThree(q: Quad): nat {
    q.b0 + 0x100 * q.b1 + 0x1_0000 * q.b2
  }

  lemma PartsSum(q: Quad, s: nat)
    ensures Shr(LowThree(q), s) == Shr(q.b0, s) + Shr(0x100 * q.b1, s) + Shr(0x1_0000 * q.b2, s)
    ensures Shr(Join32(q), s) == Shr(LowThree(q), s) + Shr(0x100_0000 * q.b3, s)
  {
    ShrDisjoint(q.b1, q.b0, 0x100, s);
    ShrDisjoint(q.b2, q.b0 + 0x100 * q.b1, 0x1_0000, s);
    ShrDisjoint(q.b3, LowThree(q), 0x100_0000, s);
  }

  /** An entry of the right-shift table: the byte at the top of a word, shifted. */
  function SrlEntry(b: Byte, s: nat): Word {
    Srl(0x100_0000 * b, s)
  }

  /** Dividing by a place value undoes multiplying by it, before or after the shift. */
  lemma ShrPlace(x: nat, c: nat, s: nat)
    requires Place(c)
    ensures Shr(c * x, s) / c == Shr(x, s)
  {
    var m := PlacePower(c);
    ShlMul(x, m);
    ShrShl(x, m, s);
    ShrShr(Shl(x, m), s, m);
    ShrIsDivision(Shr(c * x, s), m);
  }

  lemma {:induction false} ShrIsDivision(x: nat, m: nat)
    ensures Pow2(m) > 0 && Shr(x, m) == x / Pow2(m)
  {
    Split(x, m);
    ShlMul(Shr(x, m), m);
    Pow2Positive(m);
    QuotientIs(Pow2(m), Shr(x, m), Low(x, m));
  }

  lemma LowIsRemainder(x: nat, m: nat)
    ensures Pow2(m) > 0 && Low(x, m) == x % Pow2(m)
  {
    Split(x, m);
    ShlMul(Shr(x, m), m);
    Pow2Positive(m);
    QuotientIs(Pow2(m), Shr(x, m), Low(x, m));
  }

  /** The three lower bytes of the result, as sums of table bytes. */
  function LowByte0(q: Quad, s: nat): nat {
    Split32(SrlEntry(q.b2, s)).b1 + Split32(SrlEntry(q.b1, s)).b2 + Split32(SrlEntry(q.b0, s)).b3
  }

  function LowByte1(q: Quad, s: nat): nat {
    Split32(SrlEntry(q.b2, s)).b2 + Split32(SrlEntry(q.b1, s)).b3
  }

  function LowByte2(q: Quad, s: nat): nat {
    Split32(SrlEntry(q.b2, s)).b3
  }

  lemma ShrDivide(x: nat, c: nat, s: nat, m: nat)
    requires c == Pow2(m) > 0
    ensures Shr(x, s) / c == Shr(x, s + m)
  {
    ShrShr(x, s, m);
    ShrIsDivision(Shr(x, s), m);
  }

  /** The quotients of the parts add up to the quotient of the sum: nothing is carried. */
  lemma PartsDivide(q: Quad, s: nat, c: nat)
    requires Place(c)
    ensures Shr(LowThree(q), s) / c == Shr(q.b0, s) / c + Shr(0x100 * q.b1, s) / c + Shr(0x1_0000 * q.b2, s) / c
  {
    var m := PlacePower(c);
    PartsSum(q, s + m);
    ShrDivide(LowThree(q), c, s, m);
    ShrDivide(q.b0, c, s, m);
    ShrDivide(0x100 * q.b1, c, s, m);
    ShrDivide(0x1_0000 * q.b2, c, s, m);
  }

  /** No sum carries, and the three bytes make up the shift of the three lower bytes. */
  lemma NoCarry(q: Quad, s: nat)
    ensures LowByte0(q, s) < 256 && LowByte1(q, s) < 256 && LowByte2(q, s) < 256
    ensures LowByte0(q, s) + 0x100 * LowByte1(q, s) + 0x1_0000 * LowByte2(q, s) == Shr(LowThree(q), s)
  {
    var y0, y1, y2 := SrlEntry(q.b0, s), SrlEntry(q.b1, s), SrlEntry(q.b2, s);
    var u0, u1, u2 := Shr(q.b0, s), Shr(0x100 * q.b1, s), Shr(0x1_0000 * q.b2, s);
    assert u0 == y0 / 0x100_0000 by {
      ShrPlace(q.b0, 0x100_0000, s);
    }
    assert u1 == y1 / 0x1_0000 by {
      ShrPlace(0x100 * q.b1, 0x1_0000, s);
    }
    assert u2 == y2 / 0x100 by {
      ShrPlace(0x1_0000 * q.b2, 0x100, s);
    }
    PartsSum(q, s);
    PartsDivide(q, s, 0x100);
    PartsDivide(q, s, 0x1_0000);
    SumOfBytes(u0, u1, u2, Shr(LowThree(q), s));
    BytesOf(y0);
    BytesOf(y1);
    BytesOf(y2);
  }

  lemma BytesOf(y: Word)
    ensures y / 0x100 % 256 == Split32(y).b1
    ensures y / 0x1_0000 % 256 == Split32(y).b2 == y / 0x100 / 0x100 % 256
    ensures y / 0x100_0000 == Split32(y).b3 == y / 0x1_0000 / 0x100 == y / 0x100 / 0x1_0000 < 256
  {
  }

  lemma SumOfBytes(u0: nat, u1: nat, u2: nat, z: nat)
    requires u0 < 0x100 && u1 < 0x1_0000 && u2 < 0x100_0000
    requires z == u0 + u1 + u2 && z / 0x100 == u0 / 0x100 + u1 / 0x100 + u2 / 0x100
    requires z / 0x1_0000 == u0 / 0x1_0000 + u1 / 0x1_0000 + u2 / 0x1_0000
    ensures u0 + u1 % 256 + u2 % 256 < 256 && u1 / 0x100 + u2 / 0x100 % 256 < 256
    ensures u0 + u1 % 256 + u2 % 256 + 0x100 * (u1 / 0x100 + u2 / 0x100 % 256) + 0x1_0000 * (u2 / 0x1_0000) == z
  {
    var h1, h2 := u1 / 0x100, u2 / 0x100;
    assert u2 / 0x1_0000 == h2 / 0x100;
    assert z / 0x1_0000 == (h1 + h2) / 0x100;
  }

  lemma SrlFromBytes(q: Quad, s: nat)
    ensures Shr(LowThree(q), s) + SrlEntry(q.b3, s) == Srl(Join32(q), s)
  {
    PartsSum(q, s);
  }

  lemma {:induction false} ShrComplement(a: nat, k: nat, s: nat)
    requires a < Pow2(k)
    ensures Shr(a, s) + Shr(Pow2(k) - 1 - a, s) == Shr(Pow2(k) - 1, s)
    decreases s
  {
    if k == 0 {
      ZeroBit(s);
    } else if s > 0 {
      ShrComplement(a / 2, k - 1, s - 1);
      assert (Pow2(k) - 1 - a) / 2 == Pow2(k - 1) - 1 - a / 2;
    }
  }

  function SraEntry(b: Byte, s: nat): Word {
    Sra(0x100_0000 * b, s)
  }

  /** With the arithmetic table for the top byte the sum is the arithmetic shift. */
  lemma SraFromBytes(q: Quad, s: nat)
    ensures Shr(LowThree(q), s) + SraEntry(q.b3, s) == Sra(Join32(q), s)
  {
    if q.b3 < 128 {
      SrlFromBytes(q, s);
    } else {
      var m := PlacePower(0x100_0000);
      ShrComplement(LowThree(q), m, s);
      ShrDisjoint(255 - q.b3, 0xff_ffff - LowThree(q), 0x100_0000, s);
      ShrDisjoint(255 - q.b3, 0xff_ffff, 0x100_0000, s);
    }
  }
}
