/**
  The checksum on numbers: what the bit sequences of the checksum stand for, and the update of the register as
  arithmetic.
  */
module CrcNumbers {
  import opened Bits
  import opened Words
  import ByteShifts
  import Crc

  function Digit(b: bool): nat {
    if b then 1 else 0
  }

  /** The number that bits stand for, the first one lowest. */
  function Number(b: Crc.Bits): nat {
    if b == [] then 0 else Digit(b[0]) + 2 * Number(b[1..])
  }

  /** The k lowest bits of a number, by repeated halving. */
  function Halved(n: nat, k: nat): (b: Crc.Bits)
    ensures |b| == k
    decreases k
  {
    if k == 0 then [] else [n % 2 == 1] + Halved(n / 2, k - 1)
  }

  lemma {:induction false} HalvedNumber(n: nat, k: nat)
    requires n < Pow2(k)
    ensures Number(Halved(n, k)) == n
    decreases k
  {
    if k > 0 {
      HalvedNumber(n / 2, k - 1);
      assert Halved(n, k)[1..] == Halved(n / 2, k - 1);
    }
  }

  lemma {:induction false} HalvedConcat(n: nat, j: nat, k: nat)
    ensures Halved(n, j + k) == Halved(n, j) + Halved(Shr(n, j), k)
    decreases j
  {
    if j > 0 {
      HalvedConcat(n / 2, j - 1, k);
    }
  }

  lemma {:induction false} HalvedLow(n: nat, m: nat, k: nat)
    requires Low(n, k) == Low(m, k)
    ensures Halved(n, k) == Halved(m, k)
    decreases k
  {
    if k > 0 {
      HalvedLow(n / 2, m / 2, k - 1);
    }
  }

  // ----- the register -----

  lemma {:induction false} NumberXor(a: Crc.Bits, b: Crc.Bits)
    requires |a| == |b|
    ensures Number(Crc.Xor(a, b)) == Xor(Number(a), Number(b))
    decreases |a|
  {
    if a != [] {
      NumberXor(a[1..], b[1..]);
      assert Crc.Xor(a, b)[1..] == Crc.Xor(a[1..], b[1..]);
      XorDigits(a[0], Number(a[1..]), b[0], Number(b[1..]));
    }
  }

  lemma XorDigits(a: bool, m: nat, b: bool, n: nat)
    ensures Xor(Digit(a) + 2 * m, Digit(b) + 2 * n) == Digit(a != b) + 2 * Xor(m, n)
  {
    var x, y := Digit(a) + 2 * m, Digit(b) + 2 * n;
    assert x / 2 == m && y / 2 == n && x % 2 == Digit(a) && y % 2 == Digit(b);
    XorStep(x, y);
  }

  /** Bits 1 and 14. */
  function Polynomial(): Crc.Bits {
    [false, true, false, false, false, false, false, false]
    + [false, false, false, false, false, false, true, false]
  }

  lemma {:induction false} NumberConcat(a: Crc.Bits, b: Crc.Bits)
    ensures Number(a + b) == Number(a) + Shl(Number(b), |a|)
    decreases |a|
  {
    if a == [] {
      assert a + b == b;
    } else {
      assert (a + b)[1..] == a[1..] + b;
      NumberConcat(a[1..], b);
    }
  }

  lemma NumberFour(a: bool, b: bool, c: bool, d: bool)
    ensures Number([a, b, c, d]) == Digit(a) + 2 * Digit(b) + 4 * Digit(c) + 8 * Digit(d)
  {
    assert [a, b, c, d][1..] == [b, c, d] && [b, c, d][1..] == [c, d] && [c, d][1..] == [d] && [d][1..] == [];
    assert Number([d]) == Digit(d);
    assert Number([c, d]) == Digit(c) + 2 * Digit(d);
    assert Number([b, c, d]) == Digit(b) + 2 * Number([c, d]);
  }

  lemma FourMore(a: Crc.Bits, b: Crc.Bits)
    requires |a| == 4
    ensures Number(a + b) == Number(a) + 16 * Number(b)
  {
    NumberConcat(a, b);
    var n := Number(b);
    assert Shl(n, 2) == 4 * n;
    assert Shl(n, 4) == 4 * Shl(n, 2);
  }

  lemma PolynomialNumber()
    ensures |Polynomial()| == 16 && Number(Polynomial()) == 0x4002
  {
    var low, zero, high := [false, true, false, false], [false, false, false, false], [false, false, true, false];
    NumberFour(false, true, false, false);
    NumberFour(false, false, false, false);
    NumberFour(false, false, true, false);
    FourMore(zero, high);
    FourMore(zero, zero + high);
    FourMore(low, zero + (zero + high));
    assert Polynomial() == low + (zero + (zero + high));
  }

  lemma PolynomialFlips(crc: Crc.Bits)
    requires |crc| == 16
    ensures Crc.XorPolynomial(crc) == Crc.Xor(crc, Polynomial())
  {
    var x, y := Crc.XorPolynomial(crc), Crc.Xor(crc, Polynomial());
    forall i | 0 <= i < 16 ensures x[i] == y[i] {
    }
  }

  lemma {:induction false} NumberSnoc(b: Crc.Bits, top: bool)
    ensures Number(b + [top]) == Number(b) + Digit(top) * Pow2(|b|)
    decreases |b|
  {
    if b == [] {
      assert b + [top] == [top];
    } else {
      assert (b + [top])[1..] == b[1..] + [top];
      NumberSnoc(b[1..], top);
    }
  }

  lemma {:induction false} NumberFits(b: Crc.Bits)
    ensures Number(b) < Pow2(|b|)
    decreases |b|
  {
    if b != [] {
      NumberFits(b[1..]);
    }
  }

  /** Shifting right and setting the top bit. */
  lemma ShiftNumber(crc: Crc.Bits, top: bool)
    requires |crc| == 16
    ensures Number(Crc.ShiftRight(crc)[15 := top]) == Number(crc) / 2 + if top then 0x8000 else 0
  {
    assert Crc.ShiftRight(crc)[15 := top] == crc[1..] + [top];
    NumberSnoc(crc[1..], top);
    Powers();
    assert Pow2(16) == 2 * Pow2(15);
  }

  /** One turn of the loop on the number in the register: if the data bit differs from the lowest bit, the
      register is combined with 0x4002, halved, and gets its top bit set; otherwise it is halved. */
  lemma StepNumber(bit: bool, crc: Crc.Bits)
    requires |crc| == 16
    ensures Number(Crc.Step(bit, crc)) ==
            if Digit(bit) != Number(crc) % 2 then Xor(Number(crc), 0x4002) / 2 + 0x8000 else Number(crc) / 2
  {
    assert Number(crc) % 2 == Digit(crc[0]);
    if bit != crc[0] {
      PolynomialFlips(crc);
      PolynomialNumber();
      NumberXor(crc, Polynomial());
      ShiftNumber(Crc.XorPolynomial(crc), true);
    } else {
      ShiftNumber(crc, false);
    }
  }

  /** One turn on numbers. */
  function Turn(bit: nat, crc: nat): nat {
    if bit != crc % 2 then Xor(crc, 0x4002) / 2 + 0x8000 else crc / 2
  }

  /** k turns of crcu8 on numbers: the data is used from its lowest bit on. */
  function Turns(data: nat, k: nat, crc: nat): nat
    decreases k
  {
    if k == 0 then crc else Turns(data / 2, k - 1, Turn(data % 2, crc))
  }

  /** Feeding the low bits of a number is that loop. */
  lemma {:induction false} FeedNumber(data: nat, k: nat, crc: Crc.Bits)
    requires |crc| == 16
    ensures Number(Crc.Feed(Halved(data, k), crc)) == Turns(data, k, Number(crc))
    decreases k
  {
    if k > 0 {
      StepNumber(data % 2 == 1, crc);
      assert Halved(data, k)[1..] == Halved(data / 2, k - 1);
      FeedNumber(data / 2, k - 1, Crc.Step(data % 2 == 1, crc));
    }
  }

  // ----- words -----

  const BYTE: nat := 8

  /** The bits of a byte, lowest first. */
  function ByteBits(b: nat): Crc.Bits {
    Halved(b, BYTE)
  }

  /** The bytes of a word, the lowest first. */
  function WordMessage(w: Word): Crc.Bits {
    ByteBits(w % 256) + (ByteBits(w / 256 % 256) + (ByteBits(w / 0x1_0000 % 256) + ByteBits(w / 0x100_0000)))
  }

  function Message(words: seq<Word>): Crc.Bits {
    if words == [] then [] else WordMessage(words[0]) + Message(words[1..])
  }

  lemma ByteValue(b: nat)
    requires b < 256
    ensures |ByteBits(b)| == 8 && Number(ByteBits(b)) == b
  {
    Powers();
    HalvedNumber(b, BYTE);
  }

  lemma LowByte(n: nat, k: nat)
    requires k == 8
    ensures Halved(n, k) == Halved(n % 256, k)
  {
    LowIsByte(n, k);
    Split(n, k);
    LowSmall(Low(n, k), k);
    HalvedLow(n, Low(n, k), k);
  }

  lemma LowIsByte(n: nat, k: nat)
    requires k == 8
    ensures Low(n, k) == n % 256
  {
    var p := Pow2(k);
    ByteShifts.LowIsRemainder(n, k);
    assert p == 256 by {
      Powers();
    }
  }

  lemma HalvedByte(n: nat, j: nat, k: nat)
    requires j == 8
    ensures Halved(n, j + k) == Halved(n % 256, j) + Halved(n / 256, k)
  {
    HalvedConcat(n, j, k);
    ByteShifts.ShrEight(n);
    LowByte(n, j);
  }

  /** The 32 bits of a word are those of its bytes. */
  lemma HalvedWord(w: Word, j: nat)
    requires j == 8
    ensures Halved(w, j + (j + (j + j))) ==
            Halved(w % 256, j) +
            (Halved(w / 256 % 256, j) + (Halved(w / 0x1_0000 % 256, j) + Halved(w / 0x100_0000, j)))
  {
    var h, g := w / 256, w / 0x1_0000;
    HalvedByte(w, j, j + (j + j));
    HalvedByte(h, j, j + j);
    HalvedByte(g, j, j);
    assert h / 256 == g && g / 256 == w / 0x100_0000;
  }

  /** Picking the bits of a number one by one. */
  lemma {:induction false} BitsHalved(n: nat, k: nat, b: Crc.Bits)
    requires |b| == k && forall i :: 0 <= i < k ==> b[i] == Bit(n, i)
    ensures b == Halved(n, k)
    decreases k
  {
    if k > 0 {
      BitsHalved(n / 2, k - 1, b[1..]);
    }
  }
}
