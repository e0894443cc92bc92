/**
  The 16-bit CRC of CoreMark. Registers and data are bit sequences, index 0 the lowest bit.
  */
module Crc {

  type Bits = seq<bool>

  /** crc ^ 0x4002: flips bits 1 and 14. */
  function XorPolynomial(crc: Bits): Bits
    requires |crc| == 16
  {
    crc[1 := !crc[1]][14 := !crc[14]]
  }

  /** x >> 1 */
  function ShiftRight(x: Bits): Bits
    requires x != []
  {
    x[1..] + [false]
  }

  /** One turn of the loop in crcu8: `bit` is the low bit of the remaining data. */
  function Step(bit: bool, crc: Bits): (r: Bits)
    requires |crc| == 16
    ensures |r| == 16
  {
    if bit != crc[0] then ShiftRight(XorPolynomial(crc))[15 := true]
    else ShiftRight(crc)[15 := false]
  }

  /** The bits of `data`, lowest first. */
  function Feed(data: Bits, crc: Bits): (r: Bits)
    requires |crc| == 16
    ensures |r| == 16
  {
    if data == [] then crc else Feed(data[1..], Step(data[0], crc))
  }

  method Crcu8(data0: Bits, crc0: Bits) returns (crc: Bits)
    requires |data0| == 8 && |crc0| == 16
    ensures |crc| == 16 && crc == Feed(data0, crc0)
  {
    var data := data0;
    crc := crc0;
    assert data[..8] == data0;
    for i := 0 to 8
      invariant |data| == 8 && |crc| == 16
      invariant Feed(data[..8 - i], crc) == Feed(data0, crc0)
    {
      var x16 := data[0] != crc[0];
      assert data[..8 - i][1..] == ShiftRight(data)[..8 - i - 1];
      data := ShiftRight(data);
      var carry := false;
      if x16 {
        crc := XorPolynomial(crc);
        carry := true;
      }
      crc := ShiftRight(crc);
      crc := if carry then crc[15 := true] else crc[15 := false];
    }
  }

  lemma {:induction false} FeedConcat(a: Bits, b: Bits, crc: Bits)
    requires |crc| == 16
    ensures Feed(a + b, crc) == Feed(b, Feed(a, crc))
    decreases |a|
  {
    if a == [] {
      assert a + b == b;
    } else {
      assert (a + b)[1..] == a[1..] + b;
      FeedConcat(a[1..], b, Step(a[0], crc));
    }
  }

  /** crcu16, which crc16 calls with the same bits: the low byte, then the high byte. */
  method Crcu16(v: Bits, crc0: Bits) returns (crc: Bits)
    requires |v| == 16 && |crc0| == 16
    ensures |crc| == 16 && crc == Feed(v, crc0)
  {
    crc := Crcu8(v[..8], crc0);
    crc := Crcu8(v[8..], crc);
    FeedConcat(v[..8], v[8..], crc0);
    assert v == v[..8] + v[8..];
  }

  /** crcu32: the low half, then the high half; so the four bytes low byte first. */
  method Crcu32(v: Bits, crc0: Bits) returns (crc: Bits)
    requires |v| == 32 && |crc0| == 16
    ensures |crc| == 16 && crc == Feed(v, crc0)
    ensures crc == Feed(v[24..], Feed(v[16..24], Feed(v[8..16], Feed(v[..8], crc0))))
  {
    crc := Crcu16(v[..16], crc0);
    crc := Crcu16(v[16..], crc);
    FeedConcat(v[..16], v[16..], crc0);
    assert v == v[..16] + v[16..];
    FeedConcat(v[..8], v[8..16], crc0);
    assert v[..16] == v[..8] + v[8..16];
    FeedConcat(v[16..24], v[24..], Feed(v[..16], crc0));
    assert v[16..] == v[16..24] + v[24..];
  }

  // ----- linearity -----

  function Xor(a: Bits, b: Bits): (r: Bits)
    requires |a| == |b|
    ensures |r| == |a|
  {
    seq(|a|, i requires 0 <= i < |a| => a[i] != b[i])
  }

  /** Each bit of the register after a turn. */
  lemma StepAt(bit: bool, crc: Bits, i: nat)
    requires |crc| == 16 && i < 16
    ensures var x := bit != crc[0];
            Step(bit, crc)[i] == if i == 15 then x else if i == 0 || i == 13 then crc[i + 1] != x else crc[i + 1]
  {
  }

  lemma StepLinear(b: bool, d: bool, x: Bits, y: Bits)
    requires |x| == 16 && |y| == 16
    ensures Step(b != d, Xor(x, y)) == Xor(Step(b, x), Step(d, y))
  {
    forall i | 0 <= i < 16 ensures Step(b != d, Xor(x, y))[i] == Xor(Step(b, x), Step(d, y))[i] {
      StepAt(b, x, i);
      StepAt(d, y, i);
      StepAt(b != d, Xor(x, y), i);
    }
  }

  /** Feeding the exclusive-or of two messages is the exclusive-or of feeding them. */
  lemma {:induction false} FeedLinear(a: Bits, b: Bits, x: Bits, y: Bits)
    requires |a| == |b| && |x| == 16 && |y| == 16
    ensures Feed(Xor(a, b), Xor(x, y)) == Xor(Feed(a, x), Feed(b, y))
    decreases |a|
  {
    if a != [] {
      StepLinear(a[0], b[0], x, y);
      assert Xor(a, b)[1..] == Xor(a[1..], b[1..]);
      FeedLinear(a[1..], b[1..], Step(a[0], x), Step(b[0], y));
    }
  }

  // ----- injectivity -----

  /** Undo one turn: the top bit tells whether the polynomial was applied. */
  function Unstep(bit: bool, crc: Bits): (r: Bits)
    requires |crc| == 16
    ensures |r| == 16
  {
    var x := crc[15];
    [bit != x, crc[0] != x] + crc[1..13] + [crc[13] != x, crc[14]]
  }

  lemma UnstepAt(bit: bool, crc: Bits, i: nat)
    requires |crc| == 16 && i < 16
    ensures var x := crc[15];
      Unstep(bit, crc)[i] ==
        if i == 0 then bit != x else if i == 1 || i == 14 then crc[i - 1] != x else crc[i - 1]
  {
  }

  lemma UnstepStep(bit: bool, crc: Bits)
    requires |crc| == 16
    ensures Unstep(bit, Step(bit, crc)) == crc && Step(bit, Unstep(bit, crc)) == crc
  {
    forall i | 0 <= i < 16 ensures Unstep(bit, Step(bit, crc))[i] == crc[i] {
      UnstepAt(bit, Step(bit, crc), i);
      StepAt(bit, crc, 15);
      if i > 0 {
        StepAt(bit, crc, i - 1);
      }
    }
    forall i | 0 <= i < 16 ensures Step(bit, Unstep(bit, crc))[i] == crc[i] {
      StepAt(bit, Unstep(bit, crc), i);
      UnstepAt(bit, crc, 0);
      if i < 15 {
        UnstepAt(bit, crc, i + 1);
      }
    }
  }

  function Unfeed(data: Bits, crc: Bits): (r: Bits)
    requires |crc| == 16
    ensures |r| == 16
  {
    if data == [] then crc else Unstep(data[0], Unfeed(data[1..], crc))
  }

  /** Whatever is fed acts as a bijection on the register. */
  lemma {:induction false} FeedBijective(data: Bits, crc: Bits)
    requires |crc| == 16
    ensures Unfeed(data, Feed(data, crc)) == crc && Feed(data, Unfeed(data, crc)) == crc
    decreases |data|
  {
    if data != [] {
      UnstepStep(data[0], crc);
      FeedBijective(data[1..], Step(data[0], crc));
      UnstepStep(data[0], Unfeed(data[1..], crc));
      FeedBijective(data[1..], crc);
    }
  }

  lemma FeedInjective(data: Bits, x: Bits, y: Bits)
    requires |x| == 16 && |y| == 16 && Feed(data, x) == Feed(data, y)
    ensures x == y
  {
    FeedBijective(data, x);
    FeedBijective(data, y);
  }

  function Zeros(n: nat): Bits {
    seq(n, _ => false)
  }

  /** With the top bit clear, undoing a turn shifts the data bit in at the bottom. */
  lemma UnstepShift(bit: bool, y: Bits)
    requires |y| == 16 && !y[15]
    ensures Unstep(bit, y) == [bit] + y[..15]
  {
  }

  /** Running backwards from the empty register, the message itself appears in it, as long as
      it has at most 16 bits. */
  lemma {:induction false} UnfeedZero(data: Bits)
    requires |data| <= 16
    ensures Unfeed(data, Zeros(16)) == data + Zeros(16 - |data|)
    decreases |data|
  {
    if data != [] {
      UnfeedZero(data[1..]);
      UnstepShift(data[0], data[1..] + Zeros(17 - |data|));
    } else {
      assert data + Zeros(16) == Zeros(16);
    }
  }

  /** 16 bits fed into the empty register leave it empty only if they are all zero. */
  lemma SixteenBitsFromZero(data: Bits)
    requires |data| == 16 && Feed(data, Zeros(16)) == Zeros(16)
    ensures data == Zeros(16)
  {
    FeedBijective(data, Zeros(16));
    UnfeedZero(data);
    assert data + Zeros(0) == data;
  }

  lemma XorZero(a: Bits, b: Bits)
    requires |a| == |b|
    ensures Xor(a, b) == Zeros(|a|) <==> a == b
  {
    if a == b {
      assert Xor(a, b) == Zeros(|a|);
    }
    if Xor(a, b) == Zeros(|a|) {
      forall i | 0 <= i < |a| ensures a[i] == b[i] {
        assert Xor(a, b)[i] == Zeros(|a|)[i];
      }
    }
  }

  /** Two messages of equal length that differ only within a window of 16 bits, such as two
      neighbouring bytes, get different checksums from every start value. */
  lemma BurstDetected(before: Bits, u: Bits, v: Bits, after: Bits, crc: Bits)
    requires |u| == 16 && |v| == 16 && u != v && |crc| == 16
    ensures Feed(before + u + after, crc) != Feed(before + v + after, crc)
  {
    var c := Feed(before, crc);
    FeedConcat(before + u, after, crc);
    FeedConcat(before + v, after, crc);
    FeedConcat(before, u, crc);
    FeedConcat(before, v, crc);
    if Feed(after, Feed(u, c)) == Feed(after, Feed(v, c)) {
      FeedInjective(after, Feed(u, c), Feed(v, c));
      FeedLinear(u, v, c, c);
      XorZero(c, c);
      XorZero(Feed(u, c), Feed(v, c));
      SixteenBitsFromZero(Xor(u, v));
      XorZero(u, v);
    }
  }
}
