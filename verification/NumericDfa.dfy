/**
  The result word of the numeric-token instructions: counter masks, the packing of the four result
  fields, and the emulator's word step.
  */
module NumericDfa {
  import opened Bits
  import opened TokenDfa

  // ----- counter masks -----

  function Weight(b: bool, w: nat): nat {
    if b then w else 0
  }

  /** A word with one bit per counter of `order`, lowest bit first. */
  function MaskIn(order: seq<State>, hits: set<State>): nat {
    if order == [] then 0 else Weight(order[0] in hits, 1) + 2 * MaskIn(order[1..], hits)
  }

  /** The counters by number. */
  function Order(): seq<State> {
    seq(8, i requires 0 <= i < 8 => StateAt(i))
  }

  function MaskOf(hits: set<State>): nat {
    MaskIn(Order(), hits)
  }

  lemma MaskDrop(hits: set<State>, i: nat)
    requires i < 8
    ensures MaskIn(Order()[i..], hits) == Weight(StateAt(i) in hits, 1) + 2 * MaskIn(Order()[i + 1..], hits)
  {
    assert Order()[i..][1..] == Order()[i + 1..];
  }

  lemma MaskFour(hits: set<State>, i: nat)
    requires i <= 4
    ensures MaskIn(Order()[i..], hits) ==
            Weight(StateAt(i) in hits, 1) + Weight(StateAt(i + 1) in hits, 2) + Weight(StateAt(i + 2) in hits, 4)
            + Weight(StateAt(i + 3) in hits, 8) + 16 * MaskIn(Order()[i + 4..], hits)
  {
    MaskDrop(hits, i);
    MaskDrop(hits, i + 1);
    MaskDrop(hits, i + 2);
    MaskDrop(hits, i + 3);
  }

  lemma MaskSum(hits: set<State>)
    ensures MaskOf(hits) == Weight(Start in hits, 1) + Weight(Invalid in hits, 2) + Weight(S1 in hits, 4)
                            + Weight(S2 in hits, 8) + Weight(Int in hits, 16) + Weight(Float in hits, 32)
                            + Weight(Exponent in hits, 64) + Weight(Scientific in hits, 128)
  {
    assert Order() == Order()[0..];
    MaskFour(hits, 0);
    MaskFour(hits, 4);
  }

  lemma {:induction false} MaskUnionIn(order: seq<State>, a: set<State>, b: set<State>)
    ensures Or(MaskIn(order, a), MaskIn(order, b)) == MaskIn(order, a + b)
  {
    if order != [] {
      MaskUnionIn(order[1..], a, b);
      OrStep(MaskIn(order, a), MaskIn(order, b));
    }
  }

  lemma MaskUnion(a: set<State>, b: set<State>)
    ensures Or(MaskOf(a), MaskOf(b)) == MaskOf(a + b)
  {
    MaskUnionIn(Order(), a, b);
  }

  lemma MaskHalf(order: seq<State>, hits: set<State>)
    requires order != []
    ensures MaskIn(order, hits) / 2 == MaskIn(order[1..], hits)
    ensures MaskIn(order, hits) % 2 == Weight(order[0] in hits, 1)
  {
  }

  lemma {:induction false} MaskBit(order: seq<State>, hits: set<State>, i: nat)
    requires i < |order|
    ensures Bit(MaskIn(order, hits), i) <==> order[i] in hits
    decreases i
  {
    MaskHalf(order, hits);
    if i > 0 {
      MaskBit(order[1..], hits, i - 1);
    }
  }

  lemma {:induction false} MaskBound(order: seq<State>, hits: set<State>)
    ensures MaskIn(order, hits) < Pow2(|order|)
    decreases |order|
  {
    if order != [] {
      MaskBound(order[1..], hits);
    }
  }

  lemma MaskTest(hits: set<State>, i: nat)
    requires i < 8
    ensures And(MaskOf(hits), Shl(1, i)) != 0 <==> StateAt(i) in hits
  {
    MaskBit(Order(), hits, i);
    AndBit(MaskOf(hits), i);
  }

  // ----- the word step -----

  /** One more character, unless the token has ended. */
  function AdvanceOne(a: Advance, c: nat): Advance {
    if a.stop then a
    else if c == 0 then a.(stop := true)
    else if c == COMMA then a.(consumed := a.consumed + 1, stop := true)
    else
      var (s', h) := Next(a.state, c);
      Advance(s', a.consumed + 1, s' == Invalid, a.hits + h)
  }

  lemma {:induction false} StepsSnoc(s: State, symbols: seq<nat>, c: nat)
    ensures Steps(s, symbols + [c]) == AdvanceOne(Steps(s, symbols), c)
    decreases |symbols|
  {
    if symbols == [] {
      assert symbols + [c] == [c];
    } else {
      assert (symbols + [c])[1..] == symbols[1..] + [c];
      StepsSnoc(Next(s, symbols[0]).0, symbols[1..], c);
    }
  }

  /** The state and the counter mask after one ordinary character. */
  method NextWithMask(state: State, c: nat) returns (next: State, mask: nat)
    ensures next == Next(state, c).0 && mask == MaskOf(Next(state, c).1)
  {
    MaskSum(Next(state, c).1);
    next, mask := state, 0;
    match state
    case Start =>
      if IsDigit(c) {
        next := Int;
      } else if IsSign(c) {
        next := S1;
      } else if c == DOT {
        next := Float;
      } else {
        next, mask := Invalid, 2;
      }
      mask := mask + 1;
    case S1 =>
      next := if IsDigit(c) then Int else if c == DOT then Float else Invalid;
      mask := 4;
    case Int =>
      if c == DOT {
        next, mask := Float, 16;
      } else if !IsDigit(c) {
        next, mask := Invalid, 16;
      }
    case Float =>
      if c == UPPER_E || c == LOWER_E {
        next, mask := S2, 32;
      } else if !IsDigit(c) {
        next, mask := Invalid, 32;
      }
    case S2 =>
      next, mask := if IsSign(c) then Exponent else Invalid, 8;
    case Exponent =>
      next, mask := if IsDigit(c) then Scientific else Invalid, 64;
    case Scientific =>
      if !IsDigit(c) {
        next, mask := Invalid, 2;
      }
    case Invalid =>
  }

  /** Four fields of a word: k bits, w bits, one bit and the rest. */
  function Fields(a: nat, c: nat, b: nat, m: nat, k: nat, w: nat): nat {
    Or(Or(Or(a, Shl(c, k)), Shl(b, k + w)), Shl(m, k + w + 1))
  }

  lemma FieldsFit(low: nat, high: nat, k: nat, w: nat)
    requires low < Pow2(k) && high < Pow2(w)
    ensures low + Shl(high, k) < Pow2(k + w)
  {
    ShlMonotone(high, Pow2(w), k);
    ShlShl(1, w, k);
  }

  lemma FieldsOr(a: nat, c: nat, b: nat, m: nat, k: nat, w: nat)
    requires a < Pow2(k) && c < Pow2(w) && b < 2
    ensures Fields(a, c, b, m, k, w) == a + Shl(c, k) + Shl(b, k + w) + Shl(m, k + w + 1)
  {
    OrAbove(a, c, k);
    FieldsFit(a, c, k, w);
    OrAbove(a + Shl(c, k), b, k + w);
    FieldsFit(a + Shl(c, k), b, k + w, 1);
    OrAbove(a + Shl(c, k) + Shl(b, k + w), m, k + w + 1);
  }

  lemma FieldsSum(a: nat, c: nat, b: nat, m: nat, k: nat, w: nat)
    ensures a + Shl(c, k) + Shl(b, k + w) + Shl(m, k + w + 1) == a + Shl(c + Shl(b + 2 * m, w), k)
  {
    ShlAdd(b, 2 * m, w);
    ShlAdd(c, Shl(b + 2 * m, w), k);
    ShlAdd(Shl(b, w), Shl(2 * m, w), k);
    ShlShl(b, w, k);
    ShlShl(2 * m, w, k);
    ShlShl(m, 1, w + k);
  }

  /** Every field of a word can be read back. */
  lemma FieldsRead(a: nat, c: nat, b: nat, m: nat, k: nat, w: nat)
    requires a < Pow2(k) && c < Pow2(w) && b < 2
    ensures var r := Fields(a, c, b, m, k, w);
      && Low(r, k) == a && Low(Shr(r, k), w) == c
      && (Bit(r, k + w) <==> b == 1) && Shr(r, k + w + 1) == m
  {
    var r := Fields(a, c, b, m, k, w);
    FieldsOr(a, c, b, m, k, w);
    FieldsSum(a, c, b, m, k, w);
    SplitUnique(c + Shl(b + 2 * m, w), a, k);
    SplitUnique(b + 2 * m, c, w);
    ShrShr(r, k, w);
    ShrShr(r, k + w, 1);
    assert Shr(b + 2 * m, 1) == (b + 2 * m) / 2 == m;
  }

  lemma FieldsMasked(a: nat, c: nat, b: nat, m: nat, k: nat, w: nat)
    requires a < Pow2(k) && c < Pow2(w) && b < 2
    ensures var r := Fields(a, c, b, m, k, w);
      && And(r, Pow2(k) - 1) == a && And(Shr(r, k), Pow2(w) - 1) == c
      && (And(r, Shl(1, k + w)) != 0 <==> b == 1) && Shr(r, k + w + 1) == m
  {
    var r := Fields(a, c, b, m, k, w);
    FieldsRead(a, c, b, m, k, w);
    AndMask(r, k);
    AndMask(Shr(r, k), w);
    AndBit(r, k + w);
  }

  lemma AndFits(x: nat, k: nat)
    requires x < Pow2(k)
    ensures And(x, Pow2(k) - 1) == x
  {
    AndMask(x, k);
    LowSmall(x, k);
  }

  lemma MaskByte(hits: set<State>)
    ensures And(MaskOf(hits), 255) == MaskOf(hits)
  {
    MaskBound(Order(), hits);
    AndFits(MaskOf(hits), |Order()|);
    ShlShl(1, 4, 4);
  }

  /** The result word; the consumed count takes `width` bits. */
  function Packed(a: Advance, width: nat): nat {
    Fields(Index(a.state), a.consumed, if a.stop then 1 else 0, MaskOf(a.hits), 3, width)
  }

  /** Reading a result word as the wrappers do. */
  lemma Unpack(a: Advance, width: nat)
    requires a.consumed < Pow2(width)
    ensures var r := Packed(a, width);
      && And(r, 7) == Index(a.state)
      && And(Shr(r, 3), Pow2(width) - 1) == a.consumed
      && (And(r, Shl(1, 3 + width)) != 0 <==> a.stop)
      && Shr(r, 3 + width + 1) == MaskOf(a.hits) == And(Shr(r, 3 + width + 1), 255)
  {
    UnpackFields(a, 3, width);
    MaskByte(a.hits);
  }

  lemma UnpackFields(a: Advance, k: nat, width: nat)
    requires a.consumed < Pow2(width) && k == 3
    ensures var r := Fields(Index(a.state), a.consumed, if a.stop then 1 else 0, MaskOf(a.hits), k, width);
      && And(r, 7) == Index(a.state) && And(Shr(r, k), Pow2(width) - 1) == a.consumed
      && (And(r, Shl(1, k + width)) != 0 <==> a.stop) && Shr(r, k + width + 1) == MaskOf(a.hits)
  {
    assert Pow2(k) == 8 by {
      assert Pow2(3) == 8;
    }
    FieldsMasked(Index(a.state), a.consumed, if a.stop then 1 else 0, MaskOf(a.hits), k, width);
  }

  /** Bits of the consumed count in the two result formats. */
  function CountWidth(format2: bool): nat {
    if format2 then 2 else 3
  }

  method WordStep(start: State, symbols: seq<nat>, format2: bool) returns (result: nat)
    ensures result == Packed(Steps(start, symbols), CountWidth(format2))
  {
    var state, consumed, mask, stop := start, 0, 0, false;
    ghost var a := Steps(start, []);
    assert symbols[..0] == [];
    assert mask == MaskOf(a.hits) by {
      MaskSum({});
    }
    var i := 0;
    while i < |symbols| && !stop
      invariant i <= |symbols| && a == Steps(start, symbols[..i])
      invariant state == a.state && consumed == a.consumed && stop == a.stop && mask == MaskOf(a.hits)
    {
      var c := symbols[i];
      ghost var before := a;
      a := AdvanceOne(a, c);
      assert a == Steps(start, symbols[..i + 1]) by {
        assert symbols[..i + 1] == symbols[..i] + [c];
        StepsSnoc(start, symbols[..i], c);
      }
      if c == 0 {
        stop := true;
      } else {
        consumed := consumed + 1;
        if c == COMMA {
          stop := true;
        } else {
          var bits;
          state, bits := NextWithMask(state, c);
          MaskUnion(before.hits, Next(before.state, c).1);
          mask := Or(mask, bits);
          stop := state == Invalid;
        }
      }
      i := i + 1;
    }
    StopsEarly(start, symbols, i);
    result := Fields(Index(state), consumed, if stop then 1 else 0, mask, 3, CountWidth(format2));
  }

  /** Characters after the end of the token do not matter. */
  lemma {:induction false} StopsEarly(s: State, symbols: seq<nat>, i: nat)
    requires i <= |symbols| && (i == |symbols| || Steps(s, symbols[..i]).stop)
    ensures Steps(s, symbols) == Steps(s, symbols[..i])
    decreases |symbols| - i
  {
    if i == |symbols| {
      assert symbols[..i] == symbols;
    } else {
      assert symbols[..i + 1] == symbols[..i] + [symbols[i]];
      StepsSnoc(s, symbols[..i], symbols[i]);
      StopsEarly(s, symbols, i + 1);
    }
  }
}
