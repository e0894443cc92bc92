/**
  Memory images for block RAMs: the 256-bit initialisation strings of every cell, and the layouts
  that spread the bits of a word list over the cells.
  */
module BramInit {
  import opened Bits
  import opened Options

  /** Bit j of the word at an address; words past the end of the list are zero. */
  predicate WordBit(words: seq<nat>, addr: nat, j: nat) {
    addr < |words| && Bit(words[addr], j)
  }

  // ----- strings of 256 bits -----

  type Row = s: seq<bool> | |s| == 256 witness seq(256, _ => false)

  const ZEROS: Row := seq(256, _ => false)

  function HexDigit(v: nat): char
    requires v < 16
  {
    "0123456789ABCDEF"[v]
  }

  function HexValue(c: char): nat {
    if '0' <= c <= '9' then c as nat - '0' as nat
    else if 'A' <= c <= 'F' then c as nat - 'A' as nat + 10
    else 0
  }

  lemma HexDigitValue(v: nat)
    requires v < 16
    ensures HexValue(HexDigit(v)) == v
  {
  }

  /** The four bits from `top` downwards as a number. */
  function Nibble(bits: Row, top: nat): nat
    requires 3 <= top < 256
  {
    8 * N(bits[top]) + 4 * N(bits[top - 1]) + 2 * N(bits[top - 2]) + N(bits[top - 3])
  }

  function N(b: bool): nat {
    if b then 1 else 0
  }

  /** Sixty-four hexadecimal digits, the highest bits first. */
  method BitsToHex(bits: Row) returns (hex: string)
    ensures |hex| == 64 && forall p :: 0 <= p < 256 ==> HexBit(hex, p) == bits[p]
  {
    hex := "";
    for i := 0 to 64
      invariant |hex| == i
      invariant forall d :: 0 <= d < i ==> hex[d] == HexDigit(Nibble(bits, 255 - 4 * d))
    {
      var v := 0;
      for j := 0 to 4
        invariant j == 0 ==> v == 0
        invariant j == 1 ==> v == N(bits[255 - 4 * i])
        invariant j == 2 ==> v == 2 * N(bits[255 - 4 * i]) + N(bits[254 - 4 * i])
        invariant j == 3 ==> v == 4 * N(bits[255 - 4 * i]) + 2 * N(bits[254 - 4 * i]) + N(bits[253 - 4 * i])
        invariant j == 4 ==> v == Nibble(bits, 255 - 4 * i)
      {
        v := 2 * v + N(bits[255 - (4 * i + j)]);
      }
      hex := hex + [HexDigit(v)];
    }
    forall p | 0 <= p < 256 ensures HexBit(hex, p) == bits[p] {
      HexBitIs(bits, hex[63 - p / 4], p);
    }
  }

  /** Bit p of the number that a string of digits denotes. */
  predicate HexBit(hex: string, p: nat)
    requires |hex| == 64 && p < 256
  {
    Bit(HexValue(hex[63 - p / 4]), p % 4)
  }

  lemma HexBitIs(bits: Row, c: char, p: nat)
    requires p < 256 && c == HexDigit(Nibble(bits, 255 - 4 * (63 - p / 4)))
    ensures Bit(HexValue(c), p % 4) == bits[p]
  {
    var top := 255 - 4 * (63 - p / 4);
    HexDigitValue(Nibble(bits, top));
    NibbleBit(bits[top - 3], bits[top - 2], bits[top - 1], bits[top], p % 4);
    assert p == top - 3 + p % 4;
  }

  lemma NibbleBit(b0: bool, b1: bool, b2: bool, b3: bool, k: nat)
    requires k < 4
    ensures Bit(8 * N(b3) + 4 * N(b2) + 2 * N(b1) + N(b0), k) ==
            if k == 0 then b0 else if k == 1 then b1 else if k == 2 then b2 else b3
  {
    var v := 8 * N(b3) + 4 * N(b2) + 2 * N(b1) + N(b0);
    assert v / 2 == 4 * N(b3) + 2 * N(b2) + N(b1);
    assert v / 2 / 2 == 2 * N(b3) + N(b2);
    assert v / 2 / 2 / 2 == N(b3);
    assert Shr(v, 1) == v / 2 && Shr(v, 2) == v / 2 / 2 && Shr(v, 3) == v / 2 / 2 / 2;
  }

  // ----- one cell -----

  /** Bits per address: 2, 4 or 8 of data, or one parity bit. */
  predicate DataWidth(nbits: nat) {
    nbits == 1 || nbits == 2 || nbits == 4 || nbits == 8
  }

  /** The address and the bit of it that are kept at position p of string s. */
  function AddrAt(nbits: nat, s: nat, p: nat): nat
    requires DataWidth(nbits)
  {
    if nbits == 1 then 256 * s + p
    else if nbits == 2 then 128 * s + p / 2
    else if nbits == 4 then 64 * s + p / 4
    else 32 * s + p / 8
  }

  function BitAt(nbits: nat, p: nat): nat
    requires DataWidth(nbits)
  {
    if nbits == 1 then 0 else if nbits == 2 then p % 2 else if nbits == 4 then p % 4 else p % 8
  }

  /** An address fills nbits neighbouring positions of one string, and no others. */
  lemma AddrPositions(nbits: nat, a: nat, s: nat, p: nat)
    requires DataWidth(nbits) && p < 256
    ensures var per := 256 / nbits; var pos := a % per * nbits;
      && pos + nbits <= 256
      && (AddrAt(nbits, s, p) == a <==> s == a / per && pos <= p < pos + nbits)
      && (pos <= p < pos + nbits ==> BitAt(nbits, p) == p - pos)
  {
    if nbits == 1 {
      assert 256 / nbits == 256;
      Positions1(a, s, p);
    } else if nbits == 2 {
      assert 256 / nbits == 128;
      Positions2(a, s, p);
    } else if nbits == 4 {
      assert 256 / nbits == 64;
      Positions4(a, s, p);
    } else {
      assert 256 / nbits == 32;
      Positions8(a, s, p);
    }
  }

  lemma Positions1(a: nat, s: nat, p: nat)
    requires p < 256
    ensures 256 * s + p == a <==> s == a / 256 && a % 256 * 1 <= p < a % 256 * 1 + 1
  {
    SplitIs(256, s, p, a);
  }

  lemma Positions2(a: nat, s: nat, p: nat)
    requires p < 256
    ensures 128 * s + p / 2 == a <==> s == a / 128 && a % 128 * 2 <= p < a % 128 * 2 + 2
    ensures a % 128 * 2 <= p < a % 128 * 2 + 2 ==> p % 2 == p - a % 128 * 2
  {
    SplitIs(128, s, p / 2, a);
  }

  lemma Positions4(a: nat, s: nat, p: nat)
    requires p < 256
    ensures 64 * s + p / 4 == a <==> s == a / 64 && a % 64 * 4 <= p < a % 64 * 4 + 4
    ensures a % 64 * 4 <= p < a % 64 * 4 + 4 ==> p % 4 == p - a % 64 * 4
  {
    SplitIs(64, s, p / 4, a);
  }

  lemma Positions8(a: nat, s: nat, p: nat)
    requires p < 256
    ensures 32 * s + p / 8 == a <==> s == a / 32 && a % 32 * 8 <= p < a % 32 * 8 + 8
    ensures a % 32 * 8 <= p < a % 32 * 8 + 8 ==> p % 8 == p - a % 32 * 8
  {
    SplitIs(32, s, p / 8, a);
  }

  lemma SplitIs(per: nat, s: nat, r: nat, a: nat)
    requires r < per
    ensures per * s + r == a <==> s == a / per && r == a % per
  {
    QuotientIs(per, s, r);
  }

  /** The strings written so far; a missing one is all zero. */
  type Strings = map<nat, Row>

  predicate Stored(strings: Strings, s: nat, p: nat)
    requires p < 256
  {
    s in strings && strings[s][p]
  }

  method StoreBits(row: Row, pos: nat, nbits: nat, words: seq<nat>, addr: nat, first: nat) returns (r: Row)
    requires pos + nbits <= 256
    ensures forall p :: 0 <= p < 256 ==>
      r[p] == if pos <= p < pos + nbits then WordBit(words, addr, first + (p - pos)) else row[p]
  {
    var w := if addr < |words| then words[addr] else 0;
    r := row;
    for k := 0 to nbits
      invariant forall p :: 0 <= p < 256 ==>
        r[p] == if pos <= p < pos + k then WordBit(words, addr, first + (p - pos)) else row[p]
    {
      ZeroBit(first + k);
      r := r[pos + k := Shr(w, first + k) % 2 == 1];
    }
  }

  /** What position p of string s holds once the addresses below `done` are written. */
  predicate DataBit(words: seq<nat>, first: nat, nbits: nat, base: nat, done: nat, s: nat, p: nat)
    requires DataWidth(nbits)
  {
    AddrAt(nbits, s, p) < done && WordBit(words, base + AddrAt(nbits, s, p), first + BitAt(nbits, p))
  }

  ghost predicate Written(strings: Strings, words: seq<nat>, first: nat, nbits: nat, base: nat, done: nat) {
    DataWidth(nbits) &&
    forall s, p :: 0 <= s && 0 <= p < 256 ==>
      Stored(strings, s, p) == DataBit(words, first, nbits, base, done, s, p)
  }

  lemma WrittenStep(strings: Strings, words: seq<nat>, first: nat, nbits: nat, base: nat, a: nat, row: Row)
    requires Written(strings, words, first, nbits, base, a)
    requires var s := a / (256 / nbits); var pos := a % (256 / nbits) * nbits;
      forall p :: 0 <= p < 256 ==>
        row[p] == if pos <= p < pos + nbits then WordBit(words, base + a, first + (p - pos)) else Stored(strings, s, p)
    ensures Written(strings[a / (256 / nbits) := row], words, first, nbits, base, a + 1)
  {
    var after := strings[a / (256 / nbits) := row];
    forall s, p | 0 <= s && 0 <= p < 256
      ensures Stored(after, s, p) == DataBit(words, first, nbits, base, a + 1, s, p)
    {
      AddrPositions(nbits, a, s, p);
      assert Stored(strings, s, p) == DataBit(words, first, nbits, base, a, s, p);
    }
  }

  method StoreAddress(strings: Strings, words: seq<nat>, first: nat, nbits: nat, base: nat, a: nat) returns (r: Strings)
    requires Written(strings, words, first, nbits, base, a)
    ensures Written(r, words, first, nbits, base, a + 1)
  {
    var per := 256 / nbits;
    var s, pos := a / per, a % per * nbits;
    AddrPositions(nbits, a, s, 0);
    var row := StoreBits(if s in strings then strings[s] else ZEROS, pos, nbits, words, base + a, first);
    WrittenStep(strings, words, first, nbits, base, a, row);
    r := strings[s := row];
  }

  /** Fills the data strings of a cell address by address. */
  method FillStrings(words: seq<nat>, depth: nat, first: nat, nbits: nat, base: nat) returns (strings: Strings)
    requires DataWidth(nbits)
    ensures Written(strings, words, first, nbits, base, depth)
  {
    strings := map[];
    for a := 0 to depth
      invariant Written(strings, words, first, nbits, base, a)
    {
      strings := StoreAddress(strings, words, first, nbits, base, a);
    }
  }

  /** The strings of one cell: data and parity. */
  datatype Cell = Cell(init: seq<string>, initp: seq<string>)

  /** The digits of string s denote the bits that belong there. */
  ghost predicate RowHolds(h: string, words: seq<nat>, depth: nat, first: nat, nbits: nat, base: nat, s: nat)
    requires DataWidth(nbits)
  {
    |h| == 64 && forall p :: 0 <= p < 256 ==> HexBit(h, p) == DataBit(words, first, nbits, base, depth, s, p)
  }

  ghost predicate Holds(hex: seq<string>, n: nat, words: seq<nat>, depth: nat, first: nat, nbits: nat, base: nat) {
    DataWidth(nbits) && |hex| == n &&
    forall s :: 0 <= s < n ==> RowHolds(hex[s], words, depth, first, nbits, base, s)
  }

  method FormatRow(strings: Strings, s: nat, ghost words: seq<nat>, ghost depth: nat, ghost first: nat,
                   ghost nbits: nat, ghost base: nat)
    returns (h: string)
    requires Written(strings, words, first, nbits, base, depth)
    ensures RowHolds(h, words, depth, first, nbits, base, s)
  {
    h := BitsToHex(if s in strings then strings[s] else ZEROS);
    forall p | 0 <= p < 256 ensures HexBit(h, p) == DataBit(words, first, nbits, base, depth, s, p) {
      assert Stored(strings, s, p) == DataBit(words, first, nbits, base, depth, s, p);
    }
  }

  method Format(strings: Strings, n: nat, ghost words: seq<nat>, ghost depth: nat, ghost first: nat,
                ghost nbits: nat, ghost base: nat)
    returns (hex: seq<string>)
    requires Written(strings, words, first, nbits, base, depth)
    ensures Holds(hex, n, words, depth, first, nbits, base)
  {
    hex := [];
    for i := 0 to n
      invariant |hex| == i && forall s :: 0 <= s < i ==> RowHolds(hex[s], words, depth, first, nbits, base, s)
    {
      var h := FormatRow(strings, i, words, depth, first, nbits, base);
      hex := hex + [h];
    }
  }

  method ComputeInit(words: seq<nat>, depth: nat, first: nat, nbits: nat, base: nat, nkeys: nat, parity: Option<nat>)
    returns (cell: Cell)
    requires DataWidth(nbits)
    ensures Holds(cell.init, nkeys, words, depth, first, nbits, base)
    ensures parity.Some? ==> Holds(cell.initp, 16, words, depth, parity.value, 1, base)
    ensures parity.None? ==> cell.initp == []
  {
    var strings := FillStrings(words, depth, first, nbits, base);
    var init := Format(strings, nkeys, words, depth, first, nbits, base);
    var initp := [];
    if parity.Some? {
      var pstrings := FillStrings(words, depth, parity.value, 1, base);
      initp := Format(pstrings, 16, words, depth, parity.value, 1, base);
    }
    cell := Cell(init, initp);
  }

  // ----- layouts -----

  datatype Spec = Spec(depth: nat, first: nat, nbits: nat, base: nat, nkeys: nat, parity: Option<nat>)

  /** A position in the strings of some cell. */
  datatype Position = Position(cell: nat, parity: bool, s: nat, p: nat)

  /** The strings that the cells have. */
  predicate Exists(specs: seq<Spec>, at: Position) {
    at.cell < |specs| && at.p < 256 &&
    if at.parity then specs[at.cell].parity.Some? && at.s < 16 else at.s < specs[at.cell].nkeys
  }

  /** Which bit of which word a position keeps. */
  function Source(specs: seq<Spec>, at: Position): (nat, nat)
    requires Exists(specs, at) && DataWidth(specs[at.cell].nbits)
  {
    var c := specs[at.cell];
    if at.parity then (c.base + (256 * at.s + at.p), c.parity.value)
    else (c.base + AddrAt(c.nbits, at.s, at.p), c.first + BitAt(c.nbits, at.p))
  }

  /** Data and parity strings together keep exactly `depth` addresses: none is cut off and none is left over. */
  predicate Exact(c: Spec) {
    DataWidth(c.nbits) && c.depth * c.nbits == 256 * c.nkeys && (c.parity.Some? ==> c.depth == 256 * 16)
  }

  function CellBit(cells: seq<Cell>, at: Position): bool
    requires at.cell < |cells| && at.p < 256
    requires at.parity ==> at.s < |cells[at.cell].initp| && |cells[at.cell].initp[at.s]| == 64
    requires !at.parity ==> at.s < |cells[at.cell].init| && |cells[at.cell].init[at.s]| == 64
  {
    HexBit(if at.parity then cells[at.cell].initp[at.s] else cells[at.cell].init[at.s], at.p)
  }

  ghost predicate Programmed(c: Spec, cell: Cell, words: seq<nat>) {
    Holds(cell.init, c.nkeys, words, c.depth, c.first, c.nbits, c.base)
    && (c.parity.Some? ==> Holds(cell.initp, 16, words, c.depth, c.parity.value, 1, c.base))
  }

  method ProgramCells(words: seq<nat>, specs: seq<Spec>) returns (cells: seq<Cell>)
    requires forall i :: 0 <= i < |specs| ==> DataWidth(specs[i].nbits)
    ensures |cells| == |specs| && forall i :: 0 <= i < |specs| ==> Programmed(specs[i], cells[i], words)
  {
    cells := [];
    for i := 0 to |specs|
      invariant |cells| == i && forall j :: 0 <= j < i ==> Programmed(specs[j], cells[j], words)
    {
      var c := specs[i];
      var cell := ComputeInit(words, c.depth, c.first, c.nbits, c.base, c.nkeys, c.parity);
      cells := cells + [cell];
    }
  }

  lemma AddrInDepth(c: Spec, s: nat, p: nat)
    requires Exact(c) && s < c.nkeys && p < 256
    ensures AddrAt(c.nbits, s, p) < c.depth
  {
  }

  /** Every position of every cell holds the bit it stands for. */
  lemma PositionHolds(words: seq<nat>, specs: seq<Spec>, cells: seq<Cell>, at: Position)
    requires Exists(specs, at) && Exact(specs[at.cell])
    requires |cells| == |specs| && Programmed(specs[at.cell], cells[at.cell], words)
    ensures at.parity ==> at.s < |cells[at.cell].initp| && |cells[at.cell].initp[at.s]| == 64
    ensures !at.parity ==> at.s < |cells[at.cell].init| && |cells[at.cell].init[at.s]| == 64
    ensures var (a, j) := Source(specs, at); CellBit(cells, at) == WordBit(words, a, j)
  {
    var c, cell := specs[at.cell], cells[at.cell];
    if at.parity {
      assert RowHolds(cell.initp[at.s], words, c.depth, c.parity.value, 1, c.base, at.s);
    } else {
      assert RowHolds(cell.init[at.s], words, c.depth, c.first, c.nbits, c.base, at.s);
      AddrInDepth(c, at.s, at.p);
    }
  }

  // ----- the instruction memory -----

  /** 8192 words over eight cells; the first one is an 18-kbit block, the others are 36-kbit blocks. */
  function IromSpec(cell: nat): Spec
    requires cell < 8
  {
    if cell == 0 then Spec(8192, 0, 2, 0, 64, None)
    else if cell == 1 then Spec(8192, 2, 4, 0, 128, None)
    else if cell == 2 then Spec(4096, 6, 8, 0, 128, Some(14))
    else if cell == 3 then Spec(4096, 6, 8, 4096, 128, Some(14))
    else if cell == 4 then Spec(4096, 15, 8, 0, 128, Some(23))
    else if cell == 5 then Spec(4096, 15, 8, 4096, 128, Some(23))
    else if cell == 6 then Spec(4096, 24, 8, 0, 128, None)
    else Spec(4096, 24, 8, 4096, 128, None)
  }

  function IromSpecs(): seq<Spec> {
    seq(8, i requires 0 <= i < 8 => IromSpec(i))
  }

  /** Where bit j of word a is kept. */
  function IromPlace(a: nat, j: nat): Position
    requires a < 8192 && j < 32
  {
    var half, b := a / 4096, a % 4096;
    if j < 2 then Position(0, false, a / 128, a % 128 * 2 + j)
    else if j < 6 then Position(1, false, a / 64, a % 64 * 4 + (j - 2))
    else if j == 14 then Position(2 + half, true, b / 256, b % 256)
    else if j == 23 then Position(4 + half, true, b / 256, b % 256)
    else if j < 14 then Position(2 + half, false, b / 32, b % 32 * 8 + (j - 6))
    else if j < 23 then Position(4 + half, false, b / 32, b % 32 * 8 + (j - 15))
    else Position(6 + half, false, b / 32, b % 32 * 8 + (j - 24))
  }

  /** Every bit of every word has its place ... */
  lemma IromPlaced(a: nat, j: nat)
    requires a < 8192 && j < 32
    ensures Exists(IromSpecs(), IromPlace(a, j)) && Source(IromSpecs(), IromPlace(a, j)) == (a, j)
  {
    if j >= 6 && j != 14 && j != 23 {
      IromPlaced8(a, j);
    }
  }

  lemma IromPlaced8(a: nat, j: nat)
    requires a < 8192 && 6 <= j < 32 && j != 14 && j != 23
    ensures Exists(IromSpecs(), IromPlace(a, j)) && Source(IromSpecs(), IromPlace(a, j)) == (a, j)
  {
    var b, k := a % 4096, if j < 14 then j - 6 else if j < 23 then j - 15 else j - 24;
    SplitIs(8, b % 32, k, 8 * (b % 32) + k);
    assert 32 * (b / 32) + b % 32 == b;
  }

  lemma IromExact(cell: nat)
    requires cell < 8
    ensures Exact(IromSpec(cell))
  {
  }

  /** ... and every position of the cells is the place of one bit of one word. */
  lemma IromFilled(at: Position)
    requires Exists(IromSpecs(), at)
    ensures var (a, j) := Source(IromSpecs(), at); a < 8192 && j < 32 && IromPlace(a, j) == at
  {
    if at.parity {
      IromFilledParity(at);
    } else if at.cell >= 2 {
      IromFilled8(at);
    } else {
      IromFilledLow(at);
    }
  }

  lemma IromFilledParity(at: Position)
    requires Exists(IromSpecs(), at) && at.parity
    ensures var (a, j) := Source(IromSpecs(), at); a < 8192 && j < 32 && IromPlace(a, j) == at
  {
    SplitIs(256, at.s, at.p, 256 * at.s + at.p);
    BankSplit(at.cell % 2, 256 * at.s + at.p);
  }

  lemma IromFilledLow(at: Position)
    requires Exists(IromSpecs(), at) && at.cell < 2 && !at.parity
    ensures var (a, j) := Source(IromSpecs(), at); a < 8192 && j < 32 && IromPlace(a, j) == at
  {
    if at.cell == 0 {
      Places2(at.s, at.p);
    } else {
      Places4(at.s, at.p);
    }
  }

  lemma IromFilled8(at: Position)
    requires Exists(IromSpecs(), at) && at.cell >= 2 && !at.parity
    ensures var (a, j) := Source(IromSpecs(), at); a < 8192 && j < 32 && IromPlace(a, j) == at
  {
    var bank, lane, b := at.cell % 2, at.cell / 2 - 1, 32 * at.s + at.p / 8;
    assert Source(IromSpecs(), at) == (4096 * bank + b, LaneStart(lane) + at.p % 8);
    IromPlaceOf(bank, lane, b, at.p % 8);
    Places8(at.s, at.p);
  }

  /** The first bit of an eight-bit lane. */
  function LaneStart(lane: nat): nat {
    if lane == 0 then 6 else if lane == 1 then 15 else 24
  }

  lemma IromPlaceOf(bank: nat, lane: nat, b: nat, k: nat)
    requires bank < 2 && lane < 3 && b < 4096 && k < 8
    ensures IromPlace(4096 * bank + b, LaneStart(lane) + k) ==
            Position(2 * (lane + 1) + bank, false, b / 32, b % 32 * 8 + k)
  {
    BankSplit(bank, b);
  }

  lemma Places2(s: nat, p: nat)
    requires p < 256
    ensures (128 * s + p / 2) / 128 == s && (128 * s + p / 2) % 128 * 2 + p % 2 == p
  {
    SplitIs(128, s, p / 2, 128 * s + p / 2);
  }

  lemma Places4(s: nat, p: nat)
    requires p < 256
    ensures (64 * s + p / 4) / 64 == s && (64 * s + p / 4) % 64 * 4 + p % 4 == p
  {
    SplitIs(64, s, p / 4, 64 * s + p / 4);
  }

  lemma Places8(s: nat, p: nat)
    requires p < 256
    ensures (32 * s + p / 8) / 32 == s && (32 * s + p / 8) % 32 * 8 + p % 8 == p
  {
    SplitIs(32, s, p / 8, 32 * s + p / 8);
  }

  /** The programmed cells read back as the first 8192 words. */
  method ProgramIrom(words: seq<nat>) returns (cells: seq<Cell>)
    ensures |cells| == 8 && forall i :: 0 <= i < 8 ==> Programmed(IromSpec(i), cells[i], words)
  {
    assert forall i :: 0 <= i < 8 ==> IromSpecs()[i] == IromSpec(i);
    cells := ProgramCells(words, IromSpecs());
  }

  lemma IromReadsBack(words: seq<nat>, cells: seq<Cell>, a: nat, j: nat)
    requires |cells| == 8 && forall i :: 0 <= i < 8 ==> Programmed(IromSpec(i), cells[i], words)
    requires a < 8192 && j < 32
    ensures var at := IromPlace(a, j);
      && at.cell < 8
      && (at.parity ==> at.s < |cells[at.cell].initp| && |cells[at.cell].initp[at.s]| == 64)
      && (!at.parity ==> at.s < |cells[at.cell].init| && |cells[at.cell].init[at.s]| == 64)
      && CellBit(cells, at) == WordBit(words, a, j)
  {
    var at := IromPlace(a, j);
    IromPlaced(a, j);
    IromExact(at.cell);
    PositionHolds(words, IromSpecs(), cells, at);
  }

  // ----- the data memory -----

  /** Banks of 4096 words, each over four byte lanes. */
  function DramSpec(banks: nat, cell: nat): Spec
    requires banks > 0
  {
    Spec(4096, cell / banks * 8, 8, cell % banks * 4096, 128, None)
  }

  function DramSpecs(banks: nat): seq<Spec>
    requires banks > 0
  {
    seq(4 * banks, i requires 0 <= i < 4 * banks => DramSpec(banks, i))
  }

  function DramPlace(banks: nat, a: nat, j: nat): Position {
    Position(j / 8 * banks + a / 4096, false, a % 4096 / 32, a % 32 * 8 + j % 8)
  }

  lemma DramPlaced(banks: nat, a: nat, j: nat)
    requires (banks == 16 || banks == 4) && a < 4096 * banks && j < 32
    ensures Exists(DramSpecs(banks), DramPlace(banks, a, j))
    ensures Source(DramSpecs(banks), DramPlace(banks, a, j)) == (a, j)
  {
    DramCell(banks, a / 4096, j / 8);
    DramRow(a, j);
  }

  lemma DramCell(banks: nat, bank: nat, lane: nat)
    requires (banks == 16 || banks == 4) && bank < banks && lane < 4
    ensures var cell := lane * banks + bank; cell < 4 * banks && cell / banks == lane && cell % banks == bank
  {
    SplitIs(banks, lane, bank, banks * lane + bank);
  }

  lemma DramRow(a: nat, j: nat)
    ensures var s, p := a % 4096 / 32, a % 32 * 8 + j % 8;
      s < 128 && p < 256 && 32 * s + p / 8 == a % 4096 && p % 8 == j % 8
  {
    var b := a % 4096;
    assert b / 32 * 32 + b % 32 == b && a % 32 == b % 32;
    SplitIs(8, a % 32, j % 8, a % 32 * 8 + j % 8);
  }

  lemma BankSplit(bank: nat, b: nat)
    requires b < 4096
    ensures (bank * 4096 + b) / 4096 == bank && (bank * 4096 + b) % 4096 == b && (bank * 4096 + b) % 32 == b % 32
  {
    SplitIs(4096, bank, b, bank * 4096 + b);
    SplitIs(32, bank * 128 + b / 32, b % 32, bank * 4096 + b);
  }

  lemma DramFilled(banks: nat, at: Position) returns (a: nat, j: nat)
    requires (banks == 16 || banks == 4) && Exists(DramSpecs(banks), at)
    ensures Source(DramSpecs(banks), at) == (a, j) && a < 4096 * banks && j < 32 && DramPlace(banks, a, j) == at
  {
    var lane, bank;
    lane, bank, a, j := DramSource(banks, at);
    DramInverse(banks, lane, bank, at.s, at.p);
  }

  lemma DramInverse(banks: nat, lane: nat, bank: nat, s: nat, p: nat)
    requires bank < banks && s < 128 && p < 256 && lane < 4
    ensures var a, j := bank * 4096 + (32 * s + p / 8), 8 * lane + p % 8;
      && a < 4096 * banks && j < 32 && DramPlace(banks, a, j) == Position(lane * banks + bank, false, s, p)
  {
    Places8(s, p);
    BankSplit(bank, 32 * s + p / 8);
    SplitIs(8, lane, p % 8, 8 * lane + p % 8);
  }

  lemma DramSource(banks: nat, at: Position) returns (lane: nat, bank: nat, a: nat, j: nat)
    requires (banks == 16 || banks == 4) && Exists(DramSpecs(banks), at)
    ensures at.cell == lane * banks + bank && bank < banks && lane < 4 && at.s < 128 && !at.parity
    ensures a == bank * 4096 + (32 * at.s + at.p / 8) && j == 8 * lane + at.p % 8
    ensures Source(DramSpecs(banks), at) == (a, j)
  {
    lane, bank := at.cell / banks, at.cell % banks;
    a, j := bank * 4096 + (32 * at.s + at.p / 8), 8 * lane + at.p % 8;
  }

  method ProgramDram(words: seq<nat>, banks: nat) returns (cells: seq<Cell>)
    requires banks == 16 || banks == 4
    ensures |cells| == 4 * banks && forall i :: 0 <= i < 4 * banks ==> Programmed(DramSpec(banks, i), cells[i], words)
  {
    assert forall i :: 0 <= i < 4 * banks ==> DramSpecs(banks)[i] == DramSpec(banks, i);
    cells := ProgramCells(words, DramSpecs(banks));
  }

  lemma DramReadsBack(words: seq<nat>, banks: nat, cells: seq<Cell>, a: nat, j: nat)
    requires (banks == 16 || banks == 4) && a < 4096 * banks && j < 32
    requires |cells| == 4 * banks && forall i :: 0 <= i < 4 * banks ==> Programmed(DramSpec(banks, i), cells[i], words)
    ensures var at := DramPlace(banks, a, j);
      && at.cell < |cells| && at.s < |cells[at.cell].init| && |cells[at.cell].init[at.s]| == 64 && at.p < 256
      && CellBit(cells, at) == WordBit(words, a, j)
  {
    DramPlaced(banks, a, j);
    PositionHolds(words, DramSpecs(banks), cells, DramPlace(banks, a, j));
  }
}
