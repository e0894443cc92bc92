/**
  The miniRV expansions: instructions of RV32I written with the base instructions add, addi, lui,
  lw, lbu, sw and sb, byte tables and scratch words below the stack pointer.
  */
module MiniRv {
  import opened Bits
  import opened ByteShifts
  import opened Words

  type Reg = r: nat | r < 32

  const GP: Reg := 3
  const TP: Reg := 4
  const S0: Reg := 8
  const S1: Reg := 9

  // Scratch words, counted downwards from the stack pointer.
  const VAR_A: nat := 4
  const VAR_B: nat := 5
  const VAR_C: nat := 6
  const VAR_D: nat := 7

  // ----- the tables -----

  // Offsets from the start of the generated tables.
  const XOR8: nat := 0x2_0000
  const SLL8: nat := 0x3_0000
  const SRL8: nat := 0x3_8000
  const SRA8: nat := 0x4_0000
  const TABLES: nat := 0x4_8000

  /** Byte tables for and, or and xor: row j, column i. */
  function TableByte(offset: nat): Byte
    requires offset < SLL8
  {
    Bitwise(offset / 0x1_0000, offset % 0x1_0000 / 256, offset % 256)
  }

  function Bitwise(table: nat, j: Byte, i: Byte): Byte {
    BytesFit(j, i);
    if table == 0 then And(j, i) else if table == 1 then Or(j, i) else Xor(j, i)
  }

  lemma ByteEntry(table: nat, j: Byte, i: Byte)
    requires table < 3
    ensures TableByte(0x1_0000 * table + 256 * j + i) == Bitwise(table, j, i)
  {
    var offset := 0x1_0000 * table + 256 * j + i;
    assert offset / 0x1_0000 == table && offset % 0x1_0000 == 256 * j + i;
    assert (256 * j + i) / 256 == j;
    assert offset % 256 == i;
  }

  /** Word tables for the three shifts: row j is the shift amount, column i the byte. */
  function TableWord(offset: nat): Word
    requires SLL8 <= offset < TABLES
  {
    var entry := (offset - SLL8) / 4;
    Entry(entry / 8192, entry / 256 % 32, entry % 256)
  }

  function Entry(table: nat, j: nat, i: Byte): Word {
    if table == 0 then Sll(i, j) else if table == 1 then SrlEntry(i, j) else SraEntry(i, j)
  }

  lemma TableEntry(table: nat, j: nat, i: Byte)
    requires table < 3 && j < 32
    ensures SLL8 <= SLL8 + 0x8000 * table + 1024 * j + 4 * i < TABLES
    ensures TableWord(SLL8 + 0x8000 * table + 1024 * j + 4 * i) == Entry(table, j, i)
  {
    var entry := 8192 * table + 256 * j + i;
    assert entry / 256 == 32 * table + j;
  }

  /** The sign tables: index 4 * sign(a) + 2 * sign(b) + sign(a - b). */
  const SLT1: seq<Byte> := [0, 1, 0, 0, 1, 1, 0, 1]
  const SLTU1: seq<Byte> := [0, 1, 1, 1, 0, 0, 0, 1]

  function Sign(x: Word): nat {
    if x >= W / 2 then 1 else 0
  }

  function Difference(x: Word, y: Word): Word {
    Wrap(x + (W - 1 - y) + 1)
  }

  /** It is subtraction modulo 2^32. */
  lemma DifferenceIs(x: Word, y: Word)
    ensures Difference(x, y) == if x >= y then x - y else W + x - y
    ensures Wrap(Difference(x, y) + y) == x
  {
  }

  lemma DifferenceBySum(x: Word, y: Word)
    ensures Sum(Sum(x, W - 1 - y), 1) == Difference(x, y)
  {
    WrapAdd(x + (W - 1 - y), 1);
  }

  /** The tables decide the signed and the unsigned comparison. */
  lemma SignTables(x: Word, y: Word)
    ensures var i := 4 * Sign(x) + 2 * Sign(y) + Sign(Difference(x, y));
      && SLT1[i] == (if Signed(x) < Signed(y) then 1 else 0)
      && SLTU1[i] == (if x < y then 1 else 0)
  {
    DifferenceIs(x, y);
  }

  // ----- bytes of a scratch word -----

  /** The number that bytes 0 to k make up. */
  function Value(q: Quad, k: nat): nat
    requires k < 4
    decreases k, q
  {
    if k == 0 then q.b0
    else Value(q, k - 1) + if k == 1 then 0x100 * q.b1 else if k == 2 then 0x1_0000 * q.b2 else 0x100_0000 * q.b3
  }

  lemma ValueIsJoin(q: Quad)
    ensures Value(q, 3) == Join32(q)
  {
    assert Value(q, 1) == q.b0 + 0x100 * q.b1;
    assert Value(q, 2) == Value(q, 1) + 0x1_0000 * q.b2;
  }

  function Val(q: Quad): Word {
    ValueIsJoin(q);
    Value(q, 3)
  }

  function Pick(q: Quad, k: nat): Byte
    requires k < 4
  {
    if k == 0 then q.b0 else if k == 1 then q.b1 else if k == 2 then q.b2 else q.b3
  }

  function Poke(q: Quad, k: nat, b: Byte): Quad
    requires k < 4
  {
    if k == 0 then q.(b0 := b) else if k == 1 then q.(b1 := b) else if k == 2 then q.(b2 := b) else q.(b3 := b)
  }

  function Sum(x: nat, y: nat): Word {
    Wrap(x + y)
  }

  /** Register zero cannot be written. */
  function Put(regs: seq<Word>, rd: Reg, x: Word): seq<Word>
    requires |regs| == 32
  {
    if rd == 0 then regs else regs[rd := x]
  }

  /** Two register files agree outside `except`. */
  ghost predicate Same(a: seq<Word>, b: seq<Word>, except: set<Reg>) {
    |a| == 32 && |b| == 32 && forall r: Reg :: r !in except ==> a[r] == b[r]
  }

  ghost predicate SameSlots(a: seq<Quad>, b: seq<Quad>, except: set<nat>) {
    |a| == 8 && |b| == 8 && forall n :: 0 <= n < 8 && n !in except ==> a[n] == b[n]
  }

  class Machine {
    const lut: nat
    const signs: nat
    var regs: seq<Word>
    var slots: seq<Quad>

    /** The register zero reads as 0; the tables lie inside the address space, the sign tables first. */
    ghost predicate Valid()
      reads this
    {
      |regs| == 32 && regs[0] == 0 && |slots| == 8 && signs + 16 <= lut && lut + TABLES <= W
    }

    // ----- base instructions -----

    method Write(rd: Reg, x: Word)
      requires Valid()
      modifies this`regs
      ensures Valid() && regs == Put(old(regs), rd, x)
    {
      if rd != 0 {
        regs := regs[rd := x];
      }
    }

    method Add(rd: Reg, a: Reg, b: Reg)
      requires Valid()
      modifies this`regs
      ensures Valid() && regs == Put(old(regs), rd, Sum(old(regs)[a], old(regs)[b]))
    {
      Write(rd, Sum(regs[a], regs[b]));
    }

    method Sw(rs: Reg, n: nat)
      requires Valid() && n < 8
      modifies this`slots
      ensures Valid() && slots == old(slots)[n := slots[n]] && Val(slots[n]) == regs[rs]
    {
      JoinSplit(regs[rs]);
      ValueIsJoin(Split32(regs[rs]));
      slots := slots[n := Split32(regs[rs])];
    }

    method Sb(rs: Reg, n: nat, k: nat)
      requires Valid() && n < 8 && k < 4
      modifies this`slots
      ensures Valid() && slots == old(slots)[n := Poke(old(slots)[n], k, regs[rs] % 256)]
    {
      slots := slots[n := Poke(slots[n], k, regs[rs] % 256)];
    }

    method Lw(rd: Reg, n: nat)
      requires Valid() && n < 8
      modifies this`regs
      ensures Valid() && regs == Put(old(regs), rd, Val(slots[n]))
    {
      Write(rd, Val(slots[n]));
    }

    method Lbu(rd: Reg, n: nat, k: nat)
      requires Valid() && n < 8 && k < 4
      modifies this`regs
      ensures Valid() && regs == Put(old(regs), rd, Pick(slots[n], k))
    {
      Write(rd, Pick(slots[n], k));
    }

    /** lui and addi: a table address. */
    method La(rd: Reg, address: Word)
      requires Valid()
      modifies this`regs
      ensures Valid() && regs == Put(old(regs), rd, address)
    {
      Write(rd, address);
    }

    ghost predicate IsByteTable(address: nat) {
      signs + 16 <= lut && (signs <= address < signs + 16 || lut <= address < lut + SLL8)
    }

    function ByteAt(address: nat): Byte
      requires IsByteTable(address)
    {
      if address < lut then (SLT1 + SLTU1)[address - signs] else TableByte(address - lut)
    }

    /** lbu through a pointer into a table. */
    method LbuAt(rd: Reg, rs: Reg)
      requires Valid() && IsByteTable(regs[rs])
      modifies this`regs
      ensures Valid() && regs == Put(old(regs), rd, ByteAt(old(regs)[rs]))
    {
      Write(rd, ByteAt(regs[rs]));
    }

    method LwAt(rd: Reg, rs: Reg)
      requires Valid() && lut + SLL8 <= regs[rs] < lut + TABLES
      modifies this`regs
      ensures Valid() && regs == Put(old(regs), rd, TableWord(old(regs)[rs] - lut))
    {
      Write(rd, TableWord(regs[rs] - lut));
    }

    method Addi(rd: Reg, rs: Reg, imm: nat)
      requires Valid()
      modifies this`regs
      ensures Valid() && regs == Put(old(regs), rd, Sum(old(regs)[rs], imm))
    {
      Write(rd, Sum(regs[rs], imm));
    }

    // ----- slli -----

    /** Shifts by repeated doubling. */
    method SlliAdds(rd: Reg, rs: Reg, imm: nat)
      requires Valid() && imm >= 1
      modifies this`regs
      ensures Valid() && regs == Put(old(regs), rd, Sll(old(regs)[rs], imm))
    {
      ghost var was, x := regs, regs[rs];
      SllDouble(x, 0);
      Add(rd, rs, rs);
      for i := 1 to imm
        invariant Valid() && regs == Put(was, rd, Sll(x, i))
      {
        SllDouble(x, i);
        Add(rd, rd, rd);
        assert regs == Put(was, rd, Sll(x, i + 1));
      }
    }

    /** One byte of a register, through a scratch word. */
    method GetByte(rd: Reg, rs: Reg, k: nat)
      requires Valid() && k < 4
      modifies this
      ensures Valid() && regs == Put(old(regs), rd, Pick(slots[VAR_C], k))
      ensures slots == old(slots)[VAR_C := slots[VAR_C]] && Val(slots[VAR_C]) == old(regs)[rs]
    {
      Sw(rs, VAR_C);
      Lbu(rd, VAR_C, k);
    }

    /** Stores a half word, byte by byte. */
    method Sh(rs: Reg, n: nat, k: nat)
      requires Valid() && n < 8 && n != VAR_C && k < 3
      modifies this
      ensures Valid() && Same(old(regs), regs, {TP}) && SameSlots(old(slots), slots, {n, VAR_C})
      ensures Val(slots[VAR_C]) == old(regs)[rs]
      ensures slots[n] == Poke(Poke(old(slots)[n], k, slots[VAR_C].b0), k + 1, slots[VAR_C].b1)
    {
      Sb(rs, n, k);
      GetByte(TP, rs, 1);
      LowBytes(slots[VAR_C]);
      Sb(TP, n, k + 1);
    }

    method Slli(rd: Reg, rs: Reg, imm: nat)
      requires Valid() && imm < 32
      modifies this
      ensures Valid() && (rd != 0 ==> regs[rd] == Sll(old(regs)[rs], imm))
      ensures Same(old(regs), regs, if 16 <= imm < 24 then {rd, TP} else {rd})
      ensures SameSlots(old(slots), slots, {VAR_A, VAR_C})
      decreases imm
    {
      ghost var x := regs[rs];
      if imm == 0 {
        if rd != rs {
          Addi(rd, rs, 0);
        }
      } else if imm >= 24 {
        Sw(0, VAR_A);
        TopByte(slots[VAR_A], x);
        Sb(rs, VAR_A, 3);
        Lw(rd, VAR_A);
        SllSll(x, 24, imm - 24);
        Slli(rd, rd, imm - 24);
      } else if imm >= 16 {
        Sw(0, VAR_A);
        ghost var zero := slots[VAR_A];
        Sh(rs, VAR_A, 2);
        TopHalf(zero, slots[VAR_C]);
        Lw(rd, VAR_A);
        SllSll(x, 16, imm - 16);
        Slli(rd, rd, imm - 16);
      } else {
        SlliAdds(rd, rs, imm);
      }
    }

    // ----- not and sub -----

    method NotByte(k: nat)
      requires Valid() && k < 4 && regs[TP] == lut + XOR8 + 0xff00
      modifies this
      ensures Valid() && Same(old(regs), regs, {GP})
      ensures slots == old(slots)[VAR_D := Poke(old(slots)[VAR_D], k, 255 - Pick(old(slots)[VAR_C], k))]
    {
      LoadNot(k);
      Sb(GP, VAR_D, k);
    }

    /** gp = complement of byte k of VAR_C. */
    method LoadNot(k: nat)
      requires Valid() && k < 4 && regs[TP] == lut + XOR8 + 0xff00
      modifies this`regs
      ensures Valid() && Same(old(regs), regs, {GP}) && regs[GP] == 255 - Pick(slots[VAR_C], k)
    {
      ghost var b := Pick(slots[VAR_C], k);
      NotAddress(b);
      Lbu(GP, VAR_C, k);
      Add(GP, GP, TP);
      assert regs[GP] == Sum(b, lut + XOR8 + 0xff00);
      LbuAt(GP, GP);
    }

    lemma NotAddress(b: Byte)
      requires Valid()
      ensures var address := Sum(b, lut + XOR8 + 0xff00);
        IsByteTable(address) && ByteAt(address) == 255 - b
    {
      NotEntry(b);
      SumFits(b, lut + XOR8 + 0xff00);
    }

    method Not(rd: Reg, rs: Reg)
      requires Valid()
      modifies this
      ensures Valid() && (rd != 0 ==> regs[rd] == W - 1 - old(regs)[rs])
      ensures Same(old(regs), regs, {rd, TP}) && SameSlots(old(slots), slots, {3, VAR_C, VAR_D})
    {
      Sw(GP, 3);
      Sw(rs, VAR_C);
      La(TP, lut + XOR8 + 0xff00);
      NotByte(3);
      NotByte(2);
      NotByte(1);
      NotByte(0);
      Lw(GP, 3);
      NotBytes(slots[VAR_C]);
      Lw(rd, VAR_D);
    }

    method Sub(rd: Reg, rs1: Reg, rs2: Reg)
      requires Valid() && rs1 != TP
      modifies this
      ensures Valid() && (rd != 0 ==> regs[rd] == Difference(old(regs)[rs1], old(regs)[rs2]))
      ensures Same(old(regs), regs, {rd, TP}) && SameSlots(old(slots), slots, {3, VAR_C, VAR_D})
    {
      ghost var x, y := regs[rs1], regs[rs2];
      Not(TP, rs2);
      Add(rd, rs1, TP);
      Addi(rd, rd, 1);
      DifferenceBySum(x, y);
    }

    // ----- slt and sltu -----

    method Msb(rd: Reg, rs: Reg)
      requires Valid() && rd != 0
      modifies this
      ensures Valid() && regs == old(regs)[rd := Sign(old(regs)[rs])]
      ensures SameSlots(old(slots), slots, {VAR_C})
    {
      ghost var was, x := regs, regs[rs];
      GetByte(rd, rs, 3);
      ghost var q := slots[VAR_C];
      SlliAdds(rd, rd, 1);
      GetByte(rd, rd, 1);
      TopBit(q, slots[VAR_C]);
      assert regs == was[rd := Sign(x)];
    }

    /** Adds the sign bit of a register to gp. */
    method AppendSign(rs: Reg)
      requires Valid() && regs[GP] <= 6 && regs[GP] % 2 == 0
      modifies this
      ensures Valid() && Same(old(regs), regs, {GP, TP}) && regs[GP] == old(regs)[GP] + Sign(old(regs)[rs])
      ensures SameSlots(old(slots), slots, {VAR_C})
    {
      Msb(TP, rs);
      Add(GP, GP, TP);
    }

    method DoubleGp()
      requires Valid() && regs[GP] <= 3
      modifies this`regs
      ensures Valid() && Same(old(regs), regs, {GP}) && regs[GP] == 2 * old(regs)[GP]
    {
      SllDouble(regs[GP], 0);
      SlliAdds(GP, GP, 1);
    }

    /** The index into a sign table for the operands in s0 and s1. */
    method SignIndex()
      requires Valid()
      modifies this
      ensures Valid() && Same(old(regs), regs, {GP, TP})
      ensures var x, y := old(regs)[S0], old(regs)[S1];
        regs[GP] == 4 * Sign(x) + 2 * Sign(y) + Sign(Difference(x, y))
      ensures SameSlots(old(slots), slots, {3, VAR_C, VAR_D})
    {
      Msb(GP, S0);
      DoubleGp();
      AppendSign(S1);
      DoubleGp();
      Sub(TP, S0, S1);
      AppendSign(TP);
    }

    /** Saves s0 and s1 and loads the operands into them. */
    method LoadOperands(rs1: Reg, rs2: Reg)
      requires Valid()
      modifies this
      ensures Valid() && Same(old(regs), regs, {S0, S1})
      ensures regs[S0] == old(regs)[rs1] && regs[S1] == old(regs)[rs2]
      ensures Val(slots[1]) == old(regs)[S0] && Val(slots[2]) == old(regs)[S1]
    {
      Sw(S0, 1);
      Sw(S1, 2);
      Sw(rs2, VAR_A);
      Addi(S0, rs1, 0);
      Lw(S1, VAR_A);
    }

    /** tp points at entry number gp of a sign table. */
    method SignAddress(unsigned: bool)
      requires Valid() && regs[GP] < 8
      modifies this`regs
      ensures Valid() && Same(old(regs), regs, {TP})
      ensures IsByteTable(regs[TP]) && ByteAt(regs[TP]) == (if unsigned then SLTU1 else SLT1)[old(regs)[GP]]
    {
      La(TP, if unsigned then signs + 8 else signs);
      Add(TP, TP, GP);
    }

    method Slt(rd: Reg, rs1: Reg, rs2: Reg, unsigned: bool)
      requires Valid()
      modifies this
      ensures Valid() && Same(old(regs), regs, {rd, TP, GP})
      ensures var x, y := old(regs)[rs1], old(regs)[rs2];
        rd != 0 ==> regs[rd] == if (if unsigned then x < y else Signed(x) < Signed(y)) then 1 else 0
    {
      LoadOperands(rs1, rs2);
      SignTables(regs[S0], regs[S1]);
      SignIndex();
      SignAddress(unsigned);
      Lw(S1, 2);
      Lw(S0, 1);
      LbuAt(rd, TP);
    }

    // ----- register shifts -----

    /** The row of a shift table for the amount `sh` starts at s0; the shifted word is in VAR_A. */
    ghost predicate RowReady(table: nat, sh: nat, q: Quad)
      reads this
    {
      Valid() && table < 3 && sh < 32 && slots[VAR_A] == q && regs[S0] == lut + SLL8 + 0x8000 * table + 1024 * sh
    }

    method GetShamt(rd: Reg, rs: Reg)
      requires Valid() && rd != 0 && rd != TP
      modifies this
      ensures Valid() && Same(old(regs), regs, {rd, TP}) && regs[rd] == old(regs)[rs] % 32
      ensures SameSlots(old(slots), slots, {VAR_B})
    {
      ghost var b := regs[rs] % 256;
      ShamtEntry(b);
      Sb(rs, VAR_B, 0);
      Lbu(rd, VAR_B, 0);
      La(TP, lut + 0x1f00);
      Add(rd, rd, TP);
      assert regs[rd] == lut + (0x1f00 + b);
      LbuAt(rd, rd);
      LowFive(old(regs)[rs]);
    }

    /** s0 = 256 * s0 for a small s0. */
    method StoreRow()
      requires Valid() && regs[S0] < 32
      modifies this
      ensures Valid() && Same(old(regs), regs, {S0}) && SameSlots(old(slots), slots, {VAR_B})
      ensures regs[S0] == 0x100 * old(regs)[S0]
    {
      Sw(0, VAR_B);
      assert regs[S0] % 256 == regs[S0];
      RowValue(slots[VAR_B], regs[S0] % 256);
      Sb(S0, VAR_B, 1);
      Lw(S0, VAR_B);
    }

    /** s0 = 1024 * s0 for a small s0. */
    method ScaleRow()
      requires Valid() && regs[S0] < 32
      modifies this
      ensures Valid() && Same(old(regs), regs, {S0}) && SameSlots(old(slots), slots, {VAR_B})
      ensures regs[S0] == 1024 * old(regs)[S0]
    {
      SllTwo(0x100 * regs[S0]);
      StoreRow();
      SlliAdds(S0, S0, 2);
    }

    method RowAddress(rs2: Reg, table: nat)
      requires Valid() && table < 3
      modifies this
      ensures RowReady(table, old(regs)[rs2] % 32, old(slots)[VAR_A])
      ensures Same(old(regs), regs, {S0, TP}) && SameSlots(old(slots), slots, {VAR_B})
    {
      GetShamt(S0, rs2);
      ScaleRow();
      La(TP, lut + SLL8 + 0x8000 * table);
      SumFits(regs[S0], regs[TP]);
      Add(S0, S0, TP);
    }

    /** Loads the table entry for byte k of the word in VAR_A. */
    method GetShiftByte(k: nat, ghost table: nat, ghost sh: nat, ghost q: Quad)
      requires RowReady(table, sh, q) && k < 4
      modifies this`regs
      ensures RowReady(table, sh, q) && Same(old(regs), regs, {TP}) && regs[TP] == Entry(table, sh, Pick(q, k))
    {
      SllTwo(Pick(q, k));
      TableEntry(table, sh, Pick(q, k));
      Lbu(TP, VAR_A, k);
      SlliAdds(TP, TP, 2);
      Add(TP, S0, TP);
      assert regs[TP] == lut + (SLL8 + 0x8000 * table + 1024 * sh + 4 * Pick(q, k));
      LwAt(TP, TP);
    }

    /** gp = low byte of tp, moved to the top of a word. */
    method StoreTop()
      requires Valid() && Val(slots[VAR_B]) == 0
      modifies this
      ensures Valid() && Same(old(regs), regs, {GP}) && SameSlots(old(slots), slots, {VAR_B})
      ensures regs[GP] == old(regs)[TP] % 256 * 0x100_0000
      ensures slots[VAR_B].b0 == 0 && slots[VAR_B].b1 == 0
    {
      ZeroQuad(slots[VAR_B]);
      Sb(TP, VAR_B, 3);
      JoinTop(slots[VAR_B]);
      Lw(GP, VAR_B);
    }

    method LeftTop(ghost sh: nat, ghost q: Quad)
      requires RowReady(0, sh, q)
      modifies this
      ensures RowReady(0, sh, q) && Same(old(regs), regs, {GP, TP}) && SameSlots(old(slots), slots, {VAR_B})
      ensures regs[GP] == Sll(q.b3, sh) % 256 * 0x100_0000
      ensures slots[VAR_B].b0 == 0 && slots[VAR_B].b1 == 0
    {
      Sw(0, VAR_B);
      GetShiftByte(3, 0, sh, q);
      StoreTop();
    }

    /** tp = low half of tp, moved to the upper half of a word. */
    method StoreUpper()
      requires Valid() && slots[VAR_B].b0 == 0 && slots[VAR_B].b1 == 0
      modifies this
      ensures Valid() && Same(old(regs), regs, {TP}) && SameSlots(old(slots), slots, {VAR_B, VAR_C})
      ensures regs[TP] == old(regs)[TP] % 0x1_0000 * 0x1_0000
    {
      Sh(TP, VAR_B, 2);
      UpperHalf(slots[VAR_B], slots[VAR_C]);
      Lw(TP, VAR_B);
    }

    /** gp += entry of byte 2, moved to the upper half of a word. */
    method LeftSecond(ghost sh: nat, ghost q: Quad)
      requires RowReady(0, sh, q) && slots[VAR_B].b0 == 0 && slots[VAR_B].b1 == 0
      modifies this
      ensures RowReady(0, sh, q) && Same(old(regs), regs, {GP, TP})
      ensures SameSlots(old(slots), slots, {VAR_B, VAR_C})
      ensures regs[GP] == Sum(old(regs)[GP], Sll(q.b2, sh) % 0x1_0000 * 0x1_0000)
    {
      GetShiftByte(2, 0, sh, q);
      StoreUpper();
      Add(GP, GP, TP);
    }

    /** gp += entry of byte 1, shifted by 8. */
    method LeftThird(ghost sh: nat, ghost q: Quad)
      requires RowReady(0, sh, q)
      modifies this`regs
      ensures RowReady(0, sh, q) && Same(old(regs), regs, {GP, TP})
      ensures regs[GP] == Sum(old(regs)[GP], Wrap(Sll(q.b1, sh) * 0x100))
    {
      GetShiftByte(1, 0, sh, q);
      SllPlaces(regs[TP]);
      SlliAdds(TP, TP, 8);
      Add(GP, GP, TP);
    }

    method ShiftLeft(rd: Reg, rs1: Reg, rs2: Reg)
      requires Valid()
      modifies this
      ensures Valid() && Same(old(regs), regs, {rd, TP, GP})
      ensures rd != 0 ==> regs[rd] == Sll(old(regs)[rs1], old(regs)[rs2] % 32)
    {
      ghost var sh := regs[rs2] % 32;
      Sw(S0, 1);
      Sw(rs1, VAR_A);
      ghost var q := slots[VAR_A];
      RowAddress(rs2, 0);
      LeftTop(sh, q);
      LeftSecond(sh, q);
      LeftThird(sh, q);
      GetShiftByte(0, 0, sh, q);
      Lw(S0, 1);
      Add(rd, GP, TP);
      LeftResult(q, sh);
    }

    // ----- right shifts -----

    method LoadEntries(ghost sh: nat, ghost q: Quad)
      requires RowReady(1, sh, q)
      modifies this
      ensures RowReady(1, sh, q) && Same(old(regs), regs, {TP})
      ensures SameSlots(old(slots), slots, {VAR_B, VAR_C, VAR_D})
      ensures Val(slots[VAR_B]) == SrlEntry(q.b2, sh) && Val(slots[VAR_C]) == SrlEntry(q.b1, sh)
      ensures Val(slots[VAR_D]) == SrlEntry(q.b0, sh)
    {
      GetShiftByte(2, 1, sh, q);
      Sw(TP, VAR_B);
      GetShiftByte(1, 1, sh, q);
      Sw(TP, VAR_C);
      GetShiftByte(0, 1, sh, q);
      Sw(TP, VAR_D);
    }

    /** Byte 0 of the result replaces the word in VAR_D. */
    method AddByte0(ghost n0: nat)
      requires Valid() && n0 == slots[VAR_B].b1 + slots[VAR_C].b2 + slots[VAR_D].b3 < 256
      modifies this
      ensures Valid() && Same(old(regs), regs, {GP, TP}) && SameSlots(old(slots), slots, {VAR_D})
      ensures slots[VAR_D] == Quad(n0, 0, 0, 0)
    {
      Lbu(GP, VAR_B, 1);
      Lbu(TP, VAR_C, 2);
      Add(GP, GP, TP);
      Lbu(TP, VAR_D, 3);
      Add(GP, GP, TP);
      assert regs[GP] == n0;
      Sw(GP, VAR_D);
      SmallQuad(slots[VAR_D]);
    }

    method AddByte1(ghost n1: nat)
      requires Valid() && n1 == slots[VAR_B].b2 + slots[VAR_C].b3 < 256
      modifies this
      ensures Valid() && Same(old(regs), regs, {GP, TP}) && SameSlots(old(slots), slots, {VAR_D})
      ensures slots[VAR_D] == old(slots)[VAR_D].(b1 := n1)
    {
      Lbu(GP, VAR_B, 2);
      Lbu(TP, VAR_C, 3);
      Add(GP, GP, TP);
      assert regs[GP] == n1;
      Sb(GP, VAR_D, 1);
    }

    method AddByte2(ghost n0: nat, ghost n1: nat)
      requires Valid() && n0 < 256 && n1 < 256 && slots[VAR_D] == Quad(n0, n1, 0, 0)
      modifies this
      ensures Valid() && Same(old(regs), regs, {GP}) && SameSlots(old(slots), slots, {VAR_D})
      ensures regs[GP] == n0 + 0x100 * n1 + 0x1_0000 * old(slots)[VAR_B].b3
    {
      Lbu(GP, VAR_B, 3);
      Sb(GP, VAR_D, 2);
      ThreeBytes(n0, n1, regs[GP]);
      Lw(GP, VAR_D);
    }

    /** Adds up the entries byte by byte; gp holds the shift of the three lower bytes. */
    method AddEntries(ghost sh: nat, ghost q: Quad)
      requires RowReady(1, sh, q)
      modifies this
      ensures RowReady(1, sh, q) && Same(old(regs), regs, {GP, TP})
      ensures SameSlots(old(slots), slots, {VAR_B, VAR_C, VAR_D})
      ensures regs[GP] == Shr(LowThree(q), sh)
    {
      LoadEntries(sh, q);
      ghost var n0, n1 := EntryBytes(q, sh, slots[VAR_B], slots[VAR_C], slots[VAR_D]);
      AddByte0(n0);
      AddByte1(n1);
      AddByte2(n0, n1);
    }

    /** Loads the entry of the top byte, from the arithmetic table if asked to. */
    method GetTopEntry(arith: bool, ghost sh: nat, ghost q: Quad)
      requires RowReady(1, sh, q)
      modifies this`regs
      ensures Valid() && Same(old(regs), regs, {S0, TP})
      ensures regs[TP] == if arith then SraEntry(q.b3, sh) else SrlEntry(q.b3, sh)
    {
      if arith {
        La(TP, SRA8 - SRL8);
        Add(S0, S0, TP);
        assert RowReady(2, sh, q);
        GetShiftByte(3, 2, sh, q);
      } else {
        GetShiftByte(3, 1, sh, q);
      }
    }

    method AddTopEntry(rd: Reg, arith: bool, ghost sh: nat, ghost q: Quad, ghost s0: Word)
      requires RowReady(1, sh, q) && regs[GP] == Shr(LowThree(q), sh) && Val(slots[1]) == s0
      modifies this`regs
      ensures Valid() && Same(old(regs), regs, {rd, S0, TP}) && (rd != S0 ==> regs[S0] == s0)
      ensures rd != 0 ==> regs[rd] == RightShift(Val(q), sh, arith)
    {
      GetTopEntry(arith, sh, q);
      Lw(S0, 1);
      RightResult(q, sh, arith);
      Add(rd, GP, TP);
    }

    method ShiftRight(rd: Reg, rs1: Reg, rs2: Reg, arith: bool)
      requires Valid()
      modifies this
      ensures Valid() && Same(old(regs), regs, {rd, TP, GP})
      ensures var x, sh := old(regs)[rs1], old(regs)[rs2] % 32;
        rd != 0 ==> regs[rd] == RightShift(x, sh, arith)
    {
      ghost var sh := regs[rs2] % 32;
      Sw(S0, 1);
      Sw(rs1, VAR_A);
      ghost var q := slots[VAR_A];
      RowAddress(rs2, 1);
      AddEntries(sh, q);
      AddTopEntry(rd, arith, sh, q, old(regs)[S0]);
    }

    method ShiftRightTop(rd: Reg, rs1: Reg, imm: nat)
      requires Valid() && rd != TP && imm == 24
      modifies this
      ensures Valid() && Same(old(regs), regs, {rd, TP})
      ensures rd != 0 ==> regs[rd] == Sra(old(regs)[rs1], imm)
    {
      Sw(rs1, VAR_A);
      ghost var q := slots[VAR_A];
      TopEntry(q, imm);
      SllTwo(q.b3);
      ghost var i := if rd == 0 then 0 else q.b3;
      TableEntry(2, imm, i);
      La(TP, lut + SRA8 + 1024 * imm);
      Lbu(rd, VAR_A, 3);
      SlliAdds(rd, rd, 2);
      assert regs[rd] == 4 * i;
      SumFits(regs[TP], 4 * i);
      Add(TP, TP, rd);
      assert regs[TP] == lut + (SLL8 + 0x8000 * 2 + 1024 * imm + 4 * i);
      LwAt(rd, TP);
    }

    /** The shift by a constant; by 24 it is one byte or one table entry. That short path needs tp for
        the table address, so the arithmetic shift by 24 cannot have tp as its destination. */
    method ShiftRightImm(rd: Reg, rs1: Reg, imm: nat, arith: bool)
      requires Valid() && imm < 32 && !(imm == 24 && arith && rd == TP)
      modifies this
      ensures Valid() && Same(old(regs), regs, {rd, TP, GP})
      ensures rd != 0 ==> regs[rd] == RightShift(old(regs)[rs1], imm, arith)
    {
      if imm == 24 && arith {
        ShiftRightTop(rd, rs1, imm);
      } else if imm == 24 {
        ShrByte(regs[rs1]);
        GetByte(rd, rs1, 3);
        ValueIsJoin(slots[VAR_C]);
      } else {
        Sw(S0, 1);
        Sw(rs1, VAR_A);
        ghost var q := slots[VAR_A];
        La(S0, lut + SRL8 + 1024 * imm);
        AddEntries(imm, q);
        AddTopEntry(rd, arith, imm, q, old(regs)[S0]);
      }
    }
  }

  lemma BytesFit(j: nat, i: nat)
    requires j < 256 && i < 256
    ensures And(j, i) < 256 && Or(j, i) < 256 && Xor(j, i) < 256
  {
    Powers();
    OrBound(j, i, 8);
    AndBound(j, i, 8);
    XorBound(j, i, 8);
  }

  lemma {:induction false} AndBound(x: nat, y: nat, k: nat)
    requires x < Pow2(k) && y < Pow2(k)
    ensures And(x, y) < Pow2(k)
  {
    if k > 0 {
      AndBound(x / 2, y / 2, k - 1);
    }
  }

  lemma {:induction false} XorBound(x: nat, y: nat, k: nat)
    requires x < Pow2(k) && y < Pow2(k)
    ensures Xor(x, y) < Pow2(k)
  {
    if k > 0 {
      XorBound(x / 2, y / 2, k - 1);
      XorStep(x, y);
    }
  }

  lemma SllDouble(x: Word, i: nat)
    ensures Sum(Sll(x, i), Sll(x, i)) == Sll(x, i + 1)
    ensures Sll(x, 0) == x
  {
    WrapTimes(Shl(x, i), 2);
  }

  lemma SllSll(x: Word, j: nat, k: nat)
    ensures Sll(Sll(x, j), k) == Sll(x, j + k)
  {
    ShlMul(Shl(x, j), k);
    ShlMul(Sll(x, j), k);
    WrapTimes(Shl(x, j), Pow2(k));
    ShlShl(x, j, k);
  }

  lemma ZeroQuad(q: Quad)
    requires Val(q) == 0
    ensures q.b0 == 0 && q.b1 == 0 && q.b2 == 0 && q.b3 == 0
  {
    ValueIsJoin(q);
  }

  lemma SmallQuad(q: Quad)
    requires Val(q) < 256
    ensures q == Quad(Val(q), 0, 0, 0)
  {
    ValueIsJoin(q);
  }

  lemma JoinTop(q: Quad)
    requires q.b0 == 0 && q.b1 == 0 && q.b2 == 0
    ensures Val(q) == q.b3 * 0x100_0000
  {
    ValueIsJoin(q);
  }

  lemma ThreeBytes(n0: Byte, n1: Byte, n2: Byte)
    ensures Val(Quad(n0, n1, n2 % 256, 0)) == n0 + 0x100 * n1 + 0x1_0000 * n2
  {
    ValueIsJoin(Quad(n0, n1, n2, 0));
  }

  lemma RowValue(zero: Quad, b: Byte)
    requires Val(zero) == 0
    ensures Val(Poke(zero, 1, b)) == 0x100 * b
  {
    ZeroQuad(zero);
    SecondByte(Poke(zero, 1, b));
  }

  lemma SecondByte(q: Quad)
    requires q.b0 == 0 && q.b2 == 0 && q.b3 == 0
    ensures Val(q) == 0x100 * q.b1
  {
    ValueIsJoin(q);
  }

  lemma LowBytes(q: Quad)
    ensures Val(q) % 256 == q.b0 && Val(q) % 0x1_0000 == q.b0 + 0x100 * q.b1
  {
    ValueIsJoin(q);
    RemainderIs(q.b0, q.b1 + 0x100 * q.b2 + 0x1_0000 * q.b3);
    HalfRemainderIs(q.b0 + 0x100 * q.b1, q.b2 + 0x100 * q.b3);
  }

  lemma UpperHalf(b: Quad, c: Quad)
    requires b == Quad(0, 0, c.b0, c.b1)
    ensures Val(b) == Val(c) % 0x1_0000 * 0x1_0000
  {
    LowBytes(c);
    ValueIsJoin(b);
  }

  lemma RemainderIs(r: nat, m: nat)
    requires r < 256
    ensures (r + 256 * m) % 256 == r
  {
  }

  lemma HalfRemainderIs(r: nat, m: nat)
    requires r < 0x1_0000
    ensures (r + 0x1_0000 * m) % 0x1_0000 == r
  {
  }

  lemma TopByte(zero: Quad, x: Word)
    requires Val(zero) == 0
    ensures Val(Poke(zero, 3, x % 256)) == Sll(x, 24)
  {
    ValueIsJoin(zero);
    ValueIsJoin(Poke(zero, 3, x % 256));
    ByteAtTop(x);
    SllPlaces(x);
  }

  lemma TopHalf(zero: Quad, q: Quad)
    requires Val(zero) == 0
    ensures Val(Poke(Poke(zero, 2, q.b0), 3, q.b1)) == Sll(Val(q), 16)
  {
    ValueIsJoin(zero);
    ValueIsJoin(Poke(Poke(zero, 2, q.b0), 3, q.b1));
    LowBytes(q);
    HalfAtTop(Val(q));
    SllPlaces(Val(q));
  }

  lemma NotEntry(b: Byte)
    ensures TableByte(XOR8 + 0xff00 + b) == 255 - b
  {
    ByteEntry(2, 255, b);
    XorAllOnes(b, 255);
  }

  lemma XorAllOnes(b: Byte, ones: nat)
    requires ones == 255
    ensures Xor(ones, b) == ones - b
  {
    var m := PlacePower(0x100);
    XorOnes(b, m);
    XorCommutes(ones, b);
  }

  lemma NotBytes(q: Quad)
    ensures Val(Quad(255 - q.b0, 255 - q.b1, 255 - q.b2, 255 - q.b3)) == W - 1 - Val(q)
  {
    ValueIsJoin(q);
    ValueIsJoin(Quad(255 - q.b0, 255 - q.b1, 255 - q.b2, 255 - q.b3));
  }

  lemma TopBit(q: Quad, doubled: Quad)
    requires Val(doubled) == Sll(q.b3, 1)
    ensures doubled.b1 == Sign(Val(q))
  {
    SllOne(q.b3);
    SmallHalf(doubled, q.b3);
    SignByte(q);
  }

  lemma SllOne(b: Byte)
    ensures Sll(b, 1) == 2 * b
  {
  }

  lemma SignByte(q: Quad)
    ensures Sign(Val(q)) == if q.b3 >= 128 then 1 else 0
  {
    ValueIsJoin(q);
  }

  lemma SmallHalf(q: Quad, b: Byte)
    requires Val(q) == 2 * b
    ensures q.b1 == if b >= 128 then 1 else 0
  {
    ValueIsJoin(q);
    assert q.b3 == 0 && q.b2 == 0;
  }

  lemma ShamtEntry(b: Byte)
    ensures TableByte(0x1f00 + b) == b % 32
  {
    ByteEntry(0, 31, b);
    AndLow(b, 5, 31);
  }

  lemma AndLow(b: nat, k: nat, m: nat)
    requires k == 5 && m == 31
    ensures And(m, b) == b % 32
  {
    assert Pow2(5) == 32;
    AndCommutes(m, b);
    AndRemainder(b, k);
  }

  lemma AndRemainder(x: nat, m: nat)
    ensures Pow2(m) > 0 && And(x, Pow2(m) - 1) == x % Pow2(m)
  {
    AndMask(x, m);
    LowIsRemainder(x, m);
  }

  lemma LowFive(y: Word)
    ensures y % 256 % 32 == y % 32
  {
  }

  lemma SllTwo(y: Word)
    requires 4 * y < W
    ensures Sll(y, 2) == 4 * y
  {
    assert Shl(y, 2) == 4 * y;
  }

  lemma LeftResult(q: Quad, sh: nat)
    ensures var t3, t2 := Sll(q.b3, sh) % 256 * 0x100_0000, Sll(q.b2, sh) % 0x1_0000 * 0x1_0000;
      Sum(Sum(Sum(t3, t2), Wrap(Sll(q.b1, sh) * 0x100)), Sll(q.b0, sh)) == Sll(Val(q), sh)
  {
    ValueIsJoin(q);
    var t3, t2 := Sll(q.b3, sh) % 256 * 0x100_0000, Sll(q.b2, sh) % 0x1_0000 * 0x1_0000;
    var t1, t0 := Wrap(Sll(q.b1, sh) * 0x100), Sll(q.b0, sh);
    SllFromBytes(q, sh, t3, t2, t1, t0);
    WrapAdd(t3 + t2, t1);
    WrapAdd(t3 + t2 + t1, t0);
  }

  /** The byte sums of three stored table entries do not carry. */
  lemma EntryBytes(q: Quad, sh: nat, y2: Quad, y1: Quad, y0: Quad) returns (n0: nat, n1: nat)
    requires Val(y2) == SrlEntry(q.b2, sh) && Val(y1) == SrlEntry(q.b1, sh) && Val(y0) == SrlEntry(q.b0, sh)
    ensures n0 == y2.b1 + y1.b2 + y0.b3 < 256 && n1 == y2.b2 + y1.b3 < 256
    ensures n0 + 0x100 * n1 + 0x1_0000 * y2.b3 == Shr(LowThree(q), sh)
  {
    ValueIsJoin(y2);
    ValueIsJoin(y1);
    ValueIsJoin(y0);
    SplitJoin(y2);
    SplitJoin(y1);
    SplitJoin(y0);
    NoCarry(q, sh);
    n0, n1 := LowByte0(q, sh), LowByte1(q, sh);
  }

  /** Shifting by 24 leaves only the top byte. */
  lemma TopEntry(q: Quad, s: nat)
    requires s == 24
    ensures SraEntry(q.b3, s) == Sra(Val(q), s)
  {
    ValueIsJoin(q);
    SraFromBytes(q, s);
    ShrByte(LowThree(q));
  }

  function RightShift(x: Word, sh: nat, arith: bool): Word {
    if arith then Sra(x, sh) else Srl(x, sh)
  }

  lemma SumFits(a: nat, b: nat)
    requires a + b < W
    ensures Sum(a, b) == a + b
  {
  }

  lemma RightResult(q: Quad, sh: nat, arith: bool)
    ensures Sum(Shr(LowThree(q), sh), if arith then SraEntry(q.b3, sh) else SrlEntry(q.b3, sh))
            == RightShift(Val(q), sh, arith)
  {
    ValueIsJoin(q);
    if arith {
      SraFromBytes(q, sh);
      SumFits(Shr(LowThree(q), sh), SraEntry(q.b3, sh));
    } else {
      SrlFromBytes(q, sh);
      SumFits(Shr(LowThree(q), sh), SrlEntry(q.b3, sh));
    }
  }
}
