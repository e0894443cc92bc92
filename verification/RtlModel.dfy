/**
  The model of the hardware branch target buffer: allocation policies, direction counters and the
  statistics of a run over a branch trace.
  */
module RtlModel {
  import opened Bits
  import opened Predictors
  import opened Words

  // ----- instructions -----

  datatype Kind = Branch | Jal | Ret | Jalr

  /** One control instruction of the trace and the address executed next. */
  datatype Record = Record(pc: Word, code: Word, nxt: Word)

  predicate IsControl(code: Word) {
    code % 128 == 0x63 || code % 128 == 0x6f || code % 128 == 0x67
  }

  function KindOf(code: Word): Kind {
    if code % 128 == 0x63 then Branch
    else if code % 128 == 0x6f then Jal
    else if code == 0x8067 then Ret
    else Jalr
  }

  function SignExtend(value: nat, bits: nat): Word
    requires 0 < bits < 32
  {
    SmallPower(bits - 1);
    Wrap(Xor(value, Pow2(bits - 1)) + W - Pow2(bits - 1))
  }

  // The offset fields of a branch and of a jump, put together, and their sign extension.

  function BField(code: Word): nat {
    code / 0x8000_0000 * 0x1000 + code / 0x80 % 2 * 0x800 + code / 0x200_0000 % 64 * 0x20 + code / 0x100 % 16 * 2
  }

  function JField(code: Word): nat {
    code / 0x8000_0000 * 0x10_0000 + code / 0x1000 % 256 * 0x1000 + code / 0x10_0000 % 2 * 0x800
    + code / 0x20_0000 % 1024 * 2
  }

  function BImm(code: Word): Word {
    SignExtend(BField(code), 13)
  }

  function JImm(code: Word): Word {
    SignExtend(JField(code), 21)
  }

  /** The target of a branch or a jump that carries its offset. */
  function DirectTarget(pc: Word, code: Word): Word {
    Wrap(pc + if KindOf(code) == Branch then BImm(code) else JImm(code))
  }

  lemma {:induction false} SmallPower(k: nat)
    requires k <= 32
    ensures Pow2(k) <= W
  {
    Powers();
    Pow2Monotone(k, 32);
  }

  /** Sign extension of an encoded offset gives the offset modulo 2^32. */
  lemma SignExtended(offset: int, bits: nat, half: nat)
    requires 0 < bits < 32 && half == Pow2(bits - 1) && 0 <= offset + half < 2 * half && half < W
    ensures SignExtend(if offset >= 0 then offset else offset + 2 * half, bits) ==
            if offset >= 0 then offset else offset + W
  {
    if offset >= 0 {
      XorTop(offset, bits - 1);
      WrapBy(offset, 1);
    } else {
      XorTop(offset + half, bits - 1);
      XorTwice(offset + half, half);
      WrapBy(offset + W, 0);
    }
  }

  lemma WrapBy(x: Word, n: nat)
    ensures Wrap(x + n * W) == x
  {
    QuotientIs(W, n, x);
  }

  // The encodings of a branch and of a jump by their fields, from section 2.5 of The RISC-V Instruction
  // Set Manual, Volume I; the register and function fields are one number.

  /** Reads the digit d of a number at a place. */
  lemma Field(code: nat, high: nat, base: nat, d: nat, place: nat, low: nat)
    requires code == (high * base + d) * place + low && d < base && low < place
    ensures code / place % base == d
  {
    QuotientIs(place, high * base + d, low);
    QuotientIs(base, high, d);
  }

  lemma LowField(code: nat, high: nat, d: nat, place: nat)
    requires code == high * place + d && d < place
    ensures code % place == d
  {
    QuotientIs(place, high, d);
  }

  lemma TopField(code: nat, d: nat, place: nat, low: nat)
    requires code == d * place + low && low < place
    ensures code / place == d
  {
    QuotientIs(place, d, low);
  }

  predicate IsBranchCode(code: nat, b12: nat, b11: nat, b10: nat, b4: nat, regs: nat) {
    b12 < 2 && b11 < 2 && b10 < 64 && b4 < 16 && regs < 0x2000 &&
    code == b12 * 0x8000_0000 + b10 * 0x200_0000 + regs * 0x1000 + b4 * 0x100 + b11 * 0x80 + 0x63
  }

  lemma BranchOpcode(code: nat, b12: nat, b11: nat, b10: nat, b4: nat, regs: nat)
    requires IsBranchCode(code, b12, b11, b10, b4, regs)
    ensures code < W && code % 128 == 0x63
  {
    LowField(code, b12 * 0x100_0000 + b10 * 0x4_0000 + regs * 0x20 + b4 * 2 + b11, 0x63, 128);
  }

  lemma BranchSign(code: nat, b12: nat, b11: nat, b10: nat, b4: nat, regs: nat)
    requires IsBranchCode(code, b12, b11, b10, b4, regs)
    ensures code / 0x8000_0000 == b12
  {
    TopField(code, b12, 0x8000_0000, b10 * 0x200_0000 + regs * 0x1000 + b4 * 0x100 + b11 * 0x80 + 0x63);
  }

  lemma BranchBit11(code: nat, b12: nat, b11: nat, b10: nat, b4: nat, regs: nat)
    requires IsBranchCode(code, b12, b11, b10, b4, regs)
    ensures code / 0x80 % 2 == b11
  {
    Field(code, b12 * 0x80_0000 + b10 * 0x2_0000 + regs * 0x10 + b4, 2, b11, 0x80, 0x63);
  }

  lemma BranchBits10(code: nat, b12: nat, b11: nat, b10: nat, b4: nat, regs: nat)
    requires IsBranchCode(code, b12, b11, b10, b4, regs)
    ensures code / 0x200_0000 % 64 == b10
  {
    Field(code, b12, 64, b10, 0x200_0000, regs * 0x1000 + b4 * 0x100 + b11 * 0x80 + 0x63);
  }

  lemma BranchBits4(code: nat, b12: nat, b11: nat, b10: nat, b4: nat, regs: nat)
    requires IsBranchCode(code, b12, b11, b10, b4, regs)
    ensures code / 0x100 % 16 == b4
  {
    Field(code, b12 * 0x8_0000 + b10 * 0x2000 + regs, 16, b4, 0x100, b11 * 0x80 + 0x63);
  }

  predicate IsJumpCode(code: nat, b20: nat, b19: nat, b11: nat, b10: nat, rd: nat) {
    b20 < 2 && b19 < 256 && b11 < 2 && b10 < 1024 && rd < 32 &&
    code == b20 * 0x8000_0000 + b10 * 0x20_0000 + b11 * 0x10_0000 + b19 * 0x1000 + rd * 0x80 + 0x6f
  }

  lemma JumpOpcode(code: nat, b20: nat, b19: nat, b11: nat, b10: nat, rd: nat)
    requires IsJumpCode(code, b20, b19, b11, b10, rd)
    ensures code < W && code % 128 == 0x6f
  {
    LowField(code, b20 * 0x100_0000 + b10 * 0x4000 + b11 * 0x2000 + b19 * 0x20 + rd, 0x6f, 128);
  }

  lemma JumpSign(code: nat, b20: nat, b19: nat, b11: nat, b10: nat, rd: nat)
    requires IsJumpCode(code, b20, b19, b11, b10, rd)
    ensures code / 0x8000_0000 == b20
  {
    TopField(code, b20, 0x8000_0000, b10 * 0x20_0000 + b11 * 0x10_0000 + b19 * 0x1000 + rd * 0x80 + 0x6f);
  }

  lemma JumpBits19(code: nat, b20: nat, b19: nat, b11: nat, b10: nat, rd: nat)
    requires IsJumpCode(code, b20, b19, b11, b10, rd)
    ensures code / 0x1000 % 256 == b19
  {
    Field(code, b20 * 0x800 + b10 * 2 + b11, 256, b19, 0x1000, rd * 0x80 + 0x6f);
  }

  lemma JumpBit11(code: nat, b20: nat, b19: nat, b11: nat, b10: nat, rd: nat)
    requires IsJumpCode(code, b20, b19, b11, b10, rd)
    ensures code / 0x10_0000 % 2 == b11
  {
    Field(code, b20 * 0x400 + b10, 2, b11, 0x10_0000, b19 * 0x1000 + rd * 0x80 + 0x6f);
  }

  lemma JumpBits10(code: nat, b20: nat, b19: nat, b11: nat, b10: nat, rd: nat)
    requires IsJumpCode(code, b20, b19, b11, b10, rd)
    ensures code / 0x20_0000 % 1024 == b10
  {
    Field(code, b20, 1024, b10, 0x20_0000, b11 * 0x10_0000 + b19 * 0x1000 + rd * 0x80 + 0x6f);
  }

  function EncodeB(u: nat, regs: nat): nat {
    u / 0x1000 * 0x8000_0000 + u / 0x20 % 64 * 0x200_0000 + regs * 0x1000 + u / 2 % 16 * 0x100
    + u / 0x800 % 2 * 0x80 + 0x63
  }

  function EncodeJ(u: nat, rd: nat): nat {
    u / 0x10_0000 * 0x8000_0000 + u / 2 % 1024 * 0x20_0000 + u / 0x800 % 2 * 0x10_0000 + u / 0x1000 % 256 * 0x1000
    + rd * 0x80 + 0x6f
  }

  /** Decoding an encoded branch gives back its offset. */
  lemma BranchDecodes(offset: int, regs: nat)
    requires -0x1000 <= offset < 0x1000 && offset % 2 == 0 && regs < 0x2000
    ensures var code := EncodeB(if offset >= 0 then offset else offset + 0x2000, regs);
      code < W && KindOf(code) == Branch && BImm(code) == if offset >= 0 then offset else offset + W
  {
    var u := if offset >= 0 then offset else offset + 0x2000;
    BranchReads(u, regs);
    assert Pow2(12) == 0x1000;
    SignExtended(offset, 13, 0x1000);
  }

  lemma BranchReads(u: nat, regs: nat)
    requires u < 0x2000 && u % 2 == 0 && regs < 0x2000
    ensures EncodeB(u, regs) < W && KindOf(EncodeB(u, regs)) == Branch && BField(EncodeB(u, regs)) == u
  {
    var b12, b11, b10, b4 := u / 0x1000, u / 0x800 % 2, u / 0x20 % 64, u / 2 % 16;
    var code := EncodeB(u, regs);
    BranchOpcode(code, b12, b11, b10, b4, regs);
    BranchSign(code, b12, b11, b10, b4, regs);
    BranchBit11(code, b12, b11, b10, b4, regs);
    BranchBits10(code, b12, b11, b10, b4, regs);
    BranchBits4(code, b12, b11, b10, b4, regs);
    BranchDigits(u);
  }

  lemma BranchDigits(u: nat)
    requires u < 0x2000 && u % 2 == 0
    ensures u / 0x1000 * 0x1000 + u / 0x800 % 2 * 0x800 + u / 0x20 % 64 * 0x20 + u / 2 % 16 * 2 == u
  {
    var a := u / 2;
    var b := u / 0x20;
    var c := u / 0x800;
    assert b == a / 16 && c == b / 64 && u / 0x1000 == c / 2;
  }

  /** Decoding an encoded jump gives back its offset. */
  lemma JumpDecodes(offset: int, rd: nat)
    requires -0x10_0000 <= offset < 0x10_0000 && offset % 2 == 0 && rd < 32
    ensures var code := EncodeJ(if offset >= 0 then offset else offset + 0x20_0000, rd);
      code < W && KindOf(code) == Jal && JImm(code) == if offset >= 0 then offset else offset + W
  {
    var u := if offset >= 0 then offset else offset + 0x20_0000;
    JumpReads(u, rd);
    JumpPower();
    SignExtended(offset, 21, 0x10_0000);
  }

  lemma JumpReads(u: nat, rd: nat)
    requires u < 0x20_0000 && u % 2 == 0 && rd < 32
    ensures EncodeJ(u, rd) < W && KindOf(EncodeJ(u, rd)) == Jal && JField(EncodeJ(u, rd)) == u
  {
    var b20, b19, b11, b10 := u / 0x10_0000, u / 0x1000 % 256, u / 0x800 % 2, u / 2 % 1024;
    var code := EncodeJ(u, rd);
    JumpOpcode(code, b20, b19, b11, b10, rd);
    JumpSign(code, b20, b19, b11, b10, rd);
    JumpBits19(code, b20, b19, b11, b10, rd);
    JumpBit11(code, b20, b19, b11, b10, rd);
    JumpBits10(code, b20, b19, b11, b10, rd);
    JumpDigits(u);
  }

  lemma JumpPower()
    ensures Pow2(20) == 0x10_0000
  {
    ShlShl(1, 10, 10);
    ShlMul(1024, 10);
  }

  lemma JumpDigits(u: nat)
    requires u < 0x20_0000 && u % 2 == 0
    ensures u / 0x10_0000 * 0x10_0000 + u / 0x1000 % 256 * 0x1000 + u / 0x800 % 2 * 0x800 + u / 2 % 1024 * 2 == u
  {
    var a := u / 2;
    var b := u / 0x800;
    var c := u / 0x1000;
    assert b == a / 1024 && c == b / 2 && u / 0x10_0000 == c / 256;
  }

  // ----- the buffer -----

  datatype Policy = Always | SkipConflictingNotTaken | ProtectJalFromBranches | SecondChanceJal

  datatype Entry = Entry(pc: Word, target: Word, counter: Counter, valid: bool, isJal: bool, isBranch: bool,
                         jalProtected: bool)

  const EMPTY: Entry := Entry(0, 0, 0, false, false, false, false)

  datatype Config = Config(size: nat, policy: Policy, indexBits: seq<nat>, tableSize: nat, ghrBits: nat)
  {
    predicate Valid() {
      size > 0 && (indexBits != [] ==> Pow2(|indexBits|) <= size)
    }
  }

  datatype Stats = Stats(total: nat, wrong: nat, directionWrong: nat, targetWrong: nat, noPrediction: nat,
                         skipped: nat, totalBy: Tally, wrongBy: Tally)

  datatype Tally = Tally(branch: nat, jal: nat, ret: nat, jalr: nat)
  {
    function Plus(k: Kind): Tally {
      match k
      case Branch => this.(branch := branch + 1)
      case Jal => this.(jal := jal + 1)
      case Ret => this.(ret := ret + 1)
      case Jalr => this.(jalr := jalr + 1)
    }
  }

  datatype State = State(entries: seq<Entry>, counters: seq<Counter>, ghr: nat, stats: Stats)
  {
    predicate Valid(c: Config) {
      c.Valid() && |entries| == c.size && |counters| == c.tableSize
    }
  }

  /** The index picked from selected bits of the address, the first n of them. */
  function SelectedBits(pc: Word, bits: seq<nat>, n: nat): nat
    requires n <= |bits|
  {
    if n == 0 then 0 else SelectedBits(pc, bits, n - 1) + Shl(Shr(pc, 2 + bits[n - 1]) % 2, n - 1)
  }

  lemma {:induction false} SelectedBitsFit(pc: Word, bits: seq<nat>, n: nat)
    requires n <= |bits|
    ensures SelectedBits(pc, bits, n) < Pow2(n)
  {
    if n > 0 {
      SelectedBitsFit(pc, bits, n - 1);
      ShlZero(n - 1);
    }
  }

  function IndexOf(c: Config, pc: Word): (i: nat)
    requires c.Valid()
    ensures i < c.size
  {
    SelectedBitsFit(pc, c.indexBits, |c.indexBits|);
    AndBelow(pc / 4, c.size - 1);
    if c.indexBits != [] then SelectedBits(pc, c.indexBits, |c.indexBits|) else And(pc / 4, c.size - 1)
  }

  function DirectionIndex(c: Config, pc: Word, ghr: nat): nat
    requires c.tableSize > 0
  {
    Xor(pc / 4, if c.ghrBits == 0 then 0 else ghr) % c.tableSize
  }

  predicate Taken(r: Record) {
    KindOf(r.code) != Branch || r.nxt != Wrap(r.pc + 4)
  }

  predicate Hit(e: Entry, r: Record) {
    e.valid && e.pc == r.pc
  }

  predicate PredictsTaken(c: Config, s: State, r: Record)
    requires s.Valid(c)
  {
    var e := s.entries[IndexOf(c, r.pc)];
    var direction := if c.tableSize == 0 then e.counter >= 2
                     else s.counters[DirectionIndex(c, r.pc, s.ghr)] >= 2;
    Hit(e, r) && (e.isJal || (e.isBranch && direction))
  }

  function PredictedPc(c: Config, s: State, r: Record): Word
    requires s.Valid(c)
  {
    if PredictsTaken(c, s, r) then s.entries[IndexOf(c, r.pc)].target else Wrap(r.pc + 4)
  }

  predicate IsJump(k: Kind) {
    k == Jal || k == Ret
  }

  /** A branch may not displace the entry it maps to. */
  predicate Skips(c: Config, e: Entry, r: Record) {
    KindOf(r.code) == Branch &&
    match c.policy
    case Always => false
    case SkipConflictingNotTaken => !Taken(r) && !(Hit(e, r) && e.isBranch)
    case ProtectJalFromBranches =>
      (!Taken(r) && !(Hit(e, r) && e.isBranch)) || (!Hit(e, r) && e.valid && e.isJal)
    case SecondChanceJal =>
      (!Taken(r) && !(Hit(e, r) && e.isBranch)) || (!Hit(e, r) && e.valid && e.isJal && e.jalProtected)
  }

  /** What a record leaves in the entry it maps to. */
  function NextEntry(c: Config, e: Entry, r: Record): Entry {
    var kind := KindOf(r.code);
    if Skips(c, e, r) then
      if c.policy == SecondChanceJal && !Hit(e, r) && e.valid && e.isJal then e.(jalProtected := false) else e
    else
      Entry(r.pc, if kind == Branch then DirectTarget(r.pc, r.code) else r.nxt,
            if kind != Branch then 0
            else if Hit(e, r) && e.isBranch then Bump(e.counter, Taken(r))
            else if Taken(r) then 2 else 1,
            true, IsJump(kind), kind == Branch, IsJump(kind))
  }

  function NextStats(t: Stats, r: Record, predicted: bool, wrong: bool, skips: bool): Stats {
    Stats(t.total + 1, t.wrong + One(wrong),
          t.directionWrong + One(wrong && predicted != Taken(r)),
          t.targetWrong + One(wrong && predicted && Taken(r)),
          t.noPrediction + One(wrong && !predicted && !Taken(r)),
          t.skipped + One(skips),
          t.totalBy.Plus(KindOf(r.code)),
          if wrong then t.wrongBy.Plus(KindOf(r.code)) else t.wrongBy)
  }

  function Next(c: Config, s: State, r: Record): (n: State)
    requires s.Valid(c)
    ensures n.Valid(c)
  {
    var i := IndexOf(c, r.pc);
    var trains := KindOf(r.code) == Branch && c.tableSize != 0;
    State(s.entries[i := NextEntry(c, s.entries[i], r)],
          if trains then UpdateTable(s.counters, DirectionIndex(c, r.pc, s.ghr), Taken(r)) else s.counters,
          if trains && c.ghrBits != 0 then Push(s.ghr, Taken(r), c.ghrBits) else s.ghr,
          NextStats(s.stats, r, PredictsTaken(c, s, r), PredictedPc(c, s, r) != r.nxt,
                    Skips(c, s.entries[i], r)))
  }

  function NoStats(): Stats {
    Stats(0, 0, 0, 0, 0, 0, Tally(0, 0, 0, 0), Tally(0, 0, 0, 0))
  }

  function After(c: Config, trace: seq<Record>): (s: State)
    requires c.Valid()
    ensures s.Valid(c)
  {
    if trace == [] then State(seq(c.size, _ => EMPTY), Fresh(c.tableSize, 1), 0, NoStats())
    else Next(c, After(c, trace[..|trace| - 1]), trace[|trace| - 1])
  }

  // ----- whole runs -----

  function CountKind(trace: seq<Record>, k: Kind): nat {
    if trace == [] then 0
    else CountKind(trace[..|trace| - 1], k) + One(KindOf(trace[|trace| - 1].code) == k)
  }

  /** Records whose next address was not the predicted one. */
  function Mispredicted(c: Config, trace: seq<Record>): nat
    requires c.Valid()
  {
    if trace == [] then 0
    else
      var before, r := trace[..|trace| - 1], trace[|trace| - 1];
      Mispredicted(c, before) + One(PredictedPc(c, After(c, before), r) != r.nxt)
  }

  function CountKinds(trace: seq<Record>): Tally {
    Tally(CountKind(trace, Branch), CountKind(trace, Jal), CountKind(trace, Ret), CountKind(trace, Jalr))
  }

  predicate Within(a: Tally, b: Tally) {
    a.branch <= b.branch && a.jal <= b.jal && a.ret <= b.ret && a.jalr <= b.jalr
  }

  predicate SumsTo(a: Tally, n: nat) {
    a.branch + a.jal + a.ret + a.jalr == n
  }

  predicate AddUp(t: Stats) {
    && SumsTo(t.totalBy, t.total)
    && SumsTo(t.wrongBy, t.wrong)
    && t.wrong == t.directionWrong + t.targetWrong
    && t.noPrediction == 0
    && Within(t.wrongBy, t.totalBy)
  }

  lemma AddUpStep(t: Stats, r: Record, predicted: bool, wrong: bool, skips: bool)
    requires AddUp(t) && (wrong ==> predicted || Taken(r))
    ensures AddUp(NextStats(t, r, predicted, wrong, skips))
  {
  }

  lemma NextStatsOf(c: Config, s: State, r: Record) returns (predicted: bool, wrong: bool, skips: bool)
    requires s.Valid(c)
    ensures Next(c, s, r).stats == NextStats(s.stats, r, predicted, wrong, skips)
    ensures predicted == PredictsTaken(c, s, r) && wrong == (PredictedPc(c, s, r) != r.nxt)
    ensures wrong ==> predicted || Taken(r)
  {
    predicted, wrong := PredictsTaken(c, s, r), PredictedPc(c, s, r) != r.nxt;
    skips := Skips(c, s.entries[IndexOf(c, r.pc)], r);
    if wrong {
      WrongIsPredictedOrTaken(c, s, r);
    }
  }

  lemma WrongIsPredictedOrTaken(c: Config, s: State, r: Record)
    requires s.Valid(c) && PredictedPc(c, s, r) != r.nxt
    ensures PredictsTaken(c, s, r) || Taken(r)
  {
  }

  lemma NextAddsUp(c: Config, s: State, r: Record)
    requires s.Valid(c) && AddUp(s.stats)
    ensures AddUp(Next(c, s, r).stats)
  {
    var predicted, wrong, skips := NextStatsOf(c, s, r);
    AddUpStep(s.stats, r, predicted, wrong, skips);
  }

  lemma NoStatsAddUp()
    ensures AddUp(NoStats())
  {
  }

  /** On every trace the statistics add up: each misprediction is a wrong direction or a wrong target. */
  lemma {:induction false} StatsAddUp(c: Config, trace: seq<Record>)
    requires c.Valid()
    ensures AddUp(After(c, trace).stats)
    decreases |trace|
  {
    if trace == [] {
      NoStatsAddUp();
    } else {
      StatsAddUp(c, trace[..|trace| - 1]);
      NextAddsUp(c, After(c, trace[..|trace| - 1]), trace[|trace| - 1]);
    }
  }

  lemma CountKindsStep(trace: seq<Record>)
    requires trace != []
    ensures CountKinds(trace) == CountKinds(trace[..|trace| - 1]).Plus(KindOf(trace[|trace| - 1].code))
  {
  }

  /** They count the records, the records of each kind and the mispredicted ones. */
  lemma {:induction false} StatsCount(c: Config, trace: seq<Record>)
    requires c.Valid()
    ensures var t := After(c, trace).stats;
      t.total == |trace| && t.totalBy == CountKinds(trace) && t.wrong == Mispredicted(c, trace)
    decreases |trace|
  {
    if trace != [] {
      StatsCount(c, trace[..|trace| - 1]);
      CountKindsStep(trace);
    }
  }

  /** The entry was made by the record: it carries its address, its kind and its target. */
  predicate MadeBy(e: Entry, r: Record) {
    e.pc == r.pc && e.isBranch == (KindOf(r.code) == Branch) && e.isJal == IsJump(KindOf(r.code))
    && e.target == if e.isBranch then DirectTarget(r.pc, r.code) else r.nxt
  }

  /** Every valid entry was made by a record of the trace, and sits where its address maps. */
  lemma {:induction false} EntryOrigin(c: Config, trace: seq<Record>, i: nat) returns (j: nat)
    requires c.Valid() && i < c.size && After(c, trace).entries[i].valid
    ensures j < |trace| && MadeBy(After(c, trace).entries[i], trace[j]) && IndexOf(c, trace[j].pc) == i
    decreases |trace|
  {
    var before, r := trace[..|trace| - 1], trace[|trace| - 1];
    var e := After(c, before).entries[i];
    if IndexOf(c, r.pc) == i && !Skips(c, e, r) {
      j := |trace| - 1;
    } else {
      j := EntryOrigin(c, before, i);
    }
  }

  /** One instruction per address; branches and jumps go where their code says, or a branch falls through. */
  ghost predicate WellBehaved(trace: seq<Record>) {
    && (forall i, j :: 0 <= i < j < |trace| && trace[i].pc == trace[j].pc ==> trace[i].code == trace[j].code)
    && (forall i :: 0 <= i < |trace| ==> GoesWhereItSays(trace[i]))
  }

  predicate GoesWhereItSays(r: Record) {
    && (KindOf(r.code) == Branch ==> r.nxt == DirectTarget(r.pc, r.code) || r.nxt == Wrap(r.pc + 4))
    && (KindOf(r.code) == Jal ==> r.nxt == DirectTarget(r.pc, r.code))
  }

  /** The record that made the entry a prediction comes from. */
  lemma HitMaker(c: Config, before: seq<Record>, r: Record) returns (j: nat)
    requires c.Valid() && PredictsTaken(c, After(c, before), r)
    ensures j < |before| && before[j].pc == r.pc
    ensures var e := After(c, before).entries[IndexOf(c, r.pc)];
      MadeBy(e, before[j]) && (e.isJal || e.isBranch) && PredictedPc(c, After(c, before), r) == e.target
  {
    j := EntryOrigin(c, before, IndexOf(c, r.pc));
  }

  /** A taken branch or jump goes where an earlier pass over the same instruction pointed. */
  lemma TargetRight(e: Entry, maker: Record, r: Record)
    requires MadeBy(e, maker) && (e.isJal || e.isBranch)
    requires maker.pc == r.pc && maker.code == r.code && KindOf(r.code) != Ret
    requires GoesWhereItSays(maker) && GoesWhereItSays(r) && Taken(r)
    ensures e.target == r.nxt && KindOf(r.code) != Jalr
  {
    var kind, direct := KindOf(r.code), DirectTarget(r.pc, r.code);
    assert r.nxt == Wrap(r.pc + 4) ==> kind != Branch;
    assert kind == Branch || kind == Jal;
    assert e.target == direct;
  }

  /** When a taken transfer is predicted as taken, only a return can go elsewhere. */
  lemma TakenTargetRight(c: Config, before: seq<Record>, r: Record)
    requires c.Valid() && WellBehaved(before + [r]) && KindOf(r.code) != Ret
    requires PredictsTaken(c, After(c, before), r) && Taken(r)
    ensures PredictedPc(c, After(c, before), r) == r.nxt && KindOf(r.code) != Jalr
  {
    var j := HitMaker(c, before, r);
    SameInstruction(before, r, j);
    TargetRight(After(c, before).entries[IndexOf(c, r.pc)], before[j], r);
  }

  lemma SameInstruction(before: seq<Record>, r: Record, j: nat)
    requires WellBehaved(before + [r]) && j < |before| && before[j].pc == r.pc
    ensures before[j].code == r.code && GoesWhereItSays(before[j]) && GoesWhereItSays(r)
  {
    var trace := before + [r];
    assert trace[j] == before[j] && trace[|before|] == r;
  }

  lemma WellBehavedPrefix(trace: seq<Record>, n: nat)
    requires WellBehaved(trace) && n <= |trace|
    ensures WellBehaved(trace[..n])
  {
  }

  predicate OnlyReturnsMiss(t: Stats) {
    t.targetWrong <= t.wrongBy.ret && t.wrongBy.branch + t.wrongBy.jal + t.wrongBy.jalr <= t.directionWrong
  }

  lemma OnlyReturnsMissStep(t: Stats, r: Record, predicted: bool, wrong: bool, skips: bool)
    requires OnlyReturnsMiss(t) && (wrong ==> predicted || Taken(r))
    requires wrong && predicted && Taken(r) ==> KindOf(r.code) == Ret
    ensures OnlyReturnsMiss(NextStats(t, r, predicted, wrong, skips))
  {
  }

  /** On a well-behaved trace wrong targets occur on returns only, so every other misprediction is a wrong
      direction. */
  lemma {:induction false} WrongTargetsAreReturns(c: Config, trace: seq<Record>)
    requires c.Valid() && WellBehaved(trace)
    ensures OnlyReturnsMiss(After(c, trace).stats)
    decreases |trace|
  {
    if trace != [] {
      var before, r := trace[..|trace| - 1], trace[|trace| - 1];
      var s := After(c, before);
      WellBehavedPrefix(trace, |trace| - 1);
      WrongTargetsAreReturns(c, before);
      assert trace == before + [r];
      var predicted, wrong, skips := NextStatsOf(c, s, r);
      if KindOf(r.code) != Ret && predicted && Taken(r) {
        TakenTargetRight(c, before, r);
      }
      OnlyReturnsMissStep(s.stats, r, predicted, wrong, skips);
    }
  }

  // ----- the object -----

  class RtlModelRunner {
    const config: Config
    var entries: seq<Entry>
    var counters: seq<Counter>
    var ghr: nat
    var stats: Stats

    ghost function Snapshot(): State
      reads this
    {
      State(entries, counters, ghr, stats)
    }

    constructor (config: Config)
      requires config.Valid()
      ensures this.config == config && Snapshot() == After(config, [])
    {
      this.config := config;
      entries, counters := seq(config.size, _ => EMPTY), Fresh(config.tableSize, 1);
      ghr, stats := 0, NoStats();
    }

    method GetIndex(pc: Word) returns (index: nat)
      requires config.Valid()
      ensures index == IndexOf(config, pc)
    {
      if config.indexBits == [] {
        return And(pc / 4, config.size - 1);
      }
      index := 0;
      for i := 0 to |config.indexBits|
        invariant index == SelectedBits(pc, config.indexBits, i)
      {
        SelectedBitsFit(pc, config.indexBits, i);
        OrAbove(index, Shr(pc, 2 + config.indexBits[i]) % 2, i);
        index := Or(index, Shl(Shr(pc, 2 + config.indexBits[i]) % 2, i));
      }
    }
  
    /** Whether the record is predicted as taken, and the predicted address. */
    method Predict(r: Record, index: nat) returns (taken: bool, pc: Word)
      requires Snapshot().Valid(config) && index == IndexOf(config, r.pc)
      ensures taken == PredictsTaken(config, Snapshot(), r) && pc == PredictedPc(config, Snapshot(), r)
    {
      var e := entries[index];
      var hit := e.valid && e.pc == r.pc;
      var direction;
      if config.tableSize == 0 {
        direction := e.counter >= 2;
      } else {
        direction := counters[DirectionIndex(config, r.pc, ghr)] >= 2;
      }
      taken := hit && (e.isJal || (e.isBranch && direction));
      pc := if taken then e.target else Wrap(r.pc + 4);
    }

    method Count(r: Record, predicted: bool, wrong: bool)
      modifies this`stats
      ensures stats == NextStats(old(stats), r, predicted, wrong, false)
    {
      var kind := KindOf(r.code);
      stats := stats.(total := stats.total + 1, totalBy := stats.totalBy.Plus(kind));
      if wrong {
        stats := stats.(wrong := stats.wrong + 1, wrongBy := stats.wrongBy.Plus(kind));
        if predicted != Taken(r) {
          stats := stats.(directionWrong := stats.directionWrong + 1);
        } else if predicted {
          stats := stats.(targetWrong := stats.targetWrong + 1);
        } else {
          stats := stats.(noPrediction := stats.noPrediction + 1);
        }
      }
    }

    /** Trains the shared direction counters and the global history. */
    method Train(r: Record)
      requires Snapshot().Valid(config)
      modifies this`counters, this`ghr
      ensures var trains := KindOf(r.code) == Branch && config.tableSize != 0;
        && (trains ==> counters == UpdateTable(old(counters), DirectionIndex(config, r.pc, old(ghr)), Taken(r)))
        && (!trains ==> counters == old(counters))
        && ghr == if trains && config.ghrBits != 0 then Push(old(ghr), Taken(r), config.ghrBits) else old(ghr)
    {
      if KindOf(r.code) == Branch && config.tableSize != 0 {
        var i := DirectionIndex(config, r.pc, ghr);
        if Taken(r) && counters[i] != 3 {
          counters := counters[i := counters[i] + 1];
        } else if !Taken(r) && counters[i] != 0 {
          counters := counters[i := counters[i] - 1];
        }
        if config.ghrBits != 0 {
          ghr := Low(2 * ghr + (if Taken(r) then 1 else 0), Width(config.ghrBits));
        }
      }
    }

    /** Decides whether the record displaces the entry it maps to. */
    method SkipsAllocation(e: Entry, r: Record) returns (skip: bool, secondChance: bool)
      ensures skip == Skips(config, e, r)
      ensures secondChance == (skip && config.policy == SecondChanceJal && !Hit(e, r) && e.valid && e.isJal
                               && e.jalProtected)
    {
      var isBranch := KindOf(r.code) == Branch;
      var hit := e.valid && e.pc == r.pc;
      var matching := hit && e.isBranch && isBranch;
      var skipNotTaken := config.policy != Always && isBranch && !Taken(r) && !matching;
      var protect := config.policy == ProtectJalFromBranches && isBranch && !hit && e.valid && e.isJal;
      secondChance := config.policy == SecondChanceJal && isBranch && !hit && e.valid && e.isJal && e.jalProtected;
      skip := skipNotTaken || protect || secondChance;
    }

    method NewEntry(e: Entry, r: Record) returns (n: Entry)
      requires !Skips(config, e, r)
      ensures n == NextEntry(config, e, r)
    {
      var kind := KindOf(r.code);
      var next: Counter := 0;
      if kind == Branch {
        if !(e.valid && e.pc == r.pc && e.isBranch) {
          next := if Taken(r) then 2 else 1;
        } else if Taken(r) && e.counter != 3 {
          next := e.counter + 1;
        } else if !Taken(r) && e.counter != 0 {
          next := e.counter - 1;
        } else {
          next := e.counter;
        }
      }
      var target := if kind == Branch then DirectTarget(r.pc, r.code) else r.nxt;
      n := Entry(r.pc, target, next, true, IsJump(kind), kind == Branch, IsJump(kind));
    }

    method Process(r: Record)
      requires Snapshot().Valid(config) && IsControl(r.code)
      modifies this
      ensures Snapshot() == Next(config, old(Snapshot()), r)
    {
      var index := GetIndex(r.pc);
      var e := entries[index];
      var predicted, pc := Predict(r, index);
      Count(r, predicted, pc != r.nxt);
      Train(r);
      var skip, secondChance := SkipsAllocation(e, r);
      if skip {
        stats := stats.(skipped := stats.skipped + 1);
        if secondChance {
          entries := entries[index := entries[index].(jalProtected := false)];
        }
      } else {
        var n := NewEntry(e, r);
        entries := entries[index := n];
      }
    }
  }

  /** A whole run of the model over a trace of control instructions. */
  method RunModel(config: Config, trace: seq<Record>) returns (m: RtlModelRunner)
    requires config.Valid() && forall i :: 0 <= i < |trace| ==> IsControl(trace[i].code)
    ensures m.config == config && m.Snapshot() == After(config, trace)
  {
    m := new RtlModelRunner(config);
    assert trace[..0] == [];
    for n := 0 to |trace|
      invariant fresh(m) && m.config == config && m.Snapshot() == After(config, trace[..n])
    {
      assert trace[..n + 1][..n] == trace[..n];
      m.Process(trace[n]);
    }
    assert trace[..|trace|] == trace;
  }
}
