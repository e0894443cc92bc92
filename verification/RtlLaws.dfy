/**
  What the branch target buffer predicts, told from the records of the trace alone: which record each entry
  remembers, when it is displaced, and what follows for the next prediction.
  */
module RtlLaws {
  import opened Bits
  import opened Predictors
  import opened PredictorLaws
  import opened Words
  import opened RtlModel

  // ----- which entry and which counter an address uses -----

  lemma {:induction false} SelectedBit(pc: Word, bits: seq<nat>, n: nat, j: nat)
    requires j < n <= |bits|
    ensures Bit(SelectedBits(pc, bits, n), j) <==> Bit(pc, 2 + bits[j])
  {
    var low, b := SelectedBits(pc, bits, n - 1), Shr(pc, 2 + bits[n - 1]) % 2;
    SelectedBitsFit(pc, bits, n - 1);
    if j == n - 1 {
      SplitUnique(b, low, n - 1);
    } else {
      SelectedBit(pc, bits, n - 1, j);
      AboveBit(low, b, n - 1, j);
    }
  }

  /** What is added above a bit does not change it. */
  lemma AboveBit(x: nat, m: nat, k: nat, j: nat)
    requires j < k
    ensures Bit(x + Shl(m, k), j) <==> Bit(x, j)
  {
    ShlShl(m, k - 1 - j, j + 1);
    LowAdd(x, Shl(m, k - 1 - j), j + 1);
    BitOfLow(x, j);
    BitOfLow(x + Shl(m, k), j);
  }

  lemma BitOfLow(x: nat, j: nat)
    ensures Bit(Low(x, j + 1), j) <==> Bit(x, j)
  {
    LowTop(x, j);
    Split(x, j);
    SplitUnique(Shr(x, j) % 2, Low(x, j), j);
  }

  /** The index is made of the selected address bits, or of the lowest bits of the instruction number. */
  lemma IndexIs(c: Config, pc: Word, k: nat)
    requires c.Valid()
    ensures c.indexBits == [] && c.size == Pow2(k) ==> IndexOf(c, pc) == PcIndex(pc, c.size)
    ensures k < |c.indexBits| ==> (Bit(IndexOf(c, pc), k) <==> Bit(pc, 2 + c.indexBits[k]))
  {
    if c.indexBits == [] {
      AndMask(pc / 4, k);
      LowIsMod(pc / 4, k);
    } else if k < |c.indexBits| {
      SelectedBit(pc, c.indexBits, |c.indexBits|, k);
    }
  }

  lemma DirectionIndexParts(c: Config, pc: Word, history: nat, k: nat)
    requires c.tableSize == Pow2(k) && history < c.tableSize
    ensures DirectionIndex(c, pc, history) == Xor(PcIndex(pc, c.tableSize), if c.ghrBits == 0 then 0 else history)
  {
    var used := if c.ghrBits == 0 then 0 else history;
    LowXor(pc / 4, used, k);
    LowSmall(used, k);
    LowIsMod(pc / 4, k);
    LowIsMod(Xor(pc / 4, used), k);
  }

  /** In a table of 2^k counters two histories never share the counter of a branch, and two branches share one
      only if their addresses agree in the bits that are used; without history only the address counts. */
  lemma SharedCounterOf(c: Config, pc: Word, pc2: Word, history: nat, history2: nat, k: nat)
    requires c.tableSize == Pow2(k) && history < c.tableSize && history2 < c.tableSize
    ensures DirectionIndex(c, pc, history) == DirectionIndex(c, pc, history2) <==> history == history2 || c.ghrBits == 0
    ensures DirectionIndex(c, pc, history) == DirectionIndex(c, pc2, history) <==>
            PcIndex(pc, c.tableSize) == PcIndex(pc2, c.tableSize)
  {
    DirectionIndexParts(c, pc, history, k);
    DirectionIndexParts(c, pc, history2, k);
    DirectionIndexParts(c, pc2, history, k);
    XorInjective(history, history2, PcIndex(pc, c.tableSize));
    XorInjective(PcIndex(pc, c.tableSize), PcIndex(pc2, c.tableSize), if c.ghrBits == 0 then 0 else history);
  }

  // ----- which record an entry remembers -----

  /** A branch at another address that maps to the entry of record h. */
  predicate Challenges(c: Config, trace: seq<Record>, h: nat, k: nat)
    requires c.Valid() && h < |trace| && k < |trace|
  {
    IndexOf(c, trace[k].pc) == IndexOf(c, trace[h].pc) && KindOf(trace[k].code) == Branch && trace[k].pc != trace[h].pc
  }

  ghost predicate Unchallenged(c: Config, trace: seq<Record>, h: nat)
    requires c.Valid() && h < |trace|
  {
    forall k :: h < k < |trace| ==> !Challenges(c, trace, h, k)
  }

  /** The jump remembered from record h cannot be displaced by a branch. */
  ghost predicate Protects(c: Config, trace: seq<Record>, h: nat)
    requires c.Valid() && h < |trace|
  {
    c.policy == ProtectJalFromBranches || (c.policy == SecondChanceJal && Unchallenged(c, trace, h))
  }

  /** The next record is remembered in place of record h; h is negative if there is none. */
  ghost predicate Admits(c: Config, trace: seq<Record>, h: int, r: Record)
    requires c.Valid() && h < |trace|
  {
    || KindOf(r.code) != Branch
    || c.policy == Always
    || (h >= 0 && trace[h].pc == r.pc && KindOf(trace[h].code) == Branch)
    || (Taken(r) && !(h >= 0 && trace[h].pc != r.pc && IsJump(KindOf(trace[h].code)) && Protects(c, trace, h)))
  }

  /** The record that entry i remembers after the trace; negative if none. */
  ghost function Holder(c: Config, trace: seq<Record>, i: nat): (h: int)
    requires c.Valid()
    ensures h < |trace| && (h >= 0 ==> IndexOf(c, trace[h].pc) == i)
    decreases |trace|
  {
    if trace == [] then -1
    else
      var before, r := trace[..|trace| - 1], trace[|trace| - 1];
      var h := Holder(c, before, i);
      if IndexOf(c, r.pc) == i && Admits(c, before, h, r) then |trace| - 1 else h
  }

  ghost predicate Reflects(c: Config, trace: seq<Record>, h: int, e: Entry)
    requires c.Valid() && h < |trace|
  {
    if h < 0 then !e.valid
    else
      && e.valid && MadeBy(e, trace[h])
      && (c.policy == SecondChanceJal && e.isJal ==> (e.jalProtected <==> Unchallenged(c, trace, h)))
  }

  lemma AdmitsIff(c: Config, trace: seq<Record>, h: int, e: Entry, r: Record)
    requires c.Valid() && h < |trace| && Reflects(c, trace, h, e)
    ensures Admits(c, trace, h, r) <==> !Skips(c, e, r)
  {
  }

  lemma ReflectsNew(c: Config, trace: seq<Record>, e: Entry, r: Record)
    requires c.Valid() && !Skips(c, e, r)
    ensures Reflects(c, trace + [r], |trace|, NextEntry(c, e, r))
  {
    assert (trace + [r])[|trace|] == r;
  }

  lemma UnchallengedStep(c: Config, trace: seq<Record>, h: nat, r: Record)
    requires c.Valid() && h < |trace|
    ensures Unchallenged(c, trace + [r], h) <==>
            Unchallenged(c, trace, h) && !Challenges(c, trace + [r], h, |trace|)
  {
    var after := trace + [r];
    forall k | h < k < |trace| ensures Challenges(c, after, h, k) <==> Challenges(c, trace, h, k) {
      assert after[k] == trace[k] && after[h] == trace[h];
    }
  }

  /** A skipped record, or one that maps elsewhere, leaves the memory as it was. */
  lemma ReflectsSkipped(c: Config, trace: seq<Record>, h: int, e: Entry, r: Record)
    requires c.Valid() && h < |trace| && Reflects(c, trace, h, e) && Skips(c, e, r)
    requires h >= 0 ==> IndexOf(c, trace[h].pc) == IndexOf(c, r.pc)
    ensures Reflects(c, trace + [r], h, NextEntry(c, e, r))
  {
    if h >= 0 {
      UnchallengedStep(c, trace, h, r);
      assert (trace + [r])[h] == trace[h] && (trace + [r])[|trace|] == r;
    }
  }

  lemma ReflectsElsewhere(c: Config, trace: seq<Record>, h: int, e: Entry, r: Record)
    requires c.Valid() && h < |trace| && Reflects(c, trace, h, e)
    requires h >= 0 ==> IndexOf(c, trace[h].pc) != IndexOf(c, r.pc)
    ensures Reflects(c, trace + [r], h, e)
  {
    if h >= 0 {
      UnchallengedStep(c, trace, h, r);
      assert (trace + [r])[h] == trace[h] && (trace + [r])[|trace|] == r;
    }
  }

  /** Every entry is the memory of the record that the trace alone determines. */
  lemma {:induction false} EntryReflects(c: Config, trace: seq<Record>, i: nat)
    requires c.Valid() && i < c.size
    ensures Reflects(c, trace, Holder(c, trace, i), After(c, trace).entries[i])
    decreases |trace|
  {
    if trace != [] {
      var before, r := trace[..|trace| - 1], trace[|trace| - 1];
      var h, e := Holder(c, before, i), After(c, before).entries[i];
      EntryReflects(c, before, i);
      assert trace == before + [r];
      AdmitsIff(c, before, h, e, r);
      if IndexOf(c, r.pc) != i {
        ReflectsElsewhere(c, before, h, e, r);
      } else if Skips(c, e, r) {
        ReflectsSkipped(c, before, h, e, r);
      } else {
        ReflectsNew(c, before, e, r);
      }
    }
  }

  ghost function Refused(c: Config, trace: seq<Record>): nat
    requires c.Valid()
  {
    if trace == [] then 0
    else
      var before, r := trace[..|trace| - 1], trace[|trace| - 1];
      Refused(c, before) + One(!Admits(c, before, Holder(c, before, IndexOf(c, r.pc)), r))
  }

  lemma {:induction false} SkippedAreRefused(c: Config, trace: seq<Record>)
    requires c.Valid()
    ensures After(c, trace).stats.skipped == Refused(c, trace)
    decreases |trace|
  {
    if trace != [] {
      var before, r := trace[..|trace| - 1], trace[|trace| - 1];
      var i := IndexOf(c, r.pc);
      SkippedAreRefused(c, before);
      EntryReflects(c, before, i);
      AdmitsIff(c, before, Holder(c, before, i), After(c, before).entries[i], r);
    }
  }

  // ----- what is predicted -----

  /** Without a memory of this address the model predicts the next instruction. */
  lemma ForgottenFallsThrough(c: Config, trace: seq<Record>, r: Record)
    requires c.Valid()
    requires var h := Holder(c, trace, IndexOf(c, r.pc)); h < 0 || trace[h].pc != r.pc
    ensures !PredictsTaken(c, After(c, trace), r) && PredictedPc(c, After(c, trace), r) == Wrap(r.pc + 4)
  {
    EntryReflects(c, trace, IndexOf(c, r.pc));
  }

  /** A jump or return that is remembered is predicted to go where it went. */
  lemma RememberedJump(c: Config, trace: seq<Record>, r: Record, h: nat)
    requires c.Valid() && Holder(c, trace, IndexOf(c, r.pc)) == h && trace[h].pc == r.pc
    requires IsJump(KindOf(trace[h].code))
    ensures PredictsTaken(c, After(c, trace), r) && PredictedPc(c, After(c, trace), r) == trace[h].nxt
  {
    EntryReflects(c, trace, IndexOf(c, r.pc));
  }

  /** An indirect jump is never predicted. */
  lemma RememberedIndirect(c: Config, trace: seq<Record>, r: Record, h: nat)
    requires c.Valid() && Holder(c, trace, IndexOf(c, r.pc)) == h && KindOf(trace[h].code) == Jalr
    ensures !PredictsTaken(c, After(c, trace), r)
  {
    EntryReflects(c, trace, IndexOf(c, r.pc));
  }

  /** On a well-behaved trace a direct jump is mispredicted only if no earlier pass over it is remembered. */
  lemma JumpMissesAreFirst(c: Config, trace: seq<Record>, r: Record, h: nat)
    requires c.Valid() && WellBehaved(trace + [r]) && KindOf(r.code) == Jal
    requires Holder(c, trace, IndexOf(c, r.pc)) == h && trace[h].pc == r.pc
    ensures PredictedPc(c, After(c, trace), r) == r.nxt
  {
    SameInstruction(trace, r, h);
    RememberedJump(c, trace, r, h);
  }

  /** A jump is remembered until something displaces it. */
  lemma {:induction false} JumpStays(c: Config, trace: seq<Record>, j: nat)
    requires c.Valid() && j < |trace| && KindOf(trace[j].code) != Branch
    ensures Holder(c, trace, IndexOf(c, trace[j].pc)) >= j
    decreases |trace|
  {
    if j < |trace| - 1 {
      JumpStays(c, trace[..|trace| - 1], j);
    }
  }

  /** No two instructions of the trace share an entry. */
  ghost predicate ConflictFree(c: Config, trace: seq<Record>)
    requires c.Valid()
  {
    forall i, j :: 0 <= i < j < |trace| && IndexOf(c, trace[i].pc) == IndexOf(c, trace[j].pc) ==>
      trace[i].pc == trace[j].pc
  }

  predicate FirstPass(before: seq<Record>, r: Record) {
    KindOf(r.code) == Jal && forall j :: 0 <= j < |before| ==> before[j].pc != r.pc
  }

  /** Direct jumps that the trace had not passed before. */
  function FirstJumps(trace: seq<Record>): nat {
    if trace == [] then 0
    else FirstJumps(trace[..|trace| - 1]) + One(FirstPass(trace[..|trace| - 1], trace[|trace| - 1]))
  }

  lemma SecondPassRight(c: Config, before: seq<Record>, r: Record, j: nat)
    requires c.Valid() && WellBehaved(before + [r]) && ConflictFree(c, before + [r])
    requires KindOf(r.code) == Jal && j < |before| && before[j].pc == r.pc
    ensures PredictedPc(c, After(c, before), r) == r.nxt
  {
    SameInstruction(before, r, j);
    JumpStays(c, before, j);
    var h, trace := Holder(c, before, IndexOf(c, r.pc)), before + [r];
    assert trace[h] == before[h] && trace[|before|] == r;
    JumpMissesAreFirst(c, before, r, h);
  }

  lemma ConflictFreePrefix(c: Config, trace: seq<Record>, n: nat)
    requires c.Valid() && ConflictFree(c, trace) && n <= |trace|
    ensures ConflictFree(c, trace[..n])
  {
  }

  predicate MissesJump(c: Config, before: seq<Record>, r: Record)
    requires c.Valid()
  {
    KindOf(r.code) == Jal && PredictedPc(c, After(c, before), r) != r.nxt
  }

  lemma MissIsFirst(c: Config, before: seq<Record>, r: Record)
    requires c.Valid() && WellBehaved(before + [r]) && ConflictFree(c, before + [r])
    ensures MissesJump(c, before, r) ==> FirstPass(before, r)
  {
    if KindOf(r.code) == Jal && !FirstPass(before, r) {
      var j :| 0 <= j < |before| && before[j].pc == r.pc;
      SecondPassRight(c, before, r, j);
    }
  }

  lemma WrongJumps(c: Config, before: seq<Record>, r: Record)
    requires c.Valid()
    ensures Next(c, After(c, before), r).stats.wrongBy.jal ==
            After(c, before).stats.wrongBy.jal + One(MissesJump(c, before, r))
  {
    var predicted, wrong, skips := NextStatsOf(c, After(c, before), r);
  }

  /** Without shared entries every direct jump is mispredicted at most once in the whole run. */
  lemma {:induction false} JumpsMissOnce(c: Config, trace: seq<Record>)
    requires c.Valid() && WellBehaved(trace) && ConflictFree(c, trace)
    ensures After(c, trace).stats.wrongBy.jal <= FirstJumps(trace)
    decreases |trace|
  {
    if trace != [] {
      var before, r := trace[..|trace| - 1], trace[|trace| - 1];
      WellBehavedPrefix(trace, |trace| - 1);
      ConflictFreePrefix(c, trace, |trace| - 1);
      JumpsMissOnce(c, before);
      WrongJumps(c, before, r);
      assert trace == before + [r];
      MissIsFirst(c, before, r);
    }
  }

  // ----- branches with a counter of their own -----

  /** The outcomes of the branch that entry i remembers, since it was last put there. */
  ghost function OwnOutcomes(c: Config, trace: seq<Record>, i: nat): seq<bool>
    requires c.Valid()
  {
    if trace == [] then []
    else
      var before, r := trace[..|trace| - 1], trace[|trace| - 1];
      var h := Holder(c, before, i);
      if IndexOf(c, r.pc) != i || !Admits(c, before, h, r) then OwnOutcomes(c, before, i)
      else if KindOf(r.code) != Branch then []
      else if h >= 0 && before[h].pc == r.pc && KindOf(before[h].code) == Branch
      then OwnOutcomes(c, before, i) + [Taken(r)]
      else [Taken(r)]
  }

  /** A counter that its first outcome puts on that side of the threshold. */
  predicate OwnCounted(outcomes: seq<bool>, n: Counter) {
    outcomes != [] && n == Counted(if outcomes[0] then 1 else 2, outcomes)
  }

  lemma OwnCountedFirst(t: bool)
    ensures OwnCounted([t], if t then 2 else 1)
  {
    assert [] + [t] == [t];
    CountedLast(if t then 1 else 2, [], t);
  }

  lemma OwnCountedLast(outcomes: seq<bool>, n: Counter, t: bool)
    requires OwnCounted(outcomes, n)
    ensures OwnCounted(outcomes + [t], Bump(n, t))
  {
    CountedLast(if outcomes[0] then 1 else 2, outcomes, t);
  }

  lemma {:induction false} OwnCounters(c: Config, trace: seq<Record>, i: nat)
    requires c.Valid() && i < c.size
    ensures var h := Holder(c, trace, i);
      h >= 0 && KindOf(trace[h].code) == Branch ==>
      OwnCounted(OwnOutcomes(c, trace, i), After(c, trace).entries[i].counter)
    decreases |trace|
  {
    if trace != [] {
      var before, r := trace[..|trace| - 1], trace[|trace| - 1];
      var h, e := Holder(c, before, i), After(c, before).entries[i];
      OwnCounters(c, before, i);
      EntryReflects(c, before, i);
      AdmitsIff(c, before, h, e, r);
      if IndexOf(c, r.pc) == i && Admits(c, before, h, r) && KindOf(r.code) == Branch {
        if h >= 0 && before[h].pc == r.pc && KindOf(before[h].code) == Branch {
          OwnCountedLast(OwnOutcomes(c, before, i), e.counter, Taken(r));
        } else {
          OwnCountedFirst(Taken(r));
        }
      }
    }
  }

  // ----- branches with shared counters -----

  /** The outcomes of all branches so far. */
  function BranchOutcomes(trace: seq<Record>): seq<bool> {
    if trace == [] then []
    else
      var rest, r := BranchOutcomes(trace[..|trace| - 1]), trace[|trace| - 1];
      if KindOf(r.code) == Branch then rest + [Taken(r)] else rest
  }

  /** The shared counter that a branch meets after the trace: its address and the last outcomes select it. */
  function SharedIndex(c: Config, trace: seq<Record>, pc: Word): (d: nat)
    requires c.tableSize > 0
    ensures d < c.tableSize
  {
    DirectionIndex(c, pc, LastOutcomes(BranchOutcomes(trace), Width(c.ghrBits)))
  }

  lemma {:induction false} HistoryRegister(c: Config, trace: seq<Record>)
    requires c.Valid() && c.tableSize > 0 && c.ghrBits > 0
    ensures After(c, trace).ghr == LastOutcomes(BranchOutcomes(trace), Width(c.ghrBits))
    decreases |trace|
  {
    if trace != [] {
      var before, r := trace[..|trace| - 1], trace[|trace| - 1];
      HistoryRegister(c, before);
      PushOutcome(BranchOutcomes(before), Taken(r), c.ghrBits);
    }
  }

  lemma SharedIndexIs(c: Config, trace: seq<Record>, pc: Word)
    requires c.Valid() && c.tableSize > 0
    ensures DirectionIndex(c, pc, After(c, trace).ghr) == SharedIndex(c, trace, pc)
  {
    if c.ghrBits > 0 {
      HistoryRegister(c, trace);
    }
  }

  /** The outcomes of the branches that met shared counter d. */
  function SharedOutcomes(c: Config, trace: seq<Record>, d: nat): seq<bool>
    requires c.tableSize > 0
  {
    if trace == [] then []
    else
      var before, r := trace[..|trace| - 1], trace[|trace| - 1];
      var rest := SharedOutcomes(c, before, d);
      if KindOf(r.code) == Branch && SharedIndex(c, before, r.pc) == d then rest + [Taken(r)] else rest
  }

  lemma TrainedCounter(c: Config, s: State, r: Record, d: nat)
    requires s.Valid(c) && d < c.tableSize
    ensures Next(c, s, r).counters[d] ==
            if KindOf(r.code) == Branch && DirectionIndex(c, r.pc, s.ghr) == d then Bump(s.counters[d], Taken(r))
            else s.counters[d]
  {
  }

  lemma {:induction false} SharedCounters(c: Config, trace: seq<Record>, d: nat)
    requires c.Valid() && d < c.tableSize
    ensures After(c, trace).counters[d] == Counted(1, SharedOutcomes(c, trace, d))
    decreases |trace|
  {
    if trace != [] {
      var before, r := trace[..|trace| - 1], trace[|trace| - 1];
      SharedCounters(c, before, d);
      SharedIndexIs(c, before, r.pc);
      TrainedCounter(c, After(c, before), r, d);
      CountedLast(1, SharedOutcomes(c, before, d), Taken(r));
    }
  }

  // ----- what is predicted for a branch -----

  /** The outcomes that the direction predicted for an address depends on. */
  ghost function Evidence(c: Config, trace: seq<Record>, pc: Word): seq<bool>
    requires c.Valid()
  {
    if c.tableSize == 0 then OwnOutcomes(c, trace, IndexOf(c, pc))
    else SharedOutcomes(c, trace, SharedIndex(c, trace, pc))
  }

  predicate Direction(c: Config, s: State, pc: Word)
    requires s.Valid(c)
  {
    if c.tableSize == 0 then s.entries[IndexOf(c, pc)].counter >= 2
    else s.counters[DirectionIndex(c, pc, s.ghr)] >= 2
  }

  lemma BranchHit(c: Config, s: State, r: Record, e: Entry)
    requires s.Valid(c) && s.entries[IndexOf(c, r.pc)] == e && Hit(e, r) && e.isBranch && !e.isJal
    ensures PredictsTaken(c, s, r) <==> Direction(c, s, r.pc)
    ensures PredictedPc(c, s, r) == if Direction(c, s, r.pc) then e.target else Wrap(r.pc + 4)
  {
  }

  lemma DirectionDecided(c: Config, trace: seq<Record>, pc: Word, t: bool)
    requires c.Valid() && Decides(Evidence(c, trace, pc), t)
    requires var h := Holder(c, trace, IndexOf(c, pc)); h >= 0 && KindOf(trace[h].code) == Branch
    ensures Direction(c, After(c, trace), pc) <==> t
  {
    if c.tableSize == 0 {
      OwnCounters(c, trace, IndexOf(c, pc));
      CountedDecides(if Evidence(c, trace, pc)[0] then 1 else 2, Evidence(c, trace, pc), t);
    } else {
      SharedIndexIs(c, trace, pc);
      SharedCounters(c, trace, SharedIndex(c, trace, pc));
      CountedDecides(1, Evidence(c, trace, pc), t);
    }
  }

  /** A branch that is remembered is predicted by the outcomes it depends on, once they decide: to its own target
      or to the next instruction. */
  lemma RememberedBranch(c: Config, trace: seq<Record>, r: Record, h: nat, t: bool)
    requires c.Valid() && Holder(c, trace, IndexOf(c, r.pc)) == h && trace[h].pc == r.pc
    requires KindOf(trace[h].code) == Branch && Decides(Evidence(c, trace, r.pc), t)
    ensures PredictsTaken(c, After(c, trace), r) <==> t
    ensures PredictedPc(c, After(c, trace), r) == if t then DirectTarget(r.pc, trace[h].code) else Wrap(r.pc + 4)
  {
    EntryReflects(c, trace, IndexOf(c, r.pc));
    BranchHit(c, After(c, trace), r, After(c, trace).entries[IndexOf(c, r.pc)]);
    DirectionDecided(c, trace, r.pc, t);
  }
}
