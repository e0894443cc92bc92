/**
  What the direction predictors predict, told from the branches of the trace alone: which earlier outcomes
  a prediction depends on, and when they decide it.
  */
module PredictorLaws {
  import opened Bits
  import opened Predictors

  // ----- one counter -----

  /** A counter after some outcomes. */
  function Counted(init: Counter, outcomes: seq<bool>): Counter {
    if outcomes == [] then init
    else Bump(Counted(init, outcomes[..|outcomes| - 1]), outcomes[|outcomes| - 1])
  }

  predicate EndsWith(outcomes: seq<bool>, tail: seq<bool>) {
    |outcomes| >= |tail| && outcomes[|outcomes| - |tail|..] == tail
  }

  /** Outcomes that leave no doubt: the only one, the last two alike, or one exception after three alike. */
  predicate Decides(outcomes: seq<bool>, t: bool) {
    outcomes == [t] || EndsWith(outcomes, [t, t]) || EndsWith(outcomes, [t, t, t, !t])
  }

  lemma CountedLast(init: Counter, outcomes: seq<bool>, t: bool)
    ensures Counted(init, outcomes + [t]) == Bump(Counted(init, outcomes), t)
  {
    assert (outcomes + [t])[..|outcomes|] == outcomes;
  }

  lemma CountedTwo(init: Counter, outcomes: seq<bool>, t: bool)
    requires EndsWith(outcomes, [t, t])
    ensures Counted(init, outcomes) >= 2 <==> t
  {
    var rest := outcomes[..|outcomes| - 2];
    assert outcomes == rest + [t] + [t];
    CountedLast(init, rest, t);
    CountedLast(init, rest + [t], t);
  }

  lemma CountedFour(init: Counter, outcomes: seq<bool>, t: bool)
    requires EndsWith(outcomes, [t, t, t, !t])
    ensures Counted(init, outcomes) >= 2 <==> t
  {
    var rest := outcomes[..|outcomes| - 4];
    assert outcomes == rest + [t] + [t] + [t] + [!t];
    CountedLast(init, rest, t);
    CountedLast(init, rest + [t], t);
    CountedLast(init, rest + [t] + [t], t);
    CountedLast(init, rest + [t] + [t] + [t], !t);
  }

  /** A counter that starts on either side of the threshold follows the outcomes that decide. */
  lemma CountedDecides(init: Counter, outcomes: seq<bool>, t: bool)
    requires init == 1 || init == 2
    requires Decides(outcomes, t)
    ensures Counted(init, outcomes) >= 2 <==> t
  {
    if outcomes == [t] {
      CountedLast(init, [], t);
      assert [] + [t] == outcomes;
    } else if EndsWith(outcomes, [t, t]) {
      CountedTwo(init, outcomes, t);
    } else {
      CountedFour(init, outcomes, t);
    }
  }

  // ----- gshare -----

  function HashIndex(pc: nat, history: nat, bits: nat, size: nat): (i: nat)
    requires size > 0
    ensures i < size
  {
    Low(Xor(pc / 4, history), Width(bits)) % size
  }

  /** Outcomes of the branches that met counter i: the address and the outcomes before it select the counter. */
  function GshareOutcomes(size: nat, bits: nat, trace: seq<Outcome>, i: nat): seq<bool>
    requires size > 0
  {
    if trace == [] then []
    else
      var before, o := trace[..|trace| - 1], trace[|trace| - 1];
      var rest := GshareOutcomes(size, bits, before, i);
      if HashIndex(o.pc, LastOutcomes(Directions(before), Width(bits)), bits, size) == i then rest + [o.taken] else rest
  }

  /** Every counter of the table has counted the outcomes that met it. */
  lemma {:induction false} GshareCounts(size: nat, bits: nat, trace: seq<Outcome>, i: nat)
    requires i < size
    ensures GshareAfter(size, bits, trace).pht[i] == Counted(1, GshareOutcomes(size, bits, trace, i))
    decreases |trace|
  {
    if trace != [] {
      var before, o := trace[..|trace| - 1], trace[|trace| - 1];
      GshareCounts(size, bits, before, i);
      GlobalHistory(size, bits, before);
      CountedLast(1, GshareOutcomes(size, bits, before, i), o.taken);
    }
  }

  /** The next prediction follows the outcomes under the same address and history, once they decide. */
  lemma GshareLearns(size: nat, bits: nat, trace: seq<Outcome>, pc: nat, t: bool)
    requires size > 0
    ensures var i := HashIndex(pc, LastOutcomes(Directions(trace), Width(bits)), bits, size);
      var outcomes := GshareOutcomes(size, bits, trace, i);
      && (Decides(outcomes, t) ==> (GshareAfter(size, bits, trace).Predict(pc, bits) <==> t))
      && (outcomes == [] ==> !GshareAfter(size, bits, trace).Predict(pc, bits))
  {
    var i := HashIndex(pc, LastOutcomes(Directions(trace), Width(bits)), bits, size);
    GlobalHistory(size, bits, trace);
    GshareCounts(size, bits, trace, i);
    if Decides(GshareOutcomes(size, bits, trace, i), t) {
      CountedDecides(1, GshareOutcomes(size, bits, trace, i), t);
    }
  }

  lemma {:induction false} LowXor(x: nat, y: nat, k: nat)
    ensures Low(Xor(x, y), k) == Xor(Low(x, k), Low(y, k))
    decreases k
  {
    if k > 0 {
      LowXor(x / 2, y / 2, k - 1);
      XorParts(x, y);
      LowStep(Xor(x, y), k);
      LowStep(x, k);
      LowStep(y, k);
      XorStep(Low(x, k), Low(y, k));
    }
  }

  lemma LowStep(x: nat, k: nat)
    requires k > 0
    ensures Low(x, k) == 2 * Low(x / 2, k - 1) + x % 2
    ensures Low(x, k) / 2 == Low(x / 2, k - 1) && Low(x, k) % 2 == x % 2
  {
  }

  lemma XorInjective(a: nat, b: nat, c: nat)
    ensures Xor(a, c) == Xor(b, c) <==> a == b
    ensures Xor(c, a) == Xor(c, b) <==> a == b
  {
    XorTwice(a, c);
    XorTwice(b, c);
    XorCommutes(a, c);
    XorCommutes(b, c);
  }

  lemma LowIsMod(x: nat, k: nat)
    ensures Pow2(k) > 0 && Low(x, k) == x % Pow2(k)
  {
    Split(x, k);
    ShlMul(Shr(x, k), k);
    ModIs(Pow2(k), Shr(x, k), Low(x, k));
  }

  lemma ModIs(p: nat, q: nat, r: nat)
    requires r < p
    ensures (q * p + r) % p == r
  {
    QuotientIs(p, q, r);
  }

  /** With a table as large as the history allows, two histories never share the counter of a branch, and two
      branches share it only if their addresses agree in the bits that are used. */
  lemma HashSeparates(pc: nat, pc2: nat, history: nat, history2: nat, bits: nat, size: nat)
    requires size == Pow2(Width(bits)) && size > 0 && history < size && history2 < size
    ensures HashIndex(pc, history, bits, size) == HashIndex(pc, history2, bits, size) <==> history == history2
    ensures HashIndex(pc, history, bits, size) == HashIndex(pc2, history, bits, size) <==>
            PcIndex(pc, size) == PcIndex(pc2, size)
  {
    HashParts(pc, history, bits, size);
    HashParts(pc, history2, bits, size);
    HashParts(pc2, history, bits, size);
    XorInjective(history, history2, pc / 4 % size);
    XorInjective(pc / 4 % size, pc2 / 4 % size, history);
  }

  lemma HashParts(pc: nat, history: nat, bits: nat, size: nat)
    requires size == Pow2(Width(bits)) && size > 0 && history < size
    ensures HashIndex(pc, history, bits, size) == Xor(PcIndex(pc, size), history)
  {
    LowHash(pc / 4, history, Width(bits));
    LowIsMod(pc / 4, Width(bits));
  }

  lemma LowHash(x: nat, history: nat, k: nat)
    requires history < Pow2(k)
    ensures Low(Xor(x, history), k) % Pow2(k) == Xor(Low(x, k), history)
  {
    LowXor(x, history, k);
    LowSmall(history, k);
    Split(Xor(x, history), k);
    ModIs(Pow2(k), 0, Low(Xor(x, history), k));
  }

  // ----- local histories -----

  /** Outcomes of the branches that met counter i: the earlier outcomes of the same register select the counter. */
  function LocalOutcomes(lht: nat, size: nat, bits: nat, trace: seq<Outcome>, i: nat): seq<bool>
    requires lht > 0 && size > 0
  {
    if trace == [] then []
    else
      var before, o := trace[..|trace| - 1], trace[|trace| - 1];
      var rest := LocalOutcomes(lht, size, bits, before, i);
      if LocalIndex(lht, size, bits, before, o.pc) == i then rest + [o.taken] else rest
  }

  function LocalIndex(lht: nat, size: nat, bits: nat, trace: seq<Outcome>, pc: nat): (i: nat)
    requires lht > 0 && size > 0
    ensures i < size
  {
    LastOutcomes(DirectionsAt(trace, lht, PcIndex(pc, lht)), Width(bits)) % size
  }

  lemma {:induction false} LocalCounts(lht: nat, size: nat, bits: nat, trace: seq<Outcome>, i: nat)
    requires lht > 0 && i < size
    ensures LocalAfter(lht, size, bits, trace).pht[i] == Counted(1, LocalOutcomes(lht, size, bits, trace, i))
    decreases |trace|
  {
    if trace != [] {
      var before, o := trace[..|trace| - 1], trace[|trace| - 1];
      LocalCounts(lht, size, bits, before, i);
      LocalHistory(lht, size, bits, before, PcIndex(o.pc, lht));
      CountedLast(1, LocalOutcomes(lht, size, bits, before, i), o.taken);
    }
  }

  lemma LocalLearns(lht: nat, size: nat, bits: nat, trace: seq<Outcome>, pc: nat, t: bool)
    requires lht > 0 && size > 0
    ensures var outcomes := LocalOutcomes(lht, size, bits, trace, LocalIndex(lht, size, bits, trace, pc));
      && (Decides(outcomes, t) ==> (LocalAfter(lht, size, bits, trace).Predict(pc) <==> t))
      && (outcomes == [] ==> !LocalAfter(lht, size, bits, trace).Predict(pc))
  {
    var i := LocalIndex(lht, size, bits, trace, pc);
    LocalHistory(lht, size, bits, trace, PcIndex(pc, lht));
    LocalCounts(lht, size, bits, trace, i);
    if Decides(LocalOutcomes(lht, size, bits, trace, i), t) {
      CountedDecides(1, LocalOutcomes(lht, size, bits, trace, i), t);
    }
  }

  // ----- the chooser -----

  // What each predictor says alone.

  predicate LocalGuess(z: Sizes, trace: seq<Outcome>, pc: nat)
    requires z.Valid()
  {
    LocalAfter(z.lht, z.localPht, z.localBits, trace).Predict(pc)
  }

  predicate GshareGuess(z: Sizes, trace: seq<Outcome>, pc: nat)
    requires z.Valid()
  {
    GshareAfter(z.gshare, z.ghrBits, trace).Predict(pc, z.ghrBits)
  }

  /** The branches of chooser counter i on which the two predictors disagreed, and whether gshare was right. */
  function Disputes(z: Sizes, trace: seq<Outcome>, i: nat): seq<bool>
    requires z.Valid()
  {
    if trace == [] then []
    else
      var before, o := trace[..|trace| - 1], trace[|trace| - 1];
      var rest := Disputes(z, before, i);
      if PcIndex(o.pc, z.chooser) == i && LocalGuess(z, before, o.pc) != GshareGuess(z, before, o.pc)
      then rest + [GshareGuess(z, before, o.pc) == o.taken]
      else rest
  }

  lemma ChooserMoves(p: Pair, o: Outcome, z: Sizes, i: nat)
    requires p.Valid(z) && i < z.chooser
    ensures var l, g := p.local.Predict(o.pc), p.gshare.Predict(o.pc, z.ghrBits);
      p.Update(o, z).chooser[i] ==
      if PcIndex(o.pc, z.chooser) == i && l != g then Bump(p.chooser[i], g == o.taken) else p.chooser[i]
  {
  }

  lemma {:induction false} ChooserCounts(z: Sizes, trace: seq<Outcome>, i: nat)
    requires z.Valid() && i < z.chooser
    ensures PairAfter(z, trace).chooser[i] == Counted(2, Disputes(z, trace, i))
    decreases |trace|
  {
    if trace != [] {
      var before, o := trace[..|trace| - 1], trace[|trace| - 1];
      ChooserCounts(z, before, i);
      PartsRunAlone(z, before);
      ChooserMoves(PairAfter(z, before), o, z, i);
      CountedLast(2, Disputes(z, before, i), GshareGuess(z, before, o.pc) == o.taken);
    }
  }

  /** The tournament follows the predictor that won the disputes, once they decide, and gshare before any. */
  lemma TournamentFollowsWinner(z: Sizes, trace: seq<Outcome>, pc: nat, gshareWon: bool)
    requires z.Valid()
    requires var disputes := Disputes(z, trace, PcIndex(pc, z.chooser));
      Decides(disputes, gshareWon) || (disputes == [] && gshareWon)
    ensures PairAfter(z, trace).Predict(pc, z) ==
            if gshareWon then GshareGuess(z, trace, pc) else LocalGuess(z, trace, pc)
  {
    var i := PcIndex(pc, z.chooser);
    ChooserCounts(z, trace, i);
    PartsRunAlone(z, trace);
    if Decides(Disputes(z, trace, i), gshareWon) {
      CountedDecides(2, Disputes(z, trace, i), gshareWon);
    }
  }
}
