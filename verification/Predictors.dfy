/**
  The direction predictors of the branch simulator: two-bit counters, gshare, per-branch local
  histories and the tournament that chooses between the two.
  */
module Predictors {
  import opened Bits

  type Counter = x: nat | x <= 3

  /** A branch of the trace and whether it was taken. */
  datatype Outcome = Outcome(pc: nat, taken: bool)

  // ----- what the predictors compute -----

  function Bump(c: Counter, high: bool): Counter {
    if high then if c < 3 then c + 1 else c else if c > 0 then c - 1 else c
  }

  function UpdateTable(counters: seq<Counter>, i: nat, high: bool): seq<Counter>
    requires i < |counters|
  {
    counters[i := Bump(counters[i], high)]
  }

  /** History registers are at most 32 bits wide. */
  function Width(bits: nat): nat {
    if bits >= 32 then 32 else bits
  }

  function Push(history: nat, taken: bool, bits: nat): nat {
    Low(2 * history + (if taken then 1 else 0), Width(bits))
  }

  function PcIndex(pc: nat, size: nat): nat
    requires size > 0
    ensures PcIndex(pc, size) < size
  {
    pc / 4 % size
  }

  datatype Gshare = Gshare(pht: seq<Counter>, ghr: nat)
  {
    function Index(pc: nat, bits: nat): nat
      requires |pht| > 0
      ensures Index(pc, bits) < |pht|
    {
      Low(Xor(pc / 4, ghr), Width(bits)) % |pht|
    }

    predicate Predict(pc: nat, bits: nat)
      requires |pht| > 0
    {
      pht[Index(pc, bits)] >= 2
    }

    function Update(o: Outcome, bits: nat): (g: Gshare)
      requires |pht| > 0
      ensures |g.pht| == |pht|
    {
      Gshare(UpdateTable(pht, Index(o.pc, bits), o.taken), Push(ghr, o.taken, bits))
    }
  }

  datatype Local = Local(histories: seq<nat>, pht: seq<Counter>)
  {
    predicate Valid() {
      |histories| > 0 && |pht| > 0
    }

    function Index(pc: nat): nat
      requires Valid()
      ensures Index(pc) < |pht|
    {
      histories[PcIndex(pc, |histories|)] % |pht|
    }

    predicate Predict(pc: nat)
      requires Valid()
    {
      pht[Index(pc)] >= 2
    }

    function Update(o: Outcome, bits: nat): (l: Local)
      requires Valid()
      ensures l.Valid() && |l.histories| == |histories| && |l.pht| == |pht|
    {
      var h := PcIndex(o.pc, |histories|);
      Local(histories[h := Push(histories[h], o.taken, bits)], UpdateTable(pht, Index(o.pc), o.taken))
    }
  }

  // ----- whole runs -----

  function Fresh(size: nat, init: Counter): seq<Counter> {
    seq(size, _ => init)
  }

  function GshareAfter(size: nat, bits: nat, trace: seq<Outcome>): (g: Gshare)
    requires size > 0
    ensures |g.pht| == size
  {
    if trace == [] then Gshare(Fresh(size, 1), 0)
    else GshareAfter(size, bits, trace[..|trace| - 1]).Update(trace[|trace| - 1], bits)
  }

  function LocalAfter(lht: nat, size: nat, bits: nat, trace: seq<Outcome>): (l: Local)
    requires lht > 0 && size > 0
    ensures l.Valid() && |l.histories| == lht && |l.pht| == size
  {
    if trace == [] then Local(seq(lht, _ => 0), Fresh(size, 1))
    else LocalAfter(lht, size, bits, trace[..|trace| - 1]).Update(trace[|trace| - 1], bits)
  }

  // ----- history registers -----

  /** The last k outcomes as a binary number, the latest one lowest. */
  function LastOutcomes(taken: seq<bool>, k: nat): nat
    decreases k
  {
    if k == 0 || taken == [] then 0
    else 2 * LastOutcomes(taken[..|taken| - 1], k - 1) + (if taken[|taken| - 1] then 1 else 0)
  }

  /** Forgetting all but the last k outcomes. */
  lemma {:induction false} LowLastOutcomes(taken: seq<bool>, n: nat, k: nat)
    requires k <= n
    ensures Low(LastOutcomes(taken, n), k) == LastOutcomes(taken, k)
    decreases k
  {
    if k == 0 {
    } else if taken == [] {
      Pow2Positive(k);
      LowSmall(0, k);
    } else {
      LowLastOutcomes(taken[..|taken| - 1], n - 1, k - 1);
    }
  }

  lemma PushOutcome(taken: seq<bool>, t: bool, bits: nat)
    ensures Push(LastOutcomes(taken, Width(bits)), t, bits) == LastOutcomes(taken + [t], Width(bits))
  {
    var k := Width(bits);
    assert (taken + [t])[..|taken|] == taken;
    assert LastOutcomes(taken + [t], k + 1) == 2 * LastOutcomes(taken, k) + (if t then 1 else 0);
    LowLastOutcomes(taken + [t], k + 1, k);
  }

  function Directions(trace: seq<Outcome>): seq<bool> {
    seq(|trace|, i requires 0 <= i < |trace| => trace[i].taken)
  }

  /** The outcomes of the branches that share history register h. */
  function DirectionsAt(trace: seq<Outcome>, lht: nat, h: nat): seq<bool>
    requires lht > 0
  {
    if trace == [] then []
    else
      var rest := DirectionsAt(trace[..|trace| - 1], lht, h);
      var o := trace[|trace| - 1];
      if PcIndex(o.pc, lht) == h then rest + [o.taken] else rest
  }

  /** The global history is the last outcomes of the whole trace. */
  lemma {:induction false} GlobalHistory(size: nat, bits: nat, trace: seq<Outcome>)
    requires size > 0
    ensures GshareAfter(size, bits, trace).ghr == LastOutcomes(Directions(trace), Width(bits))
    decreases |trace|
  {
    if trace != [] {
      var before, o := trace[..|trace| - 1], trace[|trace| - 1];
      GlobalHistory(size, bits, before);
      assert Directions(trace) == Directions(before) + [o.taken];
      PushOutcome(Directions(before), o.taken, bits);
    }
  }

  /** Every local history is the last outcomes of the branches that use it. */
  lemma {:induction false} LocalHistory(lht: nat, size: nat, bits: nat, trace: seq<Outcome>, h: nat)
    requires size > 0 && h < lht
    ensures LocalAfter(lht, size, bits, trace).histories[h] == LastOutcomes(DirectionsAt(trace, lht, h), Width(bits))
    decreases |trace|
  {
    if trace != [] {
      var before, o := trace[..|trace| - 1], trace[|trace| - 1];
      LocalHistory(lht, size, bits, before, h);
      PushOutcome(DirectionsAt(before, lht, h), o.taken, bits);
    }
  }

  // ----- the tournament -----

  datatype Sizes = Sizes(lht: nat, localBits: nat, localPht: nat, gshare: nat, chooser: nat, ghrBits: nat)
  {
    predicate Valid() {
      lht > 0 && localPht > 0 && gshare > 0 && chooser > 0
    }
  }

  /** The local and the global predictor side by side, and the counters that choose. */
  datatype Pair = Pair(local: Local, gshare: Gshare, chooser: seq<Counter>)
  {
    predicate Valid(z: Sizes) {
      z.Valid() && local.Valid() && |local.histories| == z.lht && |local.pht| == z.localPht
      && |gshare.pht| == z.gshare && |chooser| == z.chooser
    }

    predicate Predict(pc: nat, z: Sizes)
      requires Valid(z)
    {
      if chooser[PcIndex(pc, z.chooser)] >= 2 then gshare.Predict(pc, z.ghrBits) else local.Predict(pc)
    }

    /** The chooser moves towards the predictor that was right, if only one was. */
    function Update(o: Outcome, z: Sizes): (p: Pair)
      requires Valid(z)
      ensures p.Valid(z)
    {
      var l, g := local.Predict(o.pc), gshare.Predict(o.pc, z.ghrBits);
      Pair(local.Update(o, z.localBits), gshare.Update(o, z.ghrBits),
           if l == g then chooser else UpdateTable(chooser, PcIndex(o.pc, z.chooser), g == o.taken))
    }
  }

  function PairAfter(z: Sizes, trace: seq<Outcome>): (p: Pair)
    requires z.Valid()
    ensures p.Valid(z)
  {
    if trace == [] then
      Pair(LocalAfter(z.lht, z.localPht, z.localBits, []), GshareAfter(z.gshare, z.ghrBits, []), Fresh(z.chooser, 2))
    else PairAfter(z, trace[..|trace| - 1]).Update(trace[|trace| - 1], z)
  }

  /** Inside the tournament the two predictors evolve as they would alone. */
  lemma {:induction false} PartsRunAlone(z: Sizes, trace: seq<Outcome>)
    requires z.Valid()
    ensures PairAfter(z, trace).local == LocalAfter(z.lht, z.localPht, z.localBits, trace)
    ensures PairAfter(z, trace).gshare == GshareAfter(z.gshare, z.ghrBits, trace)
    decreases |trace|
  {
    if trace != [] {
      PartsRunAlone(z, trace[..|trace| - 1]);
    }
  }

  function One(b: bool): nat {
    if b then 1 else 0
  }

  // Wrong predictions over a trace: of each predictor run alone, of both at once, of the tournament.
  function LocalErrors(z: Sizes, trace: seq<Outcome>): nat
    requires z.Valid()
  {
    if trace == [] then 0
    else
      var before, o := trace[..|trace| - 1], trace[|trace| - 1];
      LocalErrors(z, before) + One(LocalAfter(z.lht, z.localPht, z.localBits, before).Predict(o.pc) != o.taken)
  }

  function GshareErrors(z: Sizes, trace: seq<Outcome>): nat
    requires z.Valid()
  {
    if trace == [] then 0
    else
      var before, o := trace[..|trace| - 1], trace[|trace| - 1];
      GshareErrors(z, before) + One(GshareAfter(z.gshare, z.ghrBits, before).Predict(o.pc, z.ghrBits) != o.taken)
  }

  function CommonErrors(z: Sizes, trace: seq<Outcome>): nat
    requires z.Valid()
  {
    if trace == [] then 0
    else
      var before, o := trace[..|trace| - 1], trace[|trace| - 1];
      CommonErrors(z, before)
      + One(LocalAfter(z.lht, z.localPht, z.localBits, before).Predict(o.pc) != o.taken
            && GshareAfter(z.gshare, z.ghrBits, before).Predict(o.pc, z.ghrBits) != o.taken)
  }

  function PairErrors(z: Sizes, trace: seq<Outcome>): nat
    requires z.Valid()
  {
    if trace == [] then 0
    else
      var before, o := trace[..|trace| - 1], trace[|trace| - 1];
      PairErrors(z, before) + One(PairAfter(z, before).Predict(o.pc, z) != o.taken)
  }

  /** The tournament errs at least where both err, and at most where one of them errs. */
  lemma {:induction false} TournamentErrorBounds(z: Sizes, trace: seq<Outcome>)
    requires z.Valid()
    ensures CommonErrors(z, trace) <= PairErrors(z, trace)
    ensures PairErrors(z, trace) + CommonErrors(z, trace) <= LocalErrors(z, trace) + GshareErrors(z, trace)
    decreases |trace|
  {
    if trace != [] {
      TournamentErrorBounds(z, trace[..|trace| - 1]);
      PartsRunAlone(z, trace[..|trace| - 1]);
    }
  }

  // ----- the objects -----

  class GSharePredictor {
    const bits: nat
    var pht: seq<Counter>
    var ghr: nat

    ghost function State(): Gshare
      reads this
    {
      Gshare(pht, ghr)
    }

    constructor (size: nat, bits: nat)
      requires size > 0
      ensures this.bits == bits && State() == GshareAfter(size, bits, [])
    {
      this.bits := bits;
      pht, ghr := Fresh(size, 1), 0;
    }

    method PredictTaken(pc: nat) returns (taken: bool)
      requires |pht| > 0
      ensures taken == State().Predict(pc, bits)
    {
      taken := pht[Low(Xor(pc / 4, ghr), Width(bits)) % |pht|] >= 2;
    }

    method Update(pc: nat, taken: bool)
      requires |pht| > 0
      modifies this
      ensures State() == old(State()).Update(Outcome(pc, taken), bits)
    {
      var i := Low(Xor(pc / 4, ghr), Width(bits)) % |pht|;
      if taken {
        if pht[i] < 3 {
          pht := pht[i := pht[i] + 1];
        }
      } else if pht[i] > 0 {
        pht := pht[i := pht[i] - 1];
      }
      ghr := Low(2 * ghr + (if taken then 1 else 0), Width(bits));
    }
  }

  class LocalPredictor {
    const bits: nat
    var histories: seq<nat>
    var pht: seq<Counter>

    ghost function State(): Local
      reads this
    {
      Local(histories, pht)
    }

    constructor (lht: nat, bits: nat, size: nat)
      requires lht > 0 && size > 0
      ensures this.bits == bits && State() == LocalAfter(lht, size, bits, [])
    {
      this.bits := bits;
      histories, pht := seq(lht, _ => 0), Fresh(size, 1);
    }

    method PredictTaken(pc: nat) returns (taken: bool)
      requires State().Valid()
      ensures taken == State().Predict(pc)
    {
      taken := pht[histories[pc / 4 % |histories|] % |pht|] >= 2;
    }

    method Update(pc: nat, taken: bool)
      requires State().Valid()
      modifies this
      ensures State() == old(State()).Update(Outcome(pc, taken), bits)
    {
      var h := pc / 4 % |histories|;
      var i := histories[h] % |pht|;
      if taken {
        if pht[i] < 3 {
          pht := pht[i := pht[i] + 1];
        }
      } else if pht[i] > 0 {
        pht := pht[i := pht[i] - 1];
      }
      histories := histories[h := Low(2 * histories[h] + (if taken then 1 else 0), Width(bits))];
    }
  }

  class TournamentPredictor {
    const local: LocalPredictor
    const gshare: GSharePredictor
    const sizes: Sizes
    var chooser: seq<Counter>

    ghost function State(): Pair
      reads this, local, gshare
    {
      Pair(local.State(), gshare.State(), chooser)
    }

    ghost predicate Valid()
      reads this, local, gshare
    {
      State().Valid(sizes) && local.bits == sizes.localBits && gshare.bits == sizes.ghrBits
    }

    constructor (z: Sizes)
      requires z.Valid()
      ensures Valid() && sizes == z && State() == PairAfter(z, []) && fresh(local) && fresh(gshare)
    {
      local := new LocalPredictor(z.lht, z.localBits, z.localPht);
      gshare := new GSharePredictor(z.gshare, z.ghrBits);
      sizes, chooser := z, Fresh(z.chooser, 2);
    }

    method PredictTaken(pc: nat) returns (taken: bool)
      requires Valid()
      ensures taken == State().Predict(pc, sizes)
    {
      var localTaken := local.PredictTaken(pc);
      var gshareTaken := gshare.PredictTaken(pc);
      taken := if chooser[pc / 4 % |chooser|] >= 2 then gshareTaken else localTaken;
    }

    method Update(pc: nat, taken: bool)
      requires Valid()
      modifies this, local, gshare
      ensures Valid() && State() == old(State()).Update(Outcome(pc, taken), sizes)
    {
      var i := pc / 4 % |chooser|;
      var localTaken := local.PredictTaken(pc);
      var gshareTaken := gshare.PredictTaken(pc);
      if localTaken != gshareTaken {
        if gshareTaken == taken {
          chooser := UpdateTable(chooser, i, true);
        } else if localTaken == taken {
          chooser := UpdateTable(chooser, i, false);
        }
      }
      local.Update(pc, taken);
      gshare.Update(pc, taken);
    }
  }

  /** A whole run: the final state and the number of wrong predictions. */
  method RunTournament(z: Sizes, trace: seq<Outcome>) returns (t: TournamentPredictor, errors: nat)
    requires z.Valid()
    ensures t.Valid() && t.sizes == z && t.State() == PairAfter(z, trace) && errors == PairErrors(z, trace)
  {
    t := new TournamentPredictor(z);
    errors := 0;
    assert trace[..0] == [];
    for n := 0 to |trace|
      invariant t.Valid() && t.sizes == z && fresh(t) && fresh(t.local) && fresh(t.gshare)
      invariant t.State() == PairAfter(z, trace[..n]) && errors == PairErrors(z, trace[..n])
    {
      assert trace[..n + 1][..n] == trace[..n];
      var guess := t.PredictTaken(trace[n].pc);
      if guess != trace[n].taken {
        errors := errors + 1;
      }
      t.Update(trace[n].pc, trace[n].taken);
    }
    assert trace[..|trace|] == trace;
  }
}
