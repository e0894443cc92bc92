/**
  The circuit that advances the numeric-token machine: two copies of a two-character stage in
  series. It computes what the emulator's word step computes.
  */
module DfaCircuit {
  import opened Bits
  import opened TokenDfa
  import opened NumericDfa

  /** The wires between two characters. */
  datatype Lane = Lane(state: nat, mask: nat, consumed: nat, active: bool, stopped: bool)

  /** The stage's table: the next state number and the counters that rise. */
  function Transition(state: nat, symbol: nat): (nat, nat) {
    var digit := IsDigit(symbol);
    var next :=
      if state == 0 then if digit then 4 else if IsSign(symbol) then 2 else if symbol == DOT then 5 else 1
      else if state == 2 then if digit then 4 else if symbol == DOT then 5 else 1
      else if state == 4 then if symbol == DOT then 5 else if digit then 4 else 1
      else if state == 5 then if symbol == UPPER_E || symbol == LOWER_E then 3 else if digit then 5 else 1
      else if state == 3 then if IsSign(symbol) then 6 else 1
      else if state == 6 || state == 7 then if digit then 7 else 1
      else 1;
    var mask :=
      if state == 0 then Or(1, if next == 1 then 2 else 0)
      else if state == 2 then 4
      else if state == 3 then 8
      else if state == 4 then if next != 4 then 16 else 0
      else if state == 5 then if next != 5 then 32 else 0
      else if state == 6 then 64
      else if state == 7 then if next == 1 then 2 else 0
      else 0;
    (next, mask)
  }

  /** Character number i of a stage that may use `available` characters. */
  function CharStep(l: Lane, symbol: nat, i: nat, available: nat): Lane {
    var take := l.active && i < available;
    var run := take && symbol != 0 && symbol != COMMA;
    var (next, mask) := Transition(l.state, symbol);
    var terminal := take && (symbol == 0 || symbol == COMMA || (run && next == 1));
    Lane(if run then next else l.state,
         Or(l.mask, if run then mask else 0),
         (l.consumed + if take && symbol != 0 then 1 else 0) % 8,
         take && !terminal && i + 1 < available,
         l.stopped || terminal)
  }

  function Stage(l: Lane, first: nat, second: nat, available: nat): Lane {
    CharStep(CharStep(l, first, 0, available), second, 1, available)
  }

  /** Both stages: the low half of the word and then the high half. */
  function Circuit(state: nat, word: seq<nat>, available: nat): Lane
    requires |word| == 4
  {
    var low := Stage(Lane(state, 0, 0, true, false), word[0], word[1], available);
    Stage(low, word[2], word[3], if available > 2 then available - 2 else 0)
  }

  /** The circuit's table is the machine's. */
  lemma TransitionMatches(s: State, c: nat)
    ensures Transition(Index(s), c) == (Index(Next(s, c).0), MaskOf(Next(s, c).1))
  {
    NextMatches(s, c);
    MaskMatches(s, c);
  }

  lemma NextMatches(s: State, c: nat)
    ensures Transition(Index(s), c).0 == Index(Next(s, c).0)
  {
  }

  lemma MaskMatches(s: State, c: nat)
    ensures Transition(Index(s), c).1 == MaskOf(Next(s, c).1)
  {
    MaskSum({});
    MaskSingle(s);
    MaskSingle(Invalid);
    MaskBadStart();
  }

  lemma MaskSingle(s: State)
    ensures MaskOf({s}) == match s
      case Start => 1
      case Invalid => 2
      case S1 => 4
      case S2 => 8
      case Int => 16
      case Float => 32
      case Exponent => 64
      case Scientific => 128
  {
    MaskSum({s});
  }

  lemma MaskBadStart()
    ensures MaskOf({Invalid, Start}) == 3 == Or(1, 2)
  {
    MaskSum({Invalid, Start});
    OrStep(1, 2);
  }

  ghost function LaneFor(a: Advance, more: bool): Lane {
    Lane(Index(a.state), MaskOf(a.hits), a.consumed, more, a.stop)
  }

  lemma CharStepMatches(a: Advance, more: bool, c: nat, i: nat, available: nat)
    requires a.consumed < 7 && (more ==> !a.stop)
    ensures CharStep(LaneFor(a, more), c, i, available) ==
            if more && i < available then
              LaneFor(AdvanceOne(a, c), !AdvanceOne(a, c).stop && i + 1 < available)
            else LaneFor(a, false)
  {
    if more && i < available && c != 0 && c != COMMA {
      RunMatches(a, c, i, available);
    } else {
      OrZero(MaskOf(a.hits));
    }
  }

  lemma RunMatches(a: Advance, c: nat, i: nat, available: nat)
    requires a.consumed < 7 && !a.stop && i < available && c != 0 && c != COMMA
    ensures CharStep(LaneFor(a, true), c, i, available) ==
            LaneFor(AdvanceOne(a, c), !AdvanceOne(a, c).stop && i + 1 < available)
  {
    TransitionMatches(a.state, c);
    MaskUnion(a.hits, Next(a.state, c).1);
  }

  lemma OrZero(x: nat)
    ensures Or(x, 0) == x
  {
  }

  /** The lane after the first k characters when n are available. */
  ghost function LaneAfter(s: State, word: seq<nat>, k: nat, n: nat): Lane
    requires k <= |word| && n <= |word|
  {
    var a := Steps(s, word[..if k < n then k else n]);
    LaneFor(a, k < n && !a.stop)
  }

  lemma LaneAdvances(s: State, word: seq<nat>, k: nat, n: nat, i: nat, available: nat)
    requires k < |word| == 4 && n <= 4
    requires (i < available <==> k < n) && (i + 1 < available <==> k + 1 < n)
    ensures CharStep(LaneAfter(s, word, k, n), word[k], i, available) == LaneAfter(s, word, k + 1, n)
  {
    var a := Steps(s, word[..if k < n then k else n]);
    CharStepMatches(a, k < n && !a.stop, word[k], i, available);
    if k < n {
      assert word[..k + 1] == word[..k] + [word[k]];
      StepsSnoc(s, word[..k], word[k]);
    }
  }

  lemma StageAdvances(s: State, word: seq<nat>, k: nat, n: nat, available: nat)
    requires k + 2 <= |word| == 4 && n <= 4
    requires available == if n > k then n - k else 0
    ensures Stage(LaneAfter(s, word, k, n), word[k], word[k + 1], available) == LaneAfter(s, word, k + 2, n)
  {
    LaneAdvances(s, word, k, n, 0, available);
    LaneAdvances(s, word, k + 1, n, 1, available);
  }

  lemma LaneStart(s: State, word: seq<nat>, n: nat)
    requires |word| == 4 && 1 <= n <= 4
    ensures LaneAfter(s, word, 0, n) == Lane(Index(s), 0, 0, true, false)
  {
    MaskSum({});
    assert word[..0] == [];
  }

  /** For every state and every word the circuit agrees with the emulator's step. */
  lemma CircuitMatches(s: State, word: seq<nat>, n: nat)
    requires |word| == 4 && 1 <= n <= 4
    ensures var a := Steps(s, word[..n]);
      Circuit(Index(s), word, n) == Lane(Index(a.state), MaskOf(a.hits), a.consumed, false, a.stop)
  {
    LaneStart(s, word, n);
    StageAdvances(s, word, 0, n, n);
    StageAdvances(s, word, 2, n, if n > 2 then n - 2 else 0);
  }
}
