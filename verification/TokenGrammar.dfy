/**
  The language of the numeric-token machine: which texts end in which state, and which transition counters
  rise, told from the characters alone.
  */
module TokenGrammar {
  import opened TokenDfa

  // ----- the machine over a text -----

  function RunFrom(s: State, text: seq<nat>): State
    decreases |text|
  {
    if text == [] then s else RunFrom(Next(s, text[0]).0, text[1..])
  }

  function HitsFrom(s: State, text: seq<nat>): set<State>
    decreases |text|
  {
    if text == [] then {} else Next(s, text[0]).1 + HitsFrom(Next(s, text[0]).0, text[1..])
  }

  lemma {:induction false} RunFromLast(s: State, text: seq<nat>, c: nat)
    ensures RunFrom(s, text + [c]) == Next(RunFrom(s, text), c).0
    decreases |text|
  {
    if text == [] {
      assert (text + [c])[1..] == [];
    } else {
      RunFromLast(Next(s, text[0]).0, text[1..], c);
      assert (text + [c])[1..] == text[1..] + [c];
    }
  }

  // ----- the texts of each state -----

  predicate Sign(c: nat) {
    c == '+' as nat || c == '-' as nat
  }

  predicate Digit(c: nat) {
    '0' as nat <= c <= '9' as nat
  }

  predicate Digits(text: seq<nat>) {
    forall k :: 0 <= k < |text| ==> Digit(text[k])
  }

  /** The number of sign characters in front: none or one. */
  function Signs(text: seq<nat>): (n: nat)
    ensures n <= |text|
  {
    if text != [] && Sign(text[0]) then 1 else 0
  }

  predicate IsSigned(text: seq<nat>) {
    |text| == 1 && Sign(text[0])
  }

  /** Digits after an optional sign. */
  predicate IsInteger(text: seq<nat>) {
    Signs(text) < |text| && Digits(text[Signs(text)..])
  }

  /** A dot with digits, or none, on both sides, after an optional sign. */
  predicate IsDecimal(text: seq<nat>) {
    exists dot :: Signs(text) <= dot < |text| && DotAt(text, dot)
  }

  predicate DotAt(text: seq<nat>, dot: nat)
    requires Signs(text) <= dot < |text|
  {
    text[dot] == '.' as nat && Digits(text[Signs(text)..dot]) && Digits(text[dot + 1..])
  }

  predicate IsScaled(text: seq<nat>) {
    && text != [] && IsDecimal(text[..|text| - 1])
    && (text[|text| - 1] == 'E' as nat || text[|text| - 1] == 'e' as nat)
  }

  predicate IsScaledSigned(text: seq<nat>) {
    text != [] && IsScaled(text[..|text| - 1]) && Sign(text[|text| - 1])
  }

  /** A decimal, an E, a sign and digits. */
  predicate IsFullNumber(text: seq<nat>) {
    exists e :: 0 <= e < |text| && ExponentAt(text, e)
  }

  predicate ExponentAt(text: seq<nat>, e: nat)
    requires e < |text|
  {
    IsScaledSigned(text[..e]) && Digits(text[e..])
  }

  /** The kinds of text, all at once. */
  datatype Verdict = Verdict(start: bool, s1: bool, integer: bool, decimal: bool, s2: bool, exponent: bool,
                             scientific: bool)
  {
    predicate Holds(s: State) {
      match s
      case Start => start
      case S1 => s1
      case Int => integer
      case Float => decimal
      case S2 => s2
      case Exponent => exponent
      case Scientific => scientific
      case Invalid => !(start || s1 || integer || decimal || s2 || exponent || scientific)
    }
  }

  function VerdictOf(text: seq<nat>): Verdict {
    Verdict(text == [], IsSigned(text), IsInteger(text), IsDecimal(text), IsScaled(text), IsScaledSigned(text),
            IsFullNumber(text))
  }

  /** The texts that lead to a state, and the rest, which lead to none but the invalid one. */
  predicate Accepts(s: State, text: seq<nat>) {
    VerdictOf(text).Holds(s)
  }

  // One more character.

  lemma IntegerLast(text: seq<nat>, c: nat)
    ensures IsInteger(text + [c]) <==> Digit(c) && (text == [] || IsSigned(text) || IsInteger(text))
  {
    var longer, n := text + [c], Signs(text);
    assert longer[|text|] == c;
    if text != [] {
      assert longer[0] == text[0];
      assert longer[n..] == text[n..] + [c];
      DigitsLast(text[n..], c);
    } else {
      assert longer == [c];
      DigitsLast([], c);
    }
  }

  lemma DigitsLast(text: seq<nat>, c: nat)
    ensures Digits(text + [c]) <==> Digits(text) && Digit(c)
  {
    if Digits(text + [c]) {
      assert forall k :: 0 <= k < |text| ==> (text + [c])[k] == text[k];
      assert (text + [c])[|text|] == c;
    }
  }

  /** A text without a dot so far. */
  predicate Whole(text: seq<nat>) {
    text == [] || IsSigned(text) || IsInteger(text)
  }

  lemma DotLast(text: seq<nat>, c: nat, dot: nat)
    requires Signs(text) <= dot < |text|
    ensures Signs(text + [c]) == Signs(text)
    ensures DotAt(text + [c], dot) <==> DotAt(text, dot) && Digit(c)
  {
    var longer, n := text + [c], Signs(text);
    assert longer[0] == text[0] && longer[dot] == text[dot];
    assert longer[n..dot] == text[n..dot];
    assert longer[dot + 1..] == text[dot + 1..] + [c];
    DigitsLast(text[dot + 1..], c);
  }

  lemma DotEnds(text: seq<nat>, c: nat)
    ensures Signs(text + [c]) <= |text| ==> (DotAt(text + [c], |text|) <==> c == '.' as nat && Whole(text))
    ensures Signs(text + [c]) > |text| ==> text == [] && c != '.' as nat
  {
    var longer := text + [c];
    assert longer[|text|] == c;
    if text != [] {
      assert longer[0] == text[0];
      assert longer[Signs(text)..|text|] == text[Signs(text)..];
      assert longer[|text| + 1..] == [];
    }
  }

  lemma DecimalLast(text: seq<nat>, c: nat)
    ensures IsDecimal(text + [c]) <==> (IsDecimal(text) && Digit(c)) || (c == '.' as nat && Whole(text))
  {
    var longer := text + [c];
    DotEnds(text, c);
    if IsDecimal(longer) {
      var dot :| Signs(longer) <= dot < |longer| && DotAt(longer, dot);
      if dot < |text| {
        assert longer[0] == text[0];
        DotLast(text, c, dot);
      }
    }
    if IsDecimal(text) && Digit(c) {
      var dot :| Signs(text) <= dot < |text| && DotAt(text, dot);
      DotLast(text, c, dot);
    }
  }

  lemma ScaledLast(text: seq<nat>, c: nat)
    ensures IsScaled(text + [c]) <==> IsDecimal(text) && (c == 'E' as nat || c == 'e' as nat)
    ensures IsScaledSigned(text + [c]) <==> IsScaled(text) && Sign(c)
  {
    assert (text + [c])[..|text|] == text;
  }

  lemma ExponentLast(text: seq<nat>, c: nat, e: nat)
    requires e <= |text|
    ensures ExponentAt(text + [c], e) <==>
            Digit(c) && if e < |text| then ExponentAt(text, e) else IsScaledSigned(text)
  {
    assert (text + [c])[..e] == text[..e] && (text + [c])[e..] == text[e..] + [c];
    assert text[..|text|] == text;
    DigitsLast(text[e..], c);
  }

  lemma FullNumberLast(text: seq<nat>, c: nat)
    ensures IsFullNumber(text + [c]) <==> Digit(c) && (IsScaledSigned(text) || IsFullNumber(text))
  {
    if IsFullNumber(text + [c]) {
      var e :| 0 <= e < |text + [c]| && ExponentAt(text + [c], e);
      ExponentLast(text, c, e);
    }
    if IsFullNumber(text) && Digit(c) {
      var e :| 0 <= e < |text| && ExponentAt(text, e);
      ExponentLast(text, c, e);
    }
    ExponentLast(text, c, |text|);
  }

  lemma SignedLast(text: seq<nat>, c: nat)
    ensures IsSigned(text + [c]) <==> text == [] && Sign(c)
  {
  }

  lemma {:induction false} RunAccepts(text: seq<nat>, s: State)
    ensures RunFrom(Start, text) == s <==> Accepts(s, text)
    decreases |text|
  {
    if text == [] {
    } else {
      var before, c := text[..|text| - 1], text[|text| - 1];
      assert text == before + [c];
      forall p: State ensures RunFrom(Start, before) == p <==> Accepts(p, before) {
        RunAccepts(before, p);
      }
      AcceptsLast(before, c, RunFrom(Start, before), s);
      RunFromLast(Start, before, c);
    }
  }

  ghost predicate Only(s: State, text: seq<nat>) {
    forall p: State :: Accepts(p, text) <==> p == s
  }

  lemma VerdictLast(text: seq<nat>, c: nat, v: Verdict, w: Verdict)
    requires v == VerdictOf(text) && w == VerdictOf(text + [c])
    ensures !w.start && (w.s1 <==> v.start && Sign(c))
    ensures w.integer <==> Digit(c) && (v.start || v.s1 || v.integer)
    ensures w.decimal <==> (v.decimal && Digit(c)) || (c == '.' as nat && (v.start || v.s1 || v.integer))
    ensures w.s2 <==> v.decimal && (c == 'E' as nat || c == 'e' as nat)
    ensures w.exponent <==> v.s2 && Sign(c)
    ensures w.scientific <==> Digit(c) && (v.exponent || v.scientific)
  {
    SignedLast(text, c);
    IntegerLast(text, c);
    DecimalLast(text, c);
    ScaledLast(text, c);
    FullNumberLast(text, c);
  }

  lemma OnlyHolds(text: seq<nat>, p: State)
    requires Only(p, text)
    ensures VerdictOf(text) == Verdict(p == Start, p == S1, p == Int, p == Float, p == S2, p == Exponent,
                                       p == Scientific)
  {
    assert Accepts(Start, text) <==> Start == p;
    assert Accepts(S1, text) <==> S1 == p;
    assert Accepts(Int, text) <==> Int == p;
    assert Accepts(Float, text) <==> Float == p;
    assert Accepts(S2, text) <==> S2 == p;
    assert Accepts(Exponent, text) <==> Exponent == p;
    assert Accepts(Scientific, text) <==> Scientific == p;
  }

  lemma AcceptsLast(before: seq<nat>, c: nat, p: State, s: State)
    requires Only(p, before)
    ensures Accepts(s, before + [c]) <==> s == Next(p, c).0
  {
    OnlyHolds(before, p);
    VerdictLast(before, c, VerdictOf(before), VerdictOf(before + [c]));
  }

  // ----- the scan of a token in memory -----

  /** Where the field that starts at `pos` ends: at a comma or at the NUL. */
  ghost function FieldEnd(mem: Memory, pos: nat): (q: nat)
    requires Terminated(mem, pos)
    ensures pos <= q < |mem| && (mem[q] == 0 || mem[q] == ',' as nat)
    ensures forall i :: pos <= i < q ==> mem[i] != 0 && mem[i] != ',' as nat
    decreases |mem| - pos
  {
    if mem[pos] == 0 || mem[pos] == ',' as nat then pos else FieldEnd(mem, pos + 1)
  }

  ghost function Field(mem: Memory, pos: nat): seq<nat>
    requires Terminated(mem, pos)
  {
    mem[pos..FieldEnd(mem, pos)]
  }

  lemma {:induction false} InvalidStays(text: seq<nat>)
    ensures RunFrom(Invalid, text) == Invalid && HitsFrom(Invalid, text) == {}
    decreases |text|
  {
    if text != [] {
      InvalidStays(text[1..]);
    }
  }

  lemma FieldFirst(mem: Memory, pos: nat)
    requires Terminated(mem, pos) && mem[pos] != 0 && mem[pos] != ',' as nat
    ensures Terminated(mem, pos + 1) && Field(mem, pos) != [] && Field(mem, pos)[0] == mem[pos]
    ensures Field(mem, pos)[1..] == Field(mem, pos + 1)
  {
  }

  /** A scan ends in the state of the whole field and raises its counters. */
  lemma {:induction false} ScanRuns(mem: Memory, pos: nat, s: State)
    requires Terminated(mem, pos)
    ensures Scan(mem, pos, s).state == RunFrom(s, Field(mem, pos))
    ensures forall x :: x in Scan(mem, pos, s).hits <==> x in HitsFrom(s, Field(mem, pos))
    decreases |mem| - pos
  {
    if s == Invalid {
      InvalidStays(Field(mem, pos));
    } else if mem[pos] != 0 && mem[pos] != ',' as nat {
      FieldFirst(mem, pos);
      ScanRuns(mem, pos + 1, Next(s, mem[pos]).0);
    }
  }

  lemma RunFirst(mem: Memory, pos: nat, end: nat, s: State)
    requires pos < end <= |mem|
    ensures RunFrom(s, mem[pos..end]) == RunFrom(Next(s, mem[pos]).0, mem[pos + 1..end])
  {
    assert mem[pos..end][1..] == mem[pos + 1..end];
  }

  /** The scan stopped right after the character that made the text invalid. */
  ghost predicate Broken(mem: Memory, pos: nat, s: State, end: nat) {
    && pos < end <= |mem|
    && RunFrom(s, mem[pos..end]) == Invalid && RunFrom(s, mem[pos..end - 1]) != Invalid
  }

  lemma BrokenAtOnce(mem: Memory, pos: nat, s: State)
    requires pos < |mem| && s != Invalid && Next(s, mem[pos]).0 == Invalid
    ensures Broken(mem, pos, s, pos + 1)
  {
    RunFirst(mem, pos, pos + 1, s);
  }

  lemma BrokenLater(mem: Memory, pos: nat, s: State, end: nat)
    requires pos < |mem| && Broken(mem, pos + 1, Next(s, mem[pos]).0, end)
    ensures Broken(mem, pos, s, end)
  {
    RunFirst(mem, pos, end, s);
    RunFirst(mem, pos, end - 1, s);
  }

  /** It goes past the comma, or stops right after the first character that no number can have there. */
  lemma {:induction false} ScanEnds(mem: Memory, pos: nat, s: State)
    requires Terminated(mem, pos) && s != Invalid
    ensures var t, q := Scan(mem, pos, s), FieldEnd(mem, pos);
      if t.state == Invalid then Broken(mem, pos, s, t.end) && t.end <= q
      else t.end == if mem[q] == ',' as nat then q + 1 else q
    decreases |mem| - pos
  {
    if mem[pos] != 0 && mem[pos] != ',' as nat {
      var s' := Next(s, mem[pos]).0;
      if s' == Invalid {
        BrokenAtOnce(mem, pos, s);
      } else {
        ScanEnds(mem, pos + 1, s');
        if Scan(mem, pos, s).state == Invalid {
          BrokenLater(mem, pos, s, Scan(mem, pos, s).end);
        }
      }
    }
  }

  /** Every token is classified by its text; a token that is no number ends at its shortest prefix that no
      number begins with. */
  lemma TokenClassified(mem: Memory, pos: nat, s: State)
    requires Terminated(mem, pos)
    ensures var t, q := Scan(mem, pos, Start), FieldEnd(mem, pos);
      && (t.state == s <==> Accepts(s, Field(mem, pos)))
      && (if t.state != Invalid then t.end == if mem[q] == ',' as nat then q + 1 else q
          else pos < t.end <= q && Accepts(Invalid, mem[pos..t.end]) && !Accepts(Invalid, mem[pos..t.end - 1]))
  {
    ScanRuns(mem, pos, Start);
    ScanEnds(mem, pos, Start);
    RunAccepts(Field(mem, pos), s);
    var t := Scan(mem, pos, Start);
    if t.state == Invalid {
      RunAccepts(mem[pos..t.end], Invalid);
      RunAccepts(mem[pos..t.end - 1], Invalid);
    }
  }

  // ----- the transition counters -----

  function Rank(s: State): nat {
    match s
    case Start => 0
    case S1 => 1
    case Int => 2
    case Float => 3
    case S2 => 4
    case Exponent => 5
    case Scientific => 6
    case Invalid => 7
  }

  lemma {:induction false} NeverBack(s: State, text: seq<nat>)
    ensures Rank(s) <= Rank(RunFrom(s, text))
    decreases |text|
  {
    if text != [] {
      NeverBack(Next(s, text[0]).0, text[1..]);
    }
  }

  /** The run passes through `x`. */
  predicate Visits(s: State, text: seq<nat>, x: State)
    decreases |text|
  {
    s == x || (text != [] && Visits(Next(s, text[0]).0, text[1..], x))
  }

  lemma {:induction false} VisitsAt(s: State, text: seq<nat>, x: State) returns (k: nat)
    requires Visits(s, text, x)
    ensures k <= |text| && RunFrom(s, text[..k]) == x
    decreases |text|
  {
    if s == x {
      k := 0;
    } else {
      k := VisitsAt(Next(s, text[0]).0, text[1..], x);
      k := k + 1;
      assert text[..k][1..] == text[1..][..k - 1];
    }
  }

  lemma {:induction false} AtVisits(s: State, text: seq<nat>, k: nat)
    requires k <= |text|
    ensures Visits(s, text, RunFrom(s, text[..k]))
    decreases |text|
  {
    if k > 0 {
      AtVisits(Next(s, text[0]).0, text[1..], k - 1);
      assert text[..k][1..] == text[1..][..k - 1];
    }
  }

  /** Leaving a state raises its counter; each state is left at most once. */
  lemma {:induction false} HitsAreLeft(s: State, text: seq<nat>, x: State)
    requires x != Invalid && x != Scientific
    ensures x in HitsFrom(s, text) <==> Visits(s, text, x) && RunFrom(s, text) != x
    decreases |text|
  {
    if text != [] {
      HitsAreLeft(Next(s, text[0]).0, text[1..], x);
      NeverBack(Next(s, text[0]).0, text[1..]);
    }
  }

  lemma {:induction false} InvalidVisits(text: seq<nat>, x: State)
    requires x != Invalid
    ensures !Visits(Invalid, text, x)
    decreases |text|
  {
    if text != [] {
      InvalidVisits(text[1..], x);
    }
  }

  /** The counter of invalid tokens rises only at the first character or after a full number. */
  lemma {:induction false} InvalidHits(s: State, text: seq<nat>)
    requires s != Invalid
    ensures Scientific !in HitsFrom(s, text)
    ensures Invalid in HitsFrom(s, text) <==>
            RunFrom(s, text) == Invalid &&
            (Visits(s, text, Scientific) || (s == Start && Next(s, text[0]).0 == Invalid))
    decreases |text|
  {
    if text != [] {
      var s' := Next(s, text[0]).0;
      if s' == Invalid {
        InvalidStays(text[1..]);
        InvalidVisits(text[1..], Scientific);
      } else {
        InvalidHits(s', text[1..]);
      }
    }
  }

  /** Some beginning of the text is a text of state `x`. */
  ghost predicate Begun(x: State, text: seq<nat>) {
    exists k :: 0 <= k <= |text| && Accepts(x, text[..k])
  }

  lemma BegunIsVisited(x: State, text: seq<nat>)
    ensures Begun(x, text) <==> Visits(Start, text, x)
  {
    if Begun(x, text) {
      var k :| 0 <= k <= |text| && Accepts(x, text[..k]);
      RunAccepts(text[..k], x);
      AtVisits(Start, text, k);
    }
    if Visits(Start, text, x) {
      var k := VisitsAt(Start, text, x);
      RunAccepts(text[..k], x);
    }
  }

  /** A counter rises if the token began like a text of its state and went on; the one of invalid tokens, if the
      token goes wrong at once or after a full number. */
  ghost predicate Rises(x: State, text: seq<nat>) {
    match x
    case Scientific => false
    case Invalid => Accepts(Invalid, text) && (Accepts(Invalid, text[..1]) || Begun(Scientific, text))
    case _ => Begun(x, text) && !Accepts(x, text)
  }

  lemma HitsRise(text: seq<nat>, x: State)
    ensures x in HitsFrom(Start, text) <==> Rises(x, text)
  {
    RunAccepts(text, x);
    if x == Invalid {
      InvalidHits(Start, text);
      BegunIsVisited(Scientific, text);
      if text != [] {
        assert text[..1] == [text[0]];
        RunAccepts(text[..1], Invalid);
      }
    } else if x == Scientific {
      InvalidHits(Start, text);
    } else {
      HitsAreLeft(Start, text, x);
      BegunIsVisited(x, text);
    }
  }

  /** The counters that a token raises, each once, are told by its text. */
  lemma TokenCounters(mem: Memory, pos: nat, x: State)
    requires Terminated(mem, pos)
    ensures Scan(mem, pos, Start).hits[x] == if Rises(x, Field(mem, pos)) then 1 else 0
  {
    ScanRuns(mem, pos, Start);
    HitsOnce(mem, pos, Start);
    HitsRise(Field(mem, pos), x);
  }
}
