/**
  The numeric-token state machine of CoreMark: its transitions, the scan of one token, and the
  advance by several characters at once.
  */
module TokenDfa {
  datatype State = Start | Invalid | S1 | S2 | Int | Float | Exponent | Scientific

  function Index(s: State): nat {
    match s
    case Start => 0
    case Invalid => 1
    case S1 => 2
    case S2 => 3
    case Int => 4
    case Float => 5
    case Exponent => 6
    case Scientific => 7
  }

  function StateAt(i: nat): State
    requires i < 8
  {
    if i == 0 then Start else if i == 1 then Invalid else if i == 2 then S1 else if i == 3 then S2
    else if i == 4 then Int else if i == 5 then Float else if i == 6 then Exponent else Scientific
  }

  const COMMA: nat := 44
  const PLUS: nat := 43
  const MINUS: nat := 45
  const DOT: nat := 46
  const UPPER_E: nat := 69
  const LOWER_E: nat := 101

  predicate IsDigit(c: nat) {
    48 <= c <= 57
  }

  predicate IsSign(c: nat) {
    c == PLUS || c == MINUS
  }

  /** The state after character `c`, and the transition counters that rise. */
  function Next(s: State, c: nat): (State, set<State>) {
    match s
    case Start =>
      if IsDigit(c) then (Int, {Start})
      else if IsSign(c) then (S1, {Start})
      else if c == DOT then (Float, {Start})
      else (Invalid, {Invalid, Start})
    case S1 =>
      if IsDigit(c) then (Int, {S1})
      else if c == DOT then (Float, {S1})
      else (Invalid, {S1})
    case Int =>
      if c == DOT then (Float, {Int})
      else if !IsDigit(c) then (Invalid, {Int})
      else (Int, {})
    case Float =>
      if c == UPPER_E || c == LOWER_E then (S2, {Float})
      else if !IsDigit(c) then (Invalid, {Float})
      else (Float, {})
    case S2 =>
      if IsSign(c) then (Exponent, {S2}) else (Invalid, {S2})
    case Exponent =>
      if IsDigit(c) then (Scientific, {Exponent}) else (Invalid, {Exponent})
    case Scientific =>
      if !IsDigit(c) then (Invalid, {Invalid}) else (Scientific, {})
    case Invalid => (Invalid, {})
  }

  type Memory = seq<nat>

  /** A NUL byte ends the input at or after `pos`. */
  ghost predicate Terminated(mem: Memory, pos: nat) {
    exists i :: pos <= i < |mem| && mem[i] == 0
  }

  datatype Token = Token(end: nat, state: State, hits: multiset<State>)

  /** `t` with the counters `hits` raised before it. */
  ghost function After(hits: set<State>, t: Token): Token {
    t.(hits := multiset(hits) + t.hits)
  }

  /** The rest of a token from position `pos` in state `s`: where it ends, its final state, and how
      often each transition counter rises. */
  ghost function Scan(mem: Memory, pos: nat, s: State): (t: Token)
    requires Terminated(mem, pos)
    ensures pos <= t.end < |mem| && Terminated(mem, t.end)
    ensures s != Invalid && mem[pos] != 0 ==> pos < t.end
    decreases |mem| - pos
  {
    if mem[pos] == 0 || s == Invalid then Token(pos, s, multiset{})
    else if mem[pos] == COMMA then Token(pos + 1, s, multiset{})
    else
      var (s', h) := Next(s, mem[pos]);
      After(h, Scan(mem, pos + 1, s'))
  }

  /** No character of a token is a NUL: the scan never goes past one. */
  lemma {:induction false} ScanStopsAtNul(mem: Memory, pos: nat, s: State)
    requires Terminated(mem, pos)
    ensures forall i :: pos <= i < Scan(mem, pos, s).end ==> mem[i] != 0
    decreases |mem| - pos
  {
    if mem[pos] != 0 && s != Invalid && mem[pos] != COMMA {
      ScanStopsAtNul(mem, pos + 1, Next(s, mem[pos]).0);
    }
  }

  // ----- each counter rises at most once per token -----

  /** Counters that can still rise once the machine is in state `s`. */
  function Live(s: State): set<State> {
    match s
    case Start => {Start, Invalid, S1, Int, Float, S2, Exponent}
    case S1 => {S1, Invalid, Int, Float, S2, Exponent}
    case Int => {Int, Invalid, Float, S2, Exponent}
    case Float => {Float, Invalid, S2, Exponent}
    case S2 => {S2, Invalid, Exponent}
    case Exponent => {Exponent, Invalid}
    case Scientific => {Invalid}
    case Invalid => {}
  }

  lemma NextLive(s: State, c: nat)
    ensures var (s', h) := Next(s, c); h <= Live(s) && Live(s') <= Live(s) && h !! Live(s')
  {
  }

  lemma {:induction false} HitsOnce(mem: Memory, pos: nat, s: State)
    requires Terminated(mem, pos)
    ensures forall x :: Scan(mem, pos, s).hits[x] <= 1
    ensures forall x :: x in Scan(mem, pos, s).hits ==> x in Live(s)
    decreases |mem| - pos
  {
    if mem[pos] != 0 && s != Invalid && mem[pos] != COMMA {
      NextLive(s, mem[pos]);
      HitsOnce(mem, pos + 1, Next(s, mem[pos]).0);
    }
  }

  // ----- several characters at once -----

  datatype Advance = Advance(state: State, consumed: nat, stop: bool, hits: set<State>)

  /** Runs the machine over `symbols` until one of them ends the token. */
  function Steps(s: State, symbols: seq<nat>): (a: Advance)
    ensures a.consumed <= |symbols|
    decreases |symbols|
  {
    if symbols == [] then Advance(s, 0, false, {})
    else if symbols[0] == 0 then Advance(s, 0, true, {})
    else if symbols[0] == COMMA then Advance(s, 1, true, {})
    else
      var (s', h) := Next(s, symbols[0]);
      if s' == Invalid then Advance(s', 1, true, h)
      else
        var rest := Steps(s', symbols[1..]);
        Advance(rest.state, 1 + rest.consumed, rest.stop, h + rest.hits)
  }

  /** A group of characters raises each counter at most once, and none that can rise again. */
  lemma {:induction false} StepsLive(s: State, symbols: seq<nat>)
    ensures var a := Steps(s, symbols);
      a.hits <= Live(s) && Live(a.state) <= Live(s) && a.hits !! Live(a.state)
    decreases |symbols|
  {
    if symbols != [] && symbols[0] != 0 && symbols[0] != COMMA {
      NextLive(s, symbols[0]);
      StepsLive(Next(s, symbols[0]).0, symbols[1..]);
    }
  }

  lemma StepsUnion(s: State, c: nat, rest: seq<nat>)
    ensures var (s', h) := Next(s, c); h !! Steps(s', rest).hits
  {
    NextLive(s, c);
    StepsLive(Next(s, c).0, rest);
  }

  /** The advance `a` over the characters from `pos` to `end` is the beginning of the token `t`,
      or all of it. */
  ghost predicate Begins(mem: Memory, pos: nat, end: nat, a: Advance, t: Token) {
    if a.stop then
      t == Token(pos + a.consumed, a.state, multiset(a.hits))
    else
      pos + a.consumed == end && a.state != Invalid && Terminated(mem, end) &&
      t == After(a.hits, Scan(mem, end, a.state))
  }

  lemma BeginsEarlier(mem: Memory, pos: nat, end: nat, h: set<State>, a: Advance, t: Token)
    requires Begins(mem, pos + 1, end, a, t) && h !! a.hits
    ensures Begins(mem, pos, end, Advance(a.state, 1 + a.consumed, a.stop, h + a.hits), After(h, t))
  {
    assert multiset(h + a.hits) == multiset(h) + multiset(a.hits);
  }

  lemma StepsFirst(mem: Memory, pos: nat, s: State, end: nat)
    requires pos < end <= |mem| && mem[pos] != 0 && mem[pos] != COMMA && Next(s, mem[pos]).0 != Invalid
    ensures var (s', h) := Next(s, mem[pos]);
      var rest := Steps(s', mem[pos + 1..end]);
      Steps(s, mem[pos..end]) == Advance(rest.state, 1 + rest.consumed, rest.stop, h + rest.hits)
  {
    assert mem[pos..end][1..] == mem[pos + 1..end];
  }

  /** A group of characters advances the scan without changing its result. */
  lemma {:induction false} StepsScan(mem: Memory, pos: nat, s: State, end: nat)
    requires Terminated(mem, pos) && s != Invalid && pos <= end <= |mem|
    ensures Begins(mem, pos, end, Steps(s, mem[pos..end]), Scan(mem, pos, s))
    decreases end - pos
  {
    if pos < end && mem[pos] != 0 && mem[pos] != COMMA {
      var (s', h) := Next(s, mem[pos]);
      if s' != Invalid {
        StepsScan(mem, pos + 1, s', end);
        StepsUnion(s, mem[pos], mem[pos + 1..end]);
        BeginsEarlier(mem, pos, end, h, Steps(s', mem[pos + 1..end]), Scan(mem, pos + 1, s'));
        StepsFirst(mem, pos, s, end);
      }
    }
  }
}
