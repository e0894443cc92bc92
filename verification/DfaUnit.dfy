/**
  The counter unit behind the numeric-token instructions, and the wrappers that scan one token
  with them, proved against the character-by-character scan.
  */
module DfaUnit {
  import opened Bits
  import opened TokenDfa
  import opened NumericDfa
  import opened Words

  /** Counters are 32-bit words. */
  function Plus(count: Word, n: nat): Word {
    Wrap(count + n)
  }

  /** `after` is `before` with the counters in `hits` raised. */
  ghost predicate Counted(before: seq<Word>, hits: multiset<State>, after: seq<Word>) {
    |before| == 8 && |after| == 8 &&
    forall s: State :: after[Index(s)] == Plus(before[Index(s)], hits[s])
  }

  lemma CountedTwice(first: seq<Word>, a: multiset<State>, second: seq<Word>, b: multiset<State>, third: seq<Word>)
    requires Counted(first, a, second) && Counted(second, b, third)
    ensures Counted(first, a + b, third)
  {
    forall s: State ensures third[Index(s)] == Plus(first[Index(s)], (a + b)[s]) {
      PlusPlus(first[Index(s)], a[s], b[s]);
    }
  }

  lemma PlusPlus(c: Word, a: nat, b: nat)
    ensures Plus(Plus(c, a), b) == Plus(c, a + b)
  {
  }

  // ----- the reference scanner -----

  /** One character of the reference scanner, counting in `counts`. */
  method CountChar(state: State, c: nat, counts: array<Word>) returns (next: State)
    requires counts.Length == 8
    modifies counts
    ensures next == Next(state, c).0
    ensures Counted(old(counts[..]), multiset(Next(state, c).1), counts[..])
  {
    next := state;
    match state
    case Start =>
      if IsDigit(c) {
        next := Int;
      } else if IsSign(c) {
        next := S1;
      } else if c == DOT {
        next := Float;
      } else {
        next := Invalid;
        counts[1] := Plus(counts[1], 1);
      }
      counts[0] := Plus(counts[0], 1);
    case S1 =>
      next := if IsDigit(c) then Int else if c == DOT then Float else Invalid;
      counts[2] := Plus(counts[2], 1);
    case Int =>
      if c == DOT {
        next := Float;
        counts[4] := Plus(counts[4], 1);
      } else if !IsDigit(c) {
        next := Invalid;
        counts[4] := Plus(counts[4], 1);
      }
    case Float =>
      if c == UPPER_E || c == LOWER_E {
        next := S2;
        counts[5] := Plus(counts[5], 1);
      } else if !IsDigit(c) {
        next := Invalid;
        counts[5] := Plus(counts[5], 1);
      }
    case S2 =>
      next := if IsSign(c) then Exponent else Invalid;
      counts[3] := Plus(counts[3], 1);
    case Exponent =>
      next := if IsDigit(c) then Scientific else Invalid;
      counts[6] := Plus(counts[6], 1);
    case Scientific =>
      if !IsDigit(c) {
        next := Invalid;
        counts[1] := Plus(counts[1], 1);
      }
    case Invalid =>
  }

  /** `t` after the counters in `seen` have risen. */
  ghost function Later(seen: multiset<State>, t: Token): Token {
    t.(hits := seen + t.hits)
  }

  /** The rest of the token `t`, of which the counters in `seen` have risen. */
  ghost predicate Remains(mem: Memory, pos: nat, s: State, seen: multiset<State>, t: Token) {
    Terminated(mem, pos) && t == Later(seen, Scan(mem, pos, s))
  }

  lemma RemainsStep(mem: Memory, pos: nat, s: State, seen: multiset<State>, t: Token)
    requires Remains(mem, pos, s, seen, t) && mem[pos] != 0 && mem[pos] != COMMA && s != Invalid
    ensures Remains(mem, pos + 1, Next(s, mem[pos]).0, seen + multiset(Next(s, mem[pos]).1), t)
  {
  }

  lemma RemainsNothing(mem: Memory, pos: nat, s: State, seen: multiset<State>, t: Token)
    requires Remains(mem, pos, s, seen, t) && (mem[pos] == 0 || s == Invalid || mem[pos] == COMMA)
    ensures t.state == s && t.hits == seen
    ensures t.end == if mem[pos] != 0 && s != Invalid then pos + 1 else pos
  {
  }

  lemma CountedNone(counts: seq<Word>)
    requires |counts| == 8
    ensures Counted(counts, multiset{}, counts)
  {
  }

  /** The reference scanner: one token from `start`. */
  method CoreStateTransition(mem: Memory, start: nat, counts: array<Word>) returns (pos: nat, state: State)
    requires Terminated(mem, start) && counts.Length == 8
    modifies counts
    ensures var t := Scan(mem, start, Start);
      pos == t.end && state == t.state && Counted(old(counts[..]), t.hits, counts[..])
  {
    ghost var t := Scan(mem, start, Start);
    ghost var seen: multiset<State> := multiset{};
    pos, state := start, Start;
    CountedNone(counts[..]);
    while mem[pos] != 0 && state != Invalid
      invariant Remains(mem, pos, state, seen, t) && Counted(old(counts[..]), seen, counts[..])
      decreases |mem| - pos
    {
      var c := mem[pos];
      if c == COMMA {
        RemainsNothing(mem, pos, state, seen, t);
        pos := pos + 1;
        return;
      }
      ghost var before := counts[..];
      ghost var h := multiset(Next(state, c).1);
      RemainsStep(mem, pos, state, seen, t);
      state := CountChar(state, c, counts);
      CountedTwice(old(counts[..]), seen, before, h, counts[..]);
      seen := seen + h;
      pos := pos + 1;
    }
    RemainsNothing(mem, pos, state, seen, t);
  }

  // ----- the instructions -----

  lemma CountedSet(before: seq<Word>, hits: set<State>, after: seq<Word>)
    requires |before| == 8 && |after| == 8
    requires forall i :: 0 <= i < 8 ==>
      after[i] == if StateAt(i) in hits then Plus(before[i], 1) else before[i]
    ensures Counted(before, multiset(hits), after)
  {
    forall s: State ensures after[Index(s)] == Plus(before[Index(s)], multiset(hits)[s]) {
      assert StateAt(Index(s)) == s;
    }
  }

  /** Raises every counter whose bit is set in `mask`. */
  method CommitMask(counts: seq<Word>, mask: nat, ghost hits: set<State>) returns (r: seq<Word>)
    requires |counts| == 8 && mask == MaskOf(hits)
    ensures Counted(counts, multiset(hits), r)
  {
    r := counts;
    for i := 0 to 8
      invariant |r| == 8 && forall j :: i <= j < 8 ==> r[j] == counts[j]
      invariant forall j :: 0 <= j < i ==>
        r[j] == if StateAt(j) in hits then Plus(counts[j], 1) else counts[j]
    {
      MaskTest(hits, i);
      if And(mask, Shl(1, i)) != 0 {
        r := r[i := Plus(r[i], 1)];
      }
    }
    CountedSet(counts, hits, r);
  }

  function CountOne(counts: seq<Word>, s: State): (r: seq<Word>)
    requires |counts| == 8
    ensures Counted(counts, multiset{s}, r)
  {
    counts[Index(s) := Plus(counts[Index(s)], 1)]
  }

  /** Where the group of characters read by one step ends: never past the aligned word of `addr`. */
  function GroupEnd(addr: nat, format2: bool): nat {
    if !format2 then addr - addr % 4 + 4
    else if addr % 4 == 3 then addr + 1 else addr + 2
  }

  lemma GroupInside(length: nat, addr: nat, format2: bool)
    requires addr < length && length % 4 == 0
    ensures addr < GroupEnd(addr, format2) <= length
  {
  }

  function Group(mem: Memory, addr: nat, format2: bool): (symbols: seq<nat>)
    requires addr < |mem| && |mem| % 4 == 0
    ensures 1 <= |symbols| <= if format2 then 2 else 4
  {
    mem[addr..GroupEnd(addr, format2)]
  }

  lemma SliceOfSlice(mem: Memory, start: nat, length: nat, offset: nat, width: nat)
    requires start + length <= |mem| && offset + width <= length
    ensures mem[start..start + length][offset..][..width] == mem[start + offset..start + offset + width]
  {
  }

  lemma GroupWindow(mem: Memory, addr: nat, offset: nat, width: nat, format2: bool)
    requires addr < |mem| && |mem| % 4 == 0 && offset == addr % 4
    requires width == if !format2 then 4 - offset else if offset == 3 then 1 else 2
    ensures addr - offset + 4 <= |mem| && offset + width <= 4
    ensures mem[addr - offset..addr - offset + 4][offset..][..width] == Group(mem, addr, format2)
  {
    GroupInside(|mem|, addr, false);
    SliceOfSlice(mem, addr - offset, 4, offset, width);
  }

  /** The xdfa2 and xdfa4 step instructions. */
  method XdfaStep(state: State, mem: Memory, addr: nat, format2: bool) returns (result: nat)
    requires addr < |mem| && |mem| % 4 == 0
    ensures result == Packed(Steps(state, Group(mem, addr, format2)), CountWidth(format2))
  {
    var offset := addr % 4;
    var word := mem[addr - offset..addr - offset + 4];
    var symbols := word[offset..];
    var width := if !format2 then 4 - offset else if offset == 3 then 1 else 2;
    GroupWindow(mem, addr, offset, width, format2);
    result := WordStep(state, symbols[..width], format2);
  }

  /** Takes a result word apart. */
  method ReadResult(result: nat, width: nat, ghost a: Advance)
    returns (state: State, consumed: nat, mask: nat, stop: bool)
    requires result == Packed(a, width) && a.consumed < Pow2(width)
    ensures Advance(state, consumed, stop, a.hits) == a && mask == MaskOf(a.hits)
    ensures mask == Shr(result, 3 + width + 1)
  {
    Unpack(a, width);
    state := StateAt(And(result, 7));
    consumed := And(Shr(result, 3), Pow2(width) - 1);
    stop := And(result, Shl(1, 3 + width)) != 0;
    mask := And(Shr(result, 3 + width + 1), 255);
  }

  // ----- scanning in groups -----

  /** The token `t` has been scanned up to `pos`; the counters `seen` rise and cannot rise again. */
  ghost predicate Scanned(mem: Memory, t: Token, seen: set<State>, pos: nat, state: State) {
    Terminated(mem, pos) && state != Invalid && seen !! Live(state) &&
    t == After(seen, Scan(mem, pos, state))
  }

  lemma ScannedBegin(mem: Memory, t: Token, seen: set<State>, pos: nat, state: State, end: nat, a: Advance)
    requires Scanned(mem, t, seen, pos, state) && Begins(mem, pos, end, a, Scan(mem, pos, state))
    requires a.hits <= Live(state) && Live(a.state) <= Live(state) && a.hits !! Live(a.state)
    ensures a.stop ==> t == Token(pos + a.consumed, a.state, multiset(seen + a.hits))
    ensures !a.stop ==> pos + a.consumed == end && Scanned(mem, t, seen + a.hits, end, a.state)
  {
    assert multiset(seen + a.hits) == multiset(seen) + multiset(a.hits);
  }

  /** One group of characters brings the scan to the end of the token or to the end of the group. */
  lemma ScanGroup(mem: Memory, t: Token, seen: set<State>, pos: nat, state: State, end: nat)
    requires Scanned(mem, t, seen, pos, state) && pos <= end <= |mem|
    ensures var a := Steps(state, mem[pos..end]);
      if a.stop then t == Token(pos + a.consumed, a.state, multiset(seen + a.hits))
      else pos + a.consumed == end && Scanned(mem, t, seen + a.hits, end, a.state)
  {
    StepsScan(mem, pos, state, end);
    StepsLive(state, mem[pos..end]);
    ScannedBegin(mem, t, seen, pos, state, end, Steps(state, mem[pos..end]));
  }

  lemma ScannedSame(mem: Memory, t: Token, seen: set<State>, p: nat, q: nat, state: State)
    requires p == q && Scanned(mem, t, seen, p, state)
    ensures Scanned(mem, t, seen, q, state)
  {
  }

  lemma GroupFits(a: Advance, format2: bool)
    requires a.consumed <= if format2 then 2 else 4
    ensures a.consumed < Pow2(CountWidth(format2))
  {
    assert Pow2(2) == 4;
    assert Pow2(3) == 8;
  }

  /** One step of a wrapper: the instruction and the reading of its result. */
  method GroupStep(state: State, mem: Memory, pos: nat, format2: bool, ghost t: Token, ghost seen: set<State>)
    returns (next: State, end: nat, mask: nat, stop: bool, ghost hits: set<State>)
    requires |mem| % 4 == 0 && Scanned(mem, t, seen, pos, state)
    ensures mask == MaskOf(hits)
    ensures stop ==> t == Token(end, next, multiset(seen + hits))
    ensures !stop ==> pos < end && Scanned(mem, t, seen + hits, end, next)
  {
    var result := XdfaStep(state, mem, pos, format2);
    ghost var a := Steps(state, Group(mem, pos, format2));
    GroupInside(|mem|, pos, format2);
    ScanGroup(mem, t, seen, pos, state, GroupEnd(pos, format2));
    GroupFits(a, format2);
    var consumed;
    next, consumed, mask, stop := ReadResult(result, CountWidth(format2), a);
    end, hits := pos + consumed, a.hits;
    if !stop {
      ScannedSame(mem, t, seen + hits, GroupEnd(pos, format2), end, next);
    }
  }

  class CounterUnit {
    var transitions: seq<Word>
    var finals: seq<Word>
    var pending: nat

    ghost predicate Valid()
      reads this
    {
      |transitions| == 8 && |finals| == 8
    }

    constructor ()
      ensures Valid()
      ensures transitions == seq(8, _ => 0) && finals == seq(8, _ => 0) && pending == 0
    {
      transitions := seq(8, _ => 0);
      finals := seq(8, _ => 0);
      pending := 0;
    }

    /** Scans a token in groups of characters and commits its counters at the end. */
    method XdfaTransition(mem: Memory, start: nat, format2: bool) returns (pos: nat, state: State)
      requires Valid() && Terminated(mem, start) && |mem| % 4 == 0
      modifies this`transitions
      ensures Valid()
      ensures var t := Scan(mem, start, Start);
        pos == t.end && state == t.state && Counted(old(transitions), t.hits, transitions)
    {
      ghost var t := Scan(mem, start, Start);
      ghost var seen: set<State> := {};
      var mask, stop := 0, false;
      MaskSum({});
      pos, state := start, Start;
      while !stop
        invariant mask == MaskOf(seen) && transitions == old(transitions)
        invariant if stop then t == Token(pos, state, multiset(seen)) else Scanned(mem, t, seen, pos, state)
        decreases !stop, |mem| - pos
      {
        var bits;
        ghost var hits;
        state, pos, bits, stop, hits := GroupStep(state, mem, pos, format2, t, seen);
        MaskUnion(seen, hits);
        mask := Or(mask, bits);
        seen := seen + hits;
      }
      transitions := CommitMask(transitions, mask, seen);
    }
  
    /** A four-character step that keeps the raised counters `seen` pending until the token ends. */
    method Xdfa4hStep(state: State, mem: Memory, addr: nat, ghost seen: set<State>) returns (result: nat)
      requires Valid() && addr < |mem| && |mem| % 4 == 0 && pending == MaskOf(seen)
      modifies this
      ensures Valid() && result == Packed(Steps(state, Group(mem, addr, false)), 3)
      ensures var a := Steps(state, Group(mem, addr, false));
        if a.stop then
          Counted(old(transitions), multiset(seen + a.hits), transitions) &&
          Counted(old(finals), multiset{a.state}, finals) && pending == 0
        else
          transitions == old(transitions) && finals == old(finals) && pending == MaskOf(seen + a.hits)
    {
      result := XdfaStep(state, mem, addr, false);
      ghost var a := Steps(state, Group(mem, addr, false));
      GroupFits(a, false);
      var last, consumed, mask, stop := ReadResult(result, 3, a);
      MaskUnion(seen, a.hits);
      pending := Or(pending, mask);
      if stop {
        transitions := CommitMask(transitions, pending, seen + a.hits);
        finals := CountOne(finals, last);
        pending := 0;
      }
    }

    /** One step of the wrapper around Xdfa4hStep. */
    method Xdfa4hGroup(state: State, mem: Memory, pos: nat, ghost t: Token, ghost seen: set<State>)
      returns (next: State, end: nat, stop: bool, ghost hits: set<State>)
      requires Valid() && |mem| % 4 == 0 && Scanned(mem, t, seen, pos, state) && pending == MaskOf(seen)
      modifies this
      ensures Valid()
      ensures stop ==> end == t.end && pending == 0
                       && Counted(old(transitions), t.hits, transitions)
                       && Counted(old(finals), multiset{t.state}, finals)
      ensures !stop ==> pos < end && Scanned(mem, t, seen + hits, end, next) && pending == MaskOf(seen + hits)
                        && transitions == old(transitions) && finals == old(finals)
    {
      ghost var a := Steps(state, Group(mem, pos, false));
      GroupInside(|mem|, pos, false);
      ScanGroup(mem, t, seen, pos, state, GroupEnd(pos, false));
      GroupFits(a, false);
      var result := Xdfa4hStep(state, mem, pos, seen);
      var consumed, bits;
      next, consumed, bits, stop := ReadResult(result, 3, a);
      end, hits := pos + consumed, a.hits;
      if !stop {
        ScannedSame(mem, t, seen + hits, GroupEnd(pos, false), end, next);
      }
    }

    /** Scans a token with the step that counts by itself. */
    method Xdfa4hTransition(mem: Memory, start: nat) returns (pos: nat)
      requires Valid() && Terminated(mem, start) && |mem| % 4 == 0 && pending == 0
      modifies this
      ensures Valid() && pending == 0
      ensures var t := Scan(mem, start, Start);
        && pos == t.end && Counted(old(transitions), t.hits, transitions)
        && Counted(old(finals), multiset{t.state}, finals)
    {
      ghost var t := Scan(mem, start, Start);
      ghost var seen: set<State> := {};
      var state, stop := Start, false;
      MaskSum({});
      pos := start;
      while !stop
        invariant Valid()
        invariant !stop ==> Scanned(mem, t, seen, pos, state) && pending == MaskOf(seen)
                            && transitions == old(transitions) && finals == old(finals)
        invariant stop ==> pos == t.end && pending == 0
                           && Counted(old(transitions), t.hits, transitions)
                           && Counted(old(finals), multiset{t.state}, finals)
        decreases !stop, |mem| - pos
      {
        ghost var hits;
        state, pos, stop, hits := Xdfa4hGroup(state, mem, pos, t, seen);
        seen := seen + hits;
      }
    }
  }
}
