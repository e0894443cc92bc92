/**
  The state benchmark: scan a memory block, corrupt it, scan it again, undo the corruption and
  fold all counters into a checksum. The accelerated versions return what the original returns.
  */
module StateBench {
  import opened Bits
  import opened TokenDfa
  import opened DfaUnit
  import Crc
  import CrcNumbers
  import opened Words

  // ----- what the benchmark computes -----

  datatype Tally = Tally(finals: multiset<State>, hits: multiset<State>)

  /** All tokens from `pos` to the NUL: their final states and the counters they raise. */
  ghost function Run(mem: Memory, pos: nat): Tally
    requires Terminated(mem, pos)
    decreases |mem| - pos
  {
    if mem[pos] == 0 then Tally(multiset{}, multiset{})
    else
      var t := Scan(mem, pos, Start);
      var rest := Run(mem, t.end);
      Tally(multiset{t.state} + rest.finals, t.hits + rest.hits)
  }

  /** The offset d is one of 0, step, 2 * step, ... */
  predicate OnGrid(d: nat, step: nat)
    requires step > 0
  {
    d == 0 || (d >= step && OnGrid(d - step, step))
  }

  predicate Touched(mem: Memory, base: nat, size: nat, step: nat, i: nat)
    requires i < |mem| && step > 0
  {
    base <= i < base + size && OnGrid(i - base, step) && mem[i] != COMMA
  }

  /** Every step-th character of the block, commas excepted, combined with the seed's low byte. */
  function Corrupted(mem: Memory, base: nat, size: nat, seed: int, step: nat): (r: Memory)
    requires step > 0
    ensures |r| == |mem|
  {
    seq(|mem|, i requires 0 <= i < |mem| =>
      if Touched(mem, base, size, step, i) then Xor(mem[i], seed % 256) else mem[i])
  }

  /** Counters as 32-bit words. */
  ghost function Shown(m: multiset<State>): (r: seq<Word>)
    ensures |r| == 8
  {
    seq(8, i requires 0 <= i < 8 => m[StateAt(i)] % W)
  }

  function WordBits(n: Word): (b: Crc.Bits)
    ensures |b| == 32
  {
    seq(32, i requires 0 <= i < 32 => Bit(n, i))
  }

  /** The checksum over the pairs of counters from number i on. */
  function Checksum(finals: seq<Word>, tracks: seq<Word>, i: nat, crc: Crc.Bits): (r: Crc.Bits)
    requires |finals| == 8 && |tracks| == 8 && i <= 8 && |crc| == 16
    ensures |r| == 16
    decreases 8 - i
  {
    if i == 8 then crc
    else Checksum(finals, tracks, i + 1, Crc.Feed(WordBits(tracks[i]), Crc.Feed(WordBits(finals[i]), crc)))
  }

  /** The bits of a word stand for it, lowest first. */
  lemma WordBitsNumber(n: Word)
    ensures CrcNumbers.Number(WordBits(n)) == n
  {
    Powers();
    CrcNumbers.BitsHalved(n, 32, WordBits(n));
    CrcNumbers.HalvedNumber(n, 32);
  }

  lemma WordBitsMessage(w: Word, j: nat)
    requires j == 8
    ensures WordBits(w) == CrcNumbers.WordMessage(w)
  {
    CrcNumbers.BitsHalved(w, j + (j + (j + j)), WordBits(w));
    CrcNumbers.HalvedWord(w, j);
  }

  /** Feeding a word feeds its four bytes, the lowest first. */
  lemma FeedWord(words: seq<Word>, crc: Crc.Bits)
    requires |crc| == 16 && words != []
    ensures Crc.Feed(CrcNumbers.Message(words), crc) ==
            Crc.Feed(CrcNumbers.Message(words[1..]), Crc.Feed(WordBits(words[0]), crc))
  {
    WordBitsMessage(words[0], 8);
    Crc.FeedConcat(WordBits(words[0]), CrcNumbers.Message(words[1..]), crc);
  }

  /** The final and the transition counts from number i on, in turn. */
  ghost predicate InTurn(finals: seq<Word>, tracks: seq<Word>, i: nat, words: seq<Word>)
    requires |finals| == 8 && |tracks| == 8 && i <= 8
  {
    |words| == 2 * (8 - i) &&
    forall k :: 0 <= k < 8 - i ==> words[2 * k] == finals[i + k] && words[2 * k + 1] == tracks[i + k]
  }

  lemma InTurnRest(finals: seq<Word>, tracks: seq<Word>, i: nat, words: seq<Word>)
    requires |finals| == 8 && |tracks| == 8 && i < 8 && InTurn(finals, tracks, i, words)
    ensures words[0] == finals[i] && words[1] == tracks[i] && InTurn(finals, tracks, i + 1, words[2..])
    ensures words[1..][0] == tracks[i] && words[1..][1..] == words[2..]
  {
    assert words[2 * 0] == finals[i + 0] && words[2 * 0 + 1] == tracks[i + 0];
    forall k | 0 <= k < 8 - (i + 1)
      ensures words[2..][2 * k] == finals[i + 1 + k] && words[2..][2 * k + 1] == tracks[i + 1 + k]
    {
      assert words[2 * (k + 1)] == finals[i + (k + 1)] && words[2 * (k + 1) + 1] == tracks[i + (k + 1)];
    }
  }

  /** The checksum feeds one message to the register: final and transition count of each state in turn, each
      as four bytes, the lowest first. */
  lemma {:induction false} ChecksumFeeds(finals: seq<Word>, tracks: seq<Word>, i: nat, words: seq<Word>,
                                         crc: Crc.Bits)
    requires |finals| == 8 && |tracks| == 8 && i <= 8 && |crc| == 16 && InTurn(finals, tracks, i, words)
    ensures Checksum(finals, tracks, i, crc) == Crc.Feed(CrcNumbers.Message(words), crc)
    decreases 8 - i
  {
    if i < 8 {
      InTurnRest(finals, tracks, i, words);
      var crc1 := Crc.Feed(WordBits(finals[i]), crc);
      FeedWord(words, crc);
      FeedWord(words[1..], crc1);
      ChecksumFeeds(finals, tracks, i + 1, words[2..], Crc.Feed(WordBits(tracks[i]), crc1));
    }
  }

  ghost predicate Scannable(mem: Memory, base: nat, size: nat, seed: int, step: nat) {
    step > 0 && base + size <= |mem| && Terminated(mem, base) &&
    Terminated(Corrupted(mem, base, size, seed, step), base)
  }

  ghost function BenchCrc(mem: Memory, base: nat, size: nat, seed: int, step: nat, crc: Crc.Bits): (r: Crc.Bits)
    requires Scannable(mem, base, size, seed, step) && |crc| == 16
    ensures |r| == 16
  {
    var first := Run(mem, base);
    var second := Run(Corrupted(mem, base, size, seed, step), base);
    Checksum(Shown(first.finals + second.finals), Shown(first.hits + second.hits), 0, crc)
  }

  /** For each state in turn the number of tokens that ended in it and the number of its transitions. */
  ghost function CountWords(t: Tally): (words: seq<Word>)
    ensures |words| == 16
  {
    seq(16, i requires 0 <= i < 16 => (if i % 2 == 0 then t.finals else t.hits)[StateAt(i / 2)] % W)
  }

  lemma CountsInTurn(t: Tally)
    ensures InTurn(Shown(t.finals), Shown(t.hits), 0, CountWords(t))
  {
    forall k | 0 <= k < 8
      ensures CountWords(t)[2 * k] == Shown(t.finals)[0 + k] && CountWords(t)[2 * k + 1] == Shown(t.hits)[0 + k]
    {
      assert 2 * k / 2 == k && 2 * k % 2 == 0 && (2 * k + 1) / 2 == k && (2 * k + 1) % 2 == 1;
    }
  }

  /** The benchmark feeds the register with one message: the counts of both passes together, each as four
      bytes, the lowest first. */
  lemma BenchCrcMessage(mem: Memory, base: nat, size: nat, seed: int, step: nat, crc: Crc.Bits)
    requires Scannable(mem, base, size, seed, step) && |crc| == 16
    ensures var first, second := Run(mem, base), Run(Corrupted(mem, base, size, seed, step), base);
      BenchCrc(mem, base, size, seed, step, crc) ==
      Crc.Feed(CrcNumbers.Message(CountWords(Tally(first.finals + second.finals, first.hits + second.hits))), crc)
  {
    var first, second := Run(mem, base), Run(Corrupted(mem, base, size, seed, step), base);
    var t := Tally(first.finals + second.finals, first.hits + second.hits);
    CountsInTurn(t);
    ChecksumFeeds(Shown(t.finals), Shown(t.hits), 0, CountWords(t), crc);
  }

  lemma CountedFromZero(m: multiset<State>, counts: seq<Word>)
    requires Counted(seq(8, _ => 0), m, counts)
    ensures counts == Shown(m)
  {
    forall i | 0 <= i < 8 ensures counts[i] == Shown(m)[i] {
      assert Index(StateAt(i)) == i;
    }
  }

  // ----- corruption -----

  lemma {:induction false} OffGrid(a: nat, d: nat, step: nat)
    requires 0 < d < step && OnGrid(a, step)
    ensures !OnGrid(a + d, step)
    decreases a
  {
    if a > 0 {
      OffGrid(a - step, d, step);
    }
  }

  /** One turn of the loop: the character at p, and the untouched ones up to the next. */
  lemma CorruptStep(was: Memory, base: nat, size: nat, seed: int, step: nat, p: nat, i: nat)
    requires step > 0 && base <= p < i < p + step && i < |was| && OnGrid(p - base, step)
    ensures Corrupted(was, base, size, seed, step)[i] == was[i]
  {
    OffGrid(p - base, i - p, step);
  }

  method CorruptBlock(mem: array<nat>, base: nat, size: nat, seed: int, step: nat)
    requires step > 0 && base + size <= mem.Length
    modifies mem
    ensures mem[..] == Corrupted(old(mem[..]), base, size, seed, step)
  {
    ghost var was := mem[..];
    ghost var want := Corrupted(was, base, size, seed, step);
    var p := base;
    while p < base + size
      invariant base <= p && OnGrid(p - base, step)
      invariant forall i :: 0 <= i < mem.Length && i < p ==> mem[i] == want[i]
      invariant forall i :: p <= i < mem.Length ==> mem[i] == was[i]
      decreases base + size - p
    {
      if mem[p] != COMMA {
        mem[p] := Xor(mem[p], seed % 256);
      }
      forall i | p < i < p + step && i < mem.Length ensures want[i] == was[i] {
        CorruptStep(was, base, size, seed, step, p, i);
      }
      p := p + step;
    }
  }

  /** Corrupting twice with one seed restores the block exactly when no touched character turned
      into a comma: the second pass leaves such a character as it is. */
  lemma UndoCorruption(mem: Memory, base: nat, size: nat, seed: int, step: nat)
    requires step > 0
    ensures Corrupted(Corrupted(mem, base, size, seed, step), base, size, seed, step) == mem <==>
            forall i :: 0 <= i < |mem| && Touched(mem, base, size, step, i) ==> Xor(mem[i], seed % 256) != COMMA
  {
    var once := Corrupted(mem, base, size, seed, step);
    var twice := Corrupted(once, base, size, seed, step);
    forall i | 0 <= i < |mem|
      ensures twice[i] == mem[i] <==>
              (Touched(mem, base, size, step, i) ==> Xor(mem[i], seed % 256) != COMMA)
    {
      XorTwice(mem[i], seed % 256);
    }
    if forall i :: 0 <= i < |mem| && Touched(mem, base, size, step, i) ==> Xor(mem[i], seed % 256) != COMMA {
      assert twice == mem;
    }
  }

  // ----- one pass over the block -----

  /** The tokens before p have ended in `done.finals` and raised `done.hits`. */
  ghost predicate Progress(mem: Memory, total: Tally, done: Tally, p: nat) {
    Terminated(mem, p) &&
    total == Tally(done.finals + Run(mem, p).finals, done.hits + Run(mem, p).hits)
  }

  ghost function PlusToken(done: Tally, t: Token): Tally {
    Tally(done.finals + multiset{t.state}, done.hits + t.hits)
  }

  lemma ProgressStep(mem: Memory, total: Tally, done: Tally, p: nat)
    requires Progress(mem, total, done, p) && mem[p] != 0
    ensures var t := Scan(mem, p, Start); p < t.end && Progress(mem, total, PlusToken(done, t), t.end)
  {
  }

  method Bump(counts: array<Word>, s: State)
    requires counts.Length == 8
    modifies counts
    ensures Counted(old(counts[..]), multiset{s}, counts[..])
  {
    counts[Index(s)] := Plus(counts[Index(s)], 1);
    assert counts[..] == CountOne(old(counts[..]), s);
  }

  method CorePass(mem: Memory, base: nat, finals: array<Word>, tracks: array<Word>)
    requires Terminated(mem, base) && finals.Length == 8 && tracks.Length == 8 && finals != tracks
    modifies finals, tracks
    ensures Counted(old(finals[..]), Run(mem, base).finals, finals[..])
    ensures Counted(old(tracks[..]), Run(mem, base).hits, tracks[..])
  {
    ghost var total, done := Run(mem, base), Tally(multiset{}, multiset{});
    var p := base;
    CountedNone(finals[..]);
    CountedNone(tracks[..]);
    while mem[p] != 0
      invariant Progress(mem, total, done, p)
      invariant Counted(old(finals[..]), done.finals, finals[..])
      invariant Counted(old(tracks[..]), done.hits, tracks[..])
      decreases |mem| - p
    {
      ghost var t, f, h := Scan(mem, p, Start), finals[..], tracks[..];
      ProgressStep(mem, total, done, p);
      var state;
      p, state := CoreStateTransition(mem, p, tracks);
      assert finals[..] == f;
      Bump(finals, state);
      CountedTwice(old(finals[..]), done.finals, f, multiset{t.state}, finals[..]);
      CountedTwice(old(tracks[..]), done.hits, h, t.hits, tracks[..]);
      done := PlusToken(done, t);
    }
  }

  method XdfaPass(mem: Memory, base: nat, format2: bool, finals: array<Word>, unit: CounterUnit)
    requires Terminated(mem, base) && |mem| % 4 == 0 && finals.Length == 8 && unit.Valid()
    modifies finals, unit`transitions
    ensures unit.Valid()
    ensures Counted(old(finals[..]), Run(mem, base).finals, finals[..])
    ensures Counted(old(unit.transitions), Run(mem, base).hits, unit.transitions)
  {
    ghost var total, done := Run(mem, base), Tally(multiset{}, multiset{});
    var p := base;
    CountedNone(finals[..]);
    CountedNone(unit.transitions);
    while mem[p] != 0
      invariant Progress(mem, total, done, p) && unit.Valid()
      invariant Counted(old(finals[..]), done.finals, finals[..])
      invariant Counted(old(unit.transitions), done.hits, unit.transitions)
      decreases |mem| - p
    {
      ghost var t, f, h := Scan(mem, p, Start), finals[..], unit.transitions;
      ProgressStep(mem, total, done, p);
      var state;
      p, state := unit.XdfaTransition(mem, p, format2);
      assert finals[..] == f;
      Bump(finals, state);
      CountedTwice(old(finals[..]), done.finals, f, multiset{t.state}, finals[..]);
      CountedTwice(old(unit.transitions), done.hits, h, t.hits, unit.transitions);
      done := PlusToken(done, t);
    }
  }

  method Xdfa4hPass(mem: Memory, base: nat, unit: CounterUnit)
    requires Terminated(mem, base) && |mem| % 4 == 0 && unit.Valid() && unit.pending == 0
    modifies unit
    ensures unit.Valid() && unit.pending == 0
    ensures Counted(old(unit.finals), Run(mem, base).finals, unit.finals)
    ensures Counted(old(unit.transitions), Run(mem, base).hits, unit.transitions)
  {
    ghost var total, done := Run(mem, base), Tally(multiset{}, multiset{});
    var p := base;
    CountedNone(unit.finals);
    CountedNone(unit.transitions);
    while mem[p] != 0
      invariant Progress(mem, total, done, p) && unit.Valid() && unit.pending == 0
      invariant Counted(old(unit.finals), done.finals, unit.finals)
      invariant Counted(old(unit.transitions), done.hits, unit.transitions)
      decreases |mem| - p
    {
      ghost var t, f, h := Scan(mem, p, Start), unit.finals, unit.transitions;
      ProgressStep(mem, total, done, p);
      p := unit.Xdfa4hTransition(mem, p);
      CountedTwice(old(unit.finals), done.finals, f, multiset{t.state}, unit.finals);
      CountedTwice(old(unit.transitions), done.hits, h, t.hits, unit.transitions);
      done := PlusToken(done, t);
    }
  }

  // ----- the benchmark -----

  lemma CountedBoth(a: multiset<State>, mid: seq<Word>, b: multiset<State>, counts: seq<Word>)
    requires Counted(seq(8, _ => 0), a, mid) && Counted(mid, b, counts)
    ensures counts == Shown(a + b)
  {
    CountedTwice(seq(8, _ => 0), a, mid, b, counts);
    CountedFromZero(a + b, counts);
  }

  /** The original's checksum: two 32-bit updates per counter. */
  method CoreChecksum(finals: seq<Word>, tracks: seq<Word>, crc0: Crc.Bits) returns (crc: Crc.Bits)
    requires |finals| == 8 && |tracks| == 8 && |crc0| == 16
    ensures |crc| == 16 && crc == Checksum(finals, tracks, 0, crc0)
  {
    crc := crc0;
    for i := 0 to 8
      invariant |crc| == 16 && Checksum(finals, tracks, 0, crc0) == Checksum(finals, tracks, i, crc)
    {
      crc := Crc.Crcu32(WordBits(finals[i]), crc);
      crc := Crc.Crcu32(WordBits(tracks[i]), crc);
    }
  }

  /** A 32-bit update as four one-byte updates. */
  method CrcByBytes(data: Crc.Bits, crc0: Crc.Bits) returns (crc: Crc.Bits)
    requires |data| == 32 && |crc0| == 16
    ensures |crc| == 16 && crc == Crc.Feed(data, crc0)
  {
    crc := crc0;
    var rest := data;
    assert Crc.Feed([], crc0) == crc0;
    for i := 0 to 4
      invariant |crc| == 16 && |rest| == 32 - 8 * i && Crc.Feed(rest, crc) == Crc.Feed(data, crc0)
    {
      assert rest == rest[..8] + rest[8..];
      Crc.FeedConcat(rest[..8], rest[8..], crc);
      crc := Crc.Crcu8(rest[..8], crc);
      rest := rest[8..];
    }
  }

  method XdfaChecksum(finals: seq<Word>, tracks: seq<Word>, crc0: Crc.Bits) returns (crc: Crc.Bits)
    requires |finals| == 8 && |tracks| == 8 && |crc0| == 16
    ensures |crc| == 16 && crc == Checksum(finals, tracks, 0, crc0)
  {
    crc := crc0;
    for i := 0 to 8
      invariant |crc| == 16 && Checksum(finals, tracks, 0, crc0) == Checksum(finals, tracks, i, crc)
    {
      crc := CrcByBytes(WordBits(finals[i]), crc);
      crc := CrcByBytes(WordBits(tracks[i]), crc);
    }
  }

  method CoreBenchState(mem: array<nat>, base: nat, size: nat, seed1: int, seed2: int, step: nat, crc0: Crc.Bits)
    returns (crc: Crc.Bits)
    requires Scannable(mem[..], base, size, seed1, step) && |crc0| == 16
    modifies mem
    ensures mem[..] == Corrupted(Corrupted(old(mem[..]), base, size, seed1, step), base, size, seed2, step)
    ensures crc == BenchCrc(old(mem[..]), base, size, seed1, step, crc0)
  {
    var finals := new Word[8](_ => 0);
    var tracks := new Word[8](_ => 0);
    ghost var zero: seq<Word> := seq(8, _ => 0);
    assert finals[..] == zero && tracks[..] == zero;
    CorePass(mem[..], base, finals, tracks);
    ghost var first, f, h := Run(mem[..], base), finals[..], tracks[..];
    CorruptBlock(mem, base, size, seed1, step);
    assert finals[..] == f && tracks[..] == h;
    CorePass(mem[..], base, finals, tracks);
    ghost var second := Run(mem[..], base);
    CountedBoth(first.finals, f, second.finals, finals[..]);
    CountedBoth(first.hits, h, second.hits, tracks[..]);
    var finalCounts, trackCounts := finals[..], tracks[..];
    CorruptBlock(mem, base, size, seed2, step);
    crc := CoreChecksum(finalCounts, trackCounts, crc0);
  }

  /** The version on the xdfa2 or xdfa4 instruction. */
  method XdfaBench(mem: array<nat>, base: nat, size: nat, seed1: int, seed2: int, step: nat, crc0: Crc.Bits,
                   format2: bool)
    returns (crc: Crc.Bits)
    requires Scannable(mem[..], base, size, seed1, step) && |crc0| == 16 && mem.Length % 4 == 0
    modifies mem
    ensures mem[..] == Corrupted(Corrupted(old(mem[..]), base, size, seed1, step), base, size, seed2, step)
    ensures crc == BenchCrc(old(mem[..]), base, size, seed1, step, crc0)
  {
    var finals := new Word[8](_ => 0);
    var unit := new CounterUnit();
    ghost var zero: seq<Word> := seq(8, _ => 0);
    assert finals[..] == zero && unit.transitions == zero;
    XdfaPass(mem[..], base, format2, finals, unit);
    ghost var first, f, h := Run(mem[..], base), finals[..], unit.transitions;
    CorruptBlock(mem, base, size, seed1, step);
    assert finals[..] == f;
    XdfaPass(mem[..], base, format2, finals, unit);
    ghost var second := Run(mem[..], base);
    CountedBoth(first.finals, f, second.finals, finals[..]);
    CountedBoth(first.hits, h, second.hits, unit.transitions);
    var finalCounts := finals[..];
    CorruptBlock(mem, base, size, seed2, step);
    crc := XdfaChecksum(finalCounts, unit.transitions, crc0);
  }

  /** The version on the instruction that keeps both sets of counters. */
  method Xdfa4hBench(mem: array<nat>, base: nat, size: nat, seed1: int, seed2: int, step: nat, crc0: Crc.Bits)
    returns (crc: Crc.Bits)
    requires Scannable(mem[..], base, size, seed1, step) && |crc0| == 16 && mem.Length % 4 == 0
    modifies mem
    ensures mem[..] == Corrupted(Corrupted(old(mem[..]), base, size, seed1, step), base, size, seed2, step)
    ensures crc == BenchCrc(old(mem[..]), base, size, seed1, step, crc0)
  {
    var unit := new CounterUnit();
    ghost var zero: seq<Word> := seq(8, _ => 0);
    assert unit.finals == zero && unit.transitions == zero;
    Xdfa4hPass(mem[..], base, unit);
    ghost var first, f, h := Run(mem[..], base), unit.finals, unit.transitions;
    CorruptBlock(mem, base, size, seed1, step);
    Xdfa4hPass(mem[..], base, unit);
    ghost var second := Run(mem[..], base);
    CountedBoth(first.finals, f, second.finals, unit.finals);
    CountedBoth(first.hits, h, second.hits, unit.transitions);
    CorruptBlock(mem, base, size, seed2, step);
    crc := XdfaChecksum(unit.finals, unit.transitions, crc0);
  }
}
