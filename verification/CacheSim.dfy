/**
  The direct-mapped instruction cache simulator: which accesses miss, and how the number of misses
  changes with the number of blocks.
  */
module CacheSim {
  import opened Bits
  import opened Options
  import opened Words

  type Addr = Word

  // ----- which accesses miss -----

  /** The memory block of an address, for blocks of 2^b bytes. */
  function BlockOf(addr: Addr, b: nat): nat {
    Shr(addr, b)
  }

  lemma BlockOfIs(addr: Addr, b: nat)
    ensures Pow2(b) > 0 && BlockOf(addr, b) == addr / Pow2(b)
  {
    Split(addr, b);
    ShlMul(Shr(addr, b), b);
    QuotientIs(Pow2(b), Shr(addr, b), Low(addr, b));
  }

  function BlocksOf(trace: seq<Addr>, b: nat): seq<nat> {
    seq(|trace|, i requires 0 <= i < |trace| => BlockOf(trace[i], b))
  }

  /** The last block accessed with index k, when a block's index is its low n bits. */
  function LastAt(blocks: seq<nat>, n: nat, k: nat): Option<nat> {
    if blocks == [] then None
    else if Low(blocks[|blocks| - 1], n) == k then Some(blocks[|blocks| - 1])
    else LastAt(blocks[..|blocks| - 1], n, k)
  }

  /** An access misses unless the last access with its index was to the same block. */
  predicate Misses(before: seq<nat>, block: nat, n: nat) {
    LastAt(before, n, Low(block, n)) != Some(block)
  }

  function MissCount(blocks: seq<nat>, n: nat): nat {
    if blocks == [] then 0
    else
      var before, block := blocks[..|blocks| - 1], blocks[|blocks| - 1];
      MissCount(before, n) + if Misses(before, block, n) then 1 else 0
  }

  // ----- more blocks never miss more -----

  lemma {:induction false} LowLow(x: nat, n: nat, m: nat)
    requires n <= m
    ensures Low(Low(x, m), n) == Low(x, n)
    decreases n
  {
    if n > 0 {
      LowLow(x / 2, n - 1, m - 1);
    }
  }

  /** What a cache holds, every cache with more blocks holds too. */
  lemma {:induction false} Inclusion(before: seq<nat>, block: nat, n: nat, m: nat)
    requires n <= m && !Misses(before, block, n)
    ensures !Misses(before, block, m)
    decreases |before|
  {
    var last := before[|before| - 1];
    if Low(last, n) != Low(block, n) {
      LowLow(last, n, m);
      LowLow(block, n, m);
      Inclusion(before[..|before| - 1], block, n, m);
    }
  }

  lemma {:induction false} MoreBlocksFewerMisses(blocks: seq<nat>, n: nat, m: nat)
    requires n <= m
    ensures MissCount(blocks, m) <= MissCount(blocks, n)
    decreases |blocks|
  {
    if blocks != [] {
      var before, block := blocks[..|blocks| - 1], blocks[|blocks| - 1];
      MoreBlocksFewerMisses(before, n, m);
      if !Misses(before, block, n) {
        Inclusion(before, block, n, m);
      }
    }
  }

  // ----- every block misses at least once -----

  function Distinct(blocks: seq<nat>): set<nat> {
    set x | x in blocks
  }

  lemma {:induction false} HeldWasAccessed(blocks: seq<nat>, n: nat, k: nat)
    ensures LastAt(blocks, n, k).Some? ==> LastAt(blocks, n, k).value in blocks
    decreases |blocks|
  {
    if blocks != [] {
      HeldWasAccessed(blocks[..|blocks| - 1], n, k);
    }
  }

  lemma {:induction false} EveryBlockMissesOnce(blocks: seq<nat>, n: nat)
    ensures |Distinct(blocks)| <= MissCount(blocks, n) <= |blocks|
    decreases |blocks|
  {
    if blocks == [] {
      assert Distinct(blocks) == {};
    } else {
      var before, block := blocks[..|blocks| - 1], blocks[|blocks| - 1];
      EveryBlockMissesOnce(before, n);
      HeldWasAccessed(before, n, Low(block, n));
      assert Distinct(blocks) == Distinct(before) + {block};
      assert block in before ==> Distinct(blocks) == Distinct(before);
    }
  }

  // ----- the simulator -----

  class ICacheSim {
    const blockSizeWidth: nat
    const blockNumWidth: nat
    var blocks: seq<nat>
    var valid: seq<bool>
    var totalMissCount: nat
    var totalAccessCount: nat
    ghost var trace: seq<Addr>

    ghost predicate Valid()
      reads this
    {
      && 0 < blockNumWidth && blockSizeWidth + blockNumWidth < 32
      && |blocks| == |valid| == Pow2(blockNumWidth)
      && totalAccessCount == |trace|
      && totalMissCount == MissCount(BlocksOf(trace, blockSizeWidth), blockNumWidth)
      && Consistent(blocks, valid, BlocksOf(trace, blockSizeWidth), blockNumWidth)
    }

    constructor (blockSizeWidth: nat, blockNumWidth: nat)
      requires 0 < blockNumWidth && blockSizeWidth + blockNumWidth < 32
      ensures Valid() && trace == []
      ensures this.blockSizeWidth == blockSizeWidth && this.blockNumWidth == blockNumWidth
    {
      this.blockSizeWidth, this.blockNumWidth := blockSizeWidth, blockNumWidth;
      blocks, valid := seq(Pow2(blockNumWidth), _ => 0), seq(Pow2(blockNumWidth), _ => false);
      totalMissCount, totalAccessCount, trace := 0, 0, [];
    }

    method Access(addr: Addr)
      requires Valid()
      modifies this
      ensures Valid() && trace == old(trace) + [addr]
    {
      ghost var block, before := BlockOf(addr, blockSizeWidth), BlocksOf(trace, blockSizeWidth);
      SameBlock(addr, blockSizeWidth, blockNumWidth);
      totalAccessCount := totalAccessCount + 1;
      var index := ExtractBits(addr, blockSizeWidth + blockNumWidth - 1, blockSizeWidth);
      var tag := ExtractBits(addr, 31, blockSizeWidth + blockNumWidth);
      AccessKeeps(blocks, valid, before, blockNumWidth, block);
      if !valid[index] || blocks[index] != tag {
        totalMissCount := totalMissCount + 1;
        blocks := blocks[index := tag];
        valid := valid[index := true];
      }
      trace := trace + [addr];
      assert BlocksOf(trace, blockSizeWidth) == before + [block];
      MissStep(before, block, blockNumWidth);
    }
  }

  /** Line k holds the tag of the last block accessed with index k, if there was one. */
  ghost predicate Line(tag: nat, isValid: bool, last: Option<nat>, n: nat) {
    isValid == last.Some? && (isValid ==> tag == Shr(last.value, n))
  }

  ghost predicate Consistent(tags: seq<nat>, valid: seq<bool>, before: seq<nat>, n: nat) {
    |tags| == |valid| && forall k :: 0 <= k < |tags| ==> Line(tags[k], valid[k], LastAt(before, n, k), n)
  }

  lemma LastAfter(before: seq<nat>, block: nat, n: nat, k: nat)
    ensures LastAt(before + [block], n, k) == if Low(block, n) == k then Some(block) else LastAt(before, n, k)
  {
    assert (before + [block])[..|before|] == before;
  }

  lemma MissStep(before: seq<nat>, block: nat, n: nat)
    ensures MissCount(before + [block], n) == MissCount(before, n) + if Misses(before, block, n) then 1 else 0
  {
    assert (before + [block])[..|before|] == before;
  }

  /** The test on the line decides whether the access misses, and filling the line keeps the cache
      consistent. */
  lemma AccessKeeps(tags: seq<nat>, valid: seq<bool>, before: seq<nat>, n: nat, block: nat)
    requires Consistent(tags, valid, before, n) && Low(block, n) < |tags|
    ensures var i, tag := Low(block, n), Shr(block, n);
      && (!valid[i] || tags[i] != tag <==> Misses(before, block, n))
      && Consistent(tags[i := tag], valid[i := true], before + [block], n)
      && (!Misses(before, block, n) ==> Consistent(tags, valid, before + [block], n))
  {
    var i, tag := Low(block, n), Shr(block, n);
    var last := LastAt(before, n, i);
    assert Line(tags[i], valid[i], last, n);
    if last.Some? {
      LastHasIndex(before, n, i);
      BlockByParts(block, last.value, n);
    }
    forall k | 0 <= k < |tags|
      ensures Line(tags[i := tag][k], valid[i := true][k], LastAt(before + [block], n, k), n)
    {
      LastAfter(before, block, n, k);
      assert Line(tags[k], valid[k], LastAt(before, n, k), n);
    }
    if !Misses(before, block, n) {
      assert tags[i := tag] == tags && valid[i := true] == valid;
    }
  }

  function ExtractBits(num: Addr, high: nat, low: nat): (r: nat)
    requires low <= high < 32 && high - low + 1 < 32
    ensures r < Pow2(high - low + 1)
  {
    Pow2Positive(high - low + 1);
    AndMask(Shr(num, low), high - low + 1);
    Split(Shr(num, low), high - low + 1);
    And(Shr(num, low), Pow2(high - low + 1) - 1)
  }

  lemma {:induction false} LastHasIndex(blocks: seq<nat>, n: nat, k: nat)
    requires LastAt(blocks, n, k).Some?
    ensures Low(LastAt(blocks, n, k).value, n) == k
    decreases |blocks|
  {
    if Low(blocks[|blocks| - 1], n) != k {
      LastHasIndex(blocks[..|blocks| - 1], n, k);
    }
  }

  /** A block is determined by its index and its tag. */
  lemma BlockByParts(x: nat, y: nat, n: nat)
    requires Low(x, n) == Low(y, n)
    ensures x == y <==> Shr(x, n) == Shr(y, n)
  {
    Split(x, n);
    Split(y, n);
  }

  /** Index and tag are the low and the high part of the block number. */
  lemma SameBlock(addr: Addr, b: nat, n: nat)
    requires 0 < n && b + n < 32
    ensures ExtractBits(addr, b + n - 1, b) == Low(BlockOf(addr, b), n)
    ensures ExtractBits(addr, 31, b + n) == Shr(BlockOf(addr, b), n)
  {
    Extracted(addr, b + n - 1, b, n);
    Extracted(addr, 31, b + n, 32 - (b + n));
    TopBitsFit(addr, b + n, 32 - (b + n));
    LowSmall(Shr(addr, b + n), 32 - (b + n));
    ShrShr(addr, b, n);
  }

  lemma Extracted(addr: Addr, high: nat, low: nat, w: nat)
    requires low <= high < 32 && w == high - low + 1 < 32
    ensures ExtractBits(addr, high, low) == Low(Shr(addr, low), w)
  {
    AndMask(Shr(addr, low), w);
  }

  lemma TopBitsFit(addr: Addr, k: nat, w: nat)
    requires k + w == 32
    ensures Shr(addr, k) < Pow2(w)
  {
    Powers();
    ShlShl(1, w, k);
    ShrMonotone(addr, Pow2(w), k);
  }
}
