/**
  The levels of a hashed directory: which blocks the bucket of a hash value has at
  each level, where blocks are numbered by an insertion with 64 bits and by a
  lookup with 32, and how far the node tree of the directory reaches.
 */
module DirLevels {
  import Addressing

  const U32: nat := 0x1_0000_0000
  const MAX_DIR_HASH_DEPTH: nat := 63
  const MAX_DIR_BUCKETS: nat := 0x4000_0000

  function Pow2(n: nat): (r: nat)
    ensures r > 0
  {
    if n == 0 then 1 else 2 * Pow2(n - 1)
  }

  lemma {:induction false} Pow2Grows(m: nat, n: nat)
    requires m <= n
    ensures Pow2(m) <= Pow2(n)
  {
    if m < n { Pow2Grows(m, n - 1); }
  }

  lemma Pow2Of30()
    ensures Pow2(30) == MAX_DIR_BUCKETS
  {
    assert Pow2(10) == 1024;
    assert Pow2(20) == 1024 * Pow2(10);
    assert Pow2(30) == 1024 * Pow2(20);
  }

  /** dir_buckets. */
  function Buckets(level: nat, dirLevel: nat): (n: nat)
    ensures 0 < n <= MAX_DIR_BUCKETS
  {
    if level + dirLevel < MAX_DIR_HASH_DEPTH / 2 then
      Pow2Of30();
      Pow2Grows(level + dirLevel, 30);
      Pow2(level + dirLevel)
    else MAX_DIR_BUCKETS
  }

  /** bucket_blocks. */
  function BucketBlocks(level: nat): nat { if level < MAX_DIR_HASH_DEPTH / 2 then 2 else 4 }

  /** The blocks of the levels below: each product has 32 bits, the sum has 64. */
  function LevelStart(level: nat, dirLevel: nat): nat {
    if level == 0 then 0
    else LevelStart(level - 1, dirLevel) + LevelSize(level - 1, dirLevel) % U32
  }

  /** Blocks of a level. */
  function LevelSize(level: nat, dirLevel: nat): nat { Buckets(level, dirLevel) * BucketBlocks(level) }

  lemma Scale(k: nat, level: nat)
    ensures k * BucketBlocks(level) == if level < 31 then 2 * k else 4 * k
  {
  }

  lemma SizeIs(level: nat, dirLevel: nat)
    ensures LevelSize(level, dirLevel) == if level < 31 then 2 * Buckets(level, dirLevel) else U32
    ensures LevelSize(level, dirLevel) % U32 == if level < 31 then LevelSize(level, dirLevel) else 0
  {
    Scale(Buckets(level, dirLevel), level);
    if level >= 31 { assert Buckets(level, dirLevel) == MAX_DIR_BUCKETS; }
  }

  /** The bucket of a hash value, and its first block. */
  function BucketOf(level: nat, dirLevel: nat, hash: nat): (idx: nat)
    ensures idx < Buckets(level, dirLevel)
  {
    hash % Buckets(level, dirLevel)
  }

  function BucketStart(level: nat, dirLevel: nat, idx: nat): nat { LevelStart(level, dirLevel) + idx * BucketBlocks(level) }

  function BlockIndex(level: nat, dirLevel: nat, hash: nat): nat { BucketStart(level, dirLevel, BucketOf(level, dirLevel, hash)) }

  /** dir_block_index. */
  method DirBlockIndex(level: nat, dirLevel: nat, idx: nat) returns (bidx: nat)
    requires idx < Buckets(level, dirLevel)
    ensures bidx == BucketStart(level, dirLevel, idx)
  {
    bidx := 0;
    for i: nat := 0 to level
      invariant bidx == LevelStart(i, dirLevel)
    {
      bidx := bidx + (Buckets(i, dirLevel) * BucketBlocks(i)) % U32;
    }
    Scale(idx, level);
    bidx := bidx + (idx * BucketBlocks(level)) % U32;
  }

  /** The conversion to unsigned int. */
  function Low32(x: nat): (r: nat)
    ensures x < U32 ==> r == x
  {
    x % U32
  }

  /** The blocks an insertion of this hash value looks at on a level. */
  predicate InBucket(b: nat, level: nat, dirLevel: nat, hash: nat) {
    BlockIndex(level, dirLevel, hash) <= b < BlockIndex(level, dirLevel, hash) + BucketBlocks(level)
  }

  /** The blocks a lookup looks at: the first index is cut to 32 bits, and so is the end. */
  predicate Scanned(b: nat, level: nat, dirLevel: nat, hash: nat) {
    Low32(BlockIndex(level, dirLevel, hash)) <= b < Low32(Low32(BlockIndex(level, dirLevel, hash)) + BucketBlocks(level))
  }

  predicate InLevel(b: nat, level: nat, dirLevel: nat) {
    LevelStart(level, dirLevel) <= b < LevelStart(level, dirLevel) + LevelSize(level, dirLevel)
  }

  /** A bucket lies inside its level. */
  lemma BucketInLevel(b: nat, level: nat, dirLevel: nat, hash: nat)
    requires InBucket(b, level, dirLevel, hash)
    ensures InLevel(b, level, dirLevel)
  {
    var k := BucketOf(level, dirLevel, hash);
    assert (k + 1) * BucketBlocks(level) <= Buckets(level, dirLevel) * BucketBlocks(level);
  }

  /** Below level 31 the levels follow one another without a gap; from there on they all start at the same block. */
  lemma NextLevel(level: nat, dirLevel: nat)
    ensures LevelStart(level + 1, dirLevel) == LevelStart(level, dirLevel) + if level < 31 then LevelSize(level, dirLevel) else 0
    ensures level >= 31 ==> LevelSize(level, dirLevel) == U32
  {
    SizeIs(level, dirLevel);
  }

  lemma {:induction false} LevelsGrow(low: nat, high: nat, dirLevel: nat)
    requires low < high
    ensures LevelStart(high, dirLevel) >= LevelStart(low, dirLevel) + if low < 31 then LevelSize(low, dirLevel) else 0
    ensures low >= 31 ==> LevelStart(high, dirLevel) == LevelStart(low, dirLevel)
    decreases high
  {
    NextLevel(high - 1, dirLevel);
    if low < high - 1 { LevelsGrow(low, high - 1, dirLevel); }
  }

  /** Two different levels have a block in common exactly if both are 31 or more. */
  lemma LevelsShare(low: nat, high: nat, dirLevel: nat)
    requires low < high
    ensures (exists b: nat :: InLevel(b, low, dirLevel) && InLevel(b, high, dirLevel)) <==> low >= 31
  {
    LevelsGrow(low, high, dirLevel);
    if low >= 31 {
      NextLevel(low, dirLevel);
      NextLevel(high, dirLevel);
      assert InLevel(LevelStart(low, dirLevel), low, dirLevel) && InLevel(LevelStart(low, dirLevel), high, dirLevel);
    }
  }

  /** Buckets of different levels share no block as long as the lower one is below 31. */
  lemma LevelsApart(b: nat, low: nat, h1: nat, high: nat, h2: nat, dirLevel: nat)
    requires low < high && low < 31 && InBucket(b, low, dirLevel, h1)
    ensures !InBucket(b, high, dirLevel, h2)
  {
    BucketInLevel(b, low, dirLevel, h1);
    LevelsGrow(low, high, dirLevel);
  }

  /** A lookup looks at the blocks of the bucket exactly if these end below block 2^32. */
  lemma LookupSeesBucket(level: nat, dirLevel: nat, hash: nat)
    ensures (forall b: nat :: InBucket(b, level, dirLevel, hash) <==> Scanned(b, level, dirLevel, hash))
            <==> BlockIndex(level, dirLevel, hash) + BucketBlocks(level) < U32
  {
    var first := BlockIndex(level, dirLevel, hash);
    assert InBucket(first, level, dirLevel, hash);
    if first + BucketBlocks(level) >= U32 {
      assert !Scanned(first, level, dirLevel, hash);
    }
  }

  // ------------------------------------------------------- within the node tree

  /** Node trees address less than 2^31 blocks. */
  predicate TreeSize(cap: nat) { 0 < cap <= U32 / 2 }

  lemma {:induction false} StartAtLeast(level: nat, dirLevel: nat)
    requires level <= 31
    ensures LevelStart(level, dirLevel) >= 2 * (Pow2(level) - 1)
  {
    if level > 0 {
      StartAtLeast(level - 1, dirLevel);
      NextLevel(level - 1, dirLevel);
      SizeIs(level - 1, dirLevel);
      Pow2Of30();
      Pow2Grows(level - 1, 30);
      if level - 1 + dirLevel < 31 { Pow2Grows(level - 1, level - 1 + dirLevel); }
    }
  }

  /** Only levels below 31 start inside the tree. */
  lemma LevelInTree(level: nat, dirLevel: nat, cap: nat)
    requires TreeSize(cap) && LevelStart(level, dirLevel) < cap
    ensures level < 31
  {
    var below, last: nat := 30, 31;
    Pow2Of30();
    assert Pow2(last) == 2 * Pow2(below);
    StartAtLeast(last, dirLevel);
    if level > last { LevelsGrow(last, level, dirLevel); }
  }

  /** Buckets of different levels share no block of the tree. */
  lemma BucketsApart(b: nat, low: nat, h1: nat, high: nat, h2: nat, dirLevel: nat, cap: nat)
    requires TreeSize(cap) && b < cap && low < high && InBucket(b, low, dirLevel, h1)
    ensures !InBucket(b, high, dirLevel, h2)
  {
    BucketInLevel(b, low, dirLevel, h1);
    LevelInTree(low, dirLevel, cap);
    LevelsApart(b, low, h1, high, h2, dirLevel);
  }

  /** On a level that starts inside the tree, the 32 bits of a lookup are enough. */
  lemma WindowFits(level: nat, dirLevel: nat, hash: nat, cap: nat)
    requires TreeSize(cap) && LevelStart(level, dirLevel) < cap
    ensures BlockIndex(level, dirLevel, hash) + BucketBlocks(level) < U32 && BucketBlocks(level) == 2
  {
    LevelInTree(level, dirLevel, cap);
    Scale(BucketOf(level, dirLevel, hash), level);
  }

  lemma LookupSees(level: nat, dirLevel: nat, hash: nat, cap: nat)
    requires TreeSize(cap) && LevelStart(level, dirLevel) < cap
    ensures forall b: nat :: InBucket(b, level, dirLevel, hash) <==> Scanned(b, level, dirLevel, hash)
  {
    WindowFits(level, dirLevel, hash, cap);
    LookupSeesBucket(level, dirLevel, hash);
  }

  /** The bucket of a lower level ends before the higher level starts. */
  lemma BucketBefore(low: nat, high: nat, dirLevel: nat, hash: nat, cap: nat)
    requires TreeSize(cap) && low < high && LevelStart(high, dirLevel) < cap
    ensures BlockIndex(low, dirLevel, hash) + BucketBlocks(low) <= LevelStart(high, dirLevel)
  {
    LevelInTree(high, dirLevel, cap);
    LevelsGrow(low, high, dirLevel);
    BucketInLevel(BlockIndex(low, dirLevel, hash) + (BucketBlocks(low) - 1), low, dirLevel, hash);
  }

  /** Lower levels start earlier. */
  lemma LowerStart(low: nat, high: nat, dirLevel: nat)
    requires low <= high
    ensures LevelStart(low, dirLevel) <= LevelStart(high, dirLevel)
  {
    if low < high { LevelsGrow(low, high, dirLevel); }
  }

  /** All blocks of a level are in the tree. */
  predicate Fits(level: nat, dirLevel: nat, cap: nat) { LevelStart(level, dirLevel) + LevelSize(level, dirLevel) <= cap }

  lemma LowerFits(low: nat, high: nat, dirLevel: nat, cap: nat)
    requires TreeSize(cap) && Fits(high, dirLevel, cap) && low <= high
    ensures Fits(low, dirLevel, cap)
  {
    SizeIs(high, dirLevel);
    LevelInTree(high, dirLevel, cap);
    if low < high { LevelsGrow(low, high, dirLevel); }
  }

  lemma FittingBucket(b: nat, level: nat, dirLevel: nat, hash: nat, cap: nat)
    requires Fits(level, dirLevel, cap) && InBucket(b, level, dirLevel, hash)
    ensures b < cap
  {
    BucketInLevel(b, level, dirLevel, hash);
  }

  lemma {:induction false} FirstLevels(level: nat)
    requires level <= 31
    ensures LevelStart(level, 0) == 2 * (Pow2(level) - 1)
  {
    if level > 0 {
      FirstLevels(level - 1);
      NextLevel(level - 1, 0);
    }
  }

  /** The tree of an inode with 1018 addresses or node ids to a node block. */
  predicate RealTree(sh: Addressing.Shape) {
    && sh.perBlock == 1018 == sh.nids
    && (sh.perInode == Addressing.DEF_ADDRS_PER_INODE
        || sh.perInode == Addressing.DEF_ADDRS_PER_INODE - Addressing.INLINE_XATTR_ADDRS)
  }

  lemma RealCapacity(sh: Addressing.Shape)
    requires RealTree(sh)
    ensures sh.Capacity() == 1057052516 + sh.perInode && TreeSize(sh.Capacity())
  {
  }

  lemma Pow2Of27()
    ensures Pow2(27) == 0x800_0000 && Pow2(28) == 0x1000_0000
  {
    assert Pow2(9) == 512;
    assert Pow2(18) == 512 * Pow2(9);
    assert Pow2(27) == 512 * Pow2(18);
  }

  /** With no extra levels, exactly the first 28 levels are in the tree as a whole. */
  lemma DepthLimit(level: nat, sh: Addressing.Shape)
    requires RealTree(sh)
    ensures Fits(level, 0, sh.Capacity()) <==> level < 28
  {
    var full, crossing, cap: nat := 27, 28, sh.Capacity();
    RealCapacity(sh);
    Pow2Of27();
    FirstLevels(full);
    FirstLevels(crossing);
    NextLevel(full, 0);
    NextLevel(crossing, 0);
    SizeIs(crossing, 0);
    Pow2Of30();
    if level < full { LevelsGrow(level, full, 0); } else if level > crossing { LevelsGrow(crossing, level, 0); }
  }

  /** With 30 extra levels not even the first level is: the buckets of its upper half lie beyond the tree. */
  lemma FirstLevelCrosses(sh: Addressing.Shape, hash: nat)
    requires RealTree(sh)
    ensures !Fits(0, 30, sh.Capacity())
    ensures BlockIndex(0, 30, hash) >= sh.Capacity() <==> hash % MAX_DIR_BUCKETS >= (sh.Capacity() + 1) / 2
    ensures (sh.Capacity() + 1) / 2 < MAX_DIR_BUCKETS
  {
    RealCapacity(sh);
    Pow2Of30();
    var extra: nat := 30;
    assert Buckets(0, extra) == Pow2(extra) == MAX_DIR_BUCKETS;
    Scale(hash % MAX_DIR_BUCKETS, 0);
    SizeIs(0, extra);
  }
}
