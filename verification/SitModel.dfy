/**
  The segment information table on values: raw entries, the journal in front of
  the SIT pages, and the two copies of every page.
 */
module SitModel {
  import Addressing
  import opened SummaryJournal
  import opened SegmentModel

  // ------------------------------------------------------- raw entries

  /** vblocks packs the segment type above ten bits of valid count. */
  datatype RawSit = RawSit(vblocks: nat, validMap: seq<bool>, mtime: nat)

  const SIT_VBLOCKS: nat := 1024

  /** What seg_info_to_raw_sit stores. */
  function ToRaw(e: SegEntry): RawSit {
    RawSit(e.kind * SIT_VBLOCKS + if 0 <= e.validBlocks then e.validBlocks else 0, e.curMap, e.mtime)
  }

  /** seg_info_from_raw_sit. */
  function FromRawSit(raw: RawSit): SegEntry {
    var valid := raw.vblocks % SIT_VBLOCKS;
    SegEntry(valid, raw.validMap, valid, raw.validMap, raw.vblocks / SIT_VBLOCKS, raw.mtime)
  }

  predicate CountFits(e: SegEntry) { 0 <= e.validBlocks < SIT_VBLOCKS }

  /** Storing an entry and reading it back gives the entry as the checkpoint leaves it. */
  lemma RawRoundTrip(e: SegEntry)
    requires CountFits(e)
    ensures FromRawSit(ToRaw(e)) == Checkpointed(e)
    ensures ToRaw(e).vblocks == 1024 * e.kind + e.validBlocks && ToRaw(e).validMap == e.curMap && ToRaw(e).mtime == e.mtime
  {
    Addressing.DivIs(e.kind * SIT_VBLOCKS + e.validBlocks, SIT_VBLOCKS, e.kind, e.validBlocks);
  }

  // ------------------------------------------------------- the two copies of a SIT page

  datatype SitLayout = SitLayout(perBlock: nat, blocks: nat, segs: nat, journalMax: nat, base: nat)
  {
    predicate Valid() { perBlock > 0 && segs <= perBlock * blocks }
  }

  /** current_sit_addr for a page whose bit is given. */
  function SitAddr(lay: SitLayout, block: nat, bit: bool): nat {
    lay.base + block + if bit then lay.blocks else 0
  }

  /** next_sit_addr. */
  function NextSitAddr(lay: SitLayout, addr: nat): int {
    var a := addr - lay.base;
    lay.base + if a < lay.blocks then a + lay.blocks else a - lay.blocks
  }

  lemma NextIsOtherSit(lay: SitLayout, block: nat, bit: bool)
    requires block < lay.blocks
    ensures NextSitAddr(lay, SitAddr(lay, block, bit)) == SitAddr(lay, block, !bit)
  {
  }

  datatype Sit = Sit(lay: SitLayout, journal: seq<JEntry<RawSit>>, area: map<nat, seq<RawSit>>, bitmap: seq<bool>)

  ghost predicate AreaOk(t: Sit) {
    && t.lay.Valid() && |t.bitmap| == t.lay.blocks
    && forall block: nat, bit: bool :: block < t.lay.blocks ==>
         SitAddr(t.lay, block, bit) in t.area && |t.area[SitAddr(t.lay, block, bit)]| == t.lay.perBlock
  }

  ghost predicate SitOk(t: Sit) {
    && AreaOk(t) && |t.journal| <= t.lay.journalMax && Unique(t.journal)
    && forall i :: 0 <= i < |t.journal| ==> t.journal[i].key < t.lay.segs
  }

  function BlockOf(lay: SitLayout, segno: nat): nat
    requires lay.Valid()
  {
    segno / lay.perBlock
  }

  lemma BlockInRange(lay: SitLayout, segno: nat)
    requires lay.Valid() && segno < lay.segs
    ensures BlockOf(lay, segno) < lay.blocks
  {
    Addressing.DivBound(segno, lay.perBlock, lay.blocks);
  }

  ghost function PageEntry(t: Sit, segno: nat): RawSit
    requires AreaOk(t) && segno < t.lay.segs
  {
    BlockInRange(t.lay, segno);
    t.area[SitAddr(t.lay, BlockOf(t.lay, segno), t.bitmap[BlockOf(t.lay, segno)])][segno % t.lay.perBlock]
  }

  /** The entries of a page stand in the order of their numbers. */
  lemma EntryInPage(t: Sit, block: nat, i: nat)
    requires AreaOk(t) && block < t.lay.blocks && i < t.lay.perBlock && block * t.lay.perBlock + i < t.lay.segs
    ensures PageEntry(t, block * t.lay.perBlock + i) == t.area[SitAddr(t.lay, block, t.bitmap[block])][i]
  {
    Addressing.DivIs(block * t.lay.perBlock + i, t.lay.perBlock, block, i);
  }

  /** What a mount reads for a segment. */
  ghost function Persisted(t: Sit, segno: nat): RawSit
    requires AreaOk(t) && segno < t.lay.segs
  {
    Get(t.journal, segno, PageEntry(t, segno))
  }

  // ------------------------------------------------------- storing entries

  function PutJournal(t: Sit, segno: nat, raw: RawSit): Sit { t.(journal := Put(t.journal, segno, raw)) }

  /** get_next_sit_page: the other copy becomes current, with the same contents. */
  function Flip(t: Sit, block: nat): Sit
    requires block < |t.bitmap| && SitAddr(t.lay, block, t.bitmap[block]) in t.area
  {
    t.(area := t.area[SitAddr(t.lay, block, !t.bitmap[block]) := t.area[SitAddr(t.lay, block, t.bitmap[block])]],
       bitmap := t.bitmap[block := !t.bitmap[block]])
  }

  ghost function PutPage(t: Sit, segno: nat, raw: RawSit): Sit
    requires AreaOk(t) && segno < t.lay.segs
  {
    BlockInRange(t.lay, segno);
    var a := SitAddr(t.lay, BlockOf(t.lay, segno), t.bitmap[BlockOf(t.lay, segno)]);
    t.(area := t.area[a := t.area[a][segno % t.lay.perBlock := raw]])
  }

  lemma PutJournalStores(t: Sit, segno: nat, raw: RawSit)
    requires SitOk(t) && segno < t.lay.segs && |t.journal| < t.lay.journalMax
    ensures SitOk(PutJournal(t, segno, raw))
    ensures forall n: nat :: n < t.lay.segs ==>
              Persisted(PutJournal(t, segno, raw), n) == if n == segno then raw else Persisted(t, n)
  {
    PutKeys(t.journal, segno, raw);
    forall n: nat | n < t.lay.segs
      ensures Persisted(PutJournal(t, segno, raw), n) == if n == segno then raw else Persisted(t, n)
    {
      PutGet(t.journal, segno, raw, n, PageEntry(t, n));
      assert PageEntry(PutJournal(t, segno, raw), n) == PageEntry(t, n);
    }
  }

  lemma FlipKeepsEntries(t: Sit, block: nat)
    requires SitOk(t) && block < t.lay.blocks
    ensures SitOk(Flip(t, block)) && Flip(t, block).journal == t.journal
    ensures forall n: nat :: n < t.lay.segs ==> Persisted(Flip(t, block), n) == Persisted(t, n)
  {
    forall n: nat | n < t.lay.segs ensures PageEntry(Flip(t, block), n) == PageEntry(t, n) { BlockInRange(t.lay, n); }
  }

  lemma SameEntry(lay: SitLayout, m: nat, n: nat)
    requires lay.Valid() && BlockOf(lay, m) == BlockOf(lay, n) && m % lay.perBlock == n % lay.perBlock
    ensures m == n
  {
    assert m == (m / lay.perBlock) * lay.perBlock + m % lay.perBlock;
    assert n == (n / lay.perBlock) * lay.perBlock + n % lay.perBlock;
  }

  /** Storing in a page is effective when the journal holds no entry that shadows it. */
  lemma PutPageStores(t: Sit, segno: nat, raw: RawSit)
    requires SitOk(t) && segno < t.lay.segs && Find(t.journal, segno) == |t.journal|
    ensures SitOk(PutPage(t, segno, raw))
    ensures forall n: nat :: n < t.lay.segs ==>
              Persisted(PutPage(t, segno, raw), n) == if n == segno then raw else Persisted(t, n)
  {
    BlockInRange(t.lay, segno);
    forall n: nat | n < t.lay.segs
      ensures PageEntry(PutPage(t, segno, raw), n) == if n == segno then raw else PageEntry(t, n)
    {
      BlockInRange(t.lay, n);
      if n != segno && BlockOf(t.lay, n) == BlockOf(t.lay, segno) && n % t.lay.perBlock == segno % t.lay.perBlock {
        SameEntry(t.lay, n, segno);
      }
    }
  }

  // ------------------------------------------------------- the copies a crash would read

  ghost predicate OldCopies(t0: Sit, t: Sit)
    requires AreaOk(t0) && AreaOk(t) && t.lay == t0.lay
  {
    forall block: nat :: block < t0.lay.blocks ==>
      t.area[SitAddr(t0.lay, block, t0.bitmap[block])] == t0.area[SitAddr(t0.lay, block, t0.bitmap[block])]
  }

  lemma FlipKeepsOld(t0: Sit, t: Sit, block: nat)
    requires AreaOk(t0) && AreaOk(t) && t.lay == t0.lay && OldCopies(t0, t)
    requires block < t.lay.blocks && t.bitmap[block] == t0.bitmap[block]
    ensures AreaOk(Flip(t, block)) && OldCopies(t0, Flip(t, block))
  {
  }

  lemma PutPageKeepsOld(t0: Sit, t: Sit, segno: nat, raw: RawSit)
    requires AreaOk(t0) && AreaOk(t) && t.lay == t0.lay && OldCopies(t0, t) && segno < t.lay.segs
    requires BlockOf(t.lay, segno) < t.lay.blocks && t.bitmap[BlockOf(t.lay, segno)] != t0.bitmap[BlockOf(t.lay, segno)]
    ensures AreaOk(PutPage(t, segno, raw)) && OldCopies(t0, PutPage(t, segno, raw))
  {
  }

  // ------------------------------------------------------- dirty bits by page

  /** Set bits from lo up to hi. */
  ghost function Bits(d: seq<bool>, lo: nat, hi: nat): nat
    decreases hi
  {
    if hi <= lo then 0 else Bits(d, lo, hi - 1) + if hi - 1 < |d| && d[hi - 1] then 1 else 0
  }

  lemma {:induction false} BitsUpdate(d: seq<bool>, k: nat, v: bool, lo: nat, hi: nat)
    requires k < |d|
    ensures Bits(d[k := v], lo, hi)
         == Bits(d, lo, hi) + if lo <= k < hi then (if v then 1 else 0) - (if d[k] then 1 else 0) else 0
    decreases hi
  {
    if hi > lo { BitsUpdate(d, k, v, lo, hi - 1); }
  }

  lemma {:induction false} BitsNone(d: seq<bool>, lo: nat, hi: nat)
    requires forall k :: lo <= k < hi && k < |d| ==> !d[k]
    ensures Bits(d, lo, hi) == 0
    decreases hi
  {
    if hi > lo { BitsNone(d, lo, hi - 1); }
  }

  lemma {:induction false} BitsSome(d: seq<bool>, lo: nat, hi: nat, k: nat)
    requires lo <= k < hi && k < |d| && d[k]
    ensures Bits(d, lo, hi) > 0
    decreases hi
  {
    if k < hi - 1 { BitsSome(d, lo, hi - 1, k); }
  }

  /** Set bits of the segments of one SIT page. */
  ghost function InBlock(lay: SitLayout, d: seq<bool>, block: nat): nat {
    Bits(d, block * lay.perBlock, block * lay.perBlock + lay.perBlock)
  }

  lemma BlockRange(lay: SitLayout, segno: nat, block: nat)
    requires lay.Valid()
    ensures BlockOf(lay, segno) == block <==> block * lay.perBlock <= segno < block * lay.perBlock + lay.perBlock
  {
    var q := segno / lay.perBlock;
    assert segno == q * lay.perBlock + segno % lay.perBlock;
    Addressing.MulMono(lay.perBlock, q, block);
    Addressing.MulMono(lay.perBlock, block, q);
  }

  lemma InBlockUpdate(lay: SitLayout, d: seq<bool>, k: nat, v: bool, block: nat)
    requires lay.Valid() && k < |d|
    ensures InBlock(lay, d[k := v], block)
         == InBlock(lay, d, block) + if BlockOf(lay, k) == block then (if v then 1 else 0) - (if d[k] then 1 else 0) else 0
  {
    BlockRange(lay, k, block);
    BitsUpdate(d, k, v, block * lay.perBlock, block * lay.perBlock + lay.perBlock);
  }
}
