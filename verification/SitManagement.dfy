/**
  Flushing the segment entries at a checkpoint, and reading them back at mount
  time: the in-place operations of segment.c on the dirty sets, the journal and
  the SIT pages.
 */
module SitManagement {
  import Addressing
  import opened Bitmap
  import opened FreeSegmap
  import opened SegmentModel
  import opened SegmentProofs
  import opened SegmentRuns
  import opened SegmentManagement
  import opened SitModel
  import opened SummaryJournal

  // ------------------------------------------------------- the list of dirty sets

  /** sit_entry_set: a SIT page and the number of its dirty entries. */
  datatype SitSet = SitSet(block: nat, cnt: nat)

  function CntOf(sets: seq<SitSet>, block: nat): nat {
    if sets == [] then 0 else if sets[0].block == block then sets[0].cnt else CntOf(sets[1..], block)
  }

  ghost function Sum(sets: seq<SitSet>): nat {
    if sets == [] then 0 else sets[0].cnt + Sum(sets[1..])
  }

  /** One set for each page, none empty, small sets first. */
  ghost predicate ListOk(sets: seq<SitSet>) {
    && (forall i, k :: 0 <= i < k < |sets| ==> sets[i].block != sets[k].block && sets[i].cnt <= sets[k].cnt)
    && forall i :: 0 <= i < |sets| ==> sets[i].cnt > 0
  }

  lemma {:induction false} CntIs(sets: seq<SitSet>, i: nat)
    requires i < |sets| && forall j, k :: 0 <= j < k < |sets| ==> sets[j].block != sets[k].block
    ensures CntOf(sets, sets[i].block) == sets[i].cnt
  {
    if i > 0 {
      assert sets[0].block != sets[i].block;
      CntIs(sets[1..], i - 1);
    }
  }

  lemma {:induction false} CntNone(sets: seq<SitSet>, block: nat)
    requires forall i :: 0 <= i < |sets| ==> sets[i].block != block
    ensures CntOf(sets, block) == 0
  {
    if sets != [] { CntNone(sets[1..], block); }
  }

  lemma {:induction false} CntFound(sets: seq<SitSet>, block: nat) returns (i: nat)
    requires CntOf(sets, block) > 0
    ensures i < |sets| && sets[i].block == block
  {
    if sets[0].block == block { i := 0; } else { i := CntFound(sets[1..], block); i := i + 1; }
  }

  lemma {:induction false} SumAppend(a: seq<SitSet>, b: seq<SitSet>)
    ensures Sum(a + b) == Sum(a) + Sum(b)
  {
    if a == [] {
      assert a + b == b;
    } else {
      assert (a + b)[0] == a[0] && (a + b)[1..] == a[1..] + b;
      SumAppend(a[1..], b);
    }
  }

  /** The list after adjust_sit_entry_set moved set i, one entry larger, to just before position k. */
  function Reinserted(sets: seq<SitSet>, i: nat, k: nat): seq<SitSet>
    requires i < k <= |sets|
  {
    sets[..i] + sets[i + 1..k] + [SitSet(sets[i].block, sets[i].cnt + 1)] + sets[k..]
  }

  lemma ReinsertedIndex(sets: seq<SitSet>, i: nat, k: nat)
    requires i < k <= |sets|
    ensures var r := Reinserted(sets, i, k);
            && |r| == |sets|
            && forall j :: 0 <= j < |r| ==>
                 r[j] == if j < i then sets[j] else if j < k - 1 then sets[j + 1]
                         else if j == k - 1 then SitSet(sets[i].block, sets[i].cnt + 1) else sets[j]
  {
  }

  lemma ReinsertedOk(sets: seq<SitSet>, i: nat, k: nat)
    requires ListOk(sets) && i < k <= |sets|
    requires forall j :: i < j < k ==> sets[j].cnt < sets[i].cnt + 1
    requires k < |sets| ==> sets[i].cnt + 1 <= sets[k].cnt
    ensures ListOk(Reinserted(sets, i, k)) && Sum(Reinserted(sets, i, k)) == Sum(sets) + 1
    ensures forall b :: CntOf(Reinserted(sets, i, k), b) == CntOf(sets, b) + if b == sets[i].block then 1 else 0
  {
    ReinsertedIndex(sets, i, k);
    ReinsertedList(sets, i, k);
    ReinsertedSum(sets, i, k);
    forall b ensures CntOf(Reinserted(sets, i, k), b) == CntOf(sets, b) + if b == sets[i].block then 1 else 0 {
      ReinsertedCnt(sets, i, k, b);
    }
  }

  lemma ReinsertedList(sets: seq<SitSet>, i: nat, k: nat)
    requires ListOk(sets) && i < k <= |sets|
    requires forall j :: i < j < k ==> sets[j].cnt < sets[i].cnt + 1
    requires k < |sets| ==> sets[i].cnt + 1 <= sets[k].cnt
    ensures ListOk(Reinserted(sets, i, k))
  {
    ReinsertedIndex(sets, i, k);
  }

  lemma ReinsertedSum(sets: seq<SitSet>, i: nat, k: nat)
    requires i < k <= |sets|
    ensures Sum(Reinserted(sets, i, k)) == Sum(sets) + 1
  {
    SumMove(sets[..i], [sets[i]], sets[i + 1..k], [SitSet(sets[i].block, sets[i].cnt + 1)], sets[k..]);
    SumOne(sets[i]);
    SumOne(SitSet(sets[i].block, sets[i].cnt + 1));
    Parts(sets, i, k);
  }

  lemma SumOne(x: SitSet)
    ensures Sum([x]) == x.cnt
  {
    assert [x][1..] == [];
  }

  lemma Parts(sets: seq<SitSet>, i: nat, k: nat)
    requires i < k <= |sets|
    ensures sets[..i] + [sets[i]] + sets[i + 1..k] + sets[k..] == sets
  {
  }

  lemma SumMove(head: seq<SitSet>, one: seq<SitSet>, mid: seq<SitSet>, more: seq<SitSet>, tail: seq<SitSet>)
    ensures Sum(head + mid + more + tail) - Sum(more) == Sum(head + one + mid + tail) - Sum(one)
  {
    SumAppend(head, one);
    SumAppend(head + one, mid);
    SumAppend(head + one + mid, tail);
    SumAppend(head, mid);
    SumAppend(head + mid, more);
    SumAppend(head + mid + more, tail);
  }

  lemma ReinsertedCnt(sets: seq<SitSet>, i: nat, k: nat, b: nat)
    requires ListOk(sets) && i < k <= |sets| && ListOk(Reinserted(sets, i, k))
    ensures CntOf(Reinserted(sets, i, k), b) == CntOf(sets, b) + if b == sets[i].block then 1 else 0
  {
    var r := Reinserted(sets, i, k);
    ReinsertedIndex(sets, i, k);
    CntIs(sets, i);
    if CntOf(sets, b) > 0 {
      var j := CntFound(sets, b);
      CntIs(sets, j);
      CntIs(r, if j < i then j else if j == i then k - 1 else if j < k then j - 1 else j);
    } else if CntOf(r, b) > 0 {
      var j := CntFound(r, b);
      CntIs(sets, if j < i then j else if j < k - 1 then j + 1 else if j == k - 1 then i else j);
      assert false;
    }
  }

  /** The sets count the dirty bits of their pages. */
  ghost predicate SetsCount(lay: SitLayout, sets: seq<SitSet>, d: seq<bool>) {
    ListOk(sets) && forall b :: CntOf(sets, b) == InBlock(lay, d, b)
  }

  lemma SetsCountAdd(lay: SitLayout, sets: seq<SitSet>, sets': seq<SitSet>, d: seq<bool>, k: nat)
    requires lay.Valid() && SetsCount(lay, sets, d) && k < |d| && !d[k] && ListOk(sets')
    requires forall b :: CntOf(sets', b) == CntOf(sets, b) + if b == BlockOf(lay, k) then 1 else 0
    ensures SetsCount(lay, sets', d[k := true]) && Count(d[k := true]) == Count(d) + 1
  {
    CountUpdate(d, k, true);
    forall b: nat ensures CntOf(sets', b) == InBlock(lay, d[k := true], b) { InBlockUpdate(lay, d, k, true, b); }
  }

  lemma SetsCountEmpty(lay: SitLayout, d: seq<bool>)
    requires forall i :: 0 <= i < |d| ==> !d[i]
    ensures SetsCount(lay, [], d) && Count(d) == 0
  {
    CountExtremes(d);
    forall b: nat ensures InBlock(lay, d, b) == 0 { BitsNone(d, b * lay.perBlock, b * lay.perBlock + lay.perBlock); }
  }

  // ------------------------------------------------------- how far a flush has come

  /** Entries that are no longer dirty are stored, and their checkpoint maps have caught up. */
  ghost predicate FlushState(e0: seq<SegEntry>, entries: seq<SegEntry>, d: seq<bool>, t: Sit) {
    && SitOk(t) && |e0| == |entries| == |d| == t.lay.segs
    && forall segno: nat :: segno < |d| ==>
         if d[segno] then entries[segno] == e0[segno]
         else entries[segno] == Checkpointed(e0[segno]) && Persisted(t, segno) == ToRaw(e0[segno])
  }

  lemma FlushOne(e0: seq<SegEntry>, entries: seq<SegEntry>, d: seq<bool>, t: Sit, t': Sit, segno: nat)
    requires FlushState(e0, entries, d, t) && segno < |d| && d[segno] && t'.lay == t.lay && SitOk(t')
    requires forall n: nat :: n < t.lay.segs ==> Persisted(t', n) == if n == segno then ToRaw(e0[segno]) else Persisted(t, n)
    ensures FlushState(e0, entries[segno := Checkpointed(entries[segno])], d[segno := false], t')
  {
  }

  /** The dirty bits of one page from segno on are still to be flushed; the rest of the page is done. */
  ghost predicate BlockState(lay: SitLayout, d0: seq<bool>, d: seq<bool>, block: nat, segno: nat) {
    && lay.Valid() && |d| == |d0|
    && block * lay.perBlock <= segno <= block * lay.perBlock + lay.perBlock
    && forall k :: 0 <= k < |d| ==> d[k] == (d0[k] && !(block * lay.perBlock <= k < segno))
  }

  lemma BlockStep(lay: SitLayout, d0: seq<bool>, d: seq<bool>, block: nat, segno: nat)
    requires BlockState(lay, d0, d, block, segno) && segno < block * lay.perBlock + lay.perBlock
    ensures segno < |d| && d[segno] ==>
              && BlockState(lay, d0, d[segno := false], block, segno + 1) && Count(d[segno := false]) == Count(d) - 1
              && InBlock(lay, d[segno := false], block) == InBlock(lay, d, block) - 1
              && BlockOf(lay, segno) == block
    ensures segno >= |d| || !d[segno] ==> BlockState(lay, d0, d, block, segno + 1)
  {
    BlockRange(lay, segno, block);
    if segno < |d| && d[segno] {
      CountUpdate(d, segno, false);
      InBlockUpdate(lay, d, segno, false, block);
    }
  }

  lemma BlockDone(lay: SitLayout, sets: seq<SitSet>, d0: seq<bool>, d: seq<bool>, segno: nat)
    requires sets != [] && SetsCount(lay, sets, d0) && BlockState(lay, d0, d, sets[0].block, segno)
    requires segno == sets[0].block * lay.perBlock + lay.perBlock || segno >= |d|
    ensures InBlock(lay, d, sets[0].block) == 0 && SetsCount(lay, sets[1..], d)
    ensures Sum(sets[1..]) == Sum(sets) - sets[0].cnt
  {
    var block := sets[0].block;
    BitsNone(d, block * lay.perBlock, block * lay.perBlock + lay.perBlock);
    CntNone(sets[1..], block);
    forall b: nat ensures CntOf(sets[1..], b) == InBlock(lay, d, b) {
      if b != block { OtherBits(lay, d0, d, b, block, segno); }
    }
  }

  lemma OtherBits(lay: SitLayout, d0: seq<bool>, d: seq<bool>, b: nat, block: nat, segno: nat)
    requires BlockState(lay, d0, d, block, segno) && b != block
    ensures InBlock(lay, d, b) == InBlock(lay, d0, b)
  {
    forall k: nat | k < |d| && b * lay.perBlock <= k < b * lay.perBlock + lay.perBlock ensures d[k] == d0[k] {
      BlockRange(lay, k, b);
      BlockRange(lay, k, block);
    }
    BitsSame(d0, d, b * lay.perBlock, b * lay.perBlock + lay.perBlock);
  }

  lemma {:induction false} BitsSame(d0: seq<bool>, d: seq<bool>, lo: nat, hi: nat)
    requires |d| == |d0| && forall k :: lo <= k < hi && k < |d| ==> d[k] == d0[k]
    ensures Bits(d, lo, hi) == Bits(d0, lo, hi)
    decreases hi
  {
    if hi > lo { BitsSame(d0, d, lo, hi - 1); }
  }

  /** What flushing entries of one page may do to the table: journal entries of that page, or writes to its page. */
  ghost predicate TableState(toJournal: bool, block: nat, a: Sit, t: Sit, left: nat) {
    && a.lay.Valid() && t.lay == a.lay && t.bitmap == a.bitmap
    && (if toJournal then |t.journal| + left <= a.lay.journalMax && t.area == a.area else t.journal == a.journal)
    && forall i :: 0 <= i < |t.journal| ==>
         BlockOf(a.lay, t.journal[i].key) == block || exists k :: 0 <= k < |a.journal| && a.journal[k].key == t.journal[i].key
  }

  ghost predicate NotJournaled(t: Sit, block: nat)
    requires t.lay.Valid()
  {
    forall i :: 0 <= i < |t.journal| ==> BlockOf(t.lay, t.journal[i].key) != block
  }

  lemma NotFound(t: Sit, segno: nat, block: nat)
    requires t.lay.Valid() && NotJournaled(t, block) && BlockOf(t.lay, segno) == block
    ensures Find(t.journal, segno) == |t.journal|
  {
  }

  lemma TableJournal(block: nat, a: Sit, t: Sit, left: nat, segno: nat, raw: RawSit)
    requires TableState(true, block, a, t, left) && left > 0 && SitOk(t) && BlockOf(a.lay, segno) == block
    ensures TableState(true, block, a, PutJournal(t, segno, raw), left - 1)
  {
    PutKeys(t.journal, segno, raw);
  }

  /** Where flush_sit_entries stands: all fits in the journal, or the journal holds only what was flushed. */
  ghost predicate Plan(spilled: bool, toJournal: bool, t0: Sit, sets: seq<SitSet>, t: Sit, d: seq<bool>) {
    && t.lay.Valid() && t.lay == t0.lay && |t.bitmap| == |t0.bitmap| == t.lay.blocks
    && SetsCount(t.lay, sets, d)
    && (forall i :: 0 <= i < |sets| ==> sets[i].block < t.lay.blocks && t.bitmap[sets[i].block] == t0.bitmap[sets[i].block])
    && (if spilled then forall i :: 0 <= i < |t.journal| ==> InBlock(t.lay, d, BlockOf(t.lay, t.journal[i].key)) == 0
        else toJournal && |t.journal| + Sum(sets) <= t.lay.journalMax)
  }

  lemma PlanAllows(spilled: bool, toJournal: bool, t0: Sit, sets: seq<SitSet>, t: Sit, d: seq<bool>)
    requires Plan(spilled, toJournal, t0, sets, t, d) && sets != []
    ensures InBlock(t.lay, d, sets[0].block) == sets[0].cnt > 0
    ensures spilled ==> NotJournaled(t, sets[0].block)
    ensures !spilled ==> sets[0].cnt <= t.lay.journalMax - |t.journal|
  {
    CntIs(sets, 0);
  }

  lemma PlanGoesOn(spilled: bool, toJournal: bool, t0: Sit, sets: seq<SitSet>, a: Sit, a': Sit, t: Sit, d0: seq<bool>, d: seq<bool>,
                   segno: nat, journaled: bool)
    requires Plan(spilled, toJournal, t0, sets, a, d0) && sets != [] && BlockState(a.lay, d0, d, sets[0].block, segno)
    requires segno == sets[0].block * a.lay.perBlock + a.lay.perBlock || segno >= |d|
    requires a' == (if journaled then a else a.(area := a'.area, bitmap := a.bitmap[sets[0].block := !a.bitmap[sets[0].block]]))
    requires TableState(journaled, sets[0].block, a', t, 0) && (!spilled ==> journaled && |t.journal| <= |a.journal| + sets[0].cnt)
    requires journaled ==> toJournal
    ensures Plan(spilled, journaled, t0, sets[1..], t, d)
  {
    BlockDone(a.lay, sets, d0, d, segno);
    if spilled {
      forall i | 0 <= i < |t.journal| ensures InBlock(t.lay, d, BlockOf(t.lay, t.journal[i].key)) == 0 {
        var b := BlockOf(t.lay, t.journal[i].key);
        if b != sets[0].block {
          var k :| 0 <= k < |a.journal| && a.journal[k].key == t.journal[i].key;
          OtherBits(a.lay, d0, d, b, sets[0].block, segno);
        }
      }
    }
  }

  /** The manager after flush_sit_entries: a checkpoint but for clearing the prefree list. */
  ghost predicate SitFlushed(s: Sm, s': Sm)
    requires Inv(s)
  {
    && s'.entries == Checkpoint(s).entries && s'.sitDirty == Checkpoint(s).sitDirty && s'.dirtySentries == 0
    && s'.free == Checkpoint(s).free
    && s' == s.(entries := s'.entries, sitDirty := s'.sitDirty, dirtySentries := s'.dirtySentries, free := s'.free)
  }

  /** Every segment is stored as its entry stands. */
  ghost predicate AllStored(t: Sit, entries: seq<SegEntry>)
    requires SitOk(t)
  {
    |entries| == t.lay.segs && forall segno: nat :: segno < t.lay.segs ==> Persisted(t, segno) == ToRaw(entries[segno])
  }

  lemma FlushBegins(s: Sm, t: Sit, d: seq<bool>)
    requires Inv(s) && SitOk(t) && |s.entries| == |d| == t.lay.segs
    requires forall i :: 0 <= i < |d| && s.sitDirty[i] ==> d[i]
    requires forall segno: nat :: segno < t.lay.segs && !d[segno] ==> Persisted(t, segno) == ToRaw(s.entries[segno])
    ensures FlushState(s.entries, s.entries, d, t)
  {
    forall segno: nat | segno < |d| && !d[segno] ensures Checkpointed(s.entries[segno]) == s.entries[segno] {
      assert SegOk(s, segno);
      CleanEntry(s, segno);
    }
  }

  lemma CheckpointEntries(s: Sm)
    requires Inv(s)
    ensures |Checkpoint(s).entries| == |s.entries| && Checkpoint(s).sitDirty == Clear(|s.sitDirty|)
    ensures forall segno: nat :: segno < |s.entries| ==> Checkpoint(s).entries[segno] == Checkpointed(s.entries[segno])
  {
    CheckpointCheckpoints(s);
  }

  lemma FlushEnds(s: Sm, es: seq<SegEntry>, d: seq<bool>, t: Sit)
    requires Inv(s) && FlushState(s.entries, es, d, t) && Count(d) == 0
    ensures es == Checkpoint(s).entries && d == Checkpoint(s).sitDirty && AllStored(t, es)
  {
    CheckpointEntries(s);
    FlushedEntries(s.entries, es, d, t, Checkpoint(s).entries, Clear(|s.sitDirty|));
  }

  lemma FlushedEntries(e0: seq<SegEntry>, es: seq<SegEntry>, d: seq<bool>, t: Sit, cs: seq<SegEntry>, none: seq<bool>)
    requires FlushState(e0, es, d, t) && Count(d) == 0 && |cs| == |e0| && |none| == |d|
    requires forall segno: nat :: segno < |e0| ==> cs[segno] == Checkpointed(e0[segno])
    requires forall i :: 0 <= i < |none| ==> !none[i]
    ensures es == cs && d == none && AllStored(t, es)
  {
    CountExtremes(d);
  }

  lemma CountsFit(s: Sm)
    requires Inv(s) && s.geo.blocksPerSeg < SIT_VBLOCKS
    ensures forall k :: 0 <= k < |s.entries| ==> CountFits(s.entries[k])
  {
    forall k | 0 <= k < |s.entries| ensures CountFits(s.entries[k]) { assert EntryOk(s.geo, s.entries[k]); }
  }

  lemma PlanBegins(spilled: bool, t: Sit, sets: seq<SitSet>, d: seq<bool>)
    requires SitOk(t) && |d| == t.lay.segs && SetsCount(t.lay, sets, d)
    requires if spilled then t.journal == [] else |t.journal| + Sum(sets) <= t.lay.journalMax
    ensures Plan(spilled, true, t, sets, t, d)
  {
    forall i | 0 <= i < |sets| ensures sets[i].block < t.lay.blocks {
      CntIs(sets, i);
      SomeBit(t.lay, d, sets[i].block);
    }
  }

  lemma SomeBit(lay: SitLayout, d: seq<bool>, block: nat)
    requires lay.Valid() && |d| == lay.segs && InBlock(lay, d, block) > 0
    ensures block < lay.blocks
  {
    if block >= lay.blocks {
      Addressing.MulMono(lay.perBlock, lay.blocks, block);
      assert lay.blocks * lay.perBlock == lay.perBlock * lay.blocks;
      BitsNone(d, block * lay.perBlock, block * lay.perBlock + lay.perBlock);
    }
  }

  class SitInfo {
    const sm: SegmentManager
    const lay: SitLayout
    var sets: seq<SitSet>
    var journal: seq<JEntry<RawSit>>
    var area: map<nat, seq<RawSit>>
    var sitBitmap: seq<bool>

    ghost function Abs(): Sit
      reads this
    {
      Sit(lay, journal, area, sitBitmap)
    }

    /** Entries that are not dirty are stored as they are. */
    ghost predicate StoredOk()
      requires SitOk(Abs())
      reads this, sm
    {
      && |sm.entries| == |sm.sitDirty| == lay.segs
      && forall segno: nat :: segno < lay.segs && !sm.sitDirty[segno] ==> Persisted(Abs(), segno) == ToRaw(sm.entries[segno])
    }

    constructor (m: SegmentManager, l: SitLayout, j: seq<JEntry<RawSit>>, a: map<nat, seq<RawSit>>, bits: seq<bool>)
      ensures sm == m && lay == l && sets == [] && Abs() == Sit(l, j, a, bits)
    {
      sm, lay, sets, journal, area, sitBitmap := m, l, [], j, a, bits;
    }

    /** add_sit_entry, which keeps the list sorted by size. */
    method AddSitEntry(segno: nat)
      requires lay.Valid() && ListOk(sets)
      modifies this`sets
      ensures ListOk(sets) && Sum(sets) == Sum(old(sets)) + 1
      ensures forall b :: CntOf(sets, b) == CntOf(old(sets), b) + if b == BlockOf(lay, segno) then 1 else 0
    {
      var block := segno / lay.perBlock;
      for i: nat := 0 to |sets|
        invariant forall j :: 0 <= j < i ==> sets[j].block != block
        invariant sets == old(sets)
      {
        if sets[i].block == block {
          var k := AdjustSitEntrySet(i);
          ReinsertedOk(sets, i, k);
          sets := Reinserted(sets, i, k);
          return;
        }
      }
      CntNone(sets, block);
      sets := [SitSet(block, 1)] + sets;
      assert sets[1..] == old(sets);
    }

    /** adjust_sit_entry_set: where the set belongs once its count has grown. */
    method AdjustSitEntrySet(i: nat) returns (k: nat)
      requires ListOk(sets) && i < |sets|
      ensures i < k <= |sets| && forall j :: i < j < k ==> sets[j].cnt < sets[i].cnt + 1
      ensures k < |sets| ==> sets[i].cnt + 1 <= sets[k].cnt
    {
      k := i + 1;
      while k < |sets|
        invariant i < k <= |sets| && forall j :: i < j < k ==> sets[j].cnt < sets[i].cnt + 1
      {
        if sets[i].cnt + 1 <= sets[k].cnt { return; }
        k := k + 1;
      }
    }

    /** add_sits_in_set. */
    method AddSitsInSet()
      requires lay.Valid() && sets == []
      modifies this`sets
      ensures SetsCount(lay, sets, sm.sitDirty) && Sum(sets) == Count(sm.sitDirty)
    {
      ghost var d, seen := sm.sitDirty, Clear(|sm.sitDirty|);
      SetsCountEmpty(lay, seen);
      for segno: nat := 0 to |sm.sitDirty|
        invariant SetsCount(lay, sets, seen) && Sum(sets) == Count(seen) && |seen| == |d|
        invariant forall i :: 0 <= i < |d| ==> seen[i] == (i < segno && d[i])
      {
        if sm.sitDirty[segno] {
          ghost var before := sets;
          AddSitEntry(segno);
          SetsCountAdd(lay, before, sets, seen, segno);
          seen := seen[segno := true];
        }
      }
      assert seen == d;
    }

    /** remove_sits_in_journal: the entries of the journal become dirty, and the journal empty. */
    method RemoveSitsInJournal()
      requires SitOk(Abs()) && StoredOk()
      requires SetsCount(lay, sets, sm.sitDirty) && Sum(sets) == Count(sm.sitDirty) == sm.dirtySentries
      modifies this`sets, this`journal, sm`sitDirty, sm`dirtySentries
      ensures SitOk(Abs()) && StoredOk() && journal == []
      ensures SetsCount(lay, sets, sm.sitDirty) && Sum(sets) == Count(sm.sitDirty) == sm.dirtySentries
      ensures |old(sm.sitDirty)| == lay.segs && forall i :: 0 <= i < lay.segs && old(sm.sitDirty)[i] ==> sm.sitDirty[i]
    {
      ghost var j, d, t, es := journal, sm.sitDirty, Abs(), sm.entries;
      for i := |journal| downto 0
        invariant |sm.sitDirty| == lay.segs && sm.entries == es && journal == j
        invariant SetsCount(lay, sets, sm.sitDirty) && Sum(sets) == Count(sm.sitDirty) == sm.dirtySentries
        invariant forall k :: 0 <= k < lay.segs && d[k] ==> sm.sitDirty[k]
        invariant forall k :: i <= k < |j| ==> sm.sitDirty[j[k].key]
      {
        hide SetsCount, Sum;
        ghost var before := sm.sitDirty;
        MarkAndAdd(journal[i].key);
        forall k | i <= k < |j| ensures sm.sitDirty[j[k].key] { assert k == i || before[j[k].key]; }
      }
      journal := [];
      JournalDropped(t, sm.sitDirty);
    }

    /** One round of remove_sits_in_journal. */
    method MarkAndAdd(segno: nat)
      requires lay.Valid() && segno < |sm.sitDirty|
      requires SetsCount(lay, sets, sm.sitDirty) && Sum(sets) == Count(sm.sitDirty) == sm.dirtySentries
      modifies this`sets, sm`sitDirty, sm`dirtySentries
      ensures segno < |old(sm.sitDirty)| && sm.sitDirty == old(sm.sitDirty)[segno := true]
      ensures SetsCount(lay, sets, sm.sitDirty) && Sum(sets) == Count(sm.sitDirty) == sm.dirtySentries
    {
      ghost var before, d := sets, sm.sitDirty;
      if !sm.sitDirty[segno] {
        sm.MarkSitEntryDirty(segno);
        AddSitEntry(segno);
        SetsCountAdd(lay, before, sets, d, segno);
      } else {
        assert d[segno := true] == d;
      }
    }

    /** One dirty entry is stored, in the journal or in the current page, and its checkpoint map catches up. */
    method FlushEntry(segno: nat, toJournal: bool, ghost e0: seq<SegEntry>, ghost t0: Sit, ghost a: Sit, ghost left: nat)
      requires FlushState(e0, sm.entries, sm.sitDirty, Abs()) && segno < |sm.sitDirty| && sm.sitDirty[segno]
      requires AreaOk(t0) && t0.lay == lay && OldCopies(t0, Abs()) && CountFits(e0[segno])
      requires left > 0 && TableState(toJournal, BlockOf(lay, segno), a, Abs(), left)
      requires !toJournal ==> NotJournaled(Abs(), BlockOf(lay, segno))
      requires !toJournal ==> BlockOf(lay, segno) < |t0.bitmap| && BlockOf(lay, segno) < |sitBitmap|
                              && sitBitmap[BlockOf(lay, segno)] != t0.bitmap[BlockOf(lay, segno)]
      modifies this`journal, this`area, sm`entries, sm`sitDirty, sm`dirtySentries
      ensures FlushState(e0, sm.entries, sm.sitDirty, Abs()) && OldCopies(t0, Abs())
      ensures TableState(toJournal, BlockOf(lay, segno), a, Abs(), left - 1) && |journal| <= |old(journal)| + 1
      ensures segno < |old(sm.sitDirty)| && sm.sitDirty == old(sm.sitDirty)[segno := false]
      ensures sm.dirtySentries == old(sm.dirtySentries) - 1
    {
      ghost var t, es, d := Abs(), sm.entries, sm.sitDirty;
      var raw := ToRaw(sm.entries[segno]);
      if toJournal {
        PutJournalStores(t, segno, raw);
        TableJournal(BlockOf(lay, segno), a, t, left, segno, raw);
        var offset := Find(journal, segno);
        if offset == |journal| { journal := journal + [JEntry(segno, raw)]; }
        journal := journal[offset := JEntry(segno, raw)];
        assert Abs() == PutJournal(t, segno, raw);
      } else {
        NotFound(t, segno, BlockOf(lay, segno));
        PutPageStores(t, segno, raw);
        PutPageKeepsOld(t0, t, segno, raw);
        BlockInRange(lay, segno);
        var addr := SitAddr(lay, segno / lay.perBlock, sitBitmap[segno / lay.perBlock]);
        area := area[addr := area[addr][segno % lay.perBlock := raw]];
        assert Abs() == PutPage(t, segno, raw);
      }
      FlushOne(e0, es, d, t, Abs(), segno);
      sm.entries := sm.entries[segno := Checkpointed(sm.entries[segno])];
      sm.sitDirty := sm.sitDirty[segno := false];
      sm.dirtySentries := sm.dirtySentries - 1;
    }

    /** get_next_sit_page. */
    method FlipPage(block: nat)
      requires SitOk(Abs()) && block < lay.blocks
      modifies this`area, this`sitBitmap
      ensures old(SitOk(Abs())) && Abs() == Flip(old(Abs()), block)
    {
      ghost var t := Abs();
      var src := SitAddr(lay, block, sitBitmap[block]);
      NextIsOtherSit(lay, block, sitBitmap[block]);
      var dst: nat := NextSitAddr(lay, src);
      area := area[dst := area[src]];
      sitBitmap := sitBitmap[block := !sitBitmap[block]];
      assert Abs() == Flip(t, block);
    }

    /** One dirty entry of a page in flush_sit_entries. */
    method FlushBit(s: nat, block: nat, toJournal: bool, ghost e0: seq<SegEntry>, ghost t0: Sit, ghost a: Sit, ghost left: nat)
      requires FlushState(e0, sm.entries, sm.sitDirty, Abs()) && AreaOk(t0) && t0.lay == lay && OldCopies(t0, Abs())
      requires forall k :: 0 <= k < |e0| ==> CountFits(e0[k])
      requires s < |sm.sitDirty| && sm.sitDirty[s] && BlockOf(lay, s) == block < lay.blocks
      requires left > 0 && TableState(toJournal, block, a, Abs(), left)
      requires !toJournal ==> NotJournaled(Abs(), block) && sitBitmap[block] != t0.bitmap[block]
      modifies this`journal, this`area, sm`entries, sm`sitDirty, sm`dirtySentries
      ensures FlushState(e0, sm.entries, sm.sitDirty, Abs()) && OldCopies(t0, Abs())
      ensures TableState(toJournal, block, a, Abs(), left - 1) && |journal| <= |old(journal)| + 1
      ensures s < |old(sm.sitDirty)| && sm.sitDirty == old(sm.sitDirty)[s := false]
      ensures sm.dirtySentries - Count(sm.sitDirty) == old(sm.dirtySentries - Count(sm.sitDirty))
    {
      CountUpdate(sm.sitDirty, s, false);
      FlushEntry(s, toJournal, e0, t0, a, left);
    }

    /** The loop of flush_sit_entries over the dirty entries of one page. */
    method FlushBits(block: nat, toJournal: bool, ghost e0: seq<SegEntry>, ghost t0: Sit, ghost cnt: nat) returns (ghost segno: nat)
      requires FlushState(e0, sm.entries, sm.sitDirty, Abs()) && AreaOk(t0) && t0.lay == lay && OldCopies(t0, Abs())
      requires forall k :: 0 <= k < |e0| ==> CountFits(e0[k])
      requires block < lay.blocks && cnt == InBlock(lay, sm.sitDirty, block)
      requires if toJournal then |journal| + cnt <= lay.journalMax
               else NotJournaled(Abs(), block) && sitBitmap[block] != t0.bitmap[block]
      modifies this`journal, this`area, sm`entries, sm`sitDirty, sm`dirtySentries
      ensures FlushState(e0, sm.entries, sm.sitDirty, Abs()) && OldCopies(t0, Abs())
      ensures TableState(toJournal, block, old(Abs()), Abs(), 0) && |journal| <= |old(journal)| + cnt
      ensures BlockState(lay, old(sm.sitDirty), sm.sitDirty, block, segno)
      ensures segno == block * lay.perBlock + lay.perBlock || segno >= |sm.sitDirty|
      ensures sm.dirtySentries - Count(sm.sitDirty) == old(sm.dirtySentries - Count(sm.sitDirty))
    {
      ghost var a, d0, n0, bal := Abs(), sm.sitDirty, |journal|, sm.dirtySentries - Count(sm.sitDirty);
      var start := block * lay.perBlock;
      var end := if start + lay.perBlock < |sm.sitDirty| then start + lay.perBlock else |sm.sitDirty|;
      var s: nat := start;
      ghost var left := cnt;
      while s < end
        invariant start <= s && (s <= end || s == start)
        invariant FlushState(e0, sm.entries, sm.sitDirty, Abs()) && OldCopies(t0, Abs())
        invariant BlockState(lay, d0, sm.sitDirty, block, s) && left == InBlock(lay, sm.sitDirty, block) <= cnt
        invariant TableState(toJournal, block, a, Abs(), left) && |journal| <= n0 + (cnt - left)
        invariant sm.dirtySentries - Count(sm.sitDirty) == bal
      {
        BlockStep(lay, d0, sm.sitDirty, block, s);
        if sm.sitDirty[s] {
          BitsSome(sm.sitDirty, start, start + lay.perBlock, s);
          FlushBit(s, block, toJournal, e0, t0, a, left);
          left := left - 1;
        }
        s := s + 1;
      }
      segno := s;
      BlockRange(lay, s, block);
      BitsLeft(lay, d0, sm.sitDirty, block, s);
    }

    /** One round of the loop of flush_sit_entries over the dirty sets. */
    method FlushSet(spilled: bool, toJournal: bool, ghost e0: seq<SegEntry>, ghost t0: Sit) returns (journaled: bool)
      requires FlushState(e0, sm.entries, sm.sitDirty, Abs()) && AreaOk(t0) && t0.lay == lay && OldCopies(t0, Abs())
      requires forall k :: 0 <= k < |e0| ==> CountFits(e0[k])
      requires sets != [] && Plan(spilled, toJournal, t0, sets, Abs(), sm.sitDirty)
      requires sm.dirtySentries == Count(sm.sitDirty)
      modifies this, sm`entries, sm`sitDirty, sm`dirtySentries
      ensures FlushState(e0, sm.entries, sm.sitDirty, Abs()) && OldCopies(t0, Abs())
      ensures Plan(spilled, journaled, t0, sets, Abs(), sm.sitDirty)
      ensures sm.dirtySentries == Count(sm.sitDirty) && |sets| < |old(sets)|
      ensures journaled <==> toJournal && old(sets[0].cnt) <= lay.journalMax - |old(journal)|
      ensures !spilled ==> journaled
      ensures if journaled then area == old(area) && sitBitmap == old(sitBitmap) else journal == old(journal)
    {
      ghost var a, d0, sets0 := Abs(), sm.sitDirty, sets;
      var ses := sets[0];
      PlanAllows(spilled, toJournal, t0, sets, a, d0);
      journaled := toJournal && ses.cnt <= lay.journalMax - |journal|;
      if !journaled {
        FlipKeepsEntries(a, ses.block);
        FlipKeepsOld(t0, a, ses.block);
        FlipPage(ses.block);
      }
      ghost var a' := Abs();
      ghost var segno := FlushBits(ses.block, journaled, e0, t0, ses.cnt);
      sets := sets[1..];
      PlanGoesOn(spilled, toJournal, t0, sets0, a, a', Abs(), d0, sm.sitDirty, segno, journaled);
    }

    /** flush_sit_entries up to its loop; spilled says that the journal had no room for all dirty entries. */
    method CollectSets() returns (spilled: bool)
      requires SitOk(Abs()) && StoredOk() && sets == [] && sm.dirtySentries == Count(sm.sitDirty)
      modifies this`sets, this`journal, sm`sitDirty, sm`dirtySentries
      ensures SitOk(Abs()) && StoredOk() && sm.dirtySentries == Count(sm.sitDirty)
      ensures Plan(spilled, true, Abs(), sets, Abs(), sm.sitDirty)
      ensures |old(sm.sitDirty)| == lay.segs && forall i :: 0 <= i < lay.segs && old(sm.sitDirty)[i] ==> sm.sitDirty[i]
      ensures spilled <==> old(sm.dirtySentries) > lay.journalMax - |old(journal)|
    {
      AddSitsInSet();
      spilled := sm.dirtySentries > lay.journalMax - |journal|;
      if spilled { RemoveSitsInJournal(); }
      PlanBegins(spilled, Abs(), sets, sm.sitDirty);
    }

    /** The loop of flush_sit_entries. */
    method FlushSets(spilled: bool, ghost e0: seq<SegEntry>)
      requires FlushState(e0, sm.entries, sm.sitDirty, Abs()) && sm.dirtySentries == Count(sm.sitDirty)
      requires Plan(spilled, true, Abs(), sets, Abs(), sm.sitDirty) && forall k :: 0 <= k < |e0| ==> CountFits(e0[k])
      modifies this, sm`entries, sm`sitDirty, sm`dirtySentries
      ensures old(AreaOk(Abs())) && FlushState(e0, sm.entries, sm.sitDirty, Abs()) && OldCopies(old(Abs()), Abs())
      ensures Count(sm.sitDirty) == 0 == sm.dirtySentries && sets == []
      ensures !spilled ==> area == old(area) && sitBitmap == old(sitBitmap)
    {
      ghost var t0 := Abs();
      var toJournal := true;
      while sets != []
        invariant FlushState(e0, sm.entries, sm.sitDirty, Abs()) && OldCopies(t0, Abs())
        invariant Plan(spilled, toJournal, t0, sets, Abs(), sm.sitDirty) && sm.dirtySentries == Count(sm.sitDirty)
        invariant !spilled ==> area == t0.area && sitBitmap == t0.bitmap
        decreases |sets|
      {
        toJournal := FlushSet(spilled, toJournal, e0, t0);
      }
      AllClean(lay, sm.sitDirty);
    }

    /** The part of flush_sit_entries that concerns the entries. */
    method FlushEntries(ghost s: Sm)
      requires s == sm.Abs() && Inv(s) && s.geo.blocksPerSeg < SIT_VBLOCKS
      requires SitOk(Abs()) && StoredOk() && sets == []
      modifies this, sm`entries, sm`sitDirty, sm`dirtySentries
      ensures sm.entries == Checkpoint(s).entries && sm.sitDirty == Checkpoint(s).sitDirty && sm.dirtySentries == 0
      ensures SitOk(Abs()) && AllStored(Abs(), sm.entries) && sets == []
      ensures old(SitOk(Abs())) && OldCopies(old(Abs()), Abs())
      ensures old(sm.dirtySentries) <= lay.journalMax - |old(journal)| ==> area == old(area) && sitBitmap == old(sitBitmap)
    {
      CountsFit(s);
      var spilled := CollectSets();
      FlushBegins(s, Abs(), sm.sitDirty);
      FlushSets(spilled, s.entries);
      FlushEnds(s, sm.entries, sm.sitDirty, Abs());
    }

    /**
      flush_sit_entries: every dirty entry is stored, none but the copies that are
      not current is written, and prefree segments become free.
     */
    method FlushSitEntries()
      requires sm.Valid() && Inv(sm.Abs()) && sm.free.geo.blocksPerSeg < SIT_VBLOCKS
      requires SitOk(Abs()) && StoredOk() && sets == []
      modifies this, sm, sm.free
      ensures old(Inv(sm.Abs())) && SitFlushed(old(sm.Abs()), sm.Abs()) && sm.Valid()
      ensures SitOk(Abs()) && AllStored(Abs(), sm.entries) && sets == []
      ensures old(SitOk(Abs())) && OldCopies(old(Abs()), Abs())
      ensures old(sm.dirtySentries) <= lay.journalMax - |old(journal)| ==> area == old(area) && sitBitmap == old(sitBitmap)
    {
      ghost var s := sm.Abs();
      FlushEntries(s);
      FlushedSizes(s, sm.Abs());
      sm.SetPrefreeAsFree();
    }
  }

  /** Without its journal the table stores what it did, except for the segments of the journal. */
  lemma JournalDropped(t: Sit, d: seq<bool>)
    requires SitOk(t) && |d| == t.lay.segs && forall k :: 0 <= k < |t.journal| ==> d[t.journal[k].key]
    ensures SitOk(t.(journal := []))
    ensures forall segno: nat :: segno < t.lay.segs && !d[segno] ==> Persisted(t.(journal := []), segno) == Persisted(t, segno)
  {
    forall segno: nat | segno < t.lay.segs && !d[segno]
      ensures Persisted(t.(journal := []), segno) == Persisted(t, segno)
    {
      assert PageEntry(t.(journal := []), segno) == PageEntry(t, segno);
    }
  }

  lemma BitsLeft(lay: SitLayout, d0: seq<bool>, d: seq<bool>, block: nat, segno: nat)
    requires BlockState(lay, d0, d, block, segno)
    requires segno == block * lay.perBlock + lay.perBlock || segno >= |d|
    ensures InBlock(lay, d, block) == 0
  {
    BitsNone(d, block * lay.perBlock, block * lay.perBlock + lay.perBlock);
  }

  lemma AllClean(lay: SitLayout, d: seq<bool>)
    requires lay.Valid() && |d| == lay.segs && SetsCount(lay, [], d)
    ensures Count(d) == 0
  {
    forall k: nat | k < |d| ensures !d[k] {
      var b := BlockOf(lay, k);
      BlockRange(lay, k, b);
      assert CntOf([], b) == InBlock(lay, d, b);
      if d[k] {
        BitsSome(d, b * lay.perBlock, b * lay.perBlock + lay.perBlock, k);
        assert false;
      }
    }
    CountExtremes(d);
  }

  lemma FlushedSizes(s: Sm, s': Sm)
    requires Inv(s) && s' == s.(entries := s'.entries, sitDirty := s'.sitDirty, dirtySentries := s'.dirtySentries)
    requires s'.entries == Checkpoint(s).entries && s'.sitDirty == Checkpoint(s).sitDirty
    ensures Sizes(s')
  {
  }
}
