/**
  The segment manager on values: what each operation of segment.c does to the
  segment entries, the free, dirty and prefree maps, the six open logs and the
  summary area. Class SegmentManager performs the operations in place and is
  proved against these functions; SegmentProofs shows what every run of them keeps.
 */
module SegmentModel {
  import opened Bitmap
  import opened FreeSegmap

  // log types, in the order of the dirty maps
  const HOT_DATA: nat := 0
  const WARM_DATA: nat := 1
  const COLD_DATA: nat := 2
  const HOT_NODE: nat := 3
  const WARM_NODE: nat := 4
  const COLD_NODE: nat := 5
  const NR_LOGS: nat := 6
  const DIRTY: nat := 6
  const PRE: nat := 7
  const NR_DIRTY_TYPE: nat := 8

  predicate IsNodeLog(t: nat) { t >= HOT_NODE }

  /** A segment's validity now and at the last checkpoint. */
  datatype SegEntry = SegEntry(validBlocks: int, curMap: seq<bool>, ckptBlocks: int, ckptMap: seq<bool>,
                               kind: nat, mtime: nat)

  /** The owner of a block as the summary area records it. */
  datatype Summary = Summary(nid: nat, ofsInNode: nat, version: nat)

  datatype SumBlock = SumBlock(entries: seq<Summary>, isNode: bool)

  /** An open log: its segment, the next offset to write, and its summary block. */
  datatype Log = Log(segno: nat, next: nat, ssr: bool, zone: nat, sum: SumBlock)

  datatype DirtyMap = DirtyMap(maps: seq<seq<bool>>, nr: seq<int>, victimSec: seq<bool>)

  /** A slot that can hold a block address: a data slot of a node, or a node itself. */
  datatype Owner = Owner(isNode: bool, nid: nat, ofsInNode: nat)

  datatype Loc = Loc(segno: nat, off: nat)

  datatype Slot = Slot(loc: Loc, version: nat)

  /** The state; slots is the forward map from owners to the blocks they hold. */
  datatype Sm = Sm(geo: Geometry, entries: seq<SegEntry>, secValid: seq<int>,
                   sitDirty: seq<bool>, dirtySentries: int,
                   free: FreeMap, dirty: DirtyMap, logs: seq<Log>, ssa: seq<SumBlock>,
                   slots: map<Owner, Slot>)

  predicate IsLog(logs: seq<Log>, segno: nat) { exists t :: 0 <= t < |logs| && logs[t].segno == segno }

  predicate EntrySizes(g: Geometry, e: SegEntry) {
    |e.curMap| == g.blocksPerSeg && |e.ckptMap| == g.blocksPerSeg && e.kind < NR_LOGS
  }

  predicate DirtySizes(g: Geometry, d: DirtyMap) {
    && |d.maps| == NR_DIRTY_TYPE && |d.nr| == NR_DIRTY_TYPE && |d.victimSec| == g.sections
    && forall t :: 0 <= t < NR_DIRTY_TYPE ==> |d.maps[t]| == g.Segments()
  }

  /** The array lengths fixed at mount time. */
  ghost predicate Sizes(s: Sm) {
    && s.geo.Valid()
    && |s.entries| == s.geo.Segments()
    && |s.sitDirty| == s.geo.Segments()
    && |s.ssa| == s.geo.Segments()
    && |s.logs| == NR_LOGS
    && |s.secValid| == (if s.geo.segsPerSec > 1 then s.geo.sections else 0)
    && |s.free.inuse| == s.geo.Segments() && |s.free.secInuse| == s.geo.sections
    && (forall segno: nat {:trigger SecOf(s.geo, segno)} :: segno < s.geo.Segments() ==> SecOf(s.geo, segno) < s.geo.sections)
    && (forall segno :: 0 <= segno < |s.entries| ==> EntrySizes(s.geo, s.entries[segno]))
    && DirtySizes(s.geo, s.dirty)
    && (forall segno :: 0 <= segno < |s.ssa| ==> |s.ssa[segno].entries| == s.geo.blocksPerSeg)
    && (forall t :: 0 <= t < NR_LOGS ==> LogSizes(s.geo, s.logs[t]))
  }

  predicate LogSizes(g: Geometry, l: Log) {
    l.segno < g.Segments() && l.next <= g.blocksPerSeg && |l.sum.entries| == g.blocksPerSeg
  }

  // ------------------------------------------------------- dirty lists

  function SetDirty(d: DirtyMap, t: nat, segno: nat): DirtyMap
    requires t < |d.maps| && t < |d.nr| && segno < |d.maps[t]|
  {
    if d.maps[t][segno] then d
    else d.(maps := d.maps[t := d.maps[t][segno := true]], nr := d.nr[t := d.nr[t] + 1])
  }

  function ClearDirty(d: DirtyMap, t: nat, segno: nat): DirtyMap
    requires t < |d.maps| && t < |d.nr| && segno < |d.maps[t]|
  {
    if !d.maps[t][segno] then d
    else d.(maps := d.maps[t := d.maps[t][segno := false]], nr := d.nr[t := d.nr[t] - 1])
  }

  /** __locate_dirty_segment on a segment that is not an open log. */
  function LocateIn(g: Geometry, d: DirtyMap, segno: nat, t: nat, kind: nat): (r: DirtyMap)
    requires DirtySizes(g, d) && segno < g.Segments() && t < NR_DIRTY_TYPE && kind < NR_LOGS
    ensures DirtySizes(g, r)
  {
    var d1 := SetDirty(d, t, segno);
    if t == DIRTY then SetDirty(d1, kind, segno) else d1
  }

  /** __remove_dirty_segment; secEmpty says that the section holds no valid block. */
  function RemoveFrom(g: Geometry, d: DirtyMap, segno: nat, t: nat, kind: nat, secEmpty: bool): (r: DirtyMap)
    requires g.Valid() && DirtySizes(g, d) && segno < g.Segments() && SecOf(g, segno) < g.sections
    requires t < NR_DIRTY_TYPE && kind < NR_LOGS
    ensures DirtySizes(g, r)
  {
    var d1 := ClearDirty(d, t, segno);
    if t == DIRTY then
      var d2 := ClearDirty(d1, kind, segno);
      if secEmpty then d2.(victimSec := d2.victimSec[SecOf(g, segno) := false]) else d2
    else d1
  }

  function SectionBlocks(s: Sm, segno: nat): int
    requires Sizes(s) && segno < s.geo.Segments()
  {
    if s.geo.segsPerSec > 1 then s.secValid[SecOf(s.geo, segno)] else s.entries[segno].validBlocks
  }

  /** locate_dirty_segment. */
  ghost function Locate(s: Sm, segno: nat): (r: Sm)
    requires Sizes(s) && segno < s.geo.Segments()
    ensures Sizes(r) && r.geo == s.geo
  {
    if IsLog(s.logs, segno) then s
    else
      var e := s.entries[segno];
      var empty := SectionBlocks(s, segno) == 0;
      s.(dirty :=
        if e.validBlocks == 0 then
          RemoveFrom(s.geo, LocateIn(s.geo, s.dirty, segno, PRE, e.kind), segno, DIRTY, e.kind, empty)
        else if e.validBlocks < s.geo.blocksPerSeg then
          LocateIn(s.geo, s.dirty, segno, DIRTY, e.kind)
        else
          RemoveFrom(s.geo, s.dirty, segno, DIRTY, e.kind, empty))
  }

  // ------------------------------------------------------- segment entries

  function MarkSitDirty(s: Sm, segno: nat): Sm
    requires segno < |s.sitDirty|
  {
    if s.sitDirty[segno] then s
    else s.(sitDirty := s.sitDirty[segno := true], dirtySentries := s.dirtySentries + 1)
  }

  /** The entry part of update_sit_entry: one block becomes valid (add) or invalid. */
  function UpdateEntry(e: SegEntry, off: nat, add: bool, now: nat): SegEntry
    requires off < |e.curMap| && off < |e.ckptMap|
  {
    var del := if add then 1 else -1;
    SegEntry(e.validBlocks + del, e.curMap[off := add],
             if e.ckptMap[off] then e.ckptBlocks else e.ckptBlocks + del, e.ckptMap, e.kind, now)
  }

  /** update_sit_entry. */
  ghost function UpdateSit(s: Sm, loc: Loc, add: bool, now: nat): (r: Sm)
    requires Sizes(s) && loc.segno < s.geo.Segments() && loc.off < s.geo.blocksPerSeg
    ensures Sizes(r) && r.geo == s.geo
  {
    var s1 := MarkSitDirty(s, loc.segno);
    s1.(entries := s.entries[loc.segno := UpdateEntry(s.entries[loc.segno], loc.off, add, now)],
        secValid := if s.geo.segsPerSec > 1
                    then s.secValid[SecOf(s.geo, loc.segno) :=
                           s.secValid[SecOf(s.geo, loc.segno)] + (if add then 1 else -1)]
                    else s.secValid)
  }

  // ------------------------------------------------------- open logs

  /** Blocks that are valid now or that the last checkpoint still needs. */
  ghost function Needed(e: SegEntry): seq<bool>
    requires |e.curMap| == |e.ckptMap|
  {
    Union(e.curMap, e.ckptMap)
  }

  /** __refresh_next_blkoff. */
  ghost function NextOffset(s: Sm, t: nat): nat
    requires Sizes(s) && t < NR_LOGS
  {
    var l := s.logs[t];
    if l.ssr then NextZero(Needed(s.entries[l.segno]), l.next + 1) else l.next + 1
  }

  /** __add_sum_entry followed by __refresh_next_blkoff. */
  ghost function Advance(s: Sm, t: nat, sum: Summary): (r: Sm)
    requires Sizes(s) && t < NR_LOGS && s.logs[t].next < s.geo.blocksPerSeg
    ensures Sizes(r) && r.geo == s.geo
  {
    var l := s.logs[t];
    s.(logs := s.logs[t := l.(sum := l.sum.(entries := l.sum.entries[l.next := sum]), next := NextOffset(s, t))])
  }

  /** reset_curseg: the log moves to a segment, whose type becomes that of the log. */
  ghost function ResetLog(s: Sm, t: nat, segno: nat, ssr: bool, next: nat, entries: seq<Summary>): (r: Sm)
    requires Sizes(s) && t < NR_LOGS && segno < s.geo.Segments()
    requires next <= s.geo.blocksPerSeg && |entries| == s.geo.blocksPerSeg
    ensures Sizes(r) && r.geo == s.geo
  {
    var s1 := MarkSitDirty(s, segno);
    s1.(logs := s.logs[t := Log(segno, next, ssr, ZoneOf(s.geo, segno), SumBlock(entries, IsNodeLog(t)))],
        entries := s.entries[segno := s.entries[segno].(kind := t)])
  }

  ghost function SaveSummary(s: Sm, t: nat): (r: Sm)
    requires Sizes(s) && t < NR_LOGS
    ensures Sizes(r) && r.geo == s.geo
  {
    s.(ssa := s.ssa[s.logs[t].segno := s.logs[t].sum])
  }

  /** new_curseg, given the segment get_new_segment found. */
  ghost function NewLog(s: Sm, t: nat, segno: nat): (r: Sm)
    requires Sizes(s) && t < NR_LOGS && segno < s.geo.Segments()
    ensures Sizes(r) && r.geo == s.geo
  {
    var s1 := SaveSummary(s, t);
    ResetLog(s1.(free := TakeSegment(s.geo, s.free, segno)), t, segno, false, 0, s.logs[t].sum.entries)
  }

  /** change_curseg with reuse, given the segment the victim search found. */
  ghost function ReuseLog(s: Sm, t: nat, segno: nat): (r: Sm)
    requires Sizes(s) && t < NR_LOGS && segno < s.geo.Segments()
    ensures Sizes(r) && r.geo == s.geo
  {
    var s1 := SaveSummary(s, t);
    var e := s.entries[segno];
    var d := RemoveFrom(s.geo, s.dirty, segno, PRE, e.kind, false);
    ResetLog(s1.(free := TakeSegment(s.geo, s.free, segno),
                 dirty := RemoveFrom(s.geo, d, segno, DIRTY, e.kind, SectionBlocks(s, segno) == 0)),
             t, segno, true, NextZero(Needed(e), 0), s1.ssa[segno].entries)
  }

  // ------------------------------------------------------- operations

  /** How a full log was replaced: a free segment, or a victim reused in SSR manner. */
  datatype Choice = Fresh(segno: nat) | Reuse(segno: nat)

  ghost function SwitchLog(s: Sm, t: nat, choice: Choice): (r: Sm)
    requires Sizes(s) && t < NR_LOGS && choice.segno < s.geo.Segments()
    ensures Sizes(r) && r.geo == s.geo
  {
    match choice
    case Fresh(segno) => NewLog(s, t, segno)
    case Reuse(segno) => ReuseLog(s, t, segno)
  }

  ghost predicate LogFull(s: Sm, t: nat)
    requires Sizes(s) && t < NR_LOGS
  {
    s.logs[t].next >= s.geo.blocksPerSeg
  }

  /** A segment get_ssr_segment may return for log t. */
  ghost predicate Eligible(s: Sm, t: nat, segno: nat)
    requires Sizes(s)
  {
    && segno < s.geo.Segments()
    && (exists k: nat :: k < NR_LOGS && (if IsNodeLog(t) then k == t else k <= t) && s.dirty.maps[k][segno])
    && s.entries[segno].ckptBlocks < s.geo.blocksPerSeg
  }

  ghost predicate ChoiceOk(s: Sm, t: nat, choice: Choice)
    requires Sizes(s)
  {
    && choice.segno < s.geo.Segments()
    && match choice
       case Fresh(segno) => !s.free.inuse[segno]
       case Reuse(segno) => Eligible(s, t, segno)
  }

  ghost predicate ValidLoc(s: Sm, loc: Loc)
    requires Sizes(s)
  {
    loc.segno < s.geo.Segments() && loc.off < s.geo.blocksPerSeg && s.entries[loc.segno].curMap[loc.off]
  }

  datatype OldBlock = NoBlock | Block(loc: Loc)

  ghost predicate LocSizes(s: Sm, loc: Loc) { loc.segno < s.geo.Segments() && loc.off < s.geo.blocksPerSeg }

  /** The two update_sit_entry calls of refresh_sit_entry. */
  ghost function SwapBlocks(s: Sm, old': OldBlock, new': Loc, now: nat): (r: Sm)
    requires Sizes(s) && LocSizes(s, new') && (old'.Block? ==> LocSizes(s, old'.loc))
    ensures Sizes(r) && r.geo == s.geo
  {
    var s1 := UpdateSit(s, new', true, now);
    if old'.Block? then UpdateSit(s1, old'.loc, false, now) else s1
  }

  /** refresh_sit_entry: the new block becomes valid, the old one invalid, both segments are reclassified. */
  ghost function Refresh(s: Sm, old': OldBlock, new': Loc, now: nat): (r: Sm)
    requires Sizes(s) && LocSizes(s, new') && (old'.Block? ==> LocSizes(s, old'.loc))
    ensures Sizes(r) && r.geo == s.geo
  {
    var s1 := SwapBlocks(s, old', new', now);
    var s2 := if old'.Block? then Locate(s1, old'.loc.segno) else s1;
    Locate(s2, new'.segno)
  }

  /** The block allocate_data_block hands out. */
  function NextBlock(s: Sm, t: nat): Loc
    requires t < |s.logs|
  {
    Loc(s.logs[t].segno, s.logs[t].next)
  }

  /** The state allocate_data_block has reached when it turns to the SIT. */
  ghost function Handed(s: Sm, t: nat, sum: Summary, choice: Choice): (r: Sm)
    requires Sizes(s) && t < NR_LOGS && s.logs[t].next < s.geo.blocksPerSeg && choice.segno < s.geo.Segments()
    ensures Sizes(r) && r.geo == s.geo
  {
    var s1 := Advance(s, t, sum);
    if LogFull(s1, t) then SwitchLog(s1, t, choice) else s1
  }

  /** allocate_data_block; choice is used only when the log fills up. */
  ghost function Allocate(s: Sm, t: nat, old': OldBlock, sum: Summary, now: nat, choice: Choice): (r: Sm)
    requires Sizes(s) && t < NR_LOGS && s.logs[t].next < s.geo.blocksPerSeg && choice.segno < s.geo.Segments()
    requires old'.Block? ==> LocSizes(s, old'.loc)
    ensures Sizes(r) && r.geo == s.geo
  {
    Refresh(Handed(s, t, sum, choice), old', NextBlock(s, t), now)
  }

  /** invalidate_blocks on a main-area address. */
  ghost function Invalidate(s: Sm, loc: Loc, now: nat): (r: Sm)
    requires Sizes(s) && loc.segno < s.geo.Segments() && loc.off < s.geo.blocksPerSeg
    ensures Sizes(r) && r.geo == s.geo
  {
    Locate(UpdateSit(s, loc, false, now), loc.segno)
  }

  /** seg_info_to_raw_sit, seen from the entry: the checkpoint map catches up with the current one. */
  function Checkpointed(e: SegEntry): SegEntry {
    e.(ckptMap := e.curMap, ckptBlocks := e.validBlocks)
  }

  /** Freeing every prefree segment below n. */
  function FreePrefree(g: Geometry, f: FreeMap, pre: seq<bool>, n: nat): (r: FreeMap)
    requires g.Valid() && n <= |pre| <= |f.inuse|
    requires forall segno: nat {:trigger SecOf(g, segno)} :: segno < |f.inuse| ==> SecOf(g, segno) < |f.secInuse|
    ensures |r.inuse| == |f.inuse| && |r.secInuse| == |f.secInuse|
  {
    if n == 0 then f
    else
      var r := FreePrefree(g, f, pre, n - 1);
      if pre[n - 1] then GiveSegment(g, r, n - 1) else r
  }

  /** A checkpoint as the segment manager sees it: the SIT is flushed, prefree segments become free. */
  function Checkpoint(s: Sm): Sm
    requires s.geo.Valid() && |s.dirty.maps| == NR_DIRTY_TYPE == |s.dirty.nr| && |s.dirty.maps[PRE]| == |s.free.inuse|
    requires |s.entries| == |s.sitDirty|
    requires forall segno: nat {:trigger SecOf(s.geo, segno)} ::
               segno < |s.free.inuse| ==> SecOf(s.geo, segno) < |s.free.secInuse|
  {
    s.(entries := seq(|s.entries|, i requires 0 <= i < |s.entries| =>
                    if s.sitDirty[i] then Checkpointed(s.entries[i]) else s.entries[i]),
       sitDirty := Clear(|s.sitDirty|),
       dirtySentries := 0,
       free := FreePrefree(s.geo, s.free, s.dirty.maps[PRE], |s.free.inuse|),
       dirty := s.dirty.(maps := s.dirty.maps[PRE := Clear(|s.dirty.maps[PRE]|)], nr := s.dirty.nr[PRE := 0]))
  }
}
