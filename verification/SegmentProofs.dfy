/**
  What every operation of the segment manager keeps, and what follows for every run.
 */
module SegmentProofs {
  import opened Bitmap
  import opened FreeSegmap
  import opened SegmentModel

  // ------------------------------------------------------- the invariant

  /** valid_blocks counts the current map, ckpt_valid_blocks the union of both maps. */
  ghost predicate EntryOk(g: Geometry, e: SegEntry) {
    && EntrySizes(g, e)
    && e.validBlocks == Count(e.curMap)
    && e.ckptBlocks == Count(Needed(e))
  }

  /** Sum of valid blocks of the segments of a section below n. */
  ghost function SectionSum(g: Geometry, entries: seq<SegEntry>, secno: nat, n: nat): int
    requires g.Valid() && n <= |entries|
  {
    if n == 0 then 0
    else SectionSum(g, entries, secno, n - 1)
         + (if SecOf(g, n - 1) == secno then entries[n - 1].validBlocks else 0)
  }

  /** Every counter equals what it counts. */
  ghost predicate CountersOk(s: Sm)
    requires Sizes(s)
  {
    && (forall segno :: 0 <= segno < |s.entries| ==> EntryOk(s.geo, s.entries[segno]))
    && (s.geo.segsPerSec > 1 ==>
          forall secno: nat :: secno < s.geo.sections ==>
            s.secValid[secno] == SectionSum(s.geo, s.entries, secno, |s.entries|))
    && s.dirtySentries == Count(s.sitDirty)
    && FreeMapOk(s.geo, s.free)
    && (forall t :: 0 <= t < NR_DIRTY_TYPE ==> s.dirty.nr[t] == Count(s.dirty.maps[t]))
  }

  /**
    The classification of a segment: in use iff it is an open log, holds valid
    blocks or is prefree; DIRTY and the map of its type hold it exactly when it
    is not open and partly valid.
   */
  ghost predicate SegOk(s: Sm, segno: nat)
    requires Sizes(s) && segno < s.geo.Segments()
  {
    var e := s.entries[segno];
    && SegBase(s, segno)
    && s.free.inuse[segno] == (IsLog(s.logs, segno) || e.validBlocks > 0 || s.dirty.maps[PRE][segno])
    && (s.dirty.maps[PRE][segno] ==> !IsLog(s.logs, segno) && e.validBlocks == 0)
    && s.dirty.maps[DIRTY][segno] == (!IsLog(s.logs, segno) && 0 < e.validBlocks < s.geo.blocksPerSeg)
  }

  /** The part of the classification that holds even before a segment is reclassified. */
  ghost predicate SegBase(s: Sm, segno: nat)
    requires Sizes(s) && segno < s.geo.Segments()
  {
    var e := s.entries[segno];
    && (forall t :: 0 <= t < NR_LOGS ==> s.dirty.maps[t][segno] == (s.dirty.maps[DIRTY][segno] && e.kind == t))
    && (!s.free.inuse[segno] ==> e.ckptBlocks == 0)
    && (!s.sitDirty[segno] ==> e.curMap == e.ckptMap)
  }

  /** A segment in use whose valid count has moved since it was last classified. */
  ghost predicate SegStale(s: Sm, segno: nat)
    requires Sizes(s) && segno < s.geo.Segments()
  {
    && SegBase(s, segno)
    && s.free.inuse[segno]
    && (IsLog(s.logs, segno) ==> !s.dirty.maps[PRE][segno] && !s.dirty.maps[DIRTY][segno])
    && (s.dirty.maps[PRE][segno] ==> s.entries[segno].validBlocks == 0)
  }

  /** All segments are classified, except those in x, which are stale. */
  ghost predicate SegsOk(s: Sm, x: set<nat>)
    requires Sizes(s)
  {
    forall segno: nat :: segno < s.geo.Segments() ==> if segno in x then SegStale(s, segno) else SegOk(s, segno)
  }

  /** An open log has room: every offset LFS will hand out, or the one SSR found, is not needed. */
  ghost predicate LogRoom(g: Geometry, e: SegEntry, l: Log)
    requires EntrySizes(g, e) && l.next <= g.blocksPerSeg
  {
    if l.ssr then l.next < g.blocksPerSeg ==> !e.curMap[l.next] && !e.ckptMap[l.next]
    else forall off :: l.next <= off < g.blocksPerSeg ==> !e.curMap[off] && !e.ckptMap[off]
  }

  ghost predicate LogOk(s: Sm, t: nat)
    requires Sizes(s) && t < NR_LOGS
  {
    var l := s.logs[t];
    && s.entries[l.segno].kind == t
    && l.zone == ZoneOf(s.geo, l.segno)
    && l.sum.isNode == IsNodeLog(t)
    && LogRoom(s.geo, s.entries[l.segno], l)
  }

  ghost predicate LogsOk(s: Sm)
    requires Sizes(s)
  {
    && (forall t: nat :: t < NR_LOGS ==> LogOk(s, t))
    && (forall t: nat, u: nat :: t < u < NR_LOGS ==> s.logs[t].segno != s.logs[u].segno)
  }

  ghost predicate LogsOpen(s: Sm)
    requires Sizes(s)
  {
    forall t: nat :: t < NR_LOGS ==> s.logs[t].next < s.geo.blocksPerSeg
  }

  /** The summary block that describes a segment: that of the open log, or the saved one. */
  ghost function SumBlockOf(s: Sm, segno: nat): (b: SumBlock)
    requires Sizes(s) && segno < s.geo.Segments()
    ensures |b.entries| == s.geo.blocksPerSeg
  {
    if t: nat :| t < NR_LOGS && s.logs[t].segno == segno then s.logs[t].sum else s.ssa[segno]
  }

  /** The owner the summary area names for a block. */
  ghost function OwnerAt(s: Sm, loc: Loc): Owner
    requires Sizes(s) && loc.segno < s.geo.Segments() && loc.off < s.geo.blocksPerSeg
  {
    var b := SumBlockOf(s, loc.segno);
    Owner(b.isNode, b.entries[loc.off].nid, b.entries[loc.off].ofsInNode)
  }

  ghost predicate SlotOk(s: Sm, o: Owner)
    requires Sizes(s) && o in s.slots
  {
    var loc := s.slots[o].loc;
    && ValidLoc(s, loc)
    && OwnerAt(s, loc) == o
    && SumBlockOf(s, loc.segno).entries[loc.off].version == s.slots[o].version
  }

  ghost predicate BlockOk(s: Sm, loc: Loc)
    requires Sizes(s) && ValidLoc(s, loc)
  {
    var o := OwnerAt(s, loc);
    o in s.slots && s.slots[o].loc == loc
  }

  /** The footer of a segment's summary block says whether its blocks are nodes. */
  ghost predicate TypeOk(s: Sm, segno: nat)
    requires Sizes(s) && segno < s.geo.Segments()
  {
    SumBlockOf(s, segno).isNode == IsNodeLog(s.entries[segno].kind)
  }

  /** The reverse map of the summary area is the inverse of the forward map. */
  ghost predicate SlotsOk(s: Sm)
    requires Sizes(s)
  {
    && (forall o :: o in s.slots ==> SlotOk(s, o))
    && (forall loc :: ValidLoc(s, loc) ==> BlockOk(s, loc))
    && (forall segno: nat :: segno < s.geo.Segments() && s.free.inuse[segno] ==> TypeOk(s, segno))
  }

  /** What holds between operations. */
  ghost predicate Inv(s: Sm) {
    Sizes(s) && CountersOk(s) && SegsOk(s, {}) && LogsOk(s) && LogsOpen(s) && SlotsOk(s)
  }

  // ------------------------------------------------------- one entry

  lemma UpdateEntryOk(g: Geometry, e: SegEntry, off: nat, add: bool, now: nat)
    requires EntryOk(g, e) && off < g.blocksPerSeg && e.curMap[off] != add
    ensures EntryOk(g, UpdateEntry(e, off, add, now))
    ensures var r := UpdateEntry(e, off, add, now);
            r.curMap == e.curMap[off := add] && r.ckptMap == e.ckptMap && r.kind == e.kind && r.mtime == now
  {
    CountUpdate(e.curMap, off, add);
    CountUpdate(Needed(e), off, add || e.ckptMap[off]);
    UnionUpdate(e.curMap, e.ckptMap, off, add);
  }

  lemma UnionUpdate(a: seq<bool>, b: seq<bool>, k: nat, v: bool)
    requires |a| == |b| && k < |a|
    ensures Union(a[k := v], b) == Union(a, b)[k := v || b[k]]
  {
  }

  lemma {:induction false} SectionSumUpdate(g: Geometry, es: seq<SegEntry>, k: nat, e: SegEntry, secno: nat, n: nat)
    requires g.Valid() && n <= |es| && k < |es|
    ensures SectionSum(g, es[k := e], secno, n)
         == SectionSum(g, es, secno, n)
            + if k < n && SecOf(g, k) == secno then e.validBlocks - es[k].validBlocks else 0
  {
    if n > 0 { SectionSumUpdate(g, es, k, e, secno, n - 1); }
  }

  lemma {:induction false} SectionSumSame(g: Geometry, es: seq<SegEntry>, fs: seq<SegEntry>, secno: nat, n: nat)
    requires g.Valid() && n <= |es| == |fs|
    requires forall i :: 0 <= i < n ==> es[i].validBlocks == fs[i].validBlocks
    ensures SectionSum(g, es, secno, n) == SectionSum(g, fs, secno, n)
  {
    if n > 0 { SectionSumSame(g, es, fs, secno, n - 1); }
  }

  /** Replacing one entry and adjusting its section keeps the section counts. */
  lemma EntryReplaced(s: Sm, s': Sm, k: nat, e: SegEntry)
    requires Sizes(s) && Sizes(s') && CountersOk(s) && k < s.geo.Segments()
    requires s'.geo == s.geo && s'.entries == s.entries[k := e] && EntryOk(s.geo, e)
    requires s.geo.segsPerSec > 1 ==>
               s'.secValid == s.secValid[SecOf(s.geo, k) := s.secValid[SecOf(s.geo, k)]
                                           + e.validBlocks - s.entries[k].validBlocks]
    ensures forall segno :: 0 <= segno < |s'.entries| ==> EntryOk(s'.geo, s'.entries[segno])
    ensures s.geo.segsPerSec > 1 ==>
              forall secno: nat :: secno < s.geo.sections ==>
                s'.secValid[secno] == SectionSum(s.geo, s'.entries, secno, |s'.entries|)
  {
    if s.geo.segsPerSec > 1 {
      forall secno: nat | secno < s.geo.sections
        ensures s'.secValid[secno] == SectionSum(s.geo, s'.entries, secno, |s'.entries|)
      {
        SectionSumUpdate(s.geo, s.entries, k, e, secno, |s.entries|);
      }
    }
  }

  lemma MarkSitDirtyCount(s: Sm, segno: nat)
    requires segno < |s.sitDirty| && s.dirtySentries == Count(s.sitDirty)
    ensures var s' := MarkSitDirty(s, segno);
            s'.sitDirty == s.sitDirty[segno := true] && s'.dirtySentries == Count(s'.sitDirty)
  {
    CountUpdate(s.sitDirty, segno, true);
    if s.sitDirty[segno] { assert s.sitDirty[segno := true] == s.sitDirty; }
  }

  // ------------------------------------------------------- update_sit_entry

  lemma UpdateSitCounters(s: Sm, loc: Loc, add: bool, now: nat)
    requires Sizes(s) && CountersOk(s)
    requires loc.segno < s.geo.Segments() && loc.off < s.geo.blocksPerSeg && ValidLoc(s, loc) != add
    ensures var s' := UpdateSit(s, loc, add, now);
            Sizes(s') && CountersOk(s')
  {
    var s' := UpdateSit(s, loc, add, now);
    UpdateEntryOk(s.geo, s.entries[loc.segno], loc.off, add, now);
    MarkSitDirtyCount(s, loc.segno);
    EntryReplaced(s, s', loc.segno, s'.entries[loc.segno]);
  }

  lemma UpdateSitSeg(s: Sm, loc: Loc, add: bool, now: nat, segno: nat)
    requires Sizes(s) && loc.segno < s.geo.Segments() && loc.off < s.geo.blocksPerSeg
    requires s.free.inuse[loc.segno] && !s.dirty.maps[PRE][loc.segno]
    requires segno < s.geo.Segments()
    ensures var s' := UpdateSit(s, loc, add, now);
            && Sizes(s')
            && (segno != loc.segno && SegOk(s, segno) ==> SegOk(s', segno))
            && (segno != loc.segno && SegStale(s, segno) ==> SegStale(s', segno))
            && (segno == loc.segno && (SegOk(s, segno) || SegStale(s, segno)) ==> SegStale(s', segno))
  {
  }

  lemma UpdateSitKeeps(s: Sm, loc: Loc, add: bool, now: nat, x: set<nat>)
    requires Sizes(s) && CountersOk(s) && SegsOk(s, x)
    requires loc.segno < s.geo.Segments() && loc.off < s.geo.blocksPerSeg
    requires ValidLoc(s, loc) != add && s.free.inuse[loc.segno] && !s.dirty.maps[PRE][loc.segno]
    ensures var s' := UpdateSit(s, loc, add, now);
            Sizes(s') && CountersOk(s') && SegsOk(s', x + {loc.segno})
  {
    var s' := UpdateSit(s, loc, add, now);
    UpdateSitCounters(s, loc, add, now);
    forall segno: nat | segno < s.geo.Segments()
      ensures if segno in x + {loc.segno} then SegStale(s', segno) else SegOk(s', segno)
    {
      assert if segno in x then SegStale(s, segno) else SegOk(s, segno);
      UpdateSitSeg(s, loc, add, now, segno);
    }
  }

  // ------------------------------------------------------- dirty lists

  lemma SetDirtyCount(d: DirtyMap, t: nat, segno: nat)
    requires t < |d.maps| && t < |d.nr| && segno < |d.maps[t]| && d.nr[t] == Count(d.maps[t])
    ensures var d' := SetDirty(d, t, segno);
            d'.maps == d.maps[t := d.maps[t][segno := true]] && d'.nr[t] == Count(d'.maps[t])
  {
    CountUpdate(d.maps[t], segno, true);
    if d.maps[t][segno] { assert d.maps[t][segno := true] == d.maps[t]; }
  }

  lemma ClearDirtyCount(d: DirtyMap, t: nat, segno: nat)
    requires t < |d.maps| && t < |d.nr| && segno < |d.maps[t]| && d.nr[t] == Count(d.maps[t])
    ensures var d' := ClearDirty(d, t, segno);
            d'.maps == d.maps[t := d.maps[t][segno := false]] && d'.nr[t] == Count(d'.maps[t])
  {
    CountUpdate(d.maps[t], segno, false);
    if !d.maps[t][segno] { assert d.maps[t][segno := false] == d.maps[t]; }
  }

  ghost predicate DirtyCounts(g: Geometry, d: DirtyMap) {
    DirtySizes(g, d) && forall t :: 0 <= t < NR_DIRTY_TYPE ==> d.nr[t] == Count(d.maps[t])
  }

  /** Only the bits of segment k differ, and there they read as given by want. */
  ghost predicate OnlyAt(g: Geometry, d: DirtyMap, d': DirtyMap, k: nat) {
    && DirtySizes(g, d) && DirtySizes(g, d')
    && forall t, i :: 0 <= t < NR_DIRTY_TYPE && 0 <= i < g.Segments() && i != k ==> d'.maps[t][i] == d.maps[t][i]
  }

  lemma LocateInEffect(g: Geometry, d: DirtyMap, k: nat, t: nat, kind: nat)
    requires DirtyCounts(g, d) && k < g.Segments() && t < NR_DIRTY_TYPE && t >= DIRTY && kind < NR_LOGS
    ensures var d' := LocateIn(g, d, k, t, kind);
            && DirtyCounts(g, d') && OnlyAt(g, d, d', k)
            && forall u :: 0 <= u < NR_DIRTY_TYPE ==>
                 d'.maps[u][k] == (d.maps[u][k] || u == t || (t == DIRTY && u == kind))
  {
    SetDirtyCount(d, t, k);
    var d1 := SetDirty(d, t, k);
    if t == DIRTY { SetDirtyCount(d1, kind, k); }
  }

  lemma RemoveFromEffect(g: Geometry, d: DirtyMap, k: nat, t: nat, kind: nat, empty: bool)
    requires g.Valid() && SecOf(g, k) < g.sections
    requires DirtyCounts(g, d) && k < g.Segments() && t < NR_DIRTY_TYPE && t >= DIRTY && kind < NR_LOGS
    ensures var d' := RemoveFrom(g, d, k, t, kind, empty);
            && DirtyCounts(g, d') && OnlyAt(g, d, d', k)
            && forall u :: 0 <= u < NR_DIRTY_TYPE ==>
                 d'.maps[u][k] == (d.maps[u][k] && u != t && !(t == DIRTY && u == kind))
  {
    ClearDirtyCount(d, t, k);
    var d1 := ClearDirty(d, t, k);
    if t == DIRTY { ClearDirtyCount(d1, kind, k); }
  }

  // ------------------------------------------------------- locate_dirty_segment

  lemma LocateEffect(s: Sm, k: nat)
    requires Sizes(s) && DirtyCounts(s.geo, s.dirty) && k < s.geo.Segments() && SegStale(s, k)
    requires 0 <= s.entries[k].validBlocks <= s.geo.blocksPerSeg
    ensures var s' := Locate(s, k);
            && DirtyCounts(s.geo, s'.dirty) && OnlyAt(s.geo, s.dirty, s'.dirty, k)
            && SegOk(s', k)
  {
    var e := s.entries[k];
    if !IsLog(s.logs, k) {
      var empty := SectionBlocks(s, k) == 0;
      if e.validBlocks == 0 {
        LocateInEffect(s.geo, s.dirty, k, PRE, e.kind);
        RemoveFromEffect(s.geo, LocateIn(s.geo, s.dirty, k, PRE, e.kind), k, DIRTY, e.kind, empty);
      } else if e.validBlocks < s.geo.blocksPerSeg {
        LocateInEffect(s.geo, s.dirty, k, DIRTY, e.kind);
      } else {
        RemoveFromEffect(s.geo, s.dirty, k, DIRTY, e.kind, empty);
      }
    }
  }

  lemma LocateKeeps(s: Sm, k: nat, x: set<nat>)
    requires Sizes(s) && CountersOk(s) && SegsOk(s, x) && k < s.geo.Segments() && SegStale(s, k)
    ensures var s' := Locate(s, k);
            Sizes(s') && CountersOk(s') && SegsOk(s', x - {k})
  {
    var s' := Locate(s, k);
    assert EntryOk(s.geo, s.entries[k]);
    LocateEffect(s, k);
    forall segno: nat | segno < s.geo.Segments()
      ensures if segno in x - {k} then SegStale(s', segno) else SegOk(s', segno)
    {
      assert if segno in x then SegStale(s, segno) else SegOk(s, segno);
      if segno != k { OtherSeg(s, s', k, segno); }
    }
  }

  lemma OtherSeg(s: Sm, s': Sm, k: nat, segno: nat)
    requires Sizes(s) && Sizes(s') && s' == s.(dirty := s'.dirty) && OnlyAt(s.geo, s.dirty, s'.dirty, k)
    requires segno < s.geo.Segments() && segno != k
    ensures SegOk(s, segno) ==> SegOk(s', segno)
    ensures SegStale(s, segno) ==> SegStale(s', segno)
  {
  }

  // ------------------------------------------------------- handing out a block

  /** The block is neither live nor needed by the last checkpoint. */
  ghost predicate Unneeded(s: Sm, loc: Loc)
    requires Sizes(s)
  {
    && loc.segno < s.geo.Segments() && loc.off < s.geo.blocksPerSeg
    && !s.entries[loc.segno].curMap[loc.off] && !s.entries[loc.segno].ckptMap[loc.off]
  }

  lemma NextBlockUnneeded(s: Sm, t: nat)
    requires Sizes(s) && LogsOk(s) && t < NR_LOGS && s.logs[t].next < s.geo.blocksPerSeg
    ensures Unneeded(s, NextBlock(s, t))
  {
    assert LogOk(s, t);
  }

  /** Log t stands beyond the block it handed out. */
  ghost predicate Passed(s: Sm, t: nat, loc: Loc)
    requires Sizes(s) && t < NR_LOGS
  {
    s.logs[t].segno == loc.segno ==> s.logs[t].next > loc.off
  }

  lemma AdvanceKeeps(s: Sm, t: nat, sum: Summary)
    requires Sizes(s) && CountersOk(s) && SegsOk(s, {}) && LogsOk(s)
    requires t < NR_LOGS && s.logs[t].next < s.geo.blocksPerSeg
    ensures var s' := Advance(s, t, sum);
            CountersOk(s') && SegsOk(s', {}) && LogsOk(s') && Passed(s', t, NextBlock(s, t))
  {
    var s' := Advance(s, t, sum);
    forall x: nat ensures IsLog(s'.logs, x) == IsLog(s.logs, x) {
      if IsLog(s.logs, x) {
        var u :| 0 <= u < |s.logs| && s.logs[u].segno == x;
        assert s'.logs[u].segno == x;
      }
    }
    forall segno: nat | segno < s.geo.Segments() ensures SegOk(s', segno) {
      assert SegOk(s, segno);
    }
    forall u: nat | u < NR_LOGS ensures LogOk(s', u) {
      assert LogOk(s, u);
    }
  }

  // ------------------------------------------------------- summaries

  lemma SumOfLog(s: Sm, u: nat)
    requires Sizes(s) && LogsOk(s) && u < NR_LOGS
    ensures SumBlockOf(s, s.logs[u].segno) == s.logs[u].sum
  {
  }

  lemma SumOfSaved(s: Sm, segno: nat)
    requires Sizes(s) && segno < s.geo.Segments() && !IsLog(s.logs, segno)
    ensures SumBlockOf(s, segno) == s.ssa[segno]
  {
  }

  /** The logs other than t stand where they stood. */
  lemma SumOfOther(s: Sm, s': Sm, t: nat, segno: nat)
    requires Sizes(s) && Sizes(s') && s'.geo == s.geo && LogsOk(s) && LogsOk(s') && t < NR_LOGS && segno < s.geo.Segments()
    requires forall u :: 0 <= u < NR_LOGS && u != t ==> s'.logs[u] == s.logs[u]
    requires segno != s.logs[t].segno && segno != s'.logs[t].segno && s'.ssa[segno] == s.ssa[segno]
    ensures SumBlockOf(s', segno) == SumBlockOf(s, segno)
  {
    if IsLog(s.logs, segno) {
      var u: nat :| u < NR_LOGS && s.logs[u].segno == segno;
      SumOfLog(s, u);
      SumOfLog(s', u);
    } else {
      forall u | 0 <= u < |s'.logs| ensures s'.logs[u].segno != segno {
        if u != t { assert s.logs[u].segno != segno; }
      }
      SumOfSaved(s', segno);
      SumOfSaved(s, segno);
    }
  }

  lemma SameSums(s: Sm, s': Sm, segno: nat)
    requires Sizes(s) && Sizes(s') && s'.geo == s.geo && LogsOk(s) && LogsOk(s') && segno < s.geo.Segments()
    requires s'.logs == s.logs && s'.ssa == s.ssa
    ensures SumBlockOf(s', segno) == SumBlockOf(s, segno)
  {
    if IsLog(s.logs, segno) {
      var u: nat :| u < NR_LOGS && s.logs[u].segno == segno;
      SumOfLog(s, u);
      SumOfLog(s', u);
    } else {
      SumOfSaved(s, segno);
      SumOfSaved(s', segno);
    }
  }

  // ------------------------------------------------------- moving a log

  /**
    What new_curseg and change_curseg have in common: log t moves to an unopened
    segment q, whose dirty bits are cleared, and the old summary block is saved.
   */
  ghost predicate Moves(s: Sm, s': Sm, t: nat, q: nat)
    requires Sizes(s) && t < NR_LOGS
  {
    var p := s.logs[t].segno;
    && Sizes(s') && s'.geo == s.geo && q < s.geo.Segments()
    && q != p && !IsLog(s.logs, q)
    && s'.logs == s.logs[t := s'.logs[t]] && s'.logs[t].segno == q
    && s'.entries == s.entries[q := s.entries[q].(kind := t)]
    && s'.secValid == s.secValid && s'.slots == s.slots
    && s'.ssa == s.ssa[p := s.logs[t].sum]
    && FreeMapOk(s.geo, s'.free) && s'.free.inuse == s.free.inuse[q := true]
    && s'.sitDirty == s.sitDirty[q := true] && s'.dirtySentries == Count(s'.sitDirty)
    && DirtyCounts(s.geo, s'.dirty) && OnlyAt(s.geo, s.dirty, s'.dirty, q)
    && (forall u :: 0 <= u < NR_DIRTY_TYPE ==> !s'.dirty.maps[u][q])
    && LogOk(s', t) && s'.logs[t].next < s.geo.blocksPerSeg
    && (s.free.inuse[q] ==>
          s'.logs[t].sum.entries == s.ssa[q].entries && IsNodeLog(s.entries[q].kind) == IsNodeLog(t))
  }

  lemma FreeSegmentIsEmpty(s: Sm, q: nat)
    requires Sizes(s) && CountersOk(s) && q < s.geo.Segments() && SegOk(s, q) && !s.free.inuse[q]
    ensures !IsLog(s.logs, q) && s.entries[q].validBlocks == 0
    ensures forall u :: 0 <= u < NR_DIRTY_TYPE ==> !s.dirty.maps[u][q]
    ensures forall off :: 0 <= off < s.geo.blocksPerSeg ==> !s.entries[q].curMap[off] && !s.entries[q].ckptMap[off]
  {
    var e := s.entries[q];
    assert EntryOk(s.geo, e);
    CountExtremes(Needed(e));
  }

  lemma NewLogMoves(s: Sm, t: nat, q: nat)
    requires Sizes(s) && CountersOk(s) && SegsOk(s, {}) && LogsOk(s) && t < NR_LOGS
    requires q < s.geo.Segments() && !s.free.inuse[q]
    ensures Moves(s, NewLog(s, t, q), t, q)
  {
    assert SegOk(s, q) && SegOk(s, s.logs[t].segno) && IsLog(s.logs, s.logs[t].segno);
    FreeSegmentIsEmpty(s, q);
    TakeKeepsOk(s.geo, s.free, q);
    MarkSitDirtyCount(s, q);
  }

  /** An eligible victim is a partly valid, unopened segment with a block nobody needs. */
  lemma EligibleIsDirty(s: Sm, t: nat, q: nat)
    requires Sizes(s) && CountersOk(s) && SegsOk(s, {}) && Eligible(s, t, q) && t < NR_LOGS
    ensures !IsLog(s.logs, q) && s.free.inuse[q] && !s.dirty.maps[PRE][q] && s.dirty.maps[DIRTY][q]
    ensures IsNodeLog(s.entries[q].kind) == IsNodeLog(t) && s.entries[q].validBlocks > 0
    ensures NextZero(Needed(s.entries[q]), 0) < s.geo.blocksPerSeg
  {
    var e := s.entries[q];
    assert SegOk(s, q) && EntryOk(s.geo, e);
    CountExtremes(Needed(e));
    var off: nat :| off < s.geo.blocksPerSeg && !Needed(e)[off];
    assert NextZero(Needed(e), 0) <= off;
  }

  lemma ReuseLogMoves(s: Sm, t: nat, q: nat)
    requires Sizes(s) && CountersOk(s) && SegsOk(s, {}) && LogsOk(s) && t < NR_LOGS && Eligible(s, t, q)
    ensures Moves(s, ReuseLog(s, t, q), t, q)
  {
    assert IsLog(s.logs, s.logs[t].segno);
    EligibleIsDirty(s, t, q);
    var s' := ReuseLog(s, t, q);
    ReuseLogLists(s, t, q);
    ReusedMoves(s, s', t, q);
  }

  lemma ReuseLogLists(s: Sm, t: nat, q: nat)
    requires Sizes(s) && CountersOk(s) && SegsOk(s, {}) && t < NR_LOGS && q < s.geo.Segments()
    ensures var s' := ReuseLog(s, t, q);
            && s'.sitDirty == s.sitDirty[q := true] && s'.dirtySentries == Count(s'.sitDirty)
            && DirtyCounts(s.geo, s'.dirty) && OnlyAt(s.geo, s.dirty, s'.dirty, q)
            && forall u :: 0 <= u < NR_DIRTY_TYPE ==> !s'.dirty.maps[u][q]
  {
    assert SegOk(s, q);
    MarkSitDirtyCount(s, q);
    RemoveBothEffect(s.geo, s.dirty, q, s.entries[q].kind, SectionBlocks(s, q) == 0);
  }

  lemma ReusedMoves(s: Sm, s': Sm, t: nat, q: nat)
    requires Sizes(s) && Sizes(s') && t < NR_LOGS && q < s.geo.Segments() && s'.geo == s.geo && FreeMapOk(s.geo, s.free)
    requires !IsLog(s.logs, q) && q != s.logs[t].segno
    requires s'.free == TakeSegment(s.geo, s.free, q)
    requires s'.logs == s.logs[t := Log(q, NextZero(Needed(s.entries[q]), 0), true, ZoneOf(s.geo, q),
                                        SumBlock(s.ssa[q].entries, IsNodeLog(t)))]
    requires s'.entries == s.entries[q := s.entries[q].(kind := t)]
    requires s'.secValid == s.secValid && s'.slots == s.slots
    requires s'.ssa == s.ssa[s.logs[t].segno := s.logs[t].sum]
    requires s'.sitDirty == s.sitDirty[q := true] && s'.dirtySentries == Count(s'.sitDirty)
    requires DirtyCounts(s.geo, s'.dirty) && OnlyAt(s.geo, s.dirty, s'.dirty, q)
    requires forall u :: 0 <= u < NR_DIRTY_TYPE ==> !s'.dirty.maps[u][q]
    requires IsNodeLog(s.entries[q].kind) == IsNodeLog(t)
    requires NextZero(Needed(s.entries[q]), 0) < s.geo.blocksPerSeg
    ensures Moves(s, s', t, q)
  {
    TakeKeepsOk(s.geo, s.free, q);
  }

  /** Removing a segment from the prefree and dirty lists leaves it in none. */
  lemma RemoveBothEffect(g: Geometry, d: DirtyMap, k: nat, kind: nat, empty: bool)
    requires g.Valid() && SecOf(g, k) < g.sections && DirtyCounts(g, d) && k < g.Segments() && kind < NR_LOGS
    requires forall u :: 0 <= u < NR_LOGS && u != kind ==> !d.maps[u][k]
    ensures var d' := RemoveFrom(g, RemoveFrom(g, d, k, PRE, kind, false), k, DIRTY, kind, empty);
            && DirtyCounts(g, d') && OnlyAt(g, d, d', k)
            && forall u :: 0 <= u < NR_DIRTY_TYPE ==> !d'.maps[u][k]
  {
    RemoveFromEffect(g, d, k, PRE, kind, false);
    RemoveFromEffect(g, RemoveFrom(g, d, k, PRE, kind, false), k, DIRTY, kind, empty);
  }

  lemma SwitchMoves(s: Sm, t: nat, choice: Choice)
    requires Sizes(s) && CountersOk(s) && SegsOk(s, {}) && LogsOk(s) && t < NR_LOGS && ChoiceOk(s, t, choice)
    ensures Moves(s, SwitchLog(s, t, choice), t, choice.segno)
  {
    match choice
    case Fresh(segno) => NewLogMoves(s, t, segno);
    case Reuse(segno) => ReuseLogMoves(s, t, segno);
  }

  lemma MovedIsLog(s: Sm, s': Sm, t: nat, q: nat, x: nat)
    requires Sizes(s) && t < NR_LOGS && LogsOk(s) && Moves(s, s', t, q)
    ensures IsLog(s'.logs, x) == (x == q || (x != s.logs[t].segno && IsLog(s.logs, x)))
  {
    if x == q { assert s'.logs[t].segno == x; }
    if IsLog(s.logs, x) && x != s.logs[t].segno {
      var u: nat :| u < |s.logs| && s.logs[u].segno == x;
      assert s'.logs[u].segno == x;
    }
    if IsLog(s'.logs, x) && x != q {
      var u: nat :| u < |s'.logs| && s'.logs[u].segno == x;
      assert s.logs[u].segno == x && u != t;
      assert s.logs[t].segno != x;
    }
  }

  lemma MovedLogs(s: Sm, s': Sm, t: nat, q: nat)
    requires Sizes(s) && t < NR_LOGS && LogsOk(s) && Moves(s, s', t, q)
    ensures LogsOk(s')
  {
    forall u: nat | u < NR_LOGS ensures LogOk(s', u) {
      assert LogOk(s, u);
    }
    forall u: nat | u < NR_LOGS ensures s.logs[u].segno != q {
      assert !IsLog(s.logs, q);
    }
  }

  lemma MovedCounters(s: Sm, s': Sm, t: nat, q: nat)
    requires Sizes(s) && t < NR_LOGS && CountersOk(s) && Moves(s, s', t, q)
    ensures CountersOk(s')
  {
    if s.geo.segsPerSec > 1 {
      forall secno: nat | secno < s.geo.sections
        ensures s'.secValid[secno] == SectionSum(s.geo, s'.entries, secno, |s'.entries|)
      {
        SectionSumSame(s.geo, s.entries, s'.entries, secno, |s.entries|);
      }
    }
    assert EntryOk(s.geo, s.entries[q]);
  }

  lemma MovedSeg(s: Sm, s': Sm, t: nat, q: nat, segno: nat)
    requires Sizes(s) && t < NR_LOGS && LogsOk(s) && Moves(s, s', t, q)
    requires segno < s.geo.Segments() && SegOk(s, segno)
    ensures if segno == s.logs[t].segno then SegStale(s', segno) else SegOk(s', segno)
  {
    MovedIsLog(s, s', t, q, segno);
    if segno == s.logs[t].segno { assert IsLog(s.logs, segno); }
  }

  lemma MovedKeeps(s: Sm, s': Sm, t: nat, q: nat)
    requires Sizes(s) && CountersOk(s) && SegsOk(s, {}) && LogsOk(s) && t < NR_LOGS && Moves(s, s', t, q)
    ensures CountersOk(s') && SegsOk(s', {s.logs[t].segno}) && LogsOk(s')
  {
    MovedCounters(s, s', t, q);
    MovedLogs(s, s', t, q);
    forall segno: nat | segno < s.geo.Segments()
      ensures if segno in {s.logs[t].segno} then SegStale(s', segno) else SegOk(s', segno)
    {
      assert SegOk(s, segno);
      MovedSeg(s, s', t, q, segno);
    }
  }

  lemma MovedSums(s: Sm, s': Sm, t: nat, q: nat, segno: nat)
    requires Sizes(s) && LogsOk(s) && t < NR_LOGS && Moves(s, s', t, q) && LogsOk(s')
    requires segno < s.geo.Segments() && s.free.inuse[segno] && TypeOk(s, segno)
    ensures SumBlockOf(s', segno) == SumBlockOf(s, segno)
  {
    var p := s.logs[t].segno;
    if segno == p {
      SumOfLog(s, t);
      MovedIsLog(s, s', t, q, p);
      SumOfSaved(s', p);
    } else if segno == q {
      SumOfSaved(s, segno);
      SumOfLog(s', t);
      assert LogOk(s', t);
    } else {
      SumOfOther(s, s', t, segno);
    }
  }

  // ------------------------------------------------------- refresh_sit_entry

  lemma ValidIsCounted(s: Sm, loc: Loc)
    requires Sizes(s) && CountersOk(s) && ValidLoc(s, loc)
    ensures s.entries[loc.segno].validBlocks > 0
  {
    assert EntryOk(s.geo, s.entries[loc.segno]);
    CountExtremes(s.entries[loc.segno].curMap);
  }

  lemma ValidIsInUse(s: Sm, loc: Loc, x: set<nat>)
    requires Sizes(s) && CountersOk(s) && SegsOk(s, x) && ValidLoc(s, loc)
    ensures s.free.inuse[loc.segno] && !s.dirty.maps[PRE][loc.segno] && SegStale(s, loc.segno)
  {
    ValidIsCounted(s, loc);
    assert if loc.segno in x then SegStale(s, loc.segno) else SegOk(s, loc.segno);
  }

  lemma UpdateSitLogs(s: Sm, loc: Loc, add: bool, now: nat)
    requires Sizes(s) && LogsOk(s) && loc.segno < s.geo.Segments() && loc.off < s.geo.blocksPerSeg
    requires add ==> forall u: nat :: u < NR_LOGS ==> Passed(s, u, loc)
    ensures LogsOk(UpdateSit(s, loc, add, now))
  {
    var s' := UpdateSit(s, loc, add, now);
    forall u: nat | u < NR_LOGS ensures LogOk(s', u) {
      assert LogOk(s, u);
      if add { assert Passed(s, u, loc); }
    }
  }

  lemma SameLogs(s: Sm, s': Sm)
    requires Sizes(s) && Sizes(s') && LogsOk(s) && s'.geo == s.geo && s'.logs == s.logs && s'.entries == s.entries
    ensures LogsOk(s')
  {
    forall u: nat | u < NR_LOGS ensures LogOk(s', u) { assert LogOk(s, u); }
  }

  lemma InvalidateKeeps(s: Sm, loc: Loc, now: nat, x: set<nat>)
    requires Sizes(s) && CountersOk(s) && SegsOk(s, x) && LogsOk(s) && ValidLoc(s, loc)
    ensures var s' := Invalidate(s, loc, now);
            CountersOk(s') && SegsOk(s', x - {loc.segno}) && LogsOk(s') && s'.logs == s.logs
  {
    ValidIsInUse(s, loc, x);
    UpdateSitKeeps(s, loc, false, now, x);
    UpdateSitLogs(s, loc, false, now);
    var s1 := UpdateSit(s, loc, false, now);
    LocateKeeps(s1, loc.segno, x + {loc.segno});
    assert x + {loc.segno} - {loc.segno} == x - {loc.segno};
    SameLogs(s1, Invalidate(s, loc, now));
  }

  ghost function Touched(old': OldBlock, new': Loc): set<nat> {
    if old'.Block? then {new'.segno, old'.loc.segno} else {new'.segno}
  }

  lemma SwapKeeps(s: Sm, old': OldBlock, new': Loc, now: nat, x: set<nat>)
    requires Sizes(s) && CountersOk(s) && SegsOk(s, x) && LogsOk(s) && x <= {new'.segno}
    requires Unneeded(s, new') && s.free.inuse[new'.segno] && !s.dirty.maps[PRE][new'.segno]
    requires forall u: nat :: u < NR_LOGS ==> Passed(s, u, new')
    requires old'.Block? ==> ValidLoc(s, old'.loc)
    ensures var s' := SwapBlocks(s, old', new', now);
            && CountersOk(s') && SegsOk(s', Touched(old', new')) && LogsOk(s') && s'.logs == s.logs
            && ValidLoc(s', new')
  {
    var s1 := UpdateSit(s, new', true, now);
    UpdateSitKeeps(s, new', true, now, x);
    UpdateSitLogs(s, new', true, now);
    UpdateSitMaps(s, new', true, now);
    assert x + {new'.segno} == {new'.segno};
    if old'.Block? {
      UpdateSitMaps(s1, old'.loc, false, now);
      ValidIsInUse(s1, old'.loc, {new'.segno});
      UpdateSitKeeps(s1, old'.loc, false, now, {new'.segno});
      UpdateSitLogs(s1, old'.loc, false, now);
      assert {new'.segno} + {old'.loc.segno} == Touched(old', new');
    }
  }

  lemma LocateBoth(s: Sm, old': OldBlock, new': Loc)
    requires Sizes(s) && CountersOk(s) && SegsOk(s, Touched(old', new')) && LogsOk(s)
    requires ValidLoc(s, new') && (old'.Block? ==> old'.loc.segno < s.geo.Segments())
    ensures var s2 := if old'.Block? then Locate(s, old'.loc.segno) else s;
            var s' := Locate(s2, new'.segno);
            && CountersOk(s') && SegsOk(s', {}) && LogsOk(s') && s'.logs == s.logs
  {
    var n := new'.segno;
    if old'.Block? {
      var o := old'.loc.segno;
      assert SegStale(s, o);
      LocateKeeps(s, o, Touched(old', new'));
      var s2 := Locate(s, o);
      SameLogs(s, s2);
      assert ValidLoc(s2, new');
      ValidIsInUse(s2, new', Touched(old', new') - {o});
      LocateKeeps(s2, n, Touched(old', new') - {o});
      assert Touched(old', new') - {o} - {n} == {};
      SameLogs(s2, Locate(s2, n));
    } else {
      assert SegStale(s, n);
      LocateKeeps(s, n, {n});
      SameLogs(s, Locate(s, n));
    }
  }

  lemma RefreshKeeps(s: Sm, old': OldBlock, new': Loc, now: nat, x: set<nat>)
    requires Sizes(s) && CountersOk(s) && SegsOk(s, x) && LogsOk(s) && x <= {new'.segno}
    requires Unneeded(s, new') && s.free.inuse[new'.segno] && !s.dirty.maps[PRE][new'.segno]
    requires forall u: nat :: u < NR_LOGS ==> Passed(s, u, new')
    requires old'.Block? ==> ValidLoc(s, old'.loc)
    ensures var s' := Refresh(s, old', new', now);
            && CountersOk(s') && SegsOk(s', {}) && LogsOk(s') && s'.logs == s.logs
  {
    SwapKeeps(s, old', new', now, x);
    LocateBoth(SwapBlocks(s, old', new', now), old', new');
  }

  /** refresh_sit_entry moves validity from the old block to the new one and nothing else. */
  ghost predicate Refreshed(s: Sm, s': Sm, old': OldBlock, new': Loc)
    requires Sizes(s)
  {
    && Sizes(s') && s'.geo == s.geo
    && s'.logs == s.logs && s'.ssa == s.ssa && s'.free == s.free && s'.slots == s.slots
    && (forall segno: nat :: segno < s.geo.Segments() ==>
          s'.entries[segno].kind == s.entries[segno].kind && s'.entries[segno].ckptMap == s.entries[segno].ckptMap)
    && (forall loc :: ValidLoc(s', loc) <==> loc == new' || (ValidLoc(s, loc) && old' != Block(loc)))
  }

  lemma UpdateSitMaps(s: Sm, loc: Loc, add: bool, now: nat)
    requires Sizes(s) && LocSizes(s, loc)
    ensures var s' := UpdateSit(s, loc, add, now);
            && s'.logs == s.logs && s'.ssa == s.ssa && s'.free == s.free && s'.slots == s.slots
            && (forall segno: nat :: segno < s.geo.Segments() ==>
                  s'.entries[segno].kind == s.entries[segno].kind && s'.entries[segno].ckptMap == s.entries[segno].ckptMap)
            && (forall l :: ValidLoc(s', l) <==> if l == loc then add else ValidLoc(s, l))
  {
  }

  lemma LocateMaps(s: Sm, k: nat)
    requires Sizes(s) && k < s.geo.Segments()
    ensures var s' := Locate(s, k);
            && s'.logs == s.logs && s'.ssa == s.ssa && s'.free == s.free && s'.slots == s.slots && s'.entries == s.entries
  {
  }

  lemma RefreshMaps(s: Sm, old': OldBlock, new': Loc, now: nat)
    requires Sizes(s) && LocSizes(s, new') && (old'.Block? ==> LocSizes(s, old'.loc) && old'.loc != new')
    ensures Refreshed(s, Refresh(s, old', new', now), old', new')
  {
    UpdateSitMaps(s, new', true, now);
    var s1 := UpdateSit(s, new', true, now);
    if old'.Block? {
      UpdateSitMaps(s1, old'.loc, false, now);
      var s2 := UpdateSit(s1, old'.loc, false, now);
      LocateMaps(s2, old'.loc.segno);
      LocateMaps(Locate(s2, old'.loc.segno), new'.segno);
    } else {
      LocateMaps(s1, new'.segno);
    }
  }

  // ------------------------------------------------------- allocate_data_block

  ghost predicate CanAllocate(s: Sm, t: nat, sum: Summary, choice: Choice)
    requires Sizes(s)
  {
    && t < NR_LOGS && s.logs[t].next < s.geo.blocksPerSeg && choice.segno < s.geo.Segments()
    && (LogFull(Advance(s, t, sum), t) ==> ChoiceOk(Advance(s, t, sum), t, choice))
  }

  /** A block that a log has handed out and nobody holds yet. */
  ghost predicate Pending(s: Sm, n: Loc)
    requires Sizes(s)
  {
    && Unneeded(s, n) && s.free.inuse[n.segno] && !s.dirty.maps[PRE][n.segno]
    && (forall u: nat :: u < NR_LOGS ==> Passed(s, u, n))
  }

  /** Both states have the same validity bits, and segments change type or use only by becoming a log. */
  ghost predicate SameMaps(s: Sm, s': Sm)
    requires Sizes(s)
  {
    && Sizes(s') && s'.geo == s.geo
    && (forall segno: nat :: segno < s.geo.Segments() ==>
          && s'.entries[segno].curMap == s.entries[segno].curMap
          && s'.entries[segno].ckptMap == s.entries[segno].ckptMap)
    && (forall segno: nat :: segno < s.geo.Segments() ==> KeptUse(s, s', segno))
  }

  ghost predicate KeptUse(s: Sm, s': Sm, segno: nat)
    requires Sizes(s) && Sizes(s') && s'.geo == s.geo && segno < s.geo.Segments()
  {
    || IsLog(s'.logs, segno)
    || (s'.entries[segno].kind == s.entries[segno].kind && s'.free.inuse[segno] == s.free.inuse[segno])
  }

  /** The summary blocks of segments in use changed only where log t recorded sum. */
  ghost predicate Recorded(s: Sm, s': Sm, t: nat, sum: Summary, segno: nat)
    requires Sizes(s) && Sizes(s') && s'.geo == s.geo && t < NR_LOGS && s.logs[t].next < s.geo.blocksPerSeg
    requires segno < s.geo.Segments()
  {
    var b := SumBlockOf(s, segno);
    SumBlockOf(s', segno) == if segno == s.logs[t].segno then b.(entries := b.entries[s.logs[t].next := sum]) else b
  }

  /** What holds when allocate_data_block turns to the SIT, in terms of the state before. */
  ghost predicate Hands(s: Sm, h: Sm, t: nat, sum: Summary, x: set<nat>)
    requires Sizes(s) && t < NR_LOGS && s.logs[t].next < s.geo.blocksPerSeg
  {
    && SameMaps(s, h) && h.slots == s.slots
    && CountersOk(h) && SegsOk(h, x) && x <= {s.logs[t].segno} && LogsOk(h) && LogsOpen(h)
    && Pending(h, NextBlock(s, t))
    && forall segno: nat :: segno < s.geo.Segments() && s.free.inuse[segno] && TypeOk(s, segno) ==>
         Recorded(s, h, t, sum, segno)
  }

  lemma AdvanceHands(s: Sm, t: nat, sum: Summary)
    requires Sizes(s) && CountersOk(s) && SegsOk(s, {}) && LogsOk(s) && t < NR_LOGS && s.logs[t].next < s.geo.blocksPerSeg
    ensures var h := Advance(s, t, sum);
            && SameMaps(s, h) && h.slots == s.slots && h.free == s.free && h.logs[t].segno == s.logs[t].segno
            && CountersOk(h) && SegsOk(h, {}) && LogsOk(h) && Pending(h, NextBlock(s, t))
            && (forall segno: nat :: segno < s.geo.Segments() ==> Recorded(s, h, t, sum, segno))
            && (forall u: nat :: u < NR_LOGS && u != t ==> h.logs[u] == s.logs[u])
            && (forall segno: nat :: segno < s.geo.Segments() ==> h.entries[segno].kind == s.entries[segno].kind)
  {
    var n, h := NextBlock(s, t), Advance(s, t, sum);
    NextBlockUnneeded(s, t);
    AdvanceKeeps(s, t, sum);
    assert h.logs[t].segno == n.segno && IsLog(h.logs, n.segno) && SegOk(h, n.segno);
    forall u: nat | u < NR_LOGS && u != t ensures h.logs[u].segno != n.segno {
      assert h.logs[u].segno != h.logs[t].segno;
    }
    forall segno: nat | segno < s.geo.Segments() ensures Recorded(s, h, t, sum, segno) {
      if segno == s.logs[t].segno {
        SumOfLog(s, t);
        SumOfLog(h, t);
      } else {
        SumOfOther(s, h, t, segno);
      }
    }
  }

  lemma MovedPending(s: Sm, s': Sm, t: nat, q: nat, n: Loc)
    requires Sizes(s) && t < NR_LOGS && Moves(s, s', t, q) && Pending(s, n) && n.segno == s.logs[t].segno
    ensures Pending(s', n)
  {
    forall u: nat | u < NR_LOGS ensures Passed(s', u, n) { assert Passed(s, u, n); }
  }

  lemma MovedMaps(s: Sm, s': Sm, t: nat, q: nat)
    requires Sizes(s) && t < NR_LOGS && Moves(s, s', t, q)
    ensures SameMaps(s, s')
  {
    assert s'.logs[t].segno == q;
  }

  lemma MoveHands(s: Sm, s1: Sm, h: Sm, t: nat, sum: Summary, q: nat)
    requires Sizes(s) && t < NR_LOGS && s.logs[t].next < s.geo.blocksPerSeg && LogsOpen(s)
    requires SameMaps(s, s1) && s1.slots == s.slots && s1.free == s.free && s1.logs[t].segno == s.logs[t].segno
    requires CountersOk(s1) && SegsOk(s1, {}) && LogsOk(s1) && Pending(s1, NextBlock(s, t))
    requires forall segno: nat :: segno < s.geo.Segments() ==> Recorded(s, s1, t, sum, segno)
    requires forall u: nat :: u < NR_LOGS && u != t ==> s1.logs[u] == s.logs[u]
    requires forall segno: nat :: segno < s.geo.Segments() ==> s1.entries[segno].kind == s.entries[segno].kind
    requires Moves(s1, h, t, q)
    ensures Hands(s, h, t, sum, {s.logs[t].segno})
  {
    MovedKeeps(s1, h, t, q);
    MovedMaps(s1, h, t, q);
    MovedPending(s1, h, t, q, NextBlock(s, t));
    forall segno: nat | segno < s.geo.Segments() && s.free.inuse[segno] && TypeOk(s, segno)
      ensures Recorded(s, h, t, sum, segno)
    {
      assert Recorded(s, s1, t, sum, segno);
      MovedSums(s1, h, t, q, segno);
    }
    forall segno: nat | segno < s.geo.Segments() ensures KeptUse(s, h, segno) {
      assert KeptUse(s1, h, segno);
    }
  }

  /** The segment the log has left, if it had to move. */
  ghost function Left(s: Sm, t: nat, sum: Summary): set<nat>
    requires Sizes(s) && t < NR_LOGS && s.logs[t].next < s.geo.blocksPerSeg
  {
    if LogFull(Advance(s, t, sum), t) then {s.logs[t].segno} else {}
  }

  lemma HandedHands(s: Sm, t: nat, sum: Summary, choice: Choice)
    requires Sizes(s) && CountersOk(s) && SegsOk(s, {}) && LogsOk(s) && LogsOpen(s) && CanAllocate(s, t, sum, choice)
    ensures Hands(s, Handed(s, t, sum, choice), t, sum, Left(s, t, sum))
  {
    var s1 := Advance(s, t, sum);
    AdvanceHands(s, t, sum);
    if LogFull(s1, t) {
      SwitchMoves(s1, t, choice);
      MoveHands(s, s1, SwitchLog(s1, t, choice), t, sum, choice.segno);
    }
  }

  /** What allocate_data_block leaves behind, in terms of the state before. */
  ghost predicate Allocates(s: Sm, s': Sm, t: nat, old': OldBlock, sum: Summary)
    requires Sizes(s) && t < NR_LOGS && s.logs[t].next < s.geo.blocksPerSeg
  {
    && Sizes(s') && s'.geo == s.geo && s'.slots == s.slots
    && CountersOk(s') && SegsOk(s', {}) && LogsOk(s') && LogsOpen(s')
    && Unneeded(s, NextBlock(s, t))
    && (forall loc :: ValidLoc(s', loc) <==> loc == NextBlock(s, t) || (ValidLoc(s, loc) && old' != Block(loc)))
    && (forall segno: nat :: segno < s.geo.Segments() ==> s'.entries[segno].ckptMap == s.entries[segno].ckptMap)
    && (forall segno: nat :: segno < s.geo.Segments() ==> KeptUse(s, s', segno))
    && forall segno: nat :: segno < s.geo.Segments() && s.free.inuse[segno] && TypeOk(s, segno) ==>
         Recorded(s, s', t, sum, segno)
  }

  lemma RefreshAllocates(s: Sm, h: Sm, t: nat, old': OldBlock, sum: Summary, now: nat, x: set<nat>)
    requires Sizes(s) && t < NR_LOGS && s.logs[t].next < s.geo.blocksPerSeg && Hands(s, h, t, sum, x)
    requires old'.Block? ==> ValidLoc(s, old'.loc)
    ensures LocSizes(h, NextBlock(s, t)) && (old'.Block? ==> LocSizes(h, old'.loc))
    ensures Allocates(s, Refresh(h, old', NextBlock(s, t), now), t, old', sum)
  {
    var n := NextBlock(s, t);
    var s' := Refresh(h, old', n, now);
    assert forall loc :: ValidLoc(h, loc) <==> ValidLoc(s, loc);
    RefreshKeeps(h, old', n, now, x);
    RefreshMaps(h, old', n, now);
    RefreshedAllocates(s, h, s', t, old', sum, x);
  }

  lemma RefreshedAllocates(s: Sm, h: Sm, s': Sm, t: nat, old': OldBlock, sum: Summary, x: set<nat>)
    requires Sizes(s) && t < NR_LOGS && s.logs[t].next < s.geo.blocksPerSeg && Hands(s, h, t, sum, x)
    requires Sizes(s') && CountersOk(s') && SegsOk(s', {}) && LogsOk(s')
    requires Refreshed(h, s', old', NextBlock(s, t))
    ensures Allocates(s, s', t, old', sum)
  {
    assert forall loc :: ValidLoc(h, loc) <==> ValidLoc(s, loc);
    forall segno: nat | segno < s.geo.Segments() && s.free.inuse[segno] && TypeOk(s, segno)
      ensures Recorded(s, s', t, sum, segno)
    {
      assert Recorded(s, h, t, sum, segno);
      SameSums(h, s', segno);
    }
    forall segno: nat | segno < s.geo.Segments() ensures KeptUse(s, s', segno) {
      assert KeptUse(s, h, segno);
    }
  }

  /** allocate_data_block keeps everything but the forward map, which the caller updates. */
  lemma AllocateAllocates(s: Sm, t: nat, old': OldBlock, sum: Summary, now: nat, choice: Choice)
    requires Sizes(s) && CountersOk(s) && SegsOk(s, {}) && LogsOk(s) && LogsOpen(s) && CanAllocate(s, t, sum, choice)
    requires old'.Block? ==> ValidLoc(s, old'.loc)
    ensures Allocates(s, Allocate(s, t, old', sum, now, choice), t, old', sum)
  {
    HandedHands(s, t, sum, choice);
    RefreshAllocates(s, Handed(s, t, sum, choice), t, old', sum, now, Left(s, t, sum));
  }

  // ------------------------------------------------------- where the log stands afterwards

  /** The first offset from a place on that is valid in neither map, or the end if there is none. */
  ghost predicate FirstClear(e: SegEntry, from: nat, pos: nat)
    requires |e.curMap| == |e.ckptMap|
  {
    && pos <= |e.curMap|
    && (forall k :: from <= k < pos ==> e.curMap[k] || e.ckptMap[k])
    && (pos < |e.curMap| ==> from <= pos && !e.curMap[pos] && !e.ckptMap[pos])
  }

  /** Some block behind the next one can be written to the log without a move. */
  ghost predicate GoesOn(l: Log, e: SegEntry)
    requires |e.curMap| == |e.ckptMap|
  {
    if l.ssr then exists k :: l.next < k < |e.curMap| && !e.curMap[k] && !e.ckptMap[k] else l.next + 1 < |e.curMap|
  }

  /**
    Where a log stands once its next block has been handed out: one further in its
    segment, or at the first later offset that no map needs if the segment is reused;
    when there is none, at the start of a segment that was free, or at the first
    offset no map needs of one that is reused.
   */
  ghost predicate StandsBehind(s: Sm, l: Log, l': Log)
    requires Sizes(s) && l.segno < s.geo.Segments()
  {
    var e := s.entries[l.segno];
    && l'.segno < s.geo.Segments() && l'.next < s.geo.blocksPerSeg
    && if GoesOn(l, e) then
         && l'.segno == l.segno && l'.ssr == l.ssr
         && if l.ssr then FirstClear(e, l.next + 1, l'.next) else l'.next == l.next + 1
       else if l'.ssr then FirstClear(s.entries[l'.segno], 0, l'.next)
       else !s.free.inuse[l'.segno] && l'.next == 0
  }

  lemma RefreshKeepsLogs(s: Sm, old': OldBlock, new': Loc, now: nat)
    requires Sizes(s) && LocSizes(s, new') && (old'.Block? ==> LocSizes(s, old'.loc))
    ensures Refresh(s, old', new', now).logs == s.logs
  {
    hide Sizes, RemoveFrom, LocateIn;
  }

  lemma AdvanceStands(s: Sm, t: nat, sum: Summary)
    requires Sizes(s) && t < NR_LOGS && s.logs[t].next < s.geo.blocksPerSeg
    ensures var l, l' := s.logs[t], Advance(s, t, sum).logs[t];
            && EntrySizes(s.geo, s.entries[l.segno])
            && l'.segno == l.segno && l'.ssr == l.ssr
            && (if l.ssr then FirstClear(s.entries[l.segno], l.next + 1, l'.next) else l'.next == l.next + 1)
            && (GoesOn(l, s.entries[l.segno]) <==> !LogFull(Advance(s, t, sum), t))
  {
    var e := s.entries[s.logs[t].segno];
    assert forall k :: 0 <= k < |e.curMap| ==> Needed(e)[k] == (e.curMap[k] || e.ckptMap[k]);
  }

  /** What handing out the next block leaves as it was. */
  lemma AdvanceHands'(s: Sm, t: nat, sum: Summary)
    requires Sizes(s) && CountersOk(s) && SegsOk(s, {}) && LogsOk(s) && t < NR_LOGS && s.logs[t].next < s.geo.blocksPerSeg
    ensures var h := Advance(s, t, sum);
            CountersOk(h) && SegsOk(h, {}) && h.entries == s.entries && h.free == s.free
  {
    AdvanceHands(s, t, sum);
  }

  lemma ReusedStands(s: Sm, t: nat, segno: nat)
    requires Sizes(s) && CountersOk(s) && SegsOk(s, {}) && Eligible(s, t, segno) && t < NR_LOGS
    ensures EntrySizes(s.geo, s.entries[segno])
    ensures var l' := ReuseLog(s, t, segno).logs[t];
            l'.segno == segno && l'.ssr && l'.next < s.geo.blocksPerSeg && FirstClear(s.entries[segno], 0, l'.next)
  {
    EligibleIsDirty(s, t, segno);
    var e := s.entries[segno];
    assert forall k :: 0 <= k < |e.curMap| ==> Needed(e)[k] == (e.curMap[k] || e.ckptMap[k]);
  }

  lemma HandedStands(s: Sm, t: nat, sum: Summary, choice: Choice)
    requires Sizes(s) && CountersOk(s) && SegsOk(s, {}) && LogsOk(s) && CanAllocate(s, t, sum, choice)
    ensures StandsBehind(s, s.logs[t], Handed(s, t, sum, choice).logs[t])
  {
    var a := Advance(s, t, sum);
    AdvanceStands(s, t, sum);
    AdvanceHands'(s, t, sum);
    if LogFull(a, t) && choice.Reuse? { ReusedStands(a, t, choice.segno); }
    hide CountersOk, SegsOk, LogsOk, Advance, GoesOn, FirstClear, ReuseLog;
  }

  lemma AllocateStands(s: Sm, t: nat, old': OldBlock, sum: Summary, now: nat, choice: Choice)
    requires Sizes(s) && CountersOk(s) && SegsOk(s, {}) && LogsOk(s) && CanAllocate(s, t, sum, choice)
    requires old'.Block? ==> LocSizes(s, old'.loc)
    ensures StandsBehind(s, s.logs[t], Allocate(s, t, old', sum, now, choice).logs[t])
  {
    HandedStands(s, t, sum, choice);
    hide CountersOk, SegsOk, LogsOk, StandsBehind, Handed, Refresh;
    RefreshKeepsLogs(Handed(s, t, sum, choice), old', NextBlock(s, t), now);
  }

  // ------------------------------------------------------- write

  ghost function OldOf(s: Sm, o: Owner): OldBlock {
    if o in s.slots then Block(s.slots[o].loc) else NoBlock
  }

  ghost predicate CanWrite(s: Sm, o: Owner, version: nat, t: nat, choice: Choice)
    requires Sizes(s)
  {
    o.isNode == IsNodeLog(t) && CanAllocate(s, t, Summary(o.nid, o.ofsInNode, version), choice)
  }

  /** Out-of-place write of the block an owner holds: write_data_page, write_node_page. */
  ghost function Write(s: Sm, o: Owner, version: nat, t: nat, now: nat, choice: Choice): Sm
    requires Inv(s) && CanWrite(s, o, version, t, choice)
  {
    assert o in s.slots ==> SlotOk(s, o);
    Allocate(s, t, OldOf(s, o), Summary(o.nid, o.ofsInNode, version), now, choice)
      .(slots := s.slots[o := Slot(NextBlock(s, t), version)])
  }

  lemma SlotsInjective(s: Sm, o: Owner, p: Owner)
    requires Sizes(s) && SlotsOk(s) && o in s.slots && p in s.slots && s.slots[o].loc == s.slots[p].loc
    ensures o == p
  {
    assert SlotOk(s, o) && SlotOk(s, p);
  }

  lemma SlotsDoNotMatter(s: Sm, s': Sm)
    requires Sizes(s) && s' == s.(slots := s'.slots)
    ensures Sizes(s')
    ensures CountersOk(s) ==> CountersOk(s')
    ensures SegsOk(s, {}) ==> SegsOk(s', {})
    ensures LogsOk(s) ==> LogsOk(s')
  {
    if SegsOk(s, {}) {
      forall segno: nat | segno < s'.geo.Segments() ensures SegOk(s', segno) { assert SegOk(s, segno); }
    }
    if LogsOk(s) {
      forall u: nat | u < NR_LOGS ensures LogOk(s', u) { assert LogOk(s, u); }
    }
  }

  /** a is the state allocate_data_block leaves; s' also points the owner at the new block. */
  ghost predicate Writes(s: Sm, a: Sm, s': Sm, o: Owner, version: nat, t: nat)
  {
    && Inv(s) && t < NR_LOGS && o.isNode == IsNodeLog(t)
    && Allocates(s, a, t, OldOf(s, o), Summary(o.nid, o.ofsInNode, version))
    && s' == a.(slots := s.slots[o := Slot(NextBlock(s, t), version)])
    && Sizes(s') && LogsOk(s')
  }

  lemma WrittenOwner(s: Sm, a: Sm, s': Sm, o: Owner, version: nat, t: nat, loc: Loc)
    requires Writes(s, a, s', o, version, t) && (ValidLoc(s, loc) || loc == NextBlock(s, t))
    ensures LocSizes(s, loc) && LocSizes(s', loc)
    ensures OwnerAt(s', loc) == (if loc == NextBlock(s, t) then o else OwnerAt(s, loc))
    ensures SumBlockOf(s', loc.segno).entries[loc.off].version
         == (if loc == NextBlock(s, t) then version else SumBlockOf(s, loc.segno).entries[loc.off].version)
  {
    if loc == NextBlock(s, t) {
      assert IsLog(s.logs, loc.segno) && SegOk(s, loc.segno) && LogOk(s, t);
      SumOfLog(s, t);
    } else {
      ValidIsInUse(s, loc, {});
    }
    assert TypeOk(s, loc.segno);
    assert Recorded(s, a, t, Summary(o.nid, o.ofsInNode, version), loc.segno);
    SameSums(a, s', loc.segno);
  }

  lemma WrittenSlot(s: Sm, a: Sm, s': Sm, o: Owner, version: nat, t: nat, p: Owner)
    requires Writes(s, a, s', o, version, t) && p in s'.slots
    ensures SlotOk(s', p)
  {
    assert forall loc :: ValidLoc(s', loc) <==> ValidLoc(a, loc);
    if p == o {
      WrittenOwner(s, a, s', o, version, t, NextBlock(s, t));
    } else {
      assert SlotOk(s, p);
      if o in s.slots && s.slots[p].loc == s.slots[o].loc { SlotsInjective(s, o, p); }
      WrittenOwner(s, a, s', o, version, t, s.slots[p].loc);
    }
  }

  lemma WrittenBlock(s: Sm, a: Sm, s': Sm, o: Owner, version: nat, t: nat, loc: Loc)
    requires Writes(s, a, s', o, version, t) && ValidLoc(s', loc)
    ensures BlockOk(s', loc)
  {
    assert ValidLoc(a, loc);
    WrittenOwner(s, a, s', o, version, t, loc);
    if loc != NextBlock(s, t) { assert BlockOk(s, loc); }
  }

  lemma LogType(s: Sm, segno: nat)
    requires Sizes(s) && LogsOk(s) && segno < s.geo.Segments() && IsLog(s.logs, segno)
    ensures TypeOk(s, segno)
  {
    var u: nat :| u < NR_LOGS && s.logs[u].segno == segno;
    assert LogOk(s, u);
    SumOfLog(s, u);
  }

  lemma WrittenType(s: Sm, a: Sm, s': Sm, o: Owner, version: nat, t: nat, segno: nat)
    requires Writes(s, a, s', o, version, t) && segno < s'.geo.Segments() && s'.free.inuse[segno]
    ensures TypeOk(s', segno)
  {
    if IsLog(s'.logs, segno) {
      LogType(s', segno);
    } else {
      assert KeptUse(s, a, segno);
      assert TypeOk(s, segno);
      assert Recorded(s, a, t, Summary(o.nid, o.ofsInNode, version), segno);
      SameSums(a, s', segno);
    }
  }

  lemma WrittenInv(s: Sm, a: Sm, s': Sm, o: Owner, version: nat, t: nat)
    requires Writes(s, a, s', o, version, t)
    ensures Inv(s')
  {
    SlotsDoNotMatter(a, s');
    forall p | p in s'.slots ensures SlotOk(s', p) { WrittenSlot(s, a, s', o, version, t, p); }
    forall loc | ValidLoc(s', loc) ensures BlockOk(s', loc) { WrittenBlock(s, a, s', o, version, t, loc); }
    forall segno: nat | segno < s'.geo.Segments() && s'.free.inuse[segno] ensures TypeOk(s', segno) {
      WrittenType(s, a, s', o, version, t, segno);
    }
  }

  /** A write keeps the invariant, and the block it takes was needed by nobody. */
  lemma WriteKeepsInv(s: Sm, o: Owner, version: nat, t: nat, now: nat, choice: Choice)
    requires Inv(s) && CanWrite(s, o, version, t, choice)
    ensures var s' := Write(s, o, version, t, now, choice);
            && Inv(s') && Unneeded(s, NextBlock(s, t)) && s'.geo == s.geo
            && (forall segno: nat :: segno < s.geo.Segments() ==> s'.entries[segno].ckptMap == s.entries[segno].ckptMap)
  {
    var sum := Summary(o.nid, o.ofsInNode, version);
    assert o in s.slots ==> SlotOk(s, o);
    AllocateAllocates(s, t, OldOf(s, o), sum, now, choice);
    var a := Allocate(s, t, OldOf(s, o), sum, now, choice);
    var s' := Write(s, o, version, t, now, choice);
    SlotsDoNotMatter(a, s');
    WrittenInv(s, a, s', o, version, t);
  }
}
