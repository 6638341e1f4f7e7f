/**
  The segment manager in place: the operations of segment.c on segment entries,
  dirty lists, open logs and the free map, each proved to do what its function in
  SegmentModel says, and the victim search of gc.c that SSR allocation relies on.
 */
module SegmentManagement {
  import opened Bitmap
  import opened FreeSegmap
  import opened SegmentModel
  import opened SegmentProofs
  import opened SegmentRuns

  /** What need_SSR and has_not_enough_free_secs look at besides the free sections. */
  datatype Pressure = Pressure(nodeSecs: nat, dentSecs: nat, reservedSecs: nat, porDoing: bool, noheap: bool)

  predicate NeedSsr(freeSections: int, p: Pressure) {
    freeSections <= p.nodeSecs + 2 * p.dentSecs + p.reservedSecs + 1
  }

  predicate NotEnoughFreeSecs(freeSections: int, p: Pressure) {
    !p.porDoing && freeSections <= p.nodeSecs + 2 * p.dentSecs + p.reservedSecs
  }

  function DirOf(t: nat, p: Pressure): Direction {
    if t == WARM_DATA || t == COLD_DATA || p.noheap then AllocRight else AllocLeft
  }

  predicate IsLogSection(g: Geometry, logs: seq<Log>, secno: nat)
    requires g.Valid()
  {
    exists t :: 0 <= t < |logs| && SecOf(g, logs[t].segno) == secno
  }

  /** A segment the search for log type t considers: dirty, its section neither open nor chosen for cleaning. */
  predicate Candidate(s: Sm, cleaning: int, t: nat, segno: nat)
    requires s.geo.Valid() && t < |s.dirty.maps|
  {
    && segno < |s.dirty.maps[t]| && s.dirty.maps[t][segno]
    && !IsLogSection(s.geo, s.logs, SecOf(s.geo, segno))
    && cleaning != SecOf(s.geo, segno)
    && SecOf(s.geo, segno) < |s.dirty.victimSec| && !s.dirty.victimSec[SecOf(s.geo, segno)]
  }

  /** A candidate in which some block is needed by nobody. */
  ghost predicate HasVictim(s: Sm, cleaning: int, t: nat)
    requires Sizes(s) && t < NR_LOGS
  {
    exists segno: nat :: segno < s.geo.Segments() && Candidate(s, cleaning, t, segno)
                         && s.entries[segno].ckptBlocks < s.geo.blocksPerSeg
  }

  /** Log types get_ssr_segment searches for log t. */
  predicate Searched(t: nat, notEnough: bool, k: nat) {
    k < NR_LOGS && if IsNodeLog(t) || !notEnough then k == t else k <= t
  }

  ghost predicate SsrFinds(s: Sm, cleaning: int, t: nat, p: Pressure)
    requires Sizes(s)
  {
    && NeedSsr(s.free.freeSections, p)
    && exists k: nat :: Searched(t, NotEnoughFreeSecs(s.free.freeSections, p), k) && HasVictim(s, cleaning, k)
  }

  predicate NextSegmentFree(s: Sm, segno: nat)
    requires s.geo.Valid() && |s.free.inuse| == s.geo.Segments()
  {
    segno + 1 < s.geo.Segments() && (segno + 1) % s.geo.segsPerSec != 0 && !s.free.inuse[segno + 1]
  }

  /** Whether allocate_segment_by_default turns to SSR. */
  ghost predicate TriesSsr(s: Sm, t: nat, force: bool)
    requires Sizes(s) && t < NR_LOGS
  {
    !force && t != WARM_NODE && !(!s.logs[t].ssr && NextSegmentFree(s, s.logs[t].segno))
  }

  ghost predicate NewSegmentPossible(s: Sm, t: nat, newSec: bool)
    requires Sizes(s) && t < NR_LOGS
  {
    NextInSection(s.geo, s.free, s.logs[t].segno, newSec) || NextZero(s.free.secInuse, 0) < |s.free.secInuse|
  }

  /** Log t can be replaced: SSR finds a victim, or a new segment can be had. The source stops the system otherwise. */
  ghost predicate CanReplace(s: Sm, cleaning: int, t: nat, force: bool, p: Pressure)
    requires Sizes(s) && t < NR_LOGS
  {
    (TriesSsr(s, t, force) && SsrFinds(s, cleaning, t, p)) || NewSegmentPossible(s, t, force)
  }

  /**
    The policy: an old segment is reused unless the caller asks for a new section, the
    log is that of warm nodes, or it was filled in order and the next segment is free;
    and only when free sections are short and the search finds a victim, for data logs
    also among hotter types if sections are even shorter. Else the log gets a new segment.
   */
  ghost predicate ReuseFollowsPolicy(s: Sm, cleaning: int, t: nat, force: bool, p: Pressure, reuse: bool)
    requires Sizes(s) && t < NR_LOGS
  {
    var next, wanted := s.logs[t].segno + 1, p.nodeSecs + 2 * p.dentSecs + p.reservedSecs;
    reuse <==>
      && !force && t != WARM_NODE
      && (s.logs[t].ssr || next >= s.geo.Segments() || next % s.geo.segsPerSec == 0 || s.free.inuse[next])
      && s.free.freeSections <= wanted + 1
      && exists k: nat :: k <= t && (k == t || (t <= COLD_DATA && !p.porDoing && s.free.freeSections <= wanted)) && HasVictim(s, cleaning, k)
  }

  lemma PolicyIs(s: Sm, cleaning: int, t: nat, force: bool, p: Pressure, reuse: bool)
    requires Sizes(s) && t < NR_LOGS
    ensures ReuseFollowsPolicy(s, cleaning, t, force, p, reuse) <==>
              (reuse <==> TriesSsr(s, t, force) && SsrFinds(s, cleaning, t, p))
  {
    hide HasVictim;
    var notEnough := NotEnoughFreeSecs(s.free.freeSections, p);
    if k: nat :| k <= t && (k == t || (t <= COLD_DATA && notEnough)) && HasVictim(s, cleaning, k) {
      assert Searched(t, notEnough, k);
    }
  }

  /** The free segment a log moves to: warm and cold data go to the right, and all logs do without a heap. */
  ghost predicate FreshFor(s: Sm, t: nat, newSec: bool, p: Pressure, segno: nat)
    requires Sizes(s) && t < NR_LOGS && NewSegmentPossible(s, t, newSec)
  {
    && SecOf(s.geo, s.logs[t].segno) < s.geo.sections
    && segno == ChooseSegment(s.geo, s.free, s.logs[t].segno, newSec,
                              if t == 1 || t == 2 || p.noheap then AllocRight else AllocLeft,
                              [s.logs[0].zone, s.logs[1].zone, s.logs[2].zone, s.logs[3].zone, s.logs[4].zone, s.logs[5].zone])
  }

  // ------------------------------------------------------- the state of a victim search

  /** victim_sel_policy: where the scan stands, and the cheapest segment so far. */
  datatype VictimPolicy = VictimPolicy(offset: nat, minCost: int, minSegno: int)

  /** Set bits below k. */
  ghost function Ones(map': seq<bool>, k: nat): nat
    requires k <= |map'|
  {
    if k == 0 then 0 else Ones(map', k - 1) + if map'[k - 1] then 1 else 0
  }

  lemma {:induction false} OnesIsCount(map': seq<bool>, k: nat)
    requires k <= |map'|
    ensures Ones(map', k) == Count(map'[..k])
  {
    if k > 0 {
      OnesIsCount(map', k - 1);
      assert map'[..k][..k - 1] == map'[..k - 1];
    }
  }

  lemma {:induction false} OnesGrow(map': seq<bool>, a: nat, b: nat)
    requires a <= b <= |map'|
    ensures Ones(map', a) <= Ones(map', b)
    ensures (forall i :: a <= i < b ==> !map'[i]) ==> Ones(map', a) == Ones(map', b)
    decreases b
  {
    if a < b { OnesGrow(map', a, b - 1); }
  }

  /** Segment i lies where a scan that started at from passed before it stopped at to. */
  predicate Between(from: nat, i: nat, to: nat) {
    if from <= to then from <= i <= to else i >= from || i <= to
  }

  ghost predicate NoneCheaper(cand: seq<bool>, costs: seq<int>, cost: int)
    requires |cand| == |costs|
  {
    forall i :: 0 <= i < |cand| && cand[i] ==> cost <= costs[i]
  }

  /** At most as many candidates were counted as bits visited by a scan that began at from and may have gone around. */
  ghost predicate CountOk(map': seq<bool>, from: nat, wrapped: bool, nsearched: nat, offset: nat) {
    && from <= |map'| && offset <= |map'| && (!wrapped ==> from <= offset)
    && nsearched <= (if wrapped then Ones(map', |map'|) else 0) + Ones(map', offset) - Ones(map', from)
  }

  ghost predicate SeenOk(cand: seq<bool>, costs: seq<int>, cost: int, from: nat, wrapped: bool, offset: nat)
    requires |cand| == |costs|
  {
    forall i :: 0 <= i < |cand| && cand[i] && (if wrapped then i < offset || from <= i else from <= i < offset)
      ==> cost <= costs[i]
  }

  ghost predicate BestOk(cand: seq<bool>, costs: seq<int>, maxCost: int, p: VictimPolicy)
    requires |cand| == |costs|
  {
    if p.minSegno < 0 then p.minCost == maxCost
    else p.minSegno < |cand| && cand[p.minSegno] && p.minCost == costs[p.minSegno] < maxCost
  }

  ghost predicate Subset(cand: seq<bool>, map': seq<bool>) {
    |cand| == |map'| && forall i :: 0 <= i < |cand| && cand[i] ==> map'[i]
  }

  lemma CountAdvances(map': seq<bool>, from: nat, wrapped: bool, nsearched: nat, offset: nat, counted: bool)
    requires CountOk(map', from, wrapped, nsearched, offset) && NextOne(map', offset) < |map'|
    ensures var segno := NextOne(map', offset);
            && CountOk(map', from, wrapped, nsearched + (if counted then 1 else 0), segno + 1)
            && (nsearched >= Ones(map', |map'|) ==> wrapped && from <= segno)
  {
    var segno := NextOne(map', offset);
    OnesGrow(map', offset, segno);
    AllCounted(map', from, wrapped, segno, nsearched);
  }

  /** As many bits as there are can lie before segno, itself set, only when the scan has gone around. */
  lemma AllCounted(map': seq<bool>, from: nat, wrapped: bool, segno: nat, nsearched: nat)
    requires segno < |map'| && map'[segno] && CountOk(map', from, wrapped, nsearched, segno)
    ensures nsearched >= Ones(map', |map'|) ==> wrapped && from <= segno
  {
    OnesGrow(map', segno + 1, |map'|);
    if segno < from { OnesGrow(map', segno + 1, from); }
  }

  /** The scan moves on to the next dirty segment, whose cost has been taken into account if it is a candidate. */
  lemma SeenAdvances(map': seq<bool>, cand: seq<bool>, costs: seq<int>, cost: int, cost': int,
                     from: nat, wrapped: bool, offset: nat)
    requires Subset(cand, map') && |costs| == |cand| && NextOne(map', offset) < |map'|
    requires SeenOk(cand, costs, cost, from, wrapped, offset) && cost' <= cost
    requires var segno := NextOne(map', offset); cand[segno] ==> cost' <= costs[segno]
    ensures SeenOk(cand, costs, cost', from, wrapped, NextOne(map', offset) + 1)
    ensures wrapped && from <= NextOne(map', offset) ==> NoneCheaper(cand, costs, cost')
  {
  }

  lemma ScanWraps(map': seq<bool>, cand: seq<bool>, costs: seq<int>, cost: int, from: nat, nsearched: nat, offset: nat)
    requires Subset(cand, map') && |costs| == |cand| && NextOne(map', offset) >= |map'|
    requires CountOk(map', from, false, nsearched, offset) && SeenOk(cand, costs, cost, from, false, offset)
    ensures CountOk(map', from, true, nsearched, 0) && SeenOk(cand, costs, cost, from, true, 0)
  {
    OnesGrow(map', offset, |map'|);
  }

  /** A scan that stops behind segno has seen what lies between its start and segno. */
  lemma StoppedAt(cand: seq<bool>, costs: seq<int>, cost: int, from: nat, last: nat, segno: nat)
    requires |cand| == |costs| && SeenOk(cand, costs, cost, if from == 0 then |cand| else from, last == 0, segno + 1)
    requires last == 0 || (last == from && from <= segno)
    ensures forall i: nat :: i < |cand| && cand[i] && Between(from, i, segno) ==> cost <= costs[i]
  {
  }

  /** A scan that has gone around and found the end has seen every candidate. */
  lemma ScanEnds(map': seq<bool>, cand: seq<bool>, costs: seq<int>, cost: int, from: nat, offset: nat)
    requires Subset(cand, map') && |costs| == |cand|
    requires SeenOk(cand, costs, cost, from, true, offset) && NextOne(map', offset) >= |map'|
    ensures NoneCheaper(cand, costs, cost)
  {
  }

  class SegmentManager {
    const free: FreeSegmapInfo
    const maxVictimSearch: nat
    var entries: seq<SegEntry>
    var secValid: seq<int>
    var sitDirty: seq<bool>
    var dirtySentries: int
    var dirtySegmap: seq<seq<bool>>
    var nrDirty: seq<int>
    var victimSecmap: seq<bool>
    var logs: seq<Log>
    var ssa: seq<SumBlock>
    /** last_victim for greedy search, and cur_victim_sec (negative when no section is being cleaned) */
    var lastVictim: nat
    var curVictimSec: int
    /** the forward map kept by the callers: which block each node slot and each node holds */
    ghost var slots: map<Owner, Slot>

    ghost function Abs(): Sm
      reads this, free
    {
      Sm(free.geo, entries, secValid, sitDirty, dirtySentries, free.Abs(),
         DirtyMap(dirtySegmap, nrDirty, victimSecmap), logs, ssa, slots)
    }

    ghost predicate Valid()
      reads this, free
    {
      Sizes(Abs()) && free.Valid() && lastVictim < free.geo.Segments()
    }

    /** build_sit_entries up to the maps: entries as read, every segment still marked in use, no dirty list. */
    constructor (g: Geometry, maxSearch: nat, es: seq<SegEntry>, ls: seq<Log>, sums: seq<SumBlock>)
      requires g.Valid() && |es| == g.Segments() > 0 && |ls| == NR_LOGS && |sums| == g.Segments()
      requires forall segno :: 0 <= segno < |es| ==> EntrySizes(g, es[segno])
      requires forall segno :: 0 <= segno < |sums| ==> |sums[segno].entries| == g.blocksPerSeg
      requires forall t :: 0 <= t < NR_LOGS ==> LogSizes(g, ls[t])
      ensures Unbuilt() && free.geo == g && fresh(free)
      ensures entries == es && logs == ls && ssa == sums && maxVictimSearch == maxSearch
      ensures sitDirty == Clear(g.Segments()) && dirtySentries == 0
    {
      free := new FreeSegmapInfo(g);
      maxVictimSearch := maxSearch;
      entries, logs, ssa := es, ls, sums;
      secValid := seq(if g.segsPerSec > 1 then g.sections else 0, _ => 0);
      sitDirty, dirtySentries := Clear(g.Segments()), 0;
      dirtySegmap, nrDirty := seq(NR_DIRTY_TYPE, _ => Clear(g.Segments())), seq(NR_DIRTY_TYPE, _ => 0);
      victimSecmap := Clear(g.sections);
      lastVictim, curVictimSec := 0, -1;
      slots := map[];
      new;
      CountExtremes(Clear(g.Segments()));
    }

    // ----------------------------------------------------- dirty lists

    /** test_and_set_bit on one of the dirty maps, with its counter. */
    method SetDirtyBit(t: nat, segno: nat)
      requires Valid() && t < NR_DIRTY_TYPE && segno < free.geo.Segments()
      modifies this`dirtySegmap, this`nrDirty
      ensures Valid()
      ensures old(DirtySizes(free.geo, Abs().dirty)) && Abs() == old(Abs()).(dirty := SetDirty(old(Abs()).dirty, t, segno))
    {
      if !dirtySegmap[t][segno] {
        dirtySegmap := dirtySegmap[t := dirtySegmap[t][segno := true]];
        nrDirty := nrDirty[t := nrDirty[t] + 1];
      }
    }

    method ClearDirtyBit(t: nat, segno: nat)
      requires Valid() && t < NR_DIRTY_TYPE && segno < free.geo.Segments()
      modifies this`dirtySegmap, this`nrDirty
      ensures Valid()
      ensures old(DirtySizes(free.geo, Abs().dirty)) && Abs() == old(Abs()).(dirty := ClearDirty(old(Abs()).dirty, t, segno))
    {
      if dirtySegmap[t][segno] {
        dirtySegmap := dirtySegmap[t := dirtySegmap[t][segno := false]];
        nrDirty := nrDirty[t := nrDirty[t] - 1];
      }
    }

    /** __locate_dirty_segment. */
    method LocateDirty(segno: nat, t: nat)
      requires Valid() && t < NR_DIRTY_TYPE && segno < free.geo.Segments()
      modifies this`dirtySegmap, this`nrDirty
      ensures Valid()
      ensures old(Sizes(Abs()))
      ensures Abs() == if IsLog(logs, segno) then old(Abs())
                       else old(Abs()).(dirty := LocateIn(free.geo, old(Abs()).dirty, segno, t, entries[segno].kind))
    {
      if IsLog(logs, segno) { return; }
      SetDirtyBit(t, segno);
      if t == DIRTY { SetDirtyBit(entries[segno].kind, segno); }
    }

    /** __remove_dirty_segment. */
    method RemoveDirty(segno: nat, t: nat)
      requires Valid() && t < NR_DIRTY_TYPE && segno < free.geo.Segments()
      modifies this`dirtySegmap, this`nrDirty, this`victimSecmap
      ensures Valid()
      ensures old(Sizes(Abs())) && SecOf(free.geo, segno) < free.geo.sections
      ensures Abs() == old(Abs()).(dirty := RemoveFrom(free.geo, old(Abs()).dirty, segno, t, entries[segno].kind,
                                                       SectionBlocks(old(Abs()), segno) == 0))
    {
      assert SecOf(free.geo, segno) < free.geo.sections;
      ClearDirtyBit(t, segno);
      if t == DIRTY {
        ClearDirtyBit(entries[segno].kind, segno);
        var blocks := GetValidBlocks(segno);
        if blocks == 0 {
          victimSecmap := victimSecmap[segno / free.geo.segsPerSec := false];
        }
      }
    }

    /** get_valid_blocks for the section of a segment. */
    method GetValidBlocks(segno: nat) returns (n: int)
      requires Valid() && segno < free.geo.Segments()
      ensures n == SectionBlocks(Abs(), segno)
    {
      assert SecOf(free.geo, segno) < free.geo.sections;
      n := if free.geo.segsPerSec > 1 then secValid[segno / free.geo.segsPerSec] else entries[segno].validBlocks;
    }

    /** locate_dirty_segment. */
    method LocateDirtySegment(segno: nat)
      requires Valid() && segno < free.geo.Segments()
      modifies this`dirtySegmap, this`nrDirty, this`victimSecmap
      ensures Valid()
      ensures old(Sizes(Abs())) && Abs() == Locate(old(Abs()), segno)
    {
      if IsLog(logs, segno) { return; }
      var validBlocks := entries[segno].validBlocks;
      if validBlocks == 0 {
        LocateDirty(segno, PRE);
        RemoveDirty(segno, DIRTY);
      } else if validBlocks < free.geo.blocksPerSeg {
        LocateDirty(segno, DIRTY);
      } else {
        RemoveDirty(segno, DIRTY);
      }
    }

    // ----------------------------------------------------- segment entries

    /** __mark_sit_entry_dirty. */
    method MarkSitEntryDirty(segno: nat)
      requires segno < |sitDirty|
      modifies this`sitDirty, this`dirtySentries
      ensures old(Valid()) ==> Valid()
      ensures segno < |old(sitDirty)| && Abs() == MarkSitDirty(old(Abs()), segno)
    {
      if !sitDirty[segno] {
        sitDirty := sitDirty[segno := true];
        dirtySentries := dirtySentries + 1;
      }
    }

    /** update_sit_entry; the source stops the system when the bit already has the wanted value. */
    method UpdateSitEntry(loc: Loc, del: int, now: nat)
      requires Valid() && LocSizes(Abs(), loc) && (del == 1 || del == -1)
      requires entries[loc.segno].curMap[loc.off] == (del < 0)
      modifies this`entries, this`secValid, this`sitDirty, this`dirtySentries
      ensures Valid()
      ensures old(Sizes(Abs())) && Abs() == UpdateSit(old(Abs()), loc, del > 0, now)
    {
      ghost var after := UpdateSit(Abs(), loc, del > 0, now);
      assert SecOf(free.geo, loc.segno) < free.geo.sections;
      var se := entries[loc.segno];
      se := se.(validBlocks := se.validBlocks + del, mtime := now);
      se := se.(curMap := se.curMap[loc.off := del > 0]);
      if !se.ckptMap[loc.off] {
        se := se.(ckptBlocks := se.ckptBlocks + del);
      }
      MarkSitEntryDirty(loc.segno);
      entries := entries[loc.segno := se];
      if free.geo.segsPerSec > 1 {
        var secno := loc.segno / free.geo.segsPerSec;
        secValid := secValid[secno := secValid[secno] + del];
      }
      assert Abs() == after;
    }

    /** refresh_sit_entry. */
    method RefreshSitEntry(old': OldBlock, new': Loc, now: nat)
      requires Valid() && LocSizes(Abs(), new') && !entries[new'.segno].curMap[new'.off]
      requires old'.Block? ==> ValidLoc(Abs(), old'.loc)
      modifies this`entries, this`secValid, this`sitDirty, this`dirtySentries,
               this`dirtySegmap, this`nrDirty, this`victimSecmap
      ensures Valid()
      ensures old(Sizes(Abs())) && Abs() == Refresh(old(Abs()), old', new', now)
    {
      UpdateSitEntry(new', 1, now);
      if old'.Block? {
        UpdateSitEntry(old'.loc, -1, now);
        LocateDirtySegment(old'.loc.segno);
      }
      LocateDirtySegment(new'.segno);
    }

    /** invalidate_blocks on a main-area address. */
    method InvalidateBlocks(loc: Loc, now: nat)
      requires Valid() && ValidLoc(Abs(), loc)
      modifies this`entries, this`secValid, this`sitDirty, this`dirtySentries,
               this`dirtySegmap, this`nrDirty, this`victimSecmap
      ensures Valid()
      ensures old(Sizes(Abs())) && Abs() == Invalidate(old(Abs()), loc, now)
    {
      UpdateSitEntry(loc, -1, now);
      LocateDirtySegment(loc.segno);
    }

    // ----------------------------------------------------- open logs

    /** __add_sum_entry and __refresh_next_blkoff. */
    method AddSumEntry(t: nat, sum: Summary)
      requires Valid() && t < NR_LOGS && logs[t].next < free.geo.blocksPerSeg
      modifies this`logs
      ensures Valid()
      ensures old(Sizes(Abs())) && Abs() == Advance(old(Abs()), t, sum)
      ensures logs[t].sum.entries == old(logs[t]).sum.entries[old(logs[t]).next := sum]
      ensures var l := old(logs[t]);
              && (!l.ssr ==> logs[t].next == l.next + 1)
              && (l.ssr ==> FirstClear(entries[l.segno], l.next + 1, logs[t].next))
    {
      var l := logs[t];
      l := l.(sum := l.sum.(entries := l.sum.entries[l.next := sum]));
      AdvanceStands(Abs(), t, sum);
      var pos: nat := l.next + 1;
      if l.ssr { pos := NextFreeBlkoff(l.segno, l.next + 1); }
      logs := logs[t := l.(next := pos)];
    }

    /** __next_free_blkoff: the first offset that neither map needs. */
    method NextFreeBlkoff(segno: nat, start: nat) returns (pos: nat)
      requires Valid() && segno < free.geo.Segments()
      ensures pos == NextZero(Needed(entries[segno]), start) && pos <= free.geo.blocksPerSeg
    {
      var se := entries[segno];
      var target := [];
      for i := 0 to |se.curMap|
        invariant target == Union(se.curMap, se.ckptMap)[..i]
      {
        target := target + [se.ckptMap[i] || se.curMap[i]];
      }
      assert target == Needed(se);
      pos := NextZero(target, start);
    }

    method WriteSumPage(t: nat)
      requires Valid() && t < NR_LOGS
      modifies this`ssa
      ensures Valid()
      ensures old(Sizes(Abs())) && Abs() == SaveSummary(old(Abs()), t)
    {
      ssa := ssa[logs[t].segno := logs[t].sum];
    }

    /** reset_curseg, with the allocation type and offset its callers set. */
    method ResetCurseg(t: nat, segno: nat, ssr: bool, next: nat, sums: seq<Summary>)
      requires Valid() && t < NR_LOGS && segno < free.geo.Segments()
      requires next <= free.geo.blocksPerSeg && |sums| == free.geo.blocksPerSeg
      modifies this`logs, this`entries, this`sitDirty, this`dirtySentries
      ensures Valid()
      ensures old(Sizes(Abs())) && Abs() == ResetLog(old(Abs()), t, segno, ssr, next, sums)
    {
      ghost var after := ResetLog(Abs(), t, segno, ssr, next, sums);
      var zone := segno / free.geo.segsPerSec / free.geo.secsPerZone;
      MarkSitEntryDirty(segno);
      entries := entries[segno := entries[segno].(kind := t)];
      logs := logs[t := Log(segno, next, ssr, zone, SumBlock(sums, IsNodeLog(t)))];
      assert Abs() == after;
    }

    /** new_curseg. */
    method NewCurseg(t: nat, newSec: bool, p: Pressure) returns (segno: nat)
      requires Valid() && t < NR_LOGS && NewSegmentPossible(Abs(), t, newSec)
      modifies this`ssa, this`logs, this`entries, this`sitDirty, this`dirtySentries, free
      ensures Valid() && segno < free.geo.Segments() && !old(free.freeSegmap)[segno]
      ensures old(Sizes(Abs())) && Abs() == NewLog(old(Abs()), t, segno)
      ensures old(FreshFor(Abs(), t, newSec, p, segno))
    {
      ghost var was := Abs();
      var sums := logs[t].sum.entries;
      WriteSumPage(t);
      segno := free.GetNewSegment(logs[t].segno, newSec, DirOf(t, p), Zones());
      assert Abs() == SaveSummary(was, t).(free := TakeSegment(was.geo, was.free, segno));
      ResetCurseg(t, segno, false, 0, sums);
      assert Abs() == NewLog(was, t, segno);
    }

    /** The zones of the open logs. */
    function Zones(): seq<nat>
      requires |logs| == NR_LOGS
      reads this
    {
      [logs[HOT_DATA].zone, logs[WARM_DATA].zone, logs[COLD_DATA].zone,
       logs[HOT_NODE].zone, logs[WARM_NODE].zone, logs[COLD_NODE].zone]
    }

    /** change_curseg with reuse. */
    method ChangeCurseg(t: nat, segno: nat)
      requires Valid() && t < NR_LOGS && segno < free.geo.Segments()
      modifies this`ssa, this`logs, this`entries, this`sitDirty, this`dirtySentries,
               this`dirtySegmap, this`nrDirty, this`victimSecmap, free
      ensures Valid()
      ensures old(Sizes(Abs())) && Abs() == ReuseLog(old(Abs()), t, segno)
    {
      ghost var was := Abs();
      WriteSumPage(t);
      free.SetTestAndInuse(segno);
      RemoveDirty(segno, PRE);
      RemoveDirty(segno, DIRTY);
      assert Abs() == SaveSummary(was, t).(free := TakeSegment(was.geo, was.free, segno), dirty := Abs().dirty);
      var next := NextFreeBlkoff(segno, 0);
      ResetCurseg(t, segno, true, next, ssa[segno].entries);
      assert Abs() == ReuseLog(was, t, segno);
    }

    // ----------------------------------------------------- victim search

    /**
      get_victim_by_default for SSR: a greedy scan of the dirty list of type t that
      starts where the last one stopped, goes around at most once, and gives up
      after maxVictimSearch candidates. minSegno is negative when nothing was found.
     */
    method GetVictim(t: nat) returns (minSegno: int)
      requires Valid() && t < NR_LOGS && nrDirty[t] == Count(dirtySegmap[t])
      requires forall i :: 0 <= i < |entries| ==> entries[i].ckptBlocks <= free.geo.blocksPerSeg
      modifies this`lastVictim
      ensures Valid()
      ensures minSegno >= 0 ==>
                && minSegno < free.geo.Segments() && Candidate(Abs(), curVictimSec, t, minSegno)
                && entries[minSegno].ckptBlocks < free.geo.blocksPerSeg
      ensures minSegno < 0 ==> !HasVictim(Abs(), curVictimSec, t)
      ensures minSegno >= 0 && nrDirty[t] <= maxVictimSearch ==>
                forall segno: nat :: segno < free.geo.Segments() && Candidate(Abs(), curVictimSec, t, segno) ==>
                  entries[minSegno].ckptBlocks <= entries[segno].ckptBlocks
      ensures minSegno >= 0 ==>
                forall segno: nat :: segno < free.geo.Segments() && Candidate(Abs(), curVictimSec, t, segno) && Between(old(lastVictim), segno, lastVictim) ==>
                  entries[minSegno].ckptBlocks <= entries[segno].ckptBlocks
    {
      ghost var s := Abs();
      ghost var n, cleaning := |entries|, curVictimSec;
      ghost var cand := seq(n, i requires 0 <= i < n => Candidate(s, cleaning, t, i));
      ghost var costs := seq(n, i requires 0 <= i < n => s.entries[i].ckptBlocks);
      OnesIsCount(dirtySegmap[t], n);
      assert dirtySegmap[t][..n] == dirtySegmap[t];
      var p := SearchDirtyList(t, s, cand, costs);
      minSegno := p.minSegno;
      assert Abs() == s;
    }

    /** s agrees with what the search reads. */
    ghost predicate Looks(s: Sm)
      reads this`logs, this`dirtySegmap, this`victimSecmap
    {
      s.geo == free.geo && s.logs == logs && s.dirty.maps == dirtySegmap && s.dirty.victimSec == victimSecmap
    }

    method SearchDirtyList(t: nat, ghost s: Sm, ghost cand: seq<bool>, ghost costs: seq<int>) returns (p: VictimPolicy)
      requires free.geo.Valid() && t < |dirtySegmap| && t < |nrDirty| && nrDirty[t] == Ones(dirtySegmap[t], |dirtySegmap[t]|)
      requires lastVictim < |dirtySegmap[t]| == |cand| == |entries| == |costs|
      requires forall i: nat {:trigger SecOf(free.geo, i)} :: i < |cand| ==> SecOf(free.geo, i) < |victimSecmap|
      requires Looks(s) && forall i: nat :: i < |cand| ==> cand[i] == Candidate(s, curVictimSec, t, i)
      requires forall i: nat :: i < |costs| ==> costs[i] == entries[i].ckptBlocks <= free.geo.blocksPerSeg
      modifies this`lastVictim
      ensures lastVictim < |cand|
      ensures BestOk(cand, costs, free.geo.blocksPerSeg, p)
      ensures p.minSegno < 0 || nrDirty[t] <= maxVictimSearch ==> NoneCheaper(cand, costs, p.minCost)
      ensures forall i: nat :: i < |cand| && cand[i] && Between(old(lastVictim), i, lastVictim) ==> p.minCost <= costs[i]
    {
      var dirtyMap, maxCost := dirtySegmap[t], free.geo.blocksPerSeg;
      var maxSearch := if nrDirty[t] > maxVictimSearch then maxVictimSearch else nrDirty[t];
      p := VictimPolicy(lastVictim, maxCost, -1);
      var nsearched: nat := 0;
      ghost var from: nat := if lastVictim == 0 then |dirtyMap| else lastVictim;
      assert Subset(cand, dirtyMap) && SeenOk(cand, costs, p.minCost, from, lastVictim == 0, p.offset);
      assert CountOk(dirtyMap, from, lastVictim == 0, nsearched, p.offset) && BestOk(cand, costs, maxCost, p);
      hide SeenOk, CountOk, BestOk, NoneCheaper, Subset, Ones;
      while true
        invariant lastVictim < |dirtyMap| && (lastVictim == 0 || (lastVictim == old(lastVictim) && from <= p.offset))
        invariant CountOk(dirtyMap, from, lastVictim == 0, nsearched, p.offset)
        invariant BestOk(cand, costs, maxCost, p)
        invariant SeenOk(cand, costs, p.minCost, from, lastVictim == 0, p.offset)
        decreases lastVictim, |dirtyMap| - p.offset
      {
        var segno := NextOne(dirtyMap, p.offset);
        if segno >= |dirtyMap| {
          if lastVictim != 0 {
            ScanWraps(dirtyMap, cand, costs, p.minCost, from, nsearched, p.offset);
            lastVictim := 0;
            p := p.(offset := 0);
            continue;
          }
          ScanEnds(dirtyMap, cand, costs, p.minCost, from, p.offset);
          break;
        }
        var counted;
        p, counted := WeighNext(segno, t, s, cand, costs, from, nsearched, p);
        if counted {
          nsearched := nsearched + 1;
          if nsearched - 1 >= maxSearch {
            StoppedAt(cand, costs, p.minCost, old(lastVictim), lastVictim, segno);
            lastVictim := segno;
            break;
          }
        }
      }
    }

    /** One round of the scan, and what it keeps. */
    method WeighNext(segno: nat, t: nat, ghost s: Sm, ghost cand: seq<bool>, ghost costs: seq<int>, ghost from: nat, nsearched: nat, p: VictimPolicy)
      returns (p': VictimPolicy, counted: bool)
      requires free.geo.Valid() && t < |dirtySegmap| && |dirtySegmap[t]| == |cand| == |entries| == |costs|
      requires segno == NextOne(dirtySegmap[t], p.offset) < |cand| && SecOf(free.geo, segno) < |victimSecmap|
      requires Looks(s) && Subset(cand, dirtySegmap[t]) && forall i: nat :: i < |cand| ==> cand[i] == Candidate(s, curVictimSec, t, i)
      requires forall i: nat :: i < |costs| ==> costs[i] == entries[i].ckptBlocks <= free.geo.blocksPerSeg
      requires CountOk(dirtySegmap[t], from, lastVictim == 0, nsearched, p.offset)
      requires SeenOk(cand, costs, p.minCost, from, lastVictim == 0, p.offset) && BestOk(cand, costs, free.geo.blocksPerSeg, p)
      ensures p'.offset == segno + 1 && BestOk(cand, costs, free.geo.blocksPerSeg, p') && (counted ==> p'.minSegno >= 0)
      ensures CountOk(dirtySegmap[t], from, lastVictim == 0, nsearched + (if counted then 1 else 0), p'.offset)
      ensures SeenOk(cand, costs, p'.minCost, from, lastVictim == 0, p'.offset)
      ensures lastVictim == 0 || nsearched < Ones(dirtySegmap[t], |dirtySegmap[t]|)
      ensures nsearched >= Ones(dirtySegmap[t], |dirtySegmap[t]|) ==> NoneCheaper(cand, costs, p'.minCost)
    {
      p', counted := Weigh(segno, t, s, p);
      CountAdvances(dirtySegmap[t], from, lastVictim == 0, nsearched, p.offset, counted);
      SeenAdvances(dirtySegmap[t], cand, costs, p.minCost, p'.minCost, from, lastVictim == 0, p.offset);
    }

    /** One round of the scan: the policy afterwards, and whether the segment counts as searched. */
    method Weigh(segno: nat, t: nat, ghost s: Sm, p: VictimPolicy) returns (p': VictimPolicy, counted: bool)
      requires free.geo.Valid() && t < |dirtySegmap| && segno < |dirtySegmap[t]| == |entries| && dirtySegmap[t][segno]
      requires SecOf(free.geo, segno) < |victimSecmap| && entries[segno].ckptBlocks <= free.geo.blocksPerSeg
      requires Looks(s) && p.minCost <= free.geo.blocksPerSeg
      requires p.minSegno < 0 ==> p.minCost == free.geo.blocksPerSeg
      ensures p'.offset == segno + 1
      ensures var cost := entries[segno].ckptBlocks;
              if Candidate(s, curVictimSec, t, segno) && cost < p.minCost then p'.minSegno == segno && p'.minCost == cost
              else p'.minSegno == p.minSegno && p'.minCost == p.minCost
      ensures counted ==> p'.minSegno >= 0
    {
      var maxCost := free.geo.blocksPerSeg;
      p', counted := p.(offset := segno + 1), false;
      var considered := IsConsidered(segno, t, s);
      if !considered { return; }
      var cost := entries[segno].ckptBlocks;
      if p.minCost > cost {
        p' := p'.(minSegno := segno, minCost := cost);
      } else if cost == maxCost {
        return;
      }
      counted := true;
    }

    /** sec_usage_check and the test for sections already chosen by background cleaning. */
    method IsConsidered(segno: nat, t: nat, ghost s: Sm) returns (b: bool)
      requires free.geo.Valid() && t < |dirtySegmap| && segno < |dirtySegmap[t]| && dirtySegmap[t][segno]
      requires SecOf(free.geo, segno) < |victimSecmap| && Looks(s)
      ensures b == Candidate(s, curVictimSec, t, segno)
      ensures var secno := segno / free.geo.segsPerSec;
              b <==> && (forall u :: 0 <= u < |logs| ==> logs[u].segno / free.geo.segsPerSec != secno)
                     && curVictimSec != secno && !victimSecmap[secno]
    {
      var secno := segno / free.geo.segsPerSec;
      assert secno == SecOf(free.geo, segno);
      if IsLogSection(free.geo, logs, secno) || curVictimSec == secno { return false; }
      if victimSecmap[secno] { return false; }
      return true;
    }

    // ----------------------------------------------------- replacing a full log

    /** get_ssr_segment: data logs also look among hotter types when free sections run short. */
    method GetSsrSegment(t: nat, p: Pressure) returns (segno: int)
      requires Valid() && CountersOk(Abs()) && t < NR_LOGS
      modifies this`lastVictim
      ensures Valid()
      ensures segno >= 0 ==> Eligible(Abs(), t, segno)
      ensures segno >= 0 ==>
                exists k: nat :: k <= t && Candidate(Abs(), curVictimSec, k, segno)
                  && forall j: nat :: k < j <= t ==> !HasVictim(Abs(), curVictimSec, j)
      ensures segno >= 0 <==>
                exists k: nat :: Searched(t, NotEnoughFreeSecs(free.freeSections, p), k) && HasVictim(Abs(), curVictimSec, k)
    {
      ghost var s, cleaning := Abs(), curVictimSec;
      hide Eligible, HasVictim, Candidate;
      var notEnough := NotEnoughFreeSecs(free.freeSections, p);
      if IsNodeLog(t) || !notEnough {
        segno := GetVictim(t);
        if segno >= 0 { VictimIsEligible(s, cleaning, t, t, notEnough, segno); }
        return;
      }
      var k := t;
      while k >= 0
        invariant -1 <= k <= t && lastVictim < free.geo.Segments()
        invariant forall j: nat :: k < j <= t ==> !HasVictim(s, cleaning, j)
      {
        assert Abs() == s;
        segno := GetVictim(k);
        if segno >= 0 {
          VictimIsEligible(s, cleaning, t, k, notEnough, segno);
          return;
        }
        k := k - 1;
      }
      segno := -1;
    }

    /** allocate_segment_by_default: replaces a log; the choice taken is returned. */
    method AllocateSegmentByDefault(t: nat, force: bool, p: Pressure) returns (choice: Choice)
      requires Valid() && CountersOk(Abs()) && t < NR_LOGS && CanReplace(Abs(), curVictimSec, t, force, p)
      modifies this`ssa, this`logs, this`entries, this`sitDirty, this`dirtySentries,
               this`dirtySegmap, this`nrDirty, this`victimSecmap, this`lastVictim, free
      ensures Valid()
      ensures old(Valid()) && old(ChoiceOk(Abs(), t, choice)) && Abs() == SwitchLog(old(Abs()), t, choice)
      ensures old(ReuseFollowsPolicy(Abs(), curVictimSec, t, force, p, choice.Reuse?))
      ensures choice.Fresh? ==> old(NewSegmentPossible(Abs(), t, force) && FreshFor(Abs(), t, force, p, choice.segno))
    {
      var segno := TrySsr(t, force, p);
      if segno >= 0 {
        ChangeCurseg(t, segno);
        choice := Reuse(segno);
      } else {
        segno := NewCurseg(t, force, p);
        choice := Fresh(segno);
      }
    }

    /** The tests of allocate_segment_by_default that come before change_curseg. */
    method TrySsr(t: nat, force: bool, p: Pressure) returns (segno: int)
      requires Valid() && CountersOk(Abs()) && t < NR_LOGS
      modifies this`lastVictim
      ensures Valid() && Abs() == old(Abs())
      ensures segno >= 0 ==> Eligible(Abs(), t, segno)
      ensures ReuseFollowsPolicy(Abs(), curVictimSec, t, force, p, segno >= 0)
      ensures CanReplace(Abs(), curVictimSec, t, force, p) ==> segno >= 0 || NewSegmentPossible(Abs(), t, force)
    {
      segno := FindSsr(t, force, p);
      PolicyIs(Abs(), curVictimSec, t, force, p, segno >= 0);
    }

    method FindSsr(t: nat, force: bool, p: Pressure) returns (segno: int)
      requires Valid() && CountersOk(Abs()) && t < NR_LOGS
      modifies this`lastVictim
      ensures Valid() && Abs() == old(Abs())
      ensures segno >= 0 ==> Eligible(Abs(), t, segno)
      ensures segno >= 0 <==> TriesSsr(Abs(), t, force) && SsrFinds(Abs(), curVictimSec, t, p)
    {
      segno := -1;
      if !force && t != WARM_NODE && !(!logs[t].ssr && IsNextSegmentFree(t)) && NeedSsr(free.freeSections, p) {
        segno := GetSsrSegment(t, p);
      }
    }

    /** is_next_segment_free. */
    predicate IsNextSegmentFree(t: nat)
      requires Valid() && t < NR_LOGS
      reads this, free
    {
      var segno := logs[t].segno + 1;
      if segno < |free.freeSegmap| && segno % free.geo.segsPerSec != 0 then !free.freeSegmap[segno] else false
    }

    /**
      allocate_data_block: hands out the next block of log t, replaces the log when
      it is full, and moves validity from the old block to the new one.
     */
    method AllocateDataBlock(t: nat, old': OldBlock, sum: Summary, now: nat, p: Pressure)
      returns (blk: Loc, ghost choice: Choice)
      requires Valid() && Inv(Abs()) && t < NR_LOGS && (old'.Block? ==> ValidLoc(Abs(), old'.loc))
      requires var a := Advance(Abs(), t, sum); LogFull(a, t) ==> CanReplace(a, curVictimSec, t, false, p)
      modifies this`entries, this`secValid, this`sitDirty, this`dirtySentries, this`dirtySegmap, this`nrDirty,
               this`victimSecmap, this`logs, this`ssa, this`lastVictim, free
      ensures Valid()
      ensures old(Valid() && Inv(Abs()) && CanAllocate(Abs(), t, sum, choice))
      ensures blk == old(NextBlock(Abs(), t)) && old(Unneeded(Abs(), blk))
      ensures Abs() == Allocate(old(Abs()), t, old', sum, now, choice)
      ensures StandsBehind(old(Abs()), old(logs[t]), logs[t])
    {
      ghost var s := Abs();
      blk := Loc(logs[t].segno, logs[t].next);
      choice := HandOut(t, sum, p);
      RefreshSitEntry(old', blk, now);
      hide StandsBehind, Inv, Allocate;
      AllocateStands(s, t, old', sum, now, choice);
    }

    /** The part of allocate_data_block that turns to the log. */
    method HandOut(t: nat, sum: Summary, p: Pressure) returns (ghost choice: Choice)
      requires Valid() && Inv(Abs()) && t < NR_LOGS
      requires var a := Advance(Abs(), t, sum); LogFull(a, t) ==> CanReplace(a, curVictimSec, t, false, p)
      modifies this`entries, this`sitDirty, this`dirtySentries, this`dirtySegmap, this`nrDirty,
               this`victimSecmap, this`logs, this`ssa, this`lastVictim, free
      ensures Valid() && old(Inv(Abs()) && CanAllocate(Abs(), t, sum, choice)) && old(Unneeded(Abs(), NextBlock(Abs(), t)))
      ensures Abs() == Handed(old(Abs()), t, sum, choice) && SameMaps(old(Abs()), Abs())
    {
      ghost var s := Abs();
      AddSumEntry(t, sum);
      ghost var a := Abs();
      AdvanceHands(s, t, sum);
      choice := Fresh(logs[t].segno);
      if logs[t].next >= free.geo.blocksPerSeg {
        choice := AllocateSegmentByDefault(t, false, p);
      }
      HandedHands(s, t, sum, choice);
    }

    /** Out-of-place write of the block of an owner: do_write_page, and the caller's update of the slot that holds the address. */
    method WriteBlock(t: nat, ghost o: Owner, old': OldBlock, sum: Summary, now: nat, p: Pressure)
      returns (blk: Loc, ghost choice: Choice)
      requires Valid() && Inv(Abs()) && t < NR_LOGS
      requires o == Owner(IsNodeLog(t), sum.nid, sum.ofsInNode) && old' == OldOf(Abs(), o)
      requires var a := Advance(Abs(), t, sum); LogFull(a, t) ==> CanReplace(a, curVictimSec, t, false, p)
      modifies this, free
      ensures Valid() && Inv(Abs())
      ensures old(Valid() && Inv(Abs()) && CanWrite(Abs(), o, sum.version, t, choice))
      ensures blk == old(NextBlock(Abs(), t)) && old(Unneeded(Abs(), blk))
      ensures Abs() == Write(old(Abs()), o, sum.version, t, now, choice)
    {
      ghost var s := Abs();
      assert o in slots ==> SlotOk(s, o);
      hide StandsBehind;
      blk, choice := AllocateDataBlock(t, old', sum, now, p);
      WriteKeepsInv(s, o, sum.version, t, now, choice);
      ghost var a := Abs();
      slots := slots[o := Slot(blk, sum.version)];
      assert Abs() == a.(slots := s.slots[o := Slot(blk, sum.version)]);
      assert Abs() == Write(s, o, sum.version, t, now, choice);
    }

    /** The block of an owner goes away: truncation of a slot, or removal of a node. */
    method DropBlock(ghost o: Owner, loc: Loc, now: nat)
      requires Valid() && Inv(Abs()) && o in slots && slots[o].loc == loc
      modifies this
      ensures Valid() && Inv(Abs())
      ensures old(Inv(Abs())) && Abs() == Drop(old(Abs()), o, now)
    {
      ghost var s := Abs();
      assert SlotOk(s, o);
      InvalidateBlocks(loc, now);
      slots := slots - {o};
      DropKeepsInv(s, o, now);
      assert Abs() == Drop(s, o, now);
    }

    /** One round of allocate_new_segments. */
    method MoveToNewSegment(t: nat, p: Pressure) returns (segno: nat)
      requires Valid() && Inv(Abs()) && t < NR_LOGS && free.freeSections > 0
      modifies this, free
      ensures Valid() && Inv(Abs()) && free.freeSections >= old(free.freeSections) - 1
      ensures segno < free.geo.Segments() && !old(free.freeSegmap)[segno]
      ensures Moved(old(Abs()), t, segno, Abs())
    {
      ghost var s := Abs();
      FreeSectionExists(s.geo, s.free);
      var oldSegno := logs[t].segno;
      var choice := AllocateSegmentByDefault(t, true, p);
      segno := choice.segno;
      LocateDirtySegment(oldSegno);
      FreshSection(s, t, p, segno);
      MoveLogKeepsInv(s, t, segno);
    }

    /** allocate_new_segments: every data log moves to a free section of its own. */
    method AllocateNewSegments(p: Pressure) returns (segnos: seq<nat>, ghost states: seq<Sm>)
      requires Valid() && Inv(Abs()) && free.freeSections >= 3
      modifies this, free
      ensures Valid() && Inv(Abs())
      ensures AllMoved(states, segnos, 3) && states[0] == old(Abs()) && states[3] == Abs()
    {
      segnos, states := [], [Abs()];
      for t: nat := HOT_DATA to COLD_DATA + 1
        invariant Valid() && Inv(Abs()) && free.freeSections >= 3 - t
        invariant AllMoved(states, segnos, t) && states[0] == old(Abs()) && states[t] == Abs()
      {
        var segno := MoveToNewSegment(t, p);
        MovedMore(states, segnos, t, segno, Abs());
        segnos, states := segnos + [segno], states + [Abs()];
      }
    }

    // ----------------------------------------------------- checkpoint

    /** set_prefree_as_free_segments. */
    method SetPrefreeAsFree()
      requires Valid()
      modifies free
      ensures Valid() && old(Sizes(Abs()))
      ensures Abs() == old(Abs()).(free := FreePrefree(free.geo, old(free.Abs()), dirtySegmap[PRE], |free.freeSegmap|))
    {
      ghost var f := free.Abs();
      for segno: nat := 0 to free.geo.Segments()
        invariant Valid() && free.Abs() == FreePrefree(free.geo, f, dirtySegmap[PRE], segno)
      {
        if dirtySegmap[PRE][segno] { free.SetTestAndFree(segno); }
      }
    }

    /** clear_prefree_segments, which clears the map run by run. */
    method ClearPrefree()
      requires Valid() && nrDirty[PRE] == Count(dirtySegmap[PRE])
      modifies this`dirtySegmap, this`nrDirty
      ensures Valid() && old(Sizes(Abs()))
      ensures dirtySegmap == old(dirtySegmap)[PRE := Clear(free.geo.Segments())] && nrDirty == old(nrDirty)[PRE := 0]
    {
      var n := free.geo.Segments();
      var end: nat := 0;
      while true
        invariant Valid() && end <= n && nrDirty[PRE] == Count(dirtySegmap[PRE])
        invariant dirtySegmap == old(dirtySegmap)[PRE := dirtySegmap[PRE]] && nrDirty == old(nrDirty)[PRE := nrDirty[PRE]]
        invariant forall i :: 0 <= i < end ==> !dirtySegmap[PRE][i]
        decreases n - end
      {
        var start := NextOne(dirtySegmap[PRE], end);
        if start >= n { break; }
        end := NextZero(dirtySegmap[PRE], start + 1);
        var map' := ClearRun(dirtySegmap[PRE], start, end);
        dirtySegmap := dirtySegmap[PRE := map'];
        nrDirty := nrDirty[PRE := nrDirty[PRE] - (end - start)];
      }
      CountExtremes(dirtySegmap[PRE]);
      assert dirtySegmap[PRE] == Clear(n);
    }

    static method ClearRun(bits: seq<bool>, start: nat, end: nat) returns (r: seq<bool>)
      requires start <= end <= |bits| && forall i :: start <= i < end ==> bits[i]
      ensures |r| == |bits| && Count(r) == Count(bits) - (end - start)
      ensures forall i :: 0 <= i < |bits| ==> r[i] == (bits[i] && !(start <= i < end))
    {
      r := bits;
      for i := start to end
        invariant |r| == |bits| && Count(r) == Count(bits) - (i - start)
        invariant forall j :: 0 <= j < |bits| ==> r[j] == (bits[j] && !(start <= j < i))
      {
        CountUpdate(r, i, false);
        r := r[i := false];
      }
    }

    // ----------------------------------------------------- mount

    /** The end of build_segment_manager: section counts, free map and dirty lists from the entries as read. */
    method BuildMaps()
      requires Unbuilt() && forall segno :: 0 <= segno < |entries| ==> 0 <= entries[segno].validBlocks <= free.geo.blocksPerSeg
      modifies this, free
      ensures Built(Abs()) && entries == old(entries) && logs == old(logs) && ssa == old(ssa)
      ensures sitDirty == old(sitDirty) && dirtySentries == old(dirtySentries)
      ensures free.geo.segsPerSec > 1 ==>
                forall secno: nat :: secno < free.geo.sections ==>
                  secValid[secno] == SectionSum(free.geo, entries, secno, |entries|)
    {
      SumSections();
      InitFreeSegmap();
      InitDirtySegmap();
    }

    /** The state of a new manager: nothing is free, nothing is dirty. */
    ghost predicate Unbuilt()
      reads this, free
    {
      && Valid() && DirtyCounts(free.geo, Abs().dirty)
      && (forall t, i :: 0 <= t < NR_DIRTY_TYPE && 0 <= i < free.geo.Segments() ==> !dirtySegmap[t][i])
      && (forall i :: 0 <= i < free.geo.Segments() ==> free.freeSegmap[i])
      && (forall i :: 0 <= i < |secValid| ==> secValid[i] == 0)
    }

    method SumSections()
      requires Unbuilt()
      modifies this`secValid
      ensures Valid()
      ensures free.geo.segsPerSec > 1 ==>
                forall secno: nat :: secno < free.geo.sections ==>
                  secValid[secno] == SectionSum(free.geo, entries, secno, |entries|)
    {
      if free.geo.segsPerSec > 1 {
        for start: nat := 0 to |entries|
          invariant |secValid| == free.geo.sections
          invariant forall secno: nat :: secno < free.geo.sections ==>
                      secValid[secno] == SectionSum(free.geo, entries, secno, start)
        {
          var secno := start / free.geo.segsPerSec;
          assert secno == SecOf(free.geo, start);
          secValid := secValid[secno := secValid[secno] + entries[start].validBlocks];
        }
      }
    }

    /** init_free_segmap: segments without valid blocks are freed, then the open logs taken back. */
    method InitFreeSegmap()
      requires Valid() && forall i :: 0 <= i < free.geo.Segments() ==> free.freeSegmap[i]
      modifies free
      ensures Valid()
      ensures forall segno: nat :: segno < free.geo.Segments() ==>
                free.freeSegmap[segno] == (entries[segno].validBlocks != 0 || IsLog(logs, segno))
    {
      for start: nat := 0 to free.geo.Segments()
        invariant Valid()
        invariant forall i :: 0 <= i < free.geo.Segments() ==>
                    free.freeSegmap[i] == (i >= start || entries[i].validBlocks != 0)
      {
        if entries[start].validBlocks == 0 { free.SetFree(start); }
      }
      SetLogsInuse();
    }

    method SetLogsInuse()
      requires Valid()
      modifies free
      ensures Valid()
      ensures forall segno: nat :: segno < free.geo.Segments() ==>
                free.freeSegmap[segno] == (old(free.freeSegmap)[segno] || IsLog(logs, segno))
    {
      for t: nat := HOT_DATA to COLD_NODE + 1
        invariant Valid()
        invariant forall i: nat :: i < free.geo.Segments() ==>
                    free.freeSegmap[i] == (old(free.freeSegmap)[i] || IsLog(logs[..t], i))
      {
        free.SetTestAndInuse(logs[t].segno);
        forall i: nat ensures IsLog(logs[..t + 1], i) == (IsLog(logs[..t], i) || logs[t].segno == i) {
          IsLogStep(logs, t, i);
        }
      }
      assert logs[..NR_LOGS] == logs;
    }

    /** init_dirty_segmap. */
    method InitDirtySegmap()
      requires Valid() && DirtyCounts(free.geo, Abs().dirty)
      requires forall t, i :: 0 <= t < NR_DIRTY_TYPE && 0 <= i < free.geo.Segments() ==> !dirtySegmap[t][i]
      requires forall segno :: 0 <= segno < |entries| ==> 0 <= entries[segno].validBlocks <= free.geo.blocksPerSeg
      requires forall segno: nat :: segno < free.geo.Segments() ==>
                 free.freeSegmap[segno] == (entries[segno].validBlocks != 0 || IsLog(logs, segno))
      modifies this`dirtySegmap, this`nrDirty
      ensures Built(Abs())
    {
      var offset: nat := 0;
      assert DirtyBuilt(Abs(), 0);
      while true
        invariant Valid() && offset <= free.geo.Segments() && DirtyBuilt(Abs(), offset)
        decreases free.geo.Segments() - offset
      {
        var segno := NextOne(free.freeSegmap, offset);
        DirtyBuiltSkips(Abs(), offset);
        if segno >= free.geo.Segments() { break; }
        var validBlocks := entries[segno].validBlocks;
        if validBlocks != free.geo.blocksPerSeg && validBlocks != 0 { ListPartlyValid(segno); }
        offset := segno + 1;
      }
      BuiltWhenDone(Abs());
    }

    /** The call of __locate_dirty_segment in init_dirty_segmap. */
    method ListPartlyValid(segno: nat)
      requires Valid() && DirtyBuilt(Abs(), segno) && segno < free.geo.Segments()
      requires 0 < entries[segno].validBlocks < free.geo.blocksPerSeg
      modifies this`dirtySegmap, this`nrDirty
      ensures Valid() && DirtyBuilt(Abs(), segno + 1)
    {
      ghost var m := Abs();
      LocateDirty(segno, DIRTY);
      DirtyBuiltLocates(m, segno);
    }
  }

  lemma VictimIsEligible(s: Sm, cleaning: int, t: nat, k: nat, notEnough: bool, segno: nat)
    requires Sizes(s) && t < NR_LOGS && Searched(t, notEnough, k) && segno < s.geo.Segments()
    requires Candidate(s, cleaning, k, segno) && s.entries[segno].ckptBlocks < s.geo.blocksPerSeg
    ensures Eligible(s, t, segno) && HasVictim(s, cleaning, k)
  {
  }

  /** A section is free exactly when the counter of free sections says so. */
  lemma FreeSectionExists(g: Geometry, f: FreeMap)
    requires FreeMapOk(g, f)
    ensures f.freeSections > 0 <==> NextZero(f.secInuse, 0) < |f.secInuse|
  {
    CountExtremes(f.secInuse);
  }

  /** The log has moved to the first segment of a section of which none was in use. */
  ghost predicate Moved(s: Sm, t: nat, segno: nat, s': Sm) {
    && Sizes(s) && t < NR_LOGS && segno < s.geo.Segments() && !s.free.inuse[segno]
    && s' == MoveLog(s, t, segno)
    && segno % s.geo.segsPerSec == 0
    && forall k: nat :: k < s.geo.Segments() && SecOf(s.geo, k) == SecOf(s.geo, segno) ==> !s.free.inuse[k]
  }

  lemma FreshSection(s: Sm, t: nat, p: Pressure, segno: nat)
    requires Sizes(s) && FreeMapOk(s.geo, s.free) && t < NR_LOGS && NewSegmentPossible(s, t, true) && FreshFor(s, t, true, p, segno)
    ensures segno % s.geo.segsPerSec == 0
    ensures forall k: nat :: k < s.geo.Segments() && SecOf(s.geo, k) == SecOf(s.geo, segno) ==> !s.free.inuse[k]
  {
    var g, d := s.geo, if t == 1 || t == 2 || p.noheap then AllocRight else AllocLeft;
    var secno := ChooseSection(g, s.free.secInuse, s.logs[t].segno, d,
                               [s.logs[0].zone, s.logs[1].zone, s.logs[2].zone, s.logs[3].zone, s.logs[4].zone, s.logs[5].zone]);
    assert segno == secno * g.segsPerSec;
    FreeSection(g, s.free, secno);
    Quotient(g.segsPerSec, secno, 0);
  }

  lemma IsLogStep(logs: seq<Log>, t: nat, i: nat)
    requires t < |logs|
    ensures IsLog(logs[..t + 1], i) == (IsLog(logs[..t], i) || logs[t].segno == i)
  {
    if IsLog(logs[..t], i) {
      var u :| 0 <= u < t && logs[..t][u].segno == i;
      assert logs[..t + 1][u].segno == i;
    }
    if logs[t].segno == i { assert logs[..t + 1][t].segno == i; }
  }

  /** Logs 0 up to n have moved one after the other. */
  ghost predicate AllMoved(states: seq<Sm>, segnos: seq<nat>, n: nat) {
    |segnos| == n && |states| == n + 1 && forall t: nat :: t < n ==> Moved(states[t], t, segnos[t], states[t + 1])
  }

  lemma MovedMore(states: seq<Sm>, segnos: seq<nat>, n: nat, segno: nat, s: Sm)
    requires AllMoved(states, segnos, n) && Moved(states[n], n, segno, s)
    ensures AllMoved(states + [s], segnos + [segno], n + 1)
  {
  }

  /** The dirty bits of a segment: those of a built map if it lies before offset, none otherwise. */
  ghost predicate DirtyAsBuilt(m: Sm, segno: nat, offset: nat)
    requires Sizes(m) && segno < m.geo.Segments()
  {
    var e := m.entries[segno];
    var partly := segno < offset && 0 < e.validBlocks < m.geo.blocksPerSeg && !IsLog(m.logs, segno);
    && m.dirty.maps[DIRTY][segno] == partly && !m.dirty.maps[PRE][segno]
    && forall t :: 0 <= t < NR_LOGS ==> m.dirty.maps[t][segno] == (partly && e.kind == t)
  }

  ghost predicate DirtyBuilt(m: Sm, offset: nat) {
    && Sizes(m) && DirtyCounts(m.geo, m.dirty) && FreeMapOk(m.geo, m.free)
    && (forall segno: nat :: segno < m.geo.Segments() ==> FreeAsBuilt(m, segno) && DirtyAsBuilt(m, segno, offset))
  }

  ghost predicate FreeAsBuilt(m: Sm, segno: nat)
    requires Sizes(m) && segno < m.geo.Segments()
  {
    var e := m.entries[segno];
    0 <= e.validBlocks <= m.geo.blocksPerSeg && m.free.inuse[segno] == (e.validBlocks != 0 || IsLog(m.logs, segno))
  }

  lemma DirtyBuiltSkips(m: Sm, offset: nat)
    requires DirtyBuilt(m, offset) && offset <= m.geo.Segments()
    ensures var segno := NextOne(m.free.inuse, offset);
            && DirtyBuilt(m, segno)
            && (segno < m.geo.Segments() && m.entries[segno].validBlocks in {0, m.geo.blocksPerSeg} ==> DirtyBuilt(m, segno + 1))
  {
    var next := NextOne(m.free.inuse, offset);
    forall segno: nat | segno < m.geo.Segments() ensures DirtyAsBuilt(m, segno, next) {
      assert FreeAsBuilt(m, segno) && DirtyAsBuilt(m, segno, offset);
    }
    if next < m.geo.Segments() && m.entries[next].validBlocks in {0, m.geo.blocksPerSeg} {
      var upTo := next + 1;
      forall segno: nat | segno < m.geo.Segments() ensures DirtyAsBuilt(m, segno, upTo) {
        assert DirtyAsBuilt(m, segno, next);
      }
    }
  }

  /** The dirty lists after __locate_dirty_segment on DIRTY. */
  ghost function LocatedDirty(m: Sm, segno: nat): DirtyMap
    requires Sizes(m) && segno < m.geo.Segments()
  {
    if IsLog(m.logs, segno) then m.dirty else LocateIn(m.geo, m.dirty, segno, DIRTY, m.entries[segno].kind)
  }

  lemma DirtyBuiltLocates(m: Sm, k: nat)
    requires DirtyBuilt(m, k) && k < m.geo.Segments() && 0 < m.entries[k].validBlocks < m.geo.blocksPerSeg
    ensures DirtyBuilt(m.(dirty := LocatedDirty(m, k)), k + 1)
  {
    var m' := m.(dirty := LocatedDirty(m, k));
    LocateInEffect(m.geo, m.dirty, k, DIRTY, m.entries[k].kind);
    LocatedSizes(m, m');
    forall segno: nat | segno < m.geo.Segments() ensures FreeAsBuilt(m', segno) && DirtyAsBuilt(m', segno, k + 1) {
      assert FreeAsBuilt(m, segno) && DirtyAsBuilt(m, segno, k);
    }
  }

  lemma LocatedSizes(m: Sm, m': Sm)
    requires Sizes(m) && m' == m.(dirty := m'.dirty) && DirtySizes(m.geo, m'.dirty)
    ensures Sizes(m')
  {
  }

  lemma BuiltWhenDone(m: Sm)
    requires DirtyBuilt(m, m.geo.Segments())
    ensures Built(m)
  {
    forall segno: nat | segno < m.geo.Segments() ensures BuiltSeg(m, segno) {
      assert FreeAsBuilt(m, segno) && DirtyAsBuilt(m, segno, m.geo.Segments());
    }
  }
}
