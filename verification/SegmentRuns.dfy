/**
  Every run of the segment manager: the operations keep the invariant, no block
  that is live or that the last checkpoint needs is ever overwritten, so a crash
  finds the data of the last checkpoint, and mounting restores the maps.
 */
module SegmentRuns {
  import opened Bitmap
  import opened FreeSegmap
  import opened SegmentModel
  import opened SegmentProofs

  // ------------------------------------------------------- drop

  /** The block of an owner becomes invalid: invalidate_blocks when a slot or a node goes away. */
  ghost function Drop(s: Sm, o: Owner, now: nat): Sm
    requires Inv(s) && o in s.slots
  {
    assert SlotOk(s, o);
    Invalidate(s, s.slots[o].loc, now).(slots := s.slots - {o})
  }

  /** The validity maps of s' are those of s without one block; nothing else that slots depend on differs. */
  ghost predicate Drops(s: Sm, a: Sm, s': Sm, o: Owner) {
    && Inv(s) && o in s.slots
    && Sizes(a) && CountersOk(a) && SegsOk(a, {}) && LogsOk(a)
    && Refreshed'(s, a, s.slots[o].loc)
    && s' == a.(slots := s.slots - {o})
    && Sizes(s') && LogsOk(s')
  }

  ghost predicate Refreshed'(s: Sm, a: Sm, loc: Loc)
    requires Sizes(s)
  {
    && Sizes(a) && a.geo == s.geo
    && a.logs == s.logs && a.ssa == s.ssa && a.free == s.free && a.slots == s.slots
    && (forall segno: nat :: segno < s.geo.Segments() ==>
          a.entries[segno].kind == s.entries[segno].kind && a.entries[segno].ckptMap == s.entries[segno].ckptMap)
    && (forall l :: ValidLoc(a, l) <==> ValidLoc(s, l) && l != loc)
  }

  lemma InvalidateMaps(s: Sm, loc: Loc, now: nat)
    requires Sizes(s) && LocSizes(s, loc)
    ensures Refreshed'(s, Invalidate(s, loc, now), loc)
  {
    UpdateSitMaps(s, loc, false, now);
    LocateMaps(UpdateSit(s, loc, false, now), loc.segno);
  }

  lemma DroppedSlot(s: Sm, a: Sm, s': Sm, o: Owner, p: Owner)
    requires Drops(s, a, s', o) && p in s'.slots
    ensures SlotOk(s', p)
  {
    assert SlotOk(s, p);
    if s.slots[p].loc == s.slots[o].loc { SlotsInjective(s, o, p); }
    assert ValidLoc(a, s.slots[p].loc);
    SameSums(s, s', s.slots[p].loc.segno);
  }

  lemma DroppedBlock(s: Sm, a: Sm, s': Sm, o: Owner, loc: Loc)
    requires Drops(s, a, s', o) && ValidLoc(s', loc)
    ensures BlockOk(s', loc)
  {
    assert ValidLoc(a, loc) && BlockOk(s, loc);
    SameSums(s, s', loc.segno);
  }

  lemma DroppedType(s: Sm, a: Sm, s': Sm, o: Owner, segno: nat)
    requires Drops(s, a, s', o) && segno < s'.geo.Segments() && s'.free.inuse[segno]
    ensures TypeOk(s', segno)
  {
    assert TypeOk(s, segno);
    SameSums(s, s', segno);
  }

  lemma DroppedInv(s: Sm, a: Sm, s': Sm, o: Owner)
    requires Drops(s, a, s', o)
    ensures Inv(s')
  {
    SlotsDoNotMatter(a, s');
    forall p | p in s'.slots ensures SlotOk(s', p) { DroppedSlot(s, a, s', o, p); }
    forall loc | ValidLoc(s', loc) ensures BlockOk(s', loc) { DroppedBlock(s, a, s', o, loc); }
    forall segno: nat | segno < s'.geo.Segments() && s'.free.inuse[segno] ensures TypeOk(s', segno) {
      DroppedType(s, a, s', o, segno);
    }
  }

  lemma DropKeepsInv(s: Sm, o: Owner, now: nat)
    requires Inv(s) && o in s.slots
    ensures var s' := Drop(s, o, now);
            && Inv(s') && s'.geo == s.geo
            && (forall segno: nat :: segno < s.geo.Segments() ==> s'.entries[segno].ckptMap == s.entries[segno].ckptMap)
  {
    assert SlotOk(s, o);
    var loc := s.slots[o].loc;
    InvalidateKeeps(s, loc, now, {});
    InvalidateMaps(s, loc, now);
    var a := Invalidate(s, loc, now);
    assert {} - {loc.segno} == {};
    SlotsDoNotMatter(a, Drop(s, o, now));
    DroppedInv(s, a, Drop(s, o, now), o);
  }

  // ------------------------------------------------------- opening a new segment by force

  /** One round of allocate_new_segments: a new segment for a data log, the old one reclassified. */
  ghost function MoveLog(s: Sm, t: nat, segno: nat): Sm
    requires Sizes(s) && t < NR_LOGS && segno < s.geo.Segments()
  {
    Locate(NewLog(s, t, segno), s.logs[t].segno)
  }

  lemma MoveLogKeepsInv(s: Sm, t: nat, q: nat)
    requires Inv(s) && t < NR_LOGS && q < s.geo.Segments() && !s.free.inuse[q]
    ensures var s' := MoveLog(s, t, q);
            && Inv(s') && s'.geo == s.geo && s'.slots == s.slots
            && (forall segno: nat :: segno < s.geo.Segments() ==> s'.entries[segno].ckptMap == s.entries[segno].ckptMap)
  {
    var p, h := s.logs[t].segno, NewLog(s, t, q);
    NewLogMoves(s, t, q);
    MovedKeeps(s, h, t, q);
    MovedMaps(s, h, t, q);
    assert SegStale(h, p);
    LocateKeeps(h, p, {p});
    LocateMaps(h, p);
    assert {p} - {p} == {};
    SameLogs(h, MoveLog(s, t, q));
    MovedInv(s, h, MoveLog(s, t, q), t, q);
  }

  lemma MovedInv(s: Sm, h: Sm, s': Sm, t: nat, q: nat)
    requires Inv(s) && t < NR_LOGS && Moves(s, h, t, q) && SameMaps(s, h) && LogsOk(h)
    requires Sizes(s') && CountersOk(s') && SegsOk(s', {}) && LogsOk(s') && s'.geo == s.geo
    requires s'.logs == h.logs && s'.ssa == h.ssa && s'.free == h.free && s'.slots == s.slots && s'.entries == h.entries
    ensures Inv(s')
  {
    assert forall loc :: ValidLoc(s', loc) <==> ValidLoc(s, loc);
    forall p | p in s'.slots ensures SlotOk(s', p) {
      assert SlotOk(s, p);
      MovedSum(s, h, s', t, q, s.slots[p].loc);
    }
    forall loc | ValidLoc(s', loc) ensures BlockOk(s', loc) {
      assert BlockOk(s, loc);
      MovedSum(s, h, s', t, q, loc);
    }
    forall segno: nat | segno < s'.geo.Segments() && s'.free.inuse[segno] ensures TypeOk(s', segno) {
      if IsLog(s'.logs, segno) {
        LogType(s', segno);
      } else {
        assert KeptUse(s, h, segno) && TypeOk(s, segno);
        MovedSums(s, h, t, q, segno);
        SameSums(h, s', segno);
      }
    }
  }

  lemma MovedSum(s: Sm, h: Sm, s': Sm, t: nat, q: nat, loc: Loc)
    requires Inv(s) && t < NR_LOGS && Moves(s, h, t, q) && LogsOk(h) && ValidLoc(s, loc)
    requires Sizes(s') && LogsOk(s') && s'.geo == s.geo && s'.logs == h.logs && s'.ssa == h.ssa
    ensures SumBlockOf(s', loc.segno) == SumBlockOf(s, loc.segno)
  {
    ValidIsInUse(s, loc, {});
    assert TypeOk(s, loc.segno);
    MovedSums(s, h, t, q, loc.segno);
    SameSums(h, s', loc.segno);
  }

  // ------------------------------------------------------- checkpoint

  /** f' is f with the prefree segments below n given back. */
  ghost predicate GivenBack(g: Geometry, f: FreeMap, pre: seq<bool>, n: nat, f': FreeMap) {
    && FreeMapOk(g, f') && |f'.inuse| == |f.inuse| == |pre|
    && forall i :: 0 <= i < |f.inuse| ==> f'.inuse[i] == (f.inuse[i] && !(i < n && pre[i]))
  }

  lemma GiveOneBack(g: Geometry, f: FreeMap, pre: seq<bool>, n: nat, f': FreeMap)
    requires n < |pre| && GivenBack(g, f, pre, n, f')
    ensures SecOf(g, n) < |f'.secInuse|
    ensures GivenBack(g, f, pre, n + 1, if pre[n] then GiveSegment(g, f', n) else f')
  {
    GiveKeepsOk(g, f', n);
  }

  lemma {:induction false} FreePrefreeOk(g: Geometry, f: FreeMap, pre: seq<bool>, n: nat)
    requires FreeMapOk(g, f) && n <= |pre| == |f.inuse|
    ensures GivenBack(g, f, pre, n, FreePrefree(g, f, pre, n))
  {
    if n > 0 {
      var r := FreePrefree(g, f, pre, n - 1);
      FreePrefreeOk(g, f, pre, n - 1);
      GiveOneBack(g, f, pre, n - 1, r);
      assert FreePrefree(g, f, pre, n) == if pre[n - 1] then GiveSegment(g, r, n - 1) else r;
    }
  }

  /** What a checkpoint leaves behind, segment by segment. */
  ghost predicate Checkpoints(s: Sm, c: Sm)
    requires Sizes(s)
  {
    && Sizes(c) && c.geo == s.geo && c.logs == s.logs && c.ssa == s.ssa && c.slots == s.slots && c.secValid == s.secValid
    && (forall segno: nat :: segno < s.geo.Segments() ==>
          && c.entries[segno] == Checkpointed(s.entries[segno])
          && c.free.inuse[segno] == (s.free.inuse[segno] && !s.dirty.maps[PRE][segno])
          && !c.sitDirty[segno] && !c.dirty.maps[PRE][segno]
          && forall t :: 0 <= t < PRE ==> c.dirty.maps[t][segno] == s.dirty.maps[t][segno])
    && c.dirtySentries == 0 && FreeMapOk(c.geo, c.free) && DirtyCounts(c.geo, c.dirty)
  }

  lemma UnionSelf(a: seq<bool>)
    ensures Union(a, a) == a
  {
  }

  lemma CleanEntry(s: Sm, segno: nat)
    requires Sizes(s) && CountersOk(s) && segno < s.geo.Segments() && SegOk(s, segno) && !s.sitDirty[segno]
    ensures Checkpointed(s.entries[segno]) == s.entries[segno]
  {
    assert EntryOk(s.geo, s.entries[segno]);
    UnionSelf(s.entries[segno].curMap);
  }

  lemma CheckpointCheckpoints(s: Sm)
    requires Inv(s)
    ensures Checkpoints(s, Checkpoint(s))
  {
    FreePrefreeOk(s.geo, s.free, s.dirty.maps[PRE], |s.free.inuse|);
    CountExtremes(Clear(|s.dirty.maps[PRE]|));
    forall segno: nat | segno < s.geo.Segments() && !s.sitDirty[segno]
      ensures Checkpointed(s.entries[segno]) == s.entries[segno]
    {
      assert SegOk(s, segno);
      CleanEntry(s, segno);
    }
  }

  lemma CheckpointedOk(g: Geometry, e: SegEntry)
    requires EntryOk(g, e)
    ensures EntryOk(g, Checkpointed(e))
  {
    UnionSelf(e.curMap);
  }

  lemma CheckpointedSeg(s: Sm, c: Sm, segno: nat)
    requires Inv(s) && Checkpoints(s, c) && segno < s.geo.Segments()
    ensures EntryOk(c.geo, c.entries[segno]) && SegOk(c, segno)
    ensures c.entries[segno].validBlocks == s.entries[segno].validBlocks
  {
    assert EntryOk(s.geo, s.entries[segno]) && SegOk(s, segno);
    CheckpointedOk(s.geo, s.entries[segno]);
  }

  lemma CheckpointedSums(s: Sm, c: Sm)
    requires Inv(s) && Checkpoints(s, c)
    ensures s.geo.segsPerSec > 1 ==>
              forall secno: nat :: secno < s.geo.sections ==>
                c.secValid[secno] == SectionSum(s.geo, c.entries, secno, |c.entries|)
  {
    forall segno: nat | segno < s.geo.Segments()
      ensures c.entries[segno].validBlocks == s.entries[segno].validBlocks
    {
      CheckpointedSeg(s, c, segno);
    }
    if s.geo.segsPerSec > 1 {
      forall secno: nat | secno < s.geo.sections
        ensures c.secValid[secno] == SectionSum(s.geo, c.entries, secno, |c.entries|)
      {
        SectionSumSame(s.geo, s.entries, c.entries, secno, |s.entries|);
      }
    }
  }

  lemma CheckpointedCounters(s: Sm, c: Sm)
    requires Inv(s) && Checkpoints(s, c)
    ensures CountersOk(c)
  {
    forall segno | 0 <= segno < |c.entries| ensures EntryOk(c.geo, c.entries[segno]) {
      CheckpointedSeg(s, c, segno);
    }
    assert DirtyCounts(c.geo, c.dirty);
    CheckpointedSums(s, c);
    NoneDirty(c);
  }

  lemma NoneDirty(c: Sm)
    requires forall i :: 0 <= i < |c.sitDirty| ==> !c.sitDirty[i]
    ensures Count(c.sitDirty) == 0
  {
    CountExtremes(c.sitDirty);
  }

  lemma CheckpointedSegs(s: Sm, c: Sm)
    requires Inv(s) && Checkpoints(s, c)
    ensures SegsOk(c, {})
  {
    forall segno: nat | segno < c.geo.Segments() ensures SegOk(c, segno) {
      CheckpointedSeg(s, c, segno);
    }
  }

  lemma CheckpointedLogs(s: Sm, c: Sm)
    requires Inv(s) && Checkpoints(s, c)
    ensures LogsOk(c) && LogsOpen(c)
  {
    forall u: nat | u < NR_LOGS ensures LogOk(c, u) { assert LogOk(s, u); }
  }

  /** Slots stay described when logs, summaries, types and valid blocks stay. */
  lemma KeepSlots(s: Sm, s': Sm)
    requires Sizes(s) && SlotsOk(s) && LogsOk(s) && Sizes(s') && LogsOk(s') && s'.geo == s.geo
    requires s'.logs == s.logs && s'.ssa == s.ssa && s'.slots == s.slots
    requires forall loc :: ValidLoc(s', loc) <==> ValidLoc(s, loc)
    requires forall segno: nat :: segno < s.geo.Segments() ==>
               s'.entries[segno].kind == s.entries[segno].kind && (s'.free.inuse[segno] ==> s.free.inuse[segno])
    ensures SlotsOk(s')
  {
    forall segno: nat | segno < s.geo.Segments() ensures SumBlockOf(s', segno) == SumBlockOf(s, segno) {
      SameSums(s, s', segno);
    }
    forall p | p in s'.slots ensures SlotOk(s', p) { assert SlotOk(s, p); }
    forall loc | ValidLoc(s', loc) ensures BlockOk(s', loc) { assert BlockOk(s, loc); }
    forall segno: nat | segno < s'.geo.Segments() && s'.free.inuse[segno] ensures TypeOk(s', segno) {
      assert TypeOk(s, segno);
    }
  }

  lemma CheckpointedInv(s: Sm, c: Sm)
    requires Inv(s) && Checkpoints(s, c)
    ensures Inv(c)
  {
    CheckpointedCounters(s, c);
    CheckpointedSegs(s, c);
    CheckpointedLogs(s, c);
    KeepSlots(s, c);
  }

  lemma CheckpointKeepsInv(s: Sm)
    requires Inv(s)
    ensures Inv(Checkpoint(s)) && Checkpoints(s, Checkpoint(s))
  {
    CheckpointCheckpoints(s);
    CheckpointedInv(s, Checkpoint(s));
  }

  // ------------------------------------------------------- runs

  datatype Op =
    | OpWrite(o: Owner, version: nat, t: nat, now: nat, choice: Choice, value: int)
    | OpDrop(o: Owner, now: nat)
    | OpMove(t: nat, segno: nat)
    | OpCheckpoint

  /** The manager together with the device: live holds what was last written for each owner. */
  datatype World = World(sm: Sm, disk: map<Loc, int>, live: map<Owner, int>,
                         savedSlots: map<Owner, Slot>, savedLive: map<Owner, int>)

  ghost predicate Enabled(w: World, op: Op) {
    && Inv(w.sm)
    && match op
       case OpWrite(o, version, t, now, choice, value) => CanWrite(w.sm, o, version, t, choice)
       case OpDrop(o, now) => o in w.sm.slots
       case OpMove(t, segno) => t < NR_LOGS && segno < w.sm.geo.Segments() && !w.sm.free.inuse[segno]
       case OpCheckpoint => true
  }

  ghost function Step(w: World, op: Op): World
    requires Enabled(w, op)
  {
    match op
    case OpWrite(o, version, t, now, choice, value) =>
      w.(sm := Write(w.sm, o, version, t, now, choice),
         disk := w.disk[NextBlock(w.sm, t) := value],
         live := w.live[o := value])
    case OpDrop(o, now) => w.(sm := Drop(w.sm, o, now), live := w.live - {o})
    case OpMove(t, segno) => w.(sm := MoveLog(w.sm, t, segno))
    case OpCheckpoint => w.(sm := Checkpoint(w.sm), savedSlots := w.sm.slots, savedLive := w.live)
  }

  /** Reading through the forward map finds what was last written. */
  ghost predicate Reads(disk: map<Loc, int>, slots: map<Owner, Slot>, live: map<Owner, int>) {
    && slots.Keys == live.Keys
    && forall o :: o in slots ==> slots[o].loc in disk && disk[slots[o].loc] == live[o]
  }

  ghost predicate NeedsSaved(s: Sm, slots: map<Owner, Slot>)
    requires Sizes(s)
  {
    forall o :: o in slots ==> LocSizes(s, slots[o].loc) && s.entries[slots[o].loc.segno].ckptMap[slots[o].loc.off]
  }

  /** Live data and the data of the last checkpoint can both be read. */
  ghost predicate Safe(w: World) {
    && Inv(w.sm)
    && Reads(w.disk, w.sm.slots, w.live)
    && Reads(w.disk, w.savedSlots, w.savedLive)
    && NeedsSaved(w.sm, w.savedSlots)
  }

  lemma ReadsOthers(disk: map<Loc, int>, slots: map<Owner, Slot>, live: map<Owner, int>, n: Loc, value: int)
    requires Reads(disk, slots, live) && forall o :: o in slots ==> slots[o].loc != n
    ensures Reads(disk[n := value], slots, live)
  {
  }

  lemma ReadsWritten(disk: map<Loc, int>, slots: map<Owner, Slot>, live: map<Owner, int>, o: Owner, slot: Slot, value: int)
    requires Reads(disk, slots, live) && forall p :: p in slots ==> slots[p].loc != slot.loc
    ensures Reads(disk[slot.loc := value], slots[o := slot], live[o := value])
  {
  }

  /** A write into a block nobody needs disturbs neither live data nor those of the checkpoint. */
  lemma SafeAfterWrite(w: World, w': World, o: Owner, slot: Slot, value: int)
    requires Safe(w) && Inv(w'.sm) && w'.sm.geo == w.sm.geo && Unneeded(w.sm, slot.loc)
    requires w'.sm.slots == w.sm.slots[o := slot]
    requires forall k: nat :: k < w.sm.geo.Segments() ==> w'.sm.entries[k].ckptMap == w.sm.entries[k].ckptMap
    requires w'.disk == w.disk[slot.loc := value] && w'.live == w.live[o := value]
    requires w'.savedSlots == w.savedSlots && w'.savedLive == w.savedLive
    ensures Safe(w')
  {
    forall p | p in w.sm.slots ensures w.sm.slots[p].loc != slot.loc { assert SlotOk(w.sm, p); }
    ReadsWritten(w.disk, w.sm.slots, w.live, o, slot, value);
    SavedNotTaken(w.sm, w.savedSlots, slot.loc);
    ReadsOthers(w.disk, w.savedSlots, w.savedLive, slot.loc, value);
    SavedStaysNeeded(w.sm, w'.sm, w.savedSlots);
  }

  lemma SavedNotTaken(s: Sm, saved: map<Owner, Slot>, n: Loc)
    requires Sizes(s) && NeedsSaved(s, saved) && Unneeded(s, n)
    ensures forall o :: o in saved ==> saved[o].loc != n
  {
  }

  lemma SavedStaysNeeded(s: Sm, s': Sm, saved: map<Owner, Slot>)
    requires Sizes(s) && Sizes(s') && s'.geo == s.geo && NeedsSaved(s, saved)
    requires forall k: nat :: k < s.geo.Segments() ==> s'.entries[k].ckptMap == s.entries[k].ckptMap
    ensures NeedsSaved(s', saved)
  {
  }

  lemma SafeAfterUpdate(w: World, w': World)
    requires Safe(w) && Inv(w'.sm) && w'.sm.geo == w.sm.geo
    requires forall k: nat :: k < w.sm.geo.Segments() ==> w'.sm.entries[k].ckptMap == w.sm.entries[k].ckptMap
    requires w'.disk == w.disk && Reads(w.disk, w'.sm.slots, w'.live)
    requires w'.savedSlots == w.savedSlots && w'.savedLive == w.savedLive
    ensures Safe(w')
  {
  }

  lemma SafeAfterCheckpoint(w: World, w': World)
    requires Safe(w) && Inv(w'.sm) && Checkpoints(w.sm, w'.sm)
    requires w'.disk == w.disk && w'.live == w.live && w'.savedSlots == w.sm.slots && w'.savedLive == w.live
    ensures Safe(w')
  {
    forall o | o in w.sm.slots ensures ValidLoc(w.sm, w.sm.slots[o].loc) { assert SlotOk(w.sm, o); }
  }

  lemma CheckpointIsSafe(w: World)
    requires Safe(w)
    ensures Enabled(w, OpCheckpoint) && Safe(Step(w, OpCheckpoint))
  {
    CheckpointKeepsInv(w.sm);
    SafeAfterCheckpoint(w, Step(w, OpCheckpoint));
  }

  lemma WriteIsSafe(w: World, op: Op)
    requires Safe(w) && Enabled(w, op) && op.OpWrite?
    ensures Safe(Step(w, op))
  {
    WriteKeepsInv(w.sm, op.o, op.version, op.t, op.now, op.choice);
    SafeAfterWrite(w, Step(w, op), op.o, Slot(NextBlock(w.sm, op.t), op.version), op.value);
  }

  lemma DropIsSafe(w: World, op: Op)
    requires Safe(w) && Enabled(w, op) && op.OpDrop?
    ensures Safe(Step(w, op))
  {
    DropKeepsInv(w.sm, op.o, op.now);
    SafeAfterUpdate(w, Step(w, op));
  }

  lemma MoveIsSafe(w: World, op: Op)
    requires Safe(w) && Enabled(w, op) && op.OpMove?
    ensures Safe(Step(w, op))
  {
    MoveLogKeepsInv(w.sm, op.t, op.segno);
    SafeAfterUpdate(w, Step(w, op));
  }

  lemma StepIsSafe(w: World, op: Op)
    requires Safe(w) && Enabled(w, op)
    ensures Safe(Step(w, op))
  {
    if op.OpWrite? {
      WriteIsSafe(w, op);
    } else if op.OpDrop? {
      DropIsSafe(w, op);
    } else if op.OpMove? {
      MoveIsSafe(w, op);
    } else {
      CheckpointIsSafe(w);
    }
  }

  ghost predicate EnabledRun(w: World, ops: seq<Op>)
    decreases ops
  {
    ops == [] || (Enabled(w, ops[0]) && EnabledRun(Step(w, ops[0]), ops[1..]))
  }

  ghost function Run(w: World, ops: seq<Op>): World
    requires EnabledRun(w, ops)
    decreases ops
  {
    if ops == [] then w else Run(Step(w, ops[0]), ops[1..])
  }

  /** Whatever the run, live data and the data of the last checkpoint stay readable. */
  lemma {:induction false} RunIsSafe(w: World, ops: seq<Op>)
    requires Safe(w) && EnabledRun(w, ops)
    ensures Safe(Run(w, ops))
    decreases ops
  {
    if ops != [] {
      StepIsSafe(w, ops[0]);
      RunIsSafe(Step(w, ops[0]), ops[1..]);
    }
  }

  // ------------------------------------------------------- the order of the blocks of a log

  /** How many blocks of log t the operations take. */
  function TakenFrom(ops: seq<Op>, t: nat): nat {
    if ops == [] then 0 else (if ops[0].OpWrite? && ops[0].t == t then 1 else 0) + TakenFrom(ops[1..], t)
  }

  ghost predicate NeverMoved(ops: seq<Op>, t: nat) { forall i :: 0 <= i < |ops| && ops[i].OpMove? ==> ops[i].t != t }

  lemma HandedOthers(s: Sm, t: nat, u: nat, sum: Summary, choice: Choice)
    requires Sizes(s) && t < NR_LOGS && u < NR_LOGS && u != t && s.logs[u].next < s.geo.blocksPerSeg && choice.segno < s.geo.Segments()
    ensures Handed(s, u, sum, choice).logs[t] == s.logs[t]
  {
  }

  lemma WriteKeepsLogs(s: Sm, o: Owner, version: nat, u: nat, now: nat, choice: Choice, t: nat)
    requires Inv(s) && CanWrite(s, o, version, u, choice) && t < NR_LOGS
    ensures var l, l' := s.logs[t], Write(s, o, version, u, now, choice).logs[t];
            if u != t then l' == l
            else !l.ssr && l.next + 1 < s.geo.blocksPerSeg ==> l'.segno == l.segno && !l'.ssr && l'.next == l.next + 1
  {
    assert o in s.slots ==> SlotOk(s, o);
    var sum := Summary(o.nid, o.ofsInNode, version);
    assert EntrySizes(s.geo, s.entries[s.logs[u].segno]);
    hide CountersOk, SegsOk, LogsOk, SlotsOk, Refresh, FirstClear;
    RefreshKeepsLogs(Handed(s, u, sum, choice), OldOf(s, o), NextBlock(s, u), now);
    if u == t { HandedStands(s, t, sum, choice); } else { HandedOthers(s, t, u, sum, choice); }
    hide Handed, Sizes;
  }

  lemma OtherStepsKeepLogs(w: World, op: Op, t: nat)
    requires Enabled(w, op) && t < NR_LOGS && !op.OpWrite? && (op.OpMove? ==> op.t != t)
    ensures Step(w, op).sm.logs[t] == w.sm.logs[t]
  {
    assert op.OpDrop? ==> SlotOk(w.sm, op.o);
    hide CountersOk, SegsOk, LogsOk, SlotsOk, RemoveFrom, LocateIn;
  }

  lemma LogAfterStep(w: World, op: Op, t: nat)
    requires Enabled(w, op) && t < NR_LOGS && !w.sm.logs[t].ssr && (op.OpMove? ==> op.t != t)
    requires w.sm.logs[t].next + TakenFrom([op], t) < w.sm.geo.blocksPerSeg
    ensures var l, s' := w.sm.logs[t], Step(w, op).sm;
            && Inv(s') && s'.geo == w.sm.geo
            && s'.logs[t].segno == l.segno && !s'.logs[t].ssr && s'.logs[t].next == l.next + TakenFrom([op], t)
  {
    StepKeepsInv(w, op);
    assert TakenFrom([op], t) == if op.OpWrite? && op.t == t then 1 else 0;
    hide CountersOk, SegsOk, LogsOk, SlotsOk;
    if op.OpWrite? {
      WriteKeepsLogs(w.sm, op.o, op.version, op.t, op.now, op.choice, t);
    } else {
      OtherStepsKeepLogs(w, op, t);
    }
  }

  /**
    Whatever else happens meanwhile, the blocks that a log hands out in a segment it
    has to itself follow one on the other: after k of them it stands k further.
   */
  lemma {:induction false} BlocksInOrder(w: World, ops: seq<Op>, t: nat)
    requires EnabledRun(w, ops) && Inv(w.sm) && t < NR_LOGS && !w.sm.logs[t].ssr && NeverMoved(ops, t)
    requires w.sm.logs[t].next + TakenFrom(ops, t) < w.sm.geo.blocksPerSeg
    ensures var l, l' := w.sm.logs[t], Run(w, ops).sm.logs;
            t < |l'| && !l'[t].ssr && NextBlock(Run(w, ops).sm, t) == Loc(l.segno, l.next + TakenFrom(ops, t))
    decreases ops
  {
    if ops != [] {
      var w' := Step(w, ops[0]);
      LogAfterStep(w, ops[0], t);
      assert forall i :: 0 <= i < |ops[1..]| ==> ops[1..][i] == ops[i + 1];
      hide Inv, Step, Enabled, Sizes;
      BlocksInOrder(w', ops[1..], t);
    }
  }

  lemma StepKeepsInv(w: World, op: Op)
    requires Enabled(w, op)
    ensures Inv(Step(w, op).sm) && Step(w, op).sm.geo == w.sm.geo
  {
    hide CountersOk, SegsOk, LogsOk, SlotsOk, Sizes;
    match op
    case OpWrite(o, version, t, now, choice, value) => WriteKeepsInv(w.sm, o, version, t, now, choice);
    case OpDrop(o, now) => DropKeepsInv(w.sm, o, now);
    case OpMove(t, segno) => MoveLogKeepsInv(w.sm, t, segno);
    case OpCheckpoint => CheckpointKeepsInv(w.sm);
  }

  // ------------------------------------------------------- crashes

  ghost predicate NoCheckpoint(ops: seq<Op>) { forall i :: 0 <= i < |ops| ==> !ops[i].OpCheckpoint? }

  lemma {:induction false} SavedUntilCheckpoint(w: World, ops: seq<Op>)
    requires EnabledRun(w, ops) && NoCheckpoint(ops)
    ensures Run(w, ops).savedSlots == w.savedSlots && Run(w, ops).savedLive == w.savedLive
    decreases ops
  {
    if ops != [] { SavedUntilCheckpoint(Step(w, ops[0]), ops[1..]); }
  }

  /**
    A crash at any point after a checkpoint: going back to the checkpoint's forward
    map reads exactly the data that were live when the checkpoint was taken.
   */
  lemma CrashFindsCheckpoint(w: World, ops: seq<Op>)
    requires Safe(w) && EnabledRun(Step(w, OpCheckpoint), ops) && NoCheckpoint(ops)
    ensures Reads(Run(Step(w, OpCheckpoint), ops).disk, w.sm.slots, w.live)
  {
    CheckpointIsSafe(w);
    RunIsSafe(Step(w, OpCheckpoint), ops);
    SavedUntilCheckpoint(Step(w, OpCheckpoint), ops);
  }

  // ------------------------------------------------------- mount

  /** The entry build_sit_entries makes of what seg_info_to_raw_sit stored. */
  function FromRaw(validBlocks: int, validMap: seq<bool>, kind: nat, mtime: nat): SegEntry {
    SegEntry(validBlocks, validMap, validBlocks, validMap, kind, mtime)
  }

  /** The maps built at mount time from the segment entries and the open logs. */
  ghost predicate Built(m: Sm)
  {
    && Sizes(m) && FreeMapOk(m.geo, m.free) && DirtyCounts(m.geo, m.dirty)
    && forall segno: nat :: segno < m.geo.Segments() ==> BuiltSeg(m, segno)
  }

  ghost predicate BuiltSeg(m: Sm, segno: nat)
    requires Sizes(m) && segno < m.geo.Segments()
  {
    var e := m.entries[segno];
    var partly := 0 < e.validBlocks < m.geo.blocksPerSeg && !IsLog(m.logs, segno);
    && m.free.inuse[segno] == (e.validBlocks != 0 || IsLog(m.logs, segno))
    && m.dirty.maps[DIRTY][segno] == partly && !m.dirty.maps[PRE][segno]
    && forall t :: 0 <= t < NR_LOGS ==> m.dirty.maps[t][segno] == (partly && e.kind == t)
  }

  lemma SameFreeMap(g: Geometry, f: FreeMap, f': FreeMap)
    requires FreeMapOk(g, f) && FreeMapOk(g, f') && f.inuse == f'.inuse
    ensures f == f'
  {
    assert f.secInuse == f'.secInuse;
  }

  lemma SameDirtyMap(g: Geometry, d: DirtyMap, d': DirtyMap)
    requires DirtyCounts(g, d) && DirtyCounts(g, d')
    requires forall t, i :: 0 <= t < NR_DIRTY_TYPE && 0 <= i < g.Segments() ==> d.maps[t][i] == d'.maps[t][i]
    ensures d.maps == d'.maps && d.nr == d'.nr
  {
    forall t | 0 <= t < NR_DIRTY_TYPE ensures d.maps[t] == d'.maps[t] { }
    assert d.maps == d'.maps;
  }

  lemma BuiltSegAgrees(c: Sm, m: Sm, segno: nat)
    requires Inv(c) && Sizes(m) && m.geo == c.geo && segno < c.geo.Segments() && !c.dirty.maps[PRE][segno]
    requires m.entries == c.entries && m.logs == c.logs && BuiltSeg(m, segno)
    ensures m.free.inuse[segno] == c.free.inuse[segno]
    ensures forall t :: 0 <= t < NR_DIRTY_TYPE ==> m.dirty.maps[t][segno] == c.dirty.maps[t][segno]
  {
    assert SegOk(c, segno) && EntryOk(c.geo, c.entries[segno]);
    forall t | 0 <= t < NR_DIRTY_TYPE ensures m.dirty.maps[t][segno] == c.dirty.maps[t][segno] {
      assert t < NR_LOGS || t == DIRTY || t == PRE;
    }
  }

  /**
    Mounting after a checkpoint restores the segment entries, the free map with its
    counters, and the dirty lists with theirs.
   */
  lemma MountRestores(s: Sm, m: Sm)
    requires Inv(s) && Built(m) && m.geo == s.geo && m.logs == s.logs
    requires forall segno: nat :: segno < s.geo.Segments() ==>
               var e := s.entries[segno]; m.entries[segno] == FromRaw(e.validBlocks, e.curMap, e.kind, e.mtime)
    ensures var c := Checkpoint(s);
            m.entries == c.entries && m.free == c.free && m.dirty.maps == c.dirty.maps && m.dirty.nr == c.dirty.nr
  {
    CheckpointKeepsInv(s);
    MountAgrees(s, Checkpoint(s), m);
  }

  lemma MountedEntries(s: Sm, c: Sm, m: Sm)
    requires Sizes(s) && Checkpoints(s, c) && Sizes(m) && m.geo == s.geo
    requires forall segno: nat :: segno < s.geo.Segments() ==>
               var e := s.entries[segno]; m.entries[segno] == FromRaw(e.validBlocks, e.curMap, e.kind, e.mtime)
    ensures m.entries == c.entries
  {
    forall segno: nat | segno < s.geo.Segments() ensures m.entries[segno] == c.entries[segno] { }
  }

  lemma MountAgrees(s: Sm, c: Sm, m: Sm)
    requires Inv(s) && Inv(c) && Checkpoints(s, c) && Built(m) && m.geo == s.geo && m.logs == s.logs
    requires forall segno: nat :: segno < s.geo.Segments() ==>
               var e := s.entries[segno]; m.entries[segno] == FromRaw(e.validBlocks, e.curMap, e.kind, e.mtime)
    ensures m.entries == c.entries && m.free == c.free && m.dirty.maps == c.dirty.maps && m.dirty.nr == c.dirty.nr
  {
    MountedEntries(s, c, m);
    forall segno: nat | segno < c.geo.Segments() ensures !c.dirty.maps[PRE][segno] { assert c.logs == s.logs; }
    BuiltAgrees(c, m);
  }

  lemma BuiltSegsAgree(c: Sm, m: Sm)
    requires Inv(c) && Built(m) && m.geo == c.geo && m.logs == c.logs && m.entries == c.entries
    requires forall segno: nat :: segno < c.geo.Segments() ==> !c.dirty.maps[PRE][segno]
    ensures forall segno: nat :: segno < c.geo.Segments() ==> m.free.inuse[segno] == c.free.inuse[segno]
    ensures forall t, segno :: 0 <= t < NR_DIRTY_TYPE && 0 <= segno < c.geo.Segments() ==>
              m.dirty.maps[t][segno] == c.dirty.maps[t][segno]
  {
    forall segno: nat | segno < c.geo.Segments() ensures m.free.inuse[segno] == c.free.inuse[segno] {
      BuiltSegAgrees(c, m, segno);
    }
    forall t, segno | 0 <= t < NR_DIRTY_TYPE && 0 <= segno < c.geo.Segments()
      ensures m.dirty.maps[t][segno] == c.dirty.maps[t][segno]
    {
      BuiltSegAgrees(c, m, segno);
    }
  }

  lemma BuiltAgrees(c: Sm, m: Sm)
    requires Inv(c) && Built(m) && m.geo == c.geo && m.logs == c.logs && m.entries == c.entries
    requires forall segno: nat :: segno < c.geo.Segments() ==> !c.dirty.maps[PRE][segno]
    ensures m.free == c.free && m.dirty.maps == c.dirty.maps && m.dirty.nr == c.dirty.nr
  {
    BuiltSegsAgree(c, m);
    SameCounted(c.geo, c.free, c.dirty, m.free, m.dirty);
  }

  /** Maps that agree bit by bit have equal counters. */
  lemma SameCounted(g: Geometry, f: FreeMap, d: DirtyMap, f': FreeMap, d': DirtyMap)
    requires FreeMapOk(g, f) && FreeMapOk(g, f') && DirtySizes(g, d) && DirtyCounts(g, d')
    requires forall t :: 0 <= t < NR_DIRTY_TYPE ==> d.nr[t] == Count(d.maps[t])
    requires forall segno: nat :: segno < g.Segments() ==> f'.inuse[segno] == f.inuse[segno]
    requires forall t, i :: 0 <= t < NR_DIRTY_TYPE && 0 <= i < g.Segments() ==> d'.maps[t][i] == d.maps[t][i]
    ensures f' == f && d'.maps == d.maps && d'.nr == d.nr
  {
    assert f'.inuse == f.inuse;
    SameFreeMap(g, f, f');
    SameDirtyMap(g, d, d');
  }
}
