/**
  From one mount to the next: what a crash leaves of the segment manager. Summary
  blocks written since the checkpoint still name the owners of its blocks, so that
  the manager a mount builds is again in the invariant, with the forward map of the
  checkpoint, and runs go on over any number of crashes.
 */
module CrashMount {
  import opened Bitmap
  import opened FreeSegmap
  import opened SegmentModel
  import opened SegmentProofs
  import opened SegmentRuns

  // ------------------------------------------------------- the reverse map of the checkpoint

  ghost predicate Names(b: SumBlock, off: nat, o: Owner, version: nat) {
    off < |b.entries| && b.isNode == o.isNode && b.entries[off] == Summary(o.nid, o.ofsInNode, version)
  }

  ghost predicate Agree(a: SumBlock, b: SumBlock, off: nat) {
    off < |a.entries| == |b.entries| && a.isNode == b.isNode && a.entries[off] == b.entries[off]
  }

  /** The summary block of a segment names the owners its blocks had at checkpoint c. */
  ghost predicate Describes(c: Sm, segno: nat, b: SumBlock) {
    forall o :: o in c.slots && c.slots[o].loc.segno == segno ==> Names(b, c.slots[o].loc.off, o, c.slots[o].version)
  }

  /** The last checkpoint needs the block. */
  ghost predicate Saved(s: Sm, l: Loc)
    requires Sizes(s)
  {
    LocSizes(s, l) && s.entries[l.segno].ckptMap[l.off]
  }

  /**
    s still has what checkpoint c needs: its blocks, the summary entries that describe
    them, and those in the summary area where no log was open at the checkpoint.
   */
  ghost predicate Keeps(c: Sm, s: Sm) {
    && Sizes(s) && s.geo == c.geo
    && (forall o :: o in c.slots ==> Saved(s, c.slots[o].loc))
    && forall segno: nat :: segno < s.geo.Segments() ==>
         Describes(c, segno, SumBlockOf(s, segno)) && (IsLog(c.logs, segno) || Describes(c, segno, s.ssa[segno]))
  }

  lemma CheckpointDescribes(c: Sm)
    requires Inv(c) && forall segno: nat :: segno < c.geo.Segments() ==> c.entries[segno].ckptMap == c.entries[segno].curMap
    ensures Keeps(c, c)
  {
    forall o | o in c.slots
      ensures Saved(c, c.slots[o].loc) && Names(SumBlockOf(c, c.slots[o].loc.segno), c.slots[o].loc.off, o, c.slots[o].version)
    {
      assert SlotOk(c, o);
    }
    forall segno: nat | segno < c.geo.Segments() && !IsLog(c.logs, segno) ensures Describes(c, segno, c.ssa[segno]) {
      SumOfSaved(c, segno);
    }
  }

  // ------------------------------------------------------- one step

  /** A saved block is still saved, and its summary entries are those it had. */
  ghost predicate Carried(s: Sm, s': Sm, l: Loc)
    requires Sizes(s) && Sizes(s') && s'.geo == s.geo && Saved(s, l)
  {
    && s'.entries[l.segno].ckptMap[l.off]
    && Agree(SumBlockOf(s', l.segno), SumBlockOf(s, l.segno), l.off)
    && (Agree(s'.ssa[l.segno], s.ssa[l.segno], l.off) || Agree(s'.ssa[l.segno], SumBlockOf(s, l.segno), l.off))
  }

  lemma KeepsStep(c: Sm, s: Sm, s': Sm)
    requires Keeps(c, s) && Sizes(s') && s'.geo == s.geo && forall l :: Saved(s, l) ==> Carried(s, s', l)
    ensures Keeps(c, s')
  {
    forall segno: nat, o | segno < s.geo.Segments() && o in c.slots && c.slots[o].loc.segno == segno
      ensures Names(SumBlockOf(s', segno), c.slots[o].loc.off, o, c.slots[o].version)
      ensures IsLog(c.logs, segno) || Names(s'.ssa[segno], c.slots[o].loc.off, o, c.slots[o].version)
    {
      assert Saved(s, c.slots[o].loc) && Carried(s, s', c.slots[o].loc);
      assert Describes(c, segno, SumBlockOf(s, segno));
    }
    forall o | o in c.slots ensures Saved(s', c.slots[o].loc) { assert Carried(s, s', c.slots[o].loc); }
  }

  lemma SavedInUse(s: Sm, l: Loc)
    requires Inv(s) && Saved(s, l)
    ensures s.free.inuse[l.segno] && TypeOk(s, l.segno)
  {
    assert SegOk(s, l.segno) && EntryOk(s.geo, s.entries[l.segno]);
    assert Needed(s.entries[l.segno])[l.off];
    CountExtremes(Needed(s.entries[l.segno]));
  }

  /** The summary area after allocate_data_block: the summary of a log that had to move was saved. */
  lemma AllocateSaves(s: Sm, t: nat, old': OldBlock, sum: Summary, now: nat, choice: Choice, segno: nat)
    requires Sizes(s) && LogsOk(s) && CanAllocate(s, t, sum, choice) && segno < s.geo.Segments()
    requires old'.Block? ==> LocSizes(s, old'.loc) && old'.loc != NextBlock(s, t)
    ensures var s', b := Allocate(s, t, old', sum, now, choice), SumBlockOf(s, segno);
            || s'.ssa[segno] == s.ssa[segno]
            || (segno == s.logs[t].segno && s'.ssa[segno] == b.(entries := b.entries[s.logs[t].next := sum]))
  {
    SumOfLog(s, t);
    RefreshMaps(Handed(s, t, sum, choice), old', NextBlock(s, t), now);
  }

  lemma WrittenCarries(s: Sm, a: Sm, s': Sm, o: Owner, version: nat, t: nat, l: Loc)
    requires Writes(s, a, s', o, version, t) && Saved(s, l)
    requires var b := SumBlockOf(s, l.segno);
             || a.ssa[l.segno] == s.ssa[l.segno]
             || (l.segno == s.logs[t].segno
                 && a.ssa[l.segno] == b.(entries := b.entries[s.logs[t].next := Summary(o.nid, o.ofsInNode, version)]))
    ensures Sizes(s') && s'.geo == s.geo && Carried(s, s', l)
  {
    SavedInUse(s, l);
    assert Recorded(s, a, t, Summary(o.nid, o.ofsInNode, version), l.segno);
    SameSums(a, s', l.segno);
    assert l != NextBlock(s, t);
  }

  lemma WriteCarries(s: Sm, o: Owner, version: nat, t: nat, now: nat, choice: Choice, l: Loc)
    requires Inv(s) && CanWrite(s, o, version, t, choice) && Saved(s, l)
    ensures var s' := Write(s, o, version, t, now, choice); Sizes(s') && s'.geo == s.geo && Carried(s, s', l)
  {
    var sum := Summary(o.nid, o.ofsInNode, version);
    assert o in s.slots ==> SlotOk(s, o);
    AllocateAllocates(s, t, OldOf(s, o), sum, now, choice);
    WriteKeepsInv(s, o, version, t, now, choice);
    AllocateSaves(s, t, OldOf(s, o), sum, now, choice, l.segno);
    hide CountersOk, SegsOk, SlotsOk, LogsOk, LogsOpen, Carried, Saved, SumBlockOf;
    WrittenCarries(s, Allocate(s, t, OldOf(s, o), sum, now, choice), Write(s, o, version, t, now, choice), o, version, t, l);
  }

  lemma DropCarries(s: Sm, o: Owner, now: nat, l: Loc)
    requires Inv(s) && o in s.slots && Saved(s, l)
    ensures var s' := Drop(s, o, now); Sizes(s') && s'.geo == s.geo && Carried(s, s', l)
  {
    assert SlotOk(s, o);
    DropKeepsInv(s, o, now);
    InvalidateMaps(s, s.slots[o].loc, now);
    SameSums(s, Drop(s, o, now), l.segno);
  }

  lemma MoveCarries(s: Sm, t: nat, q: nat, l: Loc)
    requires Inv(s) && t < NR_LOGS && q < s.geo.Segments() && !s.free.inuse[q] && Saved(s, l)
    ensures var s' := MoveLog(s, t, q); Sizes(s') && s'.geo == s.geo && Carried(s, s', l)
  {
    var h, s' := NewLog(s, t, q), MoveLog(s, t, q);
    MoveLogKeepsInv(s, t, q);
    NewLogMoves(s, t, q);
    MovedKeeps(s, h, t, q);
    LocateMaps(h, s.logs[t].segno);
    SavedInUse(s, l);
    MovedSums(s, h, t, q, l.segno);
    SameSums(h, s', l.segno);
    SumOfLog(s, t);
  }

  lemma StepKeeps(c: Sm, w: World, op: Op)
    requires Safe(w) && Enabled(w, op) && !op.OpCheckpoint? && Keeps(c, w.sm)
    ensures Safe(Step(w, op)) && Keeps(c, Step(w, op).sm)
    ensures Step(w, op).savedSlots == w.savedSlots && Step(w, op).savedLive == w.savedLive
  {
    var s, s' := w.sm, Step(w, op).sm;
    StepIsSafe(w, op);
    forall l | Saved(s, l) ensures s'.geo == s.geo && Carried(s, s', l) {
      match op
      case OpWrite(o, version, t, now, choice, _) => WriteCarries(s, o, version, t, now, choice, l);
      case OpDrop(o, now) => DropCarries(s, o, now, l);
      case OpMove(t, q) => MoveCarries(s, t, q, l);
    }
    StepGeo(w, op);
    KeepsStep(c, s, s');
  }

  lemma StepGeo(w: World, op: Op)
    requires Enabled(w, op) && !op.OpCheckpoint?
    ensures Step(w, op).sm.geo == w.sm.geo
  {
    match op
    case OpWrite(o, version, t, now, choice, _) => WriteKeepsInv(w.sm, o, version, t, now, choice);
    case OpDrop(o, now) => DropKeepsInv(w.sm, o, now);
    case OpMove(t, q) => MoveLogKeepsInv(w.sm, t, q);
  }

  // ------------------------------------------------------- the manager a mount builds

  /** What a checkpoint leaves has nothing to write and nothing prefree. */
  ghost predicate Settled(c: Sm) {
    && Inv(c)
    && forall segno: nat :: segno < c.geo.Segments() ==>
         c.entries[segno].ckptMap == c.entries[segno].curMap && !c.dirty.maps[PRE][segno]
  }

  /** The manager built from what checkpoint c stored, apart from the summary area. */
  ghost predicate Restored(c: Sm, m: Sm) {
    && Sizes(m) && m.geo == c.geo && m.entries == c.entries && m.secValid == c.secValid
    && (forall segno: nat :: segno < m.geo.Segments() ==> !m.sitDirty[segno]) && m.dirtySentries == 0
    && m.free == c.free && m.dirty.maps == c.dirty.maps && m.dirty.nr == c.dirty.nr
    && m.logs == c.logs && m.slots == c.slots
  }

  lemma RestoredSums(c: Sm, m: Sm, segno: nat)
    requires Inv(c) && Restored(c, m) && LogsOk(m) && segno < c.geo.Segments()
    ensures SumBlockOf(m, segno) == if IsLog(c.logs, segno) then SumBlockOf(c, segno) else m.ssa[segno]
  {
    if IsLog(c.logs, segno) {
      var u: nat :| u < NR_LOGS && c.logs[u].segno == segno;
      SumOfLog(c, u);
      SumOfLog(m, u);
    } else {
      SumOfSaved(m, segno);
    }
  }

  lemma RestoredMaps(c: Sm, m: Sm)
    requires Settled(c) && Restored(c, m)
    ensures CountersOk(m) && SegsOk(m, {}) && LogsOk(m) && LogsOpen(m)
  {
    NoneDirty(m);
    forall segno: nat | segno < m.geo.Segments() ensures SegOk(m, segno) { assert SegOk(c, segno); }
    forall u: nat | u < NR_LOGS ensures LogOk(m, u) { assert LogOk(c, u); }
  }

  /** The owner of a block and the type of its segment, read through the summary area as the crash left it. */
  lemma RestoredBlock(c: Sm, m: Sm, loc: Loc)
    requires Settled(c) && Restored(c, m) && LogsOk(m) && ValidLoc(c, loc)
    requires !IsLog(c.logs, loc.segno) ==> Describes(c, loc.segno, m.ssa[loc.segno])
    ensures BlockOk(c, loc) && OwnerAt(m, loc) == OwnerAt(c, loc)
    ensures SumBlockOf(m, loc.segno).entries[loc.off].version == SumBlockOf(c, loc.segno).entries[loc.off].version
    ensures SumBlockOf(m, loc.segno).isNode == SumBlockOf(c, loc.segno).isNode
  {
    assert BlockOk(c, loc) && SlotOk(c, OwnerAt(c, loc));
    RestoredSums(c, m, loc.segno);
  }

  lemma SomeValidBlock(s: Sm, segno: nat) returns (off: nat)
    requires Inv(s) && segno < s.geo.Segments() && s.entries[segno].validBlocks > 0
    ensures ValidLoc(s, Loc(segno, off))
  {
    assert EntryOk(s.geo, s.entries[segno]);
    CountExtremes(s.entries[segno].curMap);
    off :| off < |s.entries[segno].curMap| && s.entries[segno].curMap[off];
  }

  lemma RestoredType(c: Sm, m: Sm, segno: nat)
    requires Settled(c) && Restored(c, m) && LogsOk(m) && segno < c.geo.Segments() && c.free.inuse[segno]
    requires !IsLog(c.logs, segno) ==> Describes(c, segno, m.ssa[segno])
    ensures TypeOk(m, segno)
  {
    assert SegOk(c, segno) && TypeOk(c, segno);
    if IsLog(c.logs, segno) {
      RestoredSums(c, m, segno);
    } else {
      var off := SomeValidBlock(c, segno);
      RestoredBlock(c, m, Loc(segno, off));
    }
  }

  /** A mounted manager is in the invariant if the summary area still describes the blocks of the checkpoint. */
  lemma RestoredInv(c: Sm, m: Sm)
    requires Settled(c) && Restored(c, m)
    requires forall segno: nat :: segno < c.geo.Segments() && !IsLog(c.logs, segno) ==> Describes(c, segno, m.ssa[segno])
    ensures Inv(m)
  {
    RestoredMaps(c, m);
    forall o | o in m.slots ensures SlotOk(m, o) {
      assert SlotOk(c, o);
      RestoredBlock(c, m, c.slots[o].loc);
    }
    forall loc | ValidLoc(m, loc) ensures BlockOk(m, loc) {
      assert ValidLoc(c, loc);
      RestoredBlock(c, m, loc);
    }
    forall segno: nat | segno < m.geo.Segments() && m.free.inuse[segno] ensures TypeOk(m, segno) {
      RestoredType(c, m, segno);
    }
  }

  lemma CheckpointSettles(s: Sm)
    requires Inv(s)
    ensures Settled(Checkpoint(s)) && Keeps(Checkpoint(s), Checkpoint(s))
  {
    CheckpointKeepsInv(s);
    CheckpointDescribes(Checkpoint(s));
  }

  // ------------------------------------------------------- crashes

  /** The world after the first k operations of a run. */
  ghost function After(w: World, ops: seq<Op>, k: nat): World
    requires EnabledRun(w, ops) && k <= |ops|
    decreases ops
  {
    if k == 0 then w else After(Step(w, ops[0]), ops[1..], k - 1)
  }

  lemma {:induction false} AfterKeeps(c: Sm, w: World, ops: seq<Op>, k: nat)
    requires Safe(w) && EnabledRun(w, ops) && NoCheckpoint(ops) && Keeps(c, w.sm) && k <= |ops|
    ensures var a := After(w, ops, k);
            && Safe(a) && Keeps(c, a.sm) && a.savedSlots == w.savedSlots && a.savedLive == w.savedLive
    decreases ops
  {
    hide Safe, Keeps, Step, Enabled;
    if k > 0 {
      StepKeeps(c, w, ops[0]);
      AfterKeeps(c, Step(w, ops[0]), ops[1..], k - 1);
    }
  }

  /** A block of the device as it was at some time of the run: writes may be lost, in any order. */
  ghost predicate LeftOnDisk(w: World, ops: seq<Op>, disk: map<Loc, int>, loc: Loc)
    requires EnabledRun(w, ops)
  {
    exists k: nat :: k <= |ops| && var d := After(w, ops, k).disk;
      (loc in disk <==> loc in d) && (loc in d ==> disk[loc] == d[loc])
  }

  /** So may writes of summary blocks. */
  ghost predicate LeftInSsa(w: World, ops: seq<Op>, ssa: seq<SumBlock>, segno: nat)
    requires EnabledRun(w, ops) && segno < |ssa|
  {
    exists k: nat :: k <= |ops| && var a := After(w, ops, k).sm.ssa; segno < |a| && ssa[segno] == a[segno]
  }

  /** After the run ops that follows the checkpoint of w, the system crashes and is mounted again. */
  ghost predicate CrashMounts(w: World, ops: seq<Op>, w': World)
    requires Inv(w.sm)
  {
    && Enabled(w, OpCheckpoint)
    && var v := Step(w, OpCheckpoint);
    && EnabledRun(v, ops) && NoCheckpoint(ops)
    && Restored(v.sm, w'.sm)
    && (forall loc :: LeftOnDisk(v, ops, w'.disk, loc))
    && (forall segno: nat :: segno < v.sm.geo.Segments() ==> segno < |w'.sm.ssa| && LeftInSsa(v, ops, w'.sm.ssa, segno))
    && w'.live == v.live && w'.savedSlots == v.savedSlots && w'.savedLive == v.savedLive
  }

  lemma LeftDescribes(c: Sm, w: World, ops: seq<Op>, ssa: seq<SumBlock>, segno: nat)
    requires Safe(w) && EnabledRun(w, ops) && NoCheckpoint(ops) && Keeps(c, w.sm)
    requires segno < |ssa| && segno < c.geo.Segments() && LeftInSsa(w, ops, ssa, segno) && !IsLog(c.logs, segno)
    ensures Describes(c, segno, ssa[segno])
  {
    var k: nat :| k <= |ops| && var a := After(w, ops, k).sm.ssa; segno < |a| && ssa[segno] == a[segno];
    AfterKeeps(c, w, ops, k);
  }

  lemma LeftReads(c: Sm, w: World, ops: seq<Op>, disk: map<Loc, int>, o: Owner)
    requires Safe(w) && EnabledRun(w, ops) && NoCheckpoint(ops) && Keeps(c, w.sm)
    requires o in w.savedSlots && LeftOnDisk(w, ops, disk, w.savedSlots[o].loc)
    ensures o in w.savedLive && w.savedSlots[o].loc in disk && disk[w.savedSlots[o].loc] == w.savedLive[o]
  {
    var loc := w.savedSlots[o].loc;
    var k: nat :| k <= |ops| && var d := After(w, ops, k).disk;
      (loc in disk <==> loc in d) && (loc in d ==> disk[loc] == d[loc]);
    AfterKeeps(c, w, ops, k);
  }

  /**
    Wherever it crashes and whatever writes are lost, the file system that is mounted
    is one to go on with: its manager is in the invariant, and it reads the data that
    were live when the checkpoint was taken.
   */
  lemma CrashMountIsSafe(w: World, ops: seq<Op>, w': World)
    requires Safe(w) && CrashMounts(w, ops, w')
    ensures Safe(w') && w'.sm.slots == w.sm.slots && w'.live == w.live
  {
    var v := Step(w, OpCheckpoint);
    CheckpointIsSafe(w);
    CheckpointSettles(w.sm);
    CheckpointCheckpoints(w.sm);
    forall segno: nat | segno < v.sm.geo.Segments() && !IsLog(v.sm.logs, segno)
      ensures Describes(v.sm, segno, w'.sm.ssa[segno])
    {
      LeftDescribes(v.sm, v, ops, w'.sm.ssa, segno);
    }
    RestoredInv(v.sm, w'.sm);
    forall o | o in v.savedSlots
      ensures o in v.savedLive && v.savedSlots[o].loc in w'.disk && w'.disk[v.savedSlots[o].loc] == v.savedLive[o]
    {
      LeftReads(v.sm, v, ops, w'.disk, o);
    }
  }

  /** One mount to the next: a run with any checkpoints, the last checkpoint, a run without one, a crash. */
  datatype Era = Era(before: seq<Op>, after: seq<Op>, next: World)

  ghost predicate Life(w: World, eras: seq<Era>)
    decreases eras
  {
    eras == [] || (EnabledRun(w, eras[0].before) && Inv(Run(w, eras[0].before).sm)
                   && CrashMounts(Run(w, eras[0].before), eras[0].after, eras[0].next) && Life(eras[0].next, eras[1..]))
  }

  /** Over any number of crashes, every mount finds the data of the last checkpoint and a manager in the invariant. */
  lemma {:induction false} LifeIsSafe(w: World, eras: seq<Era>)
    requires Safe(w) && Life(w, eras)
    ensures forall i :: 0 <= i < |eras| ==> Safe(eras[i].next)
    decreases eras
  {
    hide Safe, Step, Enabled, EnabledRun, Run, CrashMounts;
    if eras != [] {
      RunIsSafe(w, eras[0].before);
      CrashMountIsSafe(Run(w, eras[0].before), eras[0].after, eras[0].next);
      LifeIsSafe(eras[0].next, eras[1..]);
      assert forall i :: 1 <= i < |eras| ==> eras[i] == eras[1..][i - 1];
    }
  }

  // ------------------------------------------------------- a first mount

  /** What a mount builds from a table without valid blocks and six logs at the start of segments of their own. */
  ghost predicate Empty(m: Sm) {
    && Built(m) && (forall i :: 0 <= i < |m.secValid| ==> m.secValid[i] == 0)
    && (forall segno: nat :: segno < m.geo.Segments() ==>
          && m.entries[segno].validBlocks == 0 == m.entries[segno].ckptBlocks
          && m.entries[segno].curMap == Clear(m.geo.blocksPerSeg) == m.entries[segno].ckptMap)
    && (forall segno: nat :: segno < m.geo.Segments() ==> !m.sitDirty[segno]) && m.dirtySentries == 0
    && (forall t: nat :: t < NR_LOGS ==> NewAt(m, t))
    && (forall t: nat, u: nat :: t < u < NR_LOGS ==> m.logs[t].segno != m.logs[u].segno)
    && m.slots == map[]
  }

  ghost predicate NewAt(m: Sm, t: nat)
    requires Sizes(m) && t < NR_LOGS
  {
    var l := m.logs[t];
    && l.next == 0 < m.geo.blocksPerSeg && !l.ssr && l.zone == ZoneOf(m.geo, l.segno)
    && l.sum.isNode == IsNodeLog(t) && m.entries[l.segno].kind == t
  }

  lemma {:induction false} NothingInSection(g: Geometry, entries: seq<SegEntry>, secno: nat, n: nat)
    requires g.Valid() && n <= |entries| && forall i :: 0 <= i < n ==> entries[i].validBlocks == 0
    ensures SectionSum(g, entries, secno, n) == 0
  {
    if n > 0 { NothingInSection(g, entries, secno, n - 1); }
  }

  lemma EmptyEntryOk(g: Geometry, e: SegEntry)
    requires EntrySizes(g, e) && e.validBlocks == 0 == e.ckptBlocks && e.curMap == Clear(g.blocksPerSeg) == e.ckptMap
    ensures EntryOk(g, e)
  {
    CountExtremes(e.curMap);
    CountExtremes(Needed(e));
  }

  lemma EmptyCounters(m: Sm)
    requires Empty(m)
    ensures CountersOk(m)
  {
    forall segno | 0 <= segno < |m.entries| ensures EntryOk(m.geo, m.entries[segno]) { EmptyEntryOk(m.geo, m.entries[segno]); }
    forall secno: nat | secno < m.geo.sections ensures SectionSum(m.geo, m.entries, secno, |m.entries|) == 0 {
      NothingInSection(m.geo, m.entries, secno, |m.entries|);
    }
    NoneDirty(m);
  }

  /** Runs can start there: an empty file system is safe. */
  lemma EmptyIsSafe(m: Sm)
    requires Empty(m)
    ensures Safe(World(m, map[], map[], map[], map[]))
  {
    EmptyCounters(m);
    forall segno: nat | segno < m.geo.Segments() ensures SegOk(m, segno) { assert BuiltSeg(m, segno); }
    forall t: nat | t < NR_LOGS ensures LogOk(m, t) && m.logs[t].next < m.geo.blocksPerSeg { assert NewAt(m, t); }
    forall segno: nat | segno < m.geo.Segments() && m.free.inuse[segno] ensures TypeOk(m, segno) {
      assert BuiltSeg(m, segno);
      LogType(m, segno);
    }
    forall loc | ValidLoc(m, loc) ensures false { }
  }
}
