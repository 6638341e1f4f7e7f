/**
  The segment information table over whole runs: operations leave every entry
  that is not dirty stored, a checkpoint stores all of them, and a mount that reads
  them back finds the state the checkpoint left.
 */
module SitMount {
  import opened Bitmap
  import opened FreeSegmap
  import opened SegmentModel
  import opened SegmentProofs
  import opened SegmentRuns
  import opened SegmentManagement
  import opened SitModel
  import opened SitManagement
  import opened SummaryJournal
  import opened CrashMount

  // ------------------------------------------------------- changed entries are dirty

  /** What differs from s is marked dirty in s', and nothing dirty was forgotten. */
  ghost predicate Marked(s: Sm, s': Sm)
    requires Sizes(s)
  {
    && Sizes(s') && s'.geo == s.geo
    && forall segno: nat :: segno < s.geo.Segments() && !s'.sitDirty[segno] ==>
         !s.sitDirty[segno] && s'.entries[segno] == s.entries[segno]
  }

  lemma MarkedTwice(a: Sm, b: Sm, c: Sm)
    requires Sizes(a) && Marked(a, b) && Marked(b, c)
    ensures Marked(a, c)
  {
  }

  lemma UpdateSitMarks(s: Sm, loc: Loc, add: bool, now: nat)
    requires Sizes(s) && LocSizes(s, loc)
    ensures Marked(s, UpdateSit(s, loc, add, now))
  {
  }

  lemma LocateMarks(s: Sm, k: nat)
    requires Sizes(s) && k < s.geo.Segments()
    ensures Marked(s, Locate(s, k))
  {
  }

  lemma AdvanceMarks(s: Sm, t: nat, sum: Summary)
    requires Sizes(s) && t < NR_LOGS && s.logs[t].next < s.geo.blocksPerSeg
    ensures Marked(s, Advance(s, t, sum))
  {
  }

  lemma NewLogMarks(s: Sm, t: nat, segno: nat)
    requires Sizes(s) && t < NR_LOGS && segno < s.geo.Segments()
    ensures Marked(s, NewLog(s, t, segno))
  {
  }

  lemma ReuseLogMarks(s: Sm, t: nat, segno: nat)
    requires Sizes(s) && t < NR_LOGS && segno < s.geo.Segments()
    ensures Marked(s, ReuseLog(s, t, segno))
  {
  }

  lemma HandedMarks(s: Sm, t: nat, sum: Summary, choice: Choice)
    requires Sizes(s) && t < NR_LOGS && s.logs[t].next < s.geo.blocksPerSeg && choice.segno < s.geo.Segments()
    ensures Marked(s, Handed(s, t, sum, choice))
  {
    var a := Advance(s, t, sum);
    AdvanceMarks(s, t, sum);
    if LogFull(a, t) {
      if choice.Fresh? { NewLogMarks(a, t, choice.segno); } else { ReuseLogMarks(a, t, choice.segno); }
      MarkedTwice(s, a, SwitchLog(a, t, choice));
    }
  }

  lemma RefreshMarks(s: Sm, old': OldBlock, new': Loc, now: nat)
    requires Sizes(s) && LocSizes(s, new') && (old'.Block? ==> LocSizes(s, old'.loc))
    ensures Marked(s, Refresh(s, old', new', now))
  {
    var a := UpdateSit(s, new', true, now);
    UpdateSitMarks(s, new', true, now);
    var b := SwapBlocks(s, old', new', now);
    if old'.Block? {
      UpdateSitMarks(a, old'.loc, false, now);
      MarkedTwice(s, a, b);
      LocateMarks(b, old'.loc.segno);
      MarkedTwice(s, b, Locate(b, old'.loc.segno));
    }
    var c := if old'.Block? then Locate(b, old'.loc.segno) else b;
    LocateMarks(c, new'.segno);
    MarkedTwice(s, c, Locate(c, new'.segno));
  }

  lemma WriteMarks(s: Sm, o: Owner, version: nat, t: nat, now: nat, choice: Choice)
    requires Inv(s) && CanWrite(s, o, version, t, choice)
    ensures Sizes(Write(s, o, version, t, now, choice)) && Marked(s, Write(s, o, version, t, now, choice))
  {
    assert o in s.slots ==> SlotOk(s, o);
    var sum := Summary(o.nid, o.ofsInNode, version);
    var h := Handed(s, t, sum, choice);
    HandedMarks(s, t, sum, choice);
    RefreshMarks(h, OldOf(s, o), NextBlock(s, t), now);
    var a := Refresh(h, OldOf(s, o), NextBlock(s, t), now);
    MarkedTwice(s, h, a);
    SlotsAside(s, a, a.(slots := s.slots[o := Slot(NextBlock(s, t), version)]));
  }

  lemma SlotsAside(s: Sm, a: Sm, b: Sm)
    requires Sizes(s) && Marked(s, a) && b == a.(slots := b.slots)
    ensures Marked(s, b)
  {
  }

  lemma DropMarks(s: Sm, o: Owner, now: nat)
    requires Inv(s) && o in s.slots
    ensures Marked(s, Drop(s, o, now))
  {
    assert SlotOk(s, o);
    var loc := s.slots[o].loc;
    var a := UpdateSit(s, loc, false, now);
    UpdateSitMarks(s, loc, false, now);
    LocateMarks(a, loc.segno);
    MarkedTwice(s, a, Locate(a, loc.segno));
    SlotsAside(s, Locate(a, loc.segno), Drop(s, o, now));
  }

  lemma MoveLogMarks(s: Sm, t: nat, segno: nat)
    requires Sizes(s) && t < NR_LOGS && segno < s.geo.Segments()
    ensures Marked(s, MoveLog(s, t, segno))
  {
    var a := NewLog(s, t, segno);
    NewLogMarks(s, t, segno);
    LocateMarks(a, s.logs[t].segno);
    MarkedTwice(s, a, Locate(a, s.logs[t].segno));
  }

  // ------------------------------------------------------- stored entries over a run

  /** Every entry that is not dirty is stored as it stands. */
  ghost predicate CleanStored(t: Sit, s: Sm)
    requires SitOk(t)
  {
    && Sizes(s) && |s.entries| == t.lay.segs
    && forall segno: nat :: segno < t.lay.segs && !s.sitDirty[segno] ==> Persisted(t, segno) == ToRaw(s.entries[segno])
  }

  lemma MarkedKeepsStored(t: Sit, s: Sm, s': Sm)
    requires SitOk(t) && CleanStored(t, s) && Marked(s, s')
    ensures CleanStored(t, s')
  {
  }

  lemma StepKeepsStored(t: Sit, w: World, op: Op)
    requires SitOk(t) && Enabled(w, op) && !op.OpCheckpoint? && CleanStored(t, w.sm)
    ensures CleanStored(t, Step(w, op).sm)
  {
    match op
    case OpWrite(o, version, u, now, choice, _) => WriteMarks(w.sm, o, version, u, now, choice);
    case OpDrop(o, now) => DropMarks(w.sm, o, now);
    case OpMove(u, segno) => MoveLogMarks(w.sm, u, segno);
    MarkedKeepsStored(t, w.sm, Step(w, op).sm);
  }

  /** Between checkpoints, what a mount would read of a clean segment is its entry. */
  lemma {:induction false} RunKeepsStored(t: Sit, w: World, ops: seq<Op>)
    requires SitOk(t) && EnabledRun(w, ops) && NoCheckpoint(ops) && CleanStored(t, w.sm)
    ensures CleanStored(t, Run(w, ops).sm)
    decreases ops
  {
    if ops != [] {
      StepKeepsStored(t, w, ops[0]);
      RunKeepsStored(t, Step(w, ops[0]), ops[1..]);
    }
  }

  // ------------------------------------------------------- checkpoint and mount

  /** A checkpoint as the segment manager sees it: flush_sit_entries, and later clear_prefree_segments. */
  method CheckpointSegments(sit: SitInfo)
    requires sit.sm.Valid() && Inv(sit.sm.Abs()) && sit.sm.free.geo.blocksPerSeg < SIT_VBLOCKS
    requires SitOk(sit.Abs()) && sit.StoredOk() && sit.sets == []
    modifies sit, sit.sm, sit.sm.free
    ensures old(Inv(sit.sm.Abs())) && sit.sm.Abs() == Checkpoint(old(sit.sm.Abs())) && Inv(sit.sm.Abs()) && sit.sm.Valid()
    ensures SitOk(sit.Abs()) && AllStored(sit.Abs(), sit.sm.entries) && sit.StoredOk() && sit.sets == []
    ensures old(SitOk(sit.Abs())) && OldCopies(old(sit.Abs()), sit.Abs())
  {
    ghost var s := sit.sm.Abs();
    sit.FlushSitEntries();
    FlushedCounts(s, sit.sm.Abs());
    sit.sm.ClearPrefree();
    assert sit.sm.Abs() == Checkpoint(s);
    CheckpointKeepsInv(s);
  }

  lemma FlushedCounts(s: Sm, s': Sm)
    requires Inv(s) && SitFlushed(s, s')
    ensures s'.dirty.nr[PRE] == Count(s'.dirty.maps[PRE])
  {
  }

  /** build_sit_entries: every entry from the journal, or else from the current SIT page. */
  method BuildSitEntries(sit: SitInfo) returns (es: seq<SegEntry>)
    requires SitOk(sit.Abs())
    ensures |es| == sit.lay.segs
    ensures forall segno: nat :: segno < |es| ==> es[segno] == FromRawSit(Persisted(sit.Abs(), segno))
  {
    es := [];
    for start: nat := 0 to sit.lay.segs
      invariant |es| == start
      invariant forall segno: nat :: segno < start ==> es[segno] == FromRawSit(Persisted(sit.Abs(), segno))
    {
      var raw := ReadRawSit(sit, start);
      es := es + [FromRawSit(raw)];
    }
  }

  method ReadRawSit(sit: SitInfo, start: nat) returns (raw: RawSit)
    requires SitOk(sit.Abs()) && start < sit.lay.segs
    ensures raw == Persisted(sit.Abs(), start)
  {
    BlockInRange(sit.lay, start);
    for i: nat := 0 to |sit.journal|
      invariant forall k :: 0 <= k < i ==> sit.journal[k].key != start
    {
      if sit.journal[i].key == start {
        FindIs(sit.journal, start, i);
        return sit.journal[i].val;
      }
    }
    assert Find(sit.journal, start) == |sit.journal|;
    var block := start / sit.lay.perBlock;
    raw := sit.area[SitAddr(sit.lay, block, sit.sitBitmap[block])][start % sit.lay.perBlock];
  }

  predicate ReadableEntry(g: Geometry, e: SegEntry) { EntrySizes(g, e) && 0 <= e.validBlocks <= g.blocksPerSeg }

  /** Entries that were read fit the geometry. */
  ghost predicate Readable(g: Geometry, es: seq<SegEntry>) {
    |es| == g.Segments() > 0 && forall segno :: 0 <= segno < |es| ==> ReadableEntry(g, es[segno])
  }

  ghost predicate LogsFit(g: Geometry, logs: seq<Log>, sums: seq<SumBlock>) {
    && |logs| == NR_LOGS && (forall t :: 0 <= t < NR_LOGS ==> LogSizes(g, logs[t]))
    && |sums| == g.Segments() && forall segno :: 0 <= segno < |sums| ==> |sums[segno].entries| == g.blocksPerSeg
  }

  /** The section counts are those of the entries. */
  ghost predicate SumsBuilt(m: Sm) {
    && Sizes(m)
    && (m.geo.segsPerSec > 1 ==>
          forall secno: nat :: secno < m.geo.sections ==> m.secValid[secno] == SectionSum(m.geo, m.entries, secno, |m.entries|))
  }

  ghost predicate NothingToFlush(m: Sm) {
    (forall segno :: 0 <= segno < |m.sitDirty| ==> !m.sitDirty[segno]) && m.dirtySentries == 0
  }

  /** build_segment_manager on the stored table, with the logs the checkpoint recorded. */
  method Mount(sit: SitInfo, g: Geometry, maxSearch: nat, logs: seq<Log>, sums: seq<SumBlock>)
    returns (m: SegmentManager, es: seq<SegEntry>)
    requires SitOk(sit.Abs()) && g.Valid() && LogsFit(g, logs, sums)
    requires sit.lay.segs == g.Segments() > 0
    requires forall segno: nat :: segno < sit.lay.segs ==> ReadableEntry(g, FromRawSit(Persisted(sit.Abs(), segno)))
    ensures Built(m.Abs()) && SumsBuilt(m.Abs()) && NothingToFlush(m.Abs())
    ensures m.free.geo == g && m.logs == logs && m.ssa == sums && m.entries == es && |es| == sit.lay.segs
    ensures forall segno: nat :: segno < sit.lay.segs ==> es[segno] == FromRawSit(Persisted(sit.Abs(), segno))
  {
    es := BuildSitEntries(sit);
    m := BuildManager(g, maxSearch, es, logs, sums);
  }

  method BuildManager(g: Geometry, maxSearch: nat, es: seq<SegEntry>, logs: seq<Log>, sums: seq<SumBlock>)
    returns (m: SegmentManager)
    requires g.Valid() && LogsFit(g, logs, sums) && Readable(g, es)
    ensures Built(m.Abs()) && SumsBuilt(m.Abs()) && NothingToFlush(m.Abs())
    ensures m.free.geo == g && m.logs == logs && m.ssa == sums && m.entries == es
  {
    m := new SegmentManager(g, maxSearch, es, logs, sums);
    m.BuildMaps();
  }

  /**
    Flushing at a checkpoint and reading back at mount time is the identity: the
    segment entries, the free map with its counters and the dirty lists with theirs
    are those the checkpoint left.
   */
  lemma MountFindsCheckpoint(s: Sm, t: Sit, m: Sm)
    requires Inv(s) && s.geo.blocksPerSeg < SIT_VBLOCKS && SitOk(t) && AllStored(t, Checkpoint(s).entries)
    requires Built(m) && m.geo == s.geo && m.logs == s.logs
    requires forall segno: nat :: segno < t.lay.segs ==>
               segno < |m.entries| && m.entries[segno] == FromRawSit(Persisted(t, segno))
    ensures var c := Checkpoint(s);
            m.entries == c.entries && m.free == c.free && m.dirty.maps == c.dirty.maps && m.dirty.nr == c.dirty.nr
  {
    CountsFit(s);
    CheckpointEntries(s);
    forall segno: nat | segno < s.geo.Segments()
      ensures var e := s.entries[segno]; m.entries[segno] == FromRaw(e.validBlocks, e.curMap, e.kind, e.mtime)
    {
      RawRoundTrip(s.entries[segno]);
    }
    MountRestores(s, m);
  }

  /** And with the forward map of the checkpoint it is a manager that runs can go on with. */
  lemma MountRestoresManager(s: Sm, t: Sit, m: Sm)
    requires Inv(s) && s.geo.blocksPerSeg < SIT_VBLOCKS && SitOk(t) && AllStored(t, Checkpoint(s).entries)
    requires Built(m) && SumsBuilt(m) && NothingToFlush(m) && m.geo == s.geo && m.logs == s.logs && m.slots == s.slots
    requires forall segno: nat :: segno < t.lay.segs ==>
               segno < |m.entries| && m.entries[segno] == FromRawSit(Persisted(t, segno))
    ensures Restored(Checkpoint(s), m)
  {
    MountFindsCheckpoint(s, t, m);
    CheckpointKeepsInv(s);
    assert m.secValid == Checkpoint(s).secValid;
  }
}
