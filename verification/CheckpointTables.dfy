/**
  Checkpoint packs together with the tables they select: a pack carries the version
  bitmaps and the journals of the node address table and the segment table. Whichever
  blocks of a checkpoint a crash leaves, the one that mount chooses selects copies of
  the table pages that hold one table whole, that of the last completed checkpoint.
 */
module CheckpointTables {
  import opened CheckpointPack
  import opened SummaryJournal
  import N = NatModel
  import NatManagement
  import R = SegmentRuns
  import S = SitModel
  import SegmentManagement
  import SitManagement
  import SegmentModel
  import SegmentProofs
  import SitMount

  /** What a pack carries of the two tables. */
  datatype Tables = Tables(natBitmap: seq<bool>, natJournal: seq<JEntry<N.NodeInfo>>,
                           sitBitmap: seq<bool>, sitJournal: seq<JEntry<S.RawSit>>)

  /** How they are coded: bitmaps in the checkpoint block and its payload, journals in the data summaries. */
  type Coding = (nat, seq<Block>, seq<Block>) -> Tables

  ghost predicate Carries(code: Coding, h: Header, c: Contents, nat': N.Nat, sit: S.Sit) {
    code(h.state, c.payload, c.sums) == Tables(nat'.bitmap, nat'.journal, sit.bitmap, sit.journal)
  }

  /** The device with the checkpoint in force, and the tables it stands for. */
  datatype Image = Image(disk: map<nat, Block>, h: Header, c: Contents, nat': N.Nat, sit: S.Sit)

  ghost predicate Whole(z: Area, code: Coding, a: Image) {
    Inv(z, a.disk, a.h, a.c) && Carries(code, a.h, a.c, a.nat', a.sit) && N.AreaOk(a.nat') && S.AreaOk(a.sit)
  }

  /** Both tables read the same. */
  ghost predicate SameTables(a: Image, b: Image) {
    && N.AreaOk(a.nat') && N.AreaOk(b.nat') && S.AreaOk(a.sit) && S.AreaOk(b.sit)
    && b.nat'.lay == a.nat'.lay && b.sit.lay == a.sit.lay
    && (forall nid: nat :: nid < a.nat'.lay.Nids() ==> N.Persisted(b.nat', nid) == N.Persisted(a.nat', nid))
    && forall segno: nat :: segno < a.sit.lay.segs ==> S.Persisted(b.sit, segno) == S.Persisted(a.sit, segno)
  }

  // ------------------------------------------------------- what mount reads

  /** The data summaries of a pack as they are read: they end before the node summaries and the closing block. */
  ghost function SumsRead(disk: map<nat, Block>, start: nat, h: Header): seq<Block> {
    var n := h.total - 1 - h.startSum - if h.umount then LOGS_OF_KIND else 0;
    if n < 0 then [] else seq(n, i requires 0 <= i < n => Read(disk, start + h.startSum + i))
  }

  ghost function PayloadRead(z: Area, disk: map<nat, Block>, start: nat): seq<Block> {
    seq(z.payload, i requires 0 <= i < z.payload => Read(disk, start + 1 + i))
  }

  /** The bitmaps and journals a mount starts from: those of the checkpoint it chooses. */
  ghost function TablesRead(z: Area, code: Coding, disk: map<nat, Block>): Tables
    requires (forall a: nat :: Read(disk, a).Cp? ==> Read(disk, a).h.version < U64) && Read(disk, Chosen(z, disk)).Cp?
  {
    var start := Chosen(z, disk);
    var h := Read(disk, start).h;
    code(h.state, PayloadRead(z, disk, start), SumsRead(disk, start, h))
  }

  lemma PackRead(z: Area, disk: map<nat, Block>, start: nat, h: Header, c: Contents)
    requires c.Valid(z) && HeaderOk(h, c) && Stored(disk, start, Pack(h, c))
    ensures Read(disk, start) == Cp(h) && PayloadRead(z, disk, start) == c.payload && SumsRead(disk, start, h) == c.sums
  {
    StoredFirst(disk, start, Pack(h, c));
    forall i: nat | i < z.payload ensures Read(disk, start + 1 + i) == c.payload[i] {
      var k := 1 + i;
      assert Read(disk, start + k) == Pack(h, c)[k];
    }
    forall i: nat | i < |c.sums| ensures Read(disk, start + h.startSum + i) == c.sums[i] {
      DataSummaryFound(z, disk, start, h, c, i);
    }
  }

  /** The tables a mount reads are those the checkpoint in force stands for. */
  lemma MountReadsTables(z: Area, code: Coding, a: Image)
    requires Whole(z, code, a) && a.h.version + 1 < U64
    ensures forall x: nat :: Read(a.disk, x).Cp? ==> Read(a.disk, x).h.version < U64
    ensures Read(a.disk, Chosen(z, a.disk)) == Cp(a.h)
    ensures TablesRead(z, code, a.disk) == Tables(a.nat'.bitmap, a.nat'.journal, a.sit.bitmap, a.sit.journal)
  {
    MountFinds(z, a.disk, a.h, a.c);
    PackRead(z, a.disk, z.Start(a.h.version), a.h, a.c);
  }

  // ------------------------------------------------------- one checkpoint

  /** What write_checkpoint sets out to leave: the flushes touched no current page, and its blocks carry the new tables. */
  ghost predicate Prepares(z: Area, code: Coding, a: Image, n: Image) {
    && PackOk(z, n.h, n.c) && n.h.version == a.h.version + 1
    && n.disk == a.disk + Laid(z.Start(n.h.version), Pack(n.h, n.c)) && Carries(code, n.h, n.c, n.nat', n.sit)
    && N.AreaOk(a.nat') && N.AreaOk(n.nat') && n.nat'.lay == a.nat'.lay && N.OldCopies(a.nat', n.nat')
    && S.AreaOk(a.sit) && S.AreaOk(n.sit) && n.sit.lay == a.sit.lay && S.OldCopies(a.sit, n.sit)
  }

  /** Every page is the old one or the new one: those that were not written back are lost. */
  ghost predicate Mixed<T>(a: map<nat, T>, b: map<nat, T>, m: map<nat, T>) {
    m.Keys == a.Keys && forall x :: x in m ==> m[x] == a[x] || (x in b && m[x] == b[x])
  }

  /** One checkpoint comes through, or crashes with these blocks of it and these table pages on the device. */
  datatype Step = Through(next: Image)
                | Crash(next: Image, kept: set<nat>, natArea: map<nat, seq<N.NodeInfo>>, sitArea: map<nat, seq<S.RawSit>>)

  ghost predicate Takes(z: Area, code: Coding, a: Image, e: Step, b: Image) {
    var n, s := e.next, z.Start(e.next.h.version);
    && Prepares(z, code, a, n)
    && match e
       case Through(_) => b == n
       case Crash(_, kept, natArea, sitArea) =>
         && s + n.h.total - 1 !in kept
         && Mixed(a.nat'.area, n.nat'.area, natArea) && Mixed(a.sit.area, n.sit.area, sitArea)
         && b == Image(Crashed(a.disk, Laid(s, Pack(n.h, n.c)), kept), a.h, a.c,
                       a.nat'.(area := natArea), a.sit.(area := sitArea))
  }

  lemma MixedNat(s: N.Nat, n: N.Nat, area: map<nat, seq<N.NodeInfo>>)
    requires N.AreaOk(s) && N.AreaOk(n) && n.lay == s.lay && N.OldCopies(s, n) && Mixed(s.area, n.area, area)
    ensures var m := s.(area := area);
            N.AreaOk(m) && forall nid: nat :: nid < s.lay.Nids() ==> N.Persisted(m, nid) == N.Persisted(s, nid)
  {
    var m := s.(area := area);
    assert N.AreaOk(m);
    forall nid: nat | nid < s.lay.Nids() ensures N.PageEntry(m, nid) == N.PageEntry(s, nid) {
      N.BlockInRange(s.lay, nid);
    }
  }

  lemma MixedSit(s: S.Sit, n: S.Sit, area: map<nat, seq<S.RawSit>>)
    requires S.AreaOk(s) && S.AreaOk(n) && n.lay == s.lay && S.OldCopies(s, n) && Mixed(s.area, n.area, area)
    ensures var m := s.(area := area);
            S.AreaOk(m) && forall segno: nat :: segno < s.lay.segs ==> S.Persisted(m, segno) == S.Persisted(s, segno)
  {
    var m := s.(area := area);
    assert S.AreaOk(m);
    forall segno: nat | segno < s.lay.segs ensures S.PageEntry(m, segno) == S.PageEntry(s, segno) {
      S.BlockInRange(s.lay, segno);
    }
  }

  lemma ThroughIsWhole(z: Area, code: Coding, a: Image, n: Image)
    requires Whole(z, code, a) && Prepares(z, code, a, n)
    ensures Whole(z, code, n)
  {
    NextKeepsInv(z, State(a.disk, a.h, a.c), Done(n.h, n.c), State(n.disk, n.h, n.c));
  }

  /** A crash anywhere in write_checkpoint leaves the old tables, whole. */
  lemma CrashIsWhole(z: Area, code: Coding, a: Image, e: Step, b: Image)
    requires Whole(z, code, a) && e.Crash? && Takes(z, code, a, e, b)
    ensures Whole(z, code, b) && SameTables(a, b)
  {
    var n := e.next;
    NextKeepsInv(z, State(a.disk, a.h, a.c), Event.Crash(n.h, n.c, e.kept), State(b.disk, b.h, b.c));
    MixedNat(a.nat', n.nat', e.natArea);
    MixedSit(a.sit, n.sit, e.sitArea);
  }

  // ------------------------------------------------------- whole runs

  ghost predicate IsHistory(z: Area, code: Coding, images: seq<Image>, steps: seq<Step>) {
    |images| == |steps| + 1 && forall k :: 0 <= k < |steps| ==> Takes(z, code, images[k], steps[k], images[k + 1])
  }

  /** The last checkpoint that came through. */
  function LastThrough(steps: seq<Step>): (k: nat)
    ensures k <= |steps|
  {
    if steps == [] then 0
    else if steps[|steps| - 1].Through? then |steps|
    else LastThrough(steps[..|steps| - 1])
  }

  lemma SameTablesTwice(a: Image, b: Image, c: Image)
    requires SameTables(a, b) && SameTables(b, c)
    ensures SameTables(a, c)
  {
  }

  lemma {:induction false} HistoryIsWhole(z: Area, code: Coding, images: seq<Image>, steps: seq<Step>)
    requires IsHistory(z, code, images, steps) && Whole(z, code, images[0])
    ensures Whole(z, code, images[|steps|]) && SameTables(images[LastThrough(steps)], images[|steps|])
    decreases |steps|
  {
    var k := |steps| - 1;
    if k >= 0 {
      forall j | 0 <= j < k
        ensures Takes(z, code, images[..k + 1][j], steps[..k][j], images[..k + 1][j + 1])
      {
        assert Takes(z, code, images[j], steps[j], images[j + 1]);
      }
      HistoryIsWhole(z, code, images[..k + 1], steps[..k]);
      assert Takes(z, code, images[k], steps[k], images[k + 1]);
      if steps[k].Through? {
        ThroughIsWhole(z, code, images[k], images[k + 1]);
      } else {
        CrashIsWhole(z, code, images[k], steps[k], images[k + 1]);
        SameTablesTwice(images[LastThrough(steps)], images[k], images[k + 1]);
      }
    }
  }

  /**
    After any checkpoints and crashes, the bitmaps and journals that a mount reads
    select tables on the device that read as the last completed checkpoint left them.
   */
  lemma MountFindsTables(z: Area, code: Coding, images: seq<Image>, steps: seq<Step>)
    requires IsHistory(z, code, images, steps) && Whole(z, code, images[0])
    requires images[|steps|].h.version + 1 < U64
    ensures var last := images[|steps|];
            && (forall x: nat :: Read(last.disk, x).Cp? ==> Read(last.disk, x).h.version < U64)
            && Read(last.disk, Chosen(z, last.disk)) == Cp(last.h)
            && TablesRead(z, code, last.disk) == Tables(last.nat'.bitmap, last.nat'.journal, last.sit.bitmap, last.sit.journal)
            && SameTables(images[LastThrough(steps)], last)
  {
    HistoryIsWhole(z, code, images, steps);
    MountReadsTables(z, code, images[|steps|]);
  }

  // ------------------------------------------------------- write_checkpoint

  /** How the checkpoint in memory is filled in: what code reads back. */
  datatype Packed = Packed(state: nat, payload: seq<Block>, sums: seq<Block>)

  ghost predicate Codes(z: Area, code: Coding, pack: Tables -> Packed) {
    forall t: Tables :: var p := pack(t);
      && code(p.state, p.payload, p.sums) == t && |p.payload| == z.payload && 1 <= |p.sums| <= LOGS_OF_KIND
      && (forall i :: 0 <= i < |p.payload| ==> !p.payload[i].Cp?) && (forall i :: 0 <= i < |p.sums| ==> !p.sums[i].Cp?)
  }

  ghost function ImageOf(area: CheckpointArea, c: Contents, nm: NatManagement.NatManager, sit: SitManagement.SitInfo): Image
    reads area, nm, sit
  {
    Image(area.disk, area.ckpt, c, nm.Abs(), sit.Abs())
  }

  /** Between checkpoints the area has nothing to write, and its packs fit. */
  ghost predicate PackReady(area: CheckpointArea)
    reads area
  {
    && area.z.Valid() && area.z.bps >= 11 && area.z.payload <= 3
    && area.meta == map[] && area.nOrphans == |area.inos| <= area.z.MaxOrphans()
  }

  ghost predicate SitReady(sit: SitManagement.SitInfo)
    reads sit, sit.sm, sit.sm.free
  {
    && sit.sm.Valid() && SegmentProofs.Inv(sit.sm.Abs()) && sit.sm.free.geo.blocksPerSeg < S.SIT_VBLOCKS
    && S.SitOk(sit.Abs()) && sit.StoredOk() && sit.sets == []
  }

  /** The flush of the segment table, with what comes of it for the crash results. */
  method FlushSit(sit: SitManagement.SitInfo)
    requires SitReady(sit)
    modifies sit, sit.sm, sit.sm.free
    ensures old(SegmentProofs.Inv(sit.sm.Abs())) && SitManagement.SitFlushed(old(sit.sm.Abs()), sit.sm.Abs()) && sit.sm.Valid()
    ensures S.SitOk(sit.Abs()) && SitManagement.AllStored(sit.Abs(), sit.sm.entries) && sit.sets == []
    ensures S.AreaOk(old(sit.Abs())) && S.AreaOk(sit.Abs()) && S.OldCopies(old(sit.Abs()), sit.Abs())
  {
    sit.FlushSitEntries();
  }

  /** clear_prefree_segments. */
  method ClearList(sm: SegmentManagement.SegmentManager, ghost s: SegmentModel.Sm)
    requires SegmentProofs.Inv(s) && SitManagement.SitFlushed(s, sm.Abs()) && sm.Valid()
    modifies sm`dirtySegmap, sm`nrDirty
    ensures sm.Abs() == SegmentModel.Checkpoint(s) && SegmentProofs.Inv(sm.Abs()) && sm.Valid()
  {
    SitMount.FlushedCounts(s, sm.Abs());
    sm.ClearPrefree();
    R.CheckpointKeepsInv(s);
  }

  /** The end of do_checkpoint, once the checkpoint is on the device. */
  method ClearAfter(sit: SitManagement.SitInfo, ghost s: SegmentModel.Sm)
    requires SegmentProofs.Inv(s) && SitManagement.SitFlushed(s, sit.sm.Abs()) && sit.sm.Valid()
    requires sit.sm.free.geo.blocksPerSeg < S.SIT_VBLOCKS
    requires S.SitOk(sit.Abs()) && SitManagement.AllStored(sit.Abs(), sit.sm.entries) && sit.sets == []
    modifies sit.sm`dirtySegmap, sit.sm`nrDirty
    ensures sit.sm.Abs() == SegmentModel.Checkpoint(s) && SitReady(sit)
    ensures SitManagement.AllStored(sit.Abs(), sit.sm.entries)
  {
    ClearList(sit.sm, s);
    hide SegmentProofs.Inv, S.SitOk;
  }

  /** do_checkpoint with the bitmaps and journals the flushes have left. */
  method WritePack(area: CheckpointArea, t: Tables, umount: bool, nodes: seq<Block>, pack: Tables -> Packed, ghost code: Coding)
    returns (c': Contents)
    requires PackReady(area) && Codes(area.z, code, pack) && area.ckpt.version + 1 < U64 && (umount ==> area.inos == [])
    requires |nodes| == LOGS_OF_KIND && forall i :: 0 <= i < |nodes| ==> !nodes[i].Cp?
    modifies area
    ensures PackReady(area) && PackOk(area.z, area.ckpt, c') && area.ckpt.version == old(area.ckpt).version + 1
    ensures area.disk == old(area.disk) + Laid(area.z.Start(area.ckpt.version), Pack(area.ckpt, c'))
    ensures code(area.ckpt.state, c'.payload, c'.sums) == t
  {
    var p := pack(t);
    c' := Contents(p.payload, area.inos, p.sums, nodes);
    area.WriteCheckpoint(umount, p.state, c');
    PackLength(area.z, area.ckpt, c');
  }

  /**
    write_checkpoint with its flushes: it prepares the next image as the crash results
    demand, and stores the node table but for ids that still have NEW_ADDR, and the
    whole segment table. bug stands for the check in flush_nat_entries.
   */
  method WriteTables(area: CheckpointArea, nm: NatManagement.NatManager, sit: SitManagement.SitInfo,
                     umount: bool, nodes: seq<Block>, pack: Tables -> Packed, ghost code: Coding, ghost c: Contents)
    returns (bug: bool, ghost c': Contents)
    requires PackReady(area) && nm.Valid() && SitReady(sit) && Codes(area.z, code, pack)
    requires area.ckpt.version + 1 < U64 && (umount ==> area.inos == [])
    requires |nodes| == LOGS_OF_KIND && forall i :: 0 <= i < |nodes| ==> !nodes[i].Cp?
    modifies area, nm, sit, sit.sm, sit.sm.free
    ensures nm.Valid() && (!bug ==> PackReady(area) && SitReady(sit))
    ensures !bug ==> Prepares(area.z, code, old(ImageOf(area, c, nm, sit)), ImageOf(area, c', nm, sit))
    ensures N.AreaOk(old(nm.Abs()))
    ensures !bug ==> N.StoredAfter(old(nm.Abs()), old(nm.dirtyNatCnt > nm.lay.journalMax - |nm.journal|), nm.Abs())
    ensures !bug ==> old(SegmentProofs.Inv(sit.sm.Abs())) && sit.sm.Abs() == SegmentModel.Checkpoint(old(sit.sm.Abs()))
                     && SitManagement.AllStored(sit.Abs(), sit.sm.entries)
  {
    hide Codes, Pack, SegmentProofs.Inv, S.SitOk, S.AreaOk, N.AreaOk, SitManagement.SitFlushed, SitManagement.AllStored;
    ghost var s := sit.sm.Abs();
    bug := nm.FlushNatEntries();
    c' := c;
    if bug { return; }
    FlushSit(sit);
    c' := WritePack(area, Tables(nm.natBitmap, nm.journal, sit.sitBitmap, sit.journal), umount, nodes, pack, code);
    ClearAfter(sit, s);
  }
}
