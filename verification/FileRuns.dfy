/**
  The contents of a file over its life. Whatever is done to the file and by others in
  the segment manager, a page reads as it was last written, through the tree and
  through the extent; and after a crash the file is as the last checkpoint found it.
 */
module FileRuns {
  import opened Addressing
  import opened FileTree
  import opened FreeSegmap
  import opened SegmentModel
  import opened FileBlocks
  import P = SegmentProofs
  import R = SegmentRuns
  import E = ExtentCache

  /** A file: tree, node addresses, segment manager with the device, extent, and what was last written to each page. */
  datatype File = File(nodes: map<nat, Node>, at: map<nat, nat>, w: R.World, ext: E.State, data: map<nat, int>)

  ghost predicate HasSlot(f: File, n: nat, i: nat) { n in f.nodes && i < |f.nodes[n].addrs| }

  ghost predicate SlotData(sh: Shape, f: File, n: nat, i: nat)
    requires n in f.nodes && i < |f.nodes[n].addrs|
  {
    var page := Start(sh, f.nodes[n].pos) + i;
    IsBlock(f.nodes[n].addrs[i]) ==>
      page in f.data && DataOwner(n, i) in f.w.live && f.w.live[DataOwner(n, i)] == f.data[page]
  }

  /** What is live for the slots of the tree was last written to their pages. */
  ghost predicate DataOk(sh: Shape, f: File) {
    && (forall n, i: nat :: n in f.nodes && i < |f.nodes[n].addrs| ==> SlotData(sh, f, n, i))
    && forall p: nat :: p in f.data <==> IsBlock(E.PageAddr(f.ext.pages, p))
  }

  ghost predicate FileOk(sh: Shape, ino: nat, main: nat, f: File) {
    && main > 1 && Joined(sh, ino, main, f.nodes, f.at, f.w.sm, f.ext) && R.Safe(f.w) && DataOk(sh, f)
  }

  // ------------------------------------------------------- reading

  /** The slot of a page that has a block. */
  lemma SlotOfPage(sh: Shape, ino: nat, nodes: map<nat, Node>, p: nat) returns (n: nat, i: nat)
    requires TreeOk(sh, ino, nodes) && p < sh.Capacity() && Lookup(sh, ino, nodes, p) != NULL_ADDR
    ensures n in nodes && i < |nodes[n].addrs| && Start(sh, nodes[n].pos) + i == p &&
            nodes[n].addrs[i] == Lookup(sh, ino, nodes, p)
  {
    LeafHolds(sh, p);
    FindIs(sh, ino, nodes, LeafAt(sh, p));
    n, i := Find(ino, nodes, LeafAt(sh, p)), p - Start(sh, LeafAt(sh, p));
  }

  /** Page p lies on a device where it was last written; the address is the one of the tree. */
  ghost predicate ReadsPage(sh: Shape, ino: nat, main: nat, f: File, disk: map<Loc, int>, p: nat)
    requires sh.Valid() && f.w.sm.geo.Valid() && p < sh.Capacity()
  {
    var addr := Lookup(sh, ino, f.nodes, p);
    && (p in f.data <==> IsBlock(addr))
    && (IsBlock(addr) ==> addr >= main && LocOf(f.w.sm.geo, main, addr) in disk && disk[LocOf(f.w.sm.geo, main, addr)] == f.data[p])
  }

  lemma SlotReads(sh: Shape, main: nat, f: File, disk: map<Loc, int>, n: nat, i: nat)
    requires f.w.sm.geo.Valid() && Held(f.w.sm.geo, main, f.nodes, f.at, f.w.sm.slots) &&
             R.Reads(disk, f.w.sm.slots, f.w.live)
    requires DataOk(sh, f) && HasSlot(f, n, i) && IsBlock(f.nodes[n].addrs[i])
    ensures var addr := f.nodes[n].addrs[i];
            && addr >= main && LocOf(f.w.sm.geo, main, addr) in disk && Start(sh, f.nodes[n].pos) + i in f.data
            && disk[LocOf(f.w.sm.geo, main, addr)] == f.data[Start(sh, f.nodes[n].pos) + i]
  {
    assert SlotHeld(f.w.sm.geo, main, f.nodes, f.w.sm.slots, n, i) && SlotData(sh, f, n, i);
    hide LocOf, Start;
  }

  /** Any device on which the owners of blocks find what is live reads the pages of the file. */
  lemma ReadsWhatIsLive(sh: Shape, ino: nat, main: nat, f: File, disk: map<Loc, int>, p: nat)
    requires FileOk(sh, ino, main, f) && R.Reads(disk, f.w.sm.slots, f.w.live) && p < sh.Capacity()
    ensures ReadsPage(sh, ino, main, f, disk, p)
  {
    assert f.w.sm.geo.Valid() && E.PageAddr(f.ext.pages, p) == Lookup(sh, ino, f.nodes, p);
    hide LocOf, P.Inv, R.Safe, E.RunInv, TreeOk, Held, Lookup, R.Reads;
    if IsBlock(Lookup(sh, ino, f.nodes, p)) {
      var n, i := SlotOfPage(sh, ino, f.nodes, p);
      SlotReads(sh, main, f, disk, n, i);
    }
  }

  /** A page reads as it was last written; a hit of the extent cache gives the same block. */
  lemma ReadsBack(sh: Shape, ino: nat, main: nat, f: File, p: nat)
    requires FileOk(sh, ino, main, f) && p < sh.Capacity()
    ensures ReadsPage(sh, ino, main, f, f.w.disk, p)
    ensures E.Covers(f.ext.ext, p) && !f.ext.noExtent ==>
              p in f.data && Lookup(sh, ino, f.nodes, p) == f.ext.ext.blkAddr + (p - f.ext.ext.fofs)
  {
    ReadsWhatIsLive(sh, ino, main, f, f.w.disk, p);
    assert E.PageAddr(f.ext.pages, p) == Lookup(sh, ino, f.nodes, p);
  }

  /** No two pages share a block, and no page shares one with a node of the file. */
  lemma PagesApart(sh: Shape, ino: nat, main: nat, f: File, p: nat, q: nat, m: nat)
    requires FileOk(sh, ino, main, f) && p < sh.Capacity() && IsBlock(Lookup(sh, ino, f.nodes, p))
    ensures q < sh.Capacity() && q != p ==> Lookup(sh, ino, f.nodes, q) != Lookup(sh, ino, f.nodes, p)
    ensures m in f.nodes ==> m in f.at && f.at[m] != Lookup(sh, ino, f.nodes, p)
  {
    var s := f.w.sm;
    var n, i := SlotOfPage(sh, ino, f.nodes, p);
    assert SlotHeld(s.geo, main, f.nodes, s.slots, n, i);
    if q < sh.Capacity() && Lookup(sh, ino, f.nodes, q) == Lookup(sh, ino, f.nodes, p) {
      var k, j := SlotOfPage(sh, ino, f.nodes, q);
      assert SlotHeld(s.geo, main, f.nodes, s.slots, k, j);
      P.SlotsInjective(s, DataOwner(n, i), DataOwner(k, j));
    }
    if m in f.nodes {
      assert NodeHeld(s.geo, main, f.at, s.slots, m);
      if f.at[m] == Lookup(sh, ino, f.nodes, p) { P.SlotsInjective(s, DataOwner(n, i), NodeOwner(m)); }
    }
  }

  // ------------------------------------------------------- steps

  datatype Op =
    | WritePage(n: nat, i: nat, addr: nat, version: nat, t: nat, now: nat, choice: Choice, value: int)
    | DirectWrite(n: nat, i: nat, addr: nat, version: nat, t: nat, now: nat, choice: Choice, value: int)
    | ReservePage(n: nat, i: nat)
    | WriteNode(n: nat, addr: nat, version: nat, t: nat, now: nat, choice: Choice, value: int)
    | AddNodes(nodes: map<nat, Node>, at: map<nat, nat>)
    | Truncate(nodes: map<nat, Node>, at: map<nat, nat>, calls: seq<Call>, now: nat)
    | Elsewhere(op: R.Op)  // other files, checkpoints and forced moves of logs

  /** A log hands out the block with this address. */
  ghost predicate Hands(main: nat, s: Sm, o: Owner, addr: nat, version: nat, t: nat, choice: Choice) {
    P.Inv(s) && P.CanWrite(s, o, version, t, choice) && E.InMainArea(main, addr) && LiesAt(s.geo, main, addr, NextBlock(s, t))
  }

  /** A page is written out of place where it has a block or a reservation, directly or reserved where it has none. */
  ghost predicate Enabled(sh: Shape, ino: nat, main: nat, f: File, op: Op) {
    match op
    case WritePage(n, i, addr, version, t, now, choice, value) =>
      HasSlot(f, n, i) && f.nodes[n].addrs[i] != NULL_ADDR && Hands(main, f.w.sm, DataOwner(n, i), addr, version, t, choice)
    case DirectWrite(n, i, addr, version, t, now, choice, value) =>
      HasSlot(f, n, i) && f.nodes[n].addrs[i] == NULL_ADDR && Hands(main, f.w.sm, DataOwner(n, i), addr, version, t, choice)
    case ReservePage(n, i) => HasSlot(f, n, i) && f.nodes[n].addrs[i] == NULL_ADDR
    case WriteNode(n, addr, version, t, now, choice, value) =>
      n in f.nodes && Hands(main, f.w.sm, NodeOwner(n), addr, version, t, choice)
    case AddNodes(nodes, at) => Grew(sh, ino, f.nodes, f.at, nodes, at) && FileBlocks.Fresh(f.nodes, nodes, f.w.sm.slots)
    case Truncate(nodes, at, calls, now) => TreeOk(sh, ino, nodes) && Called(sh, f.nodes, f.at, nodes, at, calls)
    case Elsewhere(o) =>
      R.Enabled(f.w, o) && (o.OpWrite? ==> o.o.nid !in f.nodes) && (o.OpDrop? ==> o.o.nid !in f.nodes)
  }

  /** The blocks given back by the calls of a truncation. */
  function Drops(calls: seq<Call>, now: nat): seq<R.Op> {
    if calls == [] then []
    else (if IsBlock(calls[0].addr) then [R.OpDrop(OwnerOf(calls[0]), now)] else []) + Drops(calls[1..], now)
  }

  lemma FirstDrop(w: R.World, main: nat, calls: seq<Call>, now: nat)
    requires Callable(w.sm, main, calls) && calls != [] && IsBlock(calls[0].addr)
    ensures var op := R.OpDrop(OwnerOf(calls[0]), now);
            && R.Enabled(w, op) && R.Step(w, op).sm == GiveOne(w.sm, main, calls[0], now)
            && R.Step(w, op).disk == w.disk && R.Step(w, op).live == w.live - {OwnerOf(calls[0])}
  {
    hide P.CountersOk, P.SegsOk, P.SlotsOk, P.LogsOk, Sizes, LocOf;
  }

  lemma {:induction false} DropsGiveBack(w: R.World, main: nat, calls: seq<Call>, now: nat)
    requires Callable(w.sm, main, calls)
    ensures R.EnabledRun(w, Drops(calls, now)) && R.NoCheckpoint(Drops(calls, now))
    ensures var w' := R.Run(w, Drops(calls, now));
            && w'.sm == GiveBack(w.sm, main, calls, now) && w'.disk == w.disk
            && forall o :: o in w'.live ==> o in w.live && w'.live[o] == w.live[o]
    decreases calls
  {
    hide P.Inv, CallsOwn, LocOf;
    if calls != [] {
      GiveOneKeeps(w.sm, main, calls, now);
      if IsBlock(calls[0].addr) {
        var op := R.OpDrop(OwnerOf(calls[0]), now);
        assert Drops(calls, now)[0] == op && Drops(calls, now)[1..] == Drops(calls[1..], now);
    FirstDrop(w, main, calls, now);
        DropsGiveBack(R.Step(w, op), main, calls[1..], now);
      } else {
        assert Drops(calls, now) == Drops(calls[1..], now);
        DropsGiveBack(w, main, calls[1..], now);
      }
    }
  }

  lemma Truncates(sh: Shape, ino: nat, main: nat, f: File, op: Op)
    requires FileOk(sh, ino, main, f) && op.Truncate? && Enabled(sh, ino, main, f, op)
    ensures Callable(f.w.sm, main, op.calls) && R.EnabledRun(f.w, Drops(op.calls, op.now))
  {
    CalledIsCallable(sh, main, f.nodes, f.at, op.nodes, op.at, op.calls, f.w.sm);
    DropsGiveBack(f.w, main, op.calls, op.now);
  }

  ghost function Step(sh: Shape, ino: nat, main: nat, f: File, op: Op): File
    requires FileOk(sh, ino, main, f) && Enabled(sh, ino, main, f, op)
  {
    match op
    case WritePage(n, i, addr, version, t, now, choice, value) =>
      var page := Start(sh, f.nodes[n].pos) + i;
      File(SlotSet(f.nodes, n, i, addr), f.at, R.Step(f.w, R.OpWrite(DataOwner(n, i), version, t, now, choice, value)),
           E.Step(f.ext, E.Write(page, addr)), f.data[page := value])
    case DirectWrite(n, i, addr, version, t, now, choice, value) =>
      var page := Start(sh, f.nodes[n].pos) + i;
      File(SlotSet(f.nodes, n, i, addr), f.at, R.Step(f.w, R.OpWrite(DataOwner(n, i), version, t, now, choice, value)),
           E.Step(f.ext, E.DirectAlloc(page, addr)), f.data[page := value])
    case ReservePage(n, i) =>
      f.(nodes := SlotSet(f.nodes, n, i, NEW_ADDR), ext := E.Step(f.ext, E.Reserve(Start(sh, f.nodes[n].pos) + i)))
    case WriteNode(n, addr, version, t, now, choice, value) =>
      f.(at := f.at[n := addr], w := R.Step(f.w, R.OpWrite(NodeOwner(n), version, t, now, choice, value)))
    case AddNodes(nodes, at) => f.(nodes := nodes, at := at)
    case Truncate(nodes, at, calls, now) =>
      Truncates(sh, ino, main, f, op);
      File(nodes, at, R.Run(f.w, Drops(calls, now)), E.Run(f.ext, Updates(calls)),
           map p | p in f.data && !Unmaps(calls, p) :: f.data[p])
    case Elsewhere(o) => f.(w := R.Step(f.w, o))
  }

  // ------------------------------------------------------- every step keeps the file

  lemma OneSlot(sh: Shape, ino: nat, nodes: map<nat, Node>, n: nat, i: nat, m: nat, k: nat)
    requires TreeOk(sh, ino, nodes) && n in nodes && i < |nodes[n].addrs| && m in nodes && k < |nodes[m].addrs|
    requires Start(sh, nodes[m].pos) + k == Start(sh, nodes[n].pos) + i
    ensures m == n && k == i
  {
    hide TreeOk, Start, LeafAt, Find;
    SlotPlace(sh, ino, nodes, n, i);
    OnePlace(sh, ino, nodes, n, Start(sh, nodes[n].pos) + i, m, k);
  }

  /** A page with new contents in a new block. */
  lemma DataAfterWrite(sh: Shape, ino: nat, f: File, f': File, n: nat, i: nat, addr: nat, value: int)
    requires TreeOk(sh, ino, f.nodes) && DataOk(sh, f) && HasSlot(f, n, i) && IsBlock(addr)
    requires f'.nodes == SlotSet(f.nodes, n, i, addr) && f'.w.live == f.w.live[DataOwner(n, i) := value]
    requires var page := Start(sh, f.nodes[n].pos) + i;
             f'.data == f.data[page := value] && f'.ext.pages == f.ext.pages[page := addr]
    ensures DataOk(sh, f')
  {
    hide Start;
    forall m, k: nat | HasSlot(f', m, k) ensures SlotData(sh, f', m, k) {
      assert SlotData(sh, f, m, k);
      if Start(sh, f.nodes[m].pos) + k == Start(sh, f.nodes[n].pos) + i { OneSlot(sh, ino, f.nodes, n, i, m, k); }
    }
    forall p: nat ensures p in f'.data <==> IsBlock(E.PageAddr(f'.ext.pages, p)) {
      assert p in f.data <==> IsBlock(E.PageAddr(f.ext.pages, p));
    }
  }

  lemma StepMapsPage(main: nat, e: E.State, page: nat, addr: nat)
    ensures E.Step(e, E.Write(page, addr)).pages == e.pages[page := addr]
    ensures E.Step(e, E.DirectAlloc(page, addr)).pages == e.pages[page := addr]
    ensures E.Step(e, E.Reserve(page)).pages == e.pages[page := NEW_ADDR]
  {
  }

  /** The segment manager and the device after a write for an owner. */
  lemma WorldAfterWrite(w: R.World, main: nat, o: Owner, addr: nat, version: nat, t: nat, now: nat, choice: Choice, value: int)
    requires R.Safe(w) && Hands(main, w.sm, o, addr, version, t, choice)
    ensures var op := R.OpWrite(o, version, t, now, choice, value);
            && R.Enabled(w, op) && R.Safe(R.Step(w, op)) && R.Step(w, op).live == w.live[o := value]
            && R.Step(w, op).sm == P.Write(w.sm, o, version, t, now, choice)
  {
    hide P.CountersOk, P.SegsOk, P.SlotsOk, P.LogsOk, Sizes, LocOf;
    R.StepIsSafe(w, R.OpWrite(o, version, t, now, choice, value));
  }

  lemma WriteKeepsFile(sh: Shape, ino: nat, main: nat, f: File, op: Op)
    requires FileOk(sh, ino, main, f) && op.WritePage? && Enabled(sh, ino, main, f, op)
    ensures FileOk(sh, ino, main, Step(sh, ino, main, f, op))
  {
    hide TreeOk, Held, MapsPages, R.Safe, P.CountersOk, P.SegsOk, P.SlotsOk, P.LogsOk, Sizes, E.RunInv, E.Step,
      Start, DataOk, LocOf;
    var f' := Step(sh, ino, main, f, op);
    WriteKeepsJoined(sh, ino, main, f.nodes, f.at, f.w.sm, f.ext, op.n, op.i, op.addr, op.version, op.t, op.now, op.choice);
    WorldAfterWrite(f.w, main, DataOwner(op.n, op.i), op.addr, op.version, op.t, op.now, op.choice, op.value);
    hide R.Step, R.Enabled, P.Inv, P.CanWrite, P.Write;
    StepMapsPage(main, f.ext, Start(sh, f.nodes[op.n].pos) + op.i, op.addr);
    DataAfterWrite(sh, ino, f, f', op.n, op.i, op.addr, op.value);
  }

  lemma DirectKeepsFile(sh: Shape, ino: nat, main: nat, f: File, op: Op)
    requires FileOk(sh, ino, main, f) && op.DirectWrite? && Enabled(sh, ino, main, f, op)
    ensures FileOk(sh, ino, main, Step(sh, ino, main, f, op))
  {
    hide TreeOk, Held, MapsPages, R.Safe, P.CountersOk, P.SegsOk, P.SlotsOk, P.LogsOk, Sizes, E.RunInv, E.Step,
      Start, DataOk, LocOf,
      R.Step, P.CanWrite, P.Write, SlotSet;
    var f' := Step(sh, ino, main, f, op);
    DirectKeepsJoined(sh, ino, main, f.nodes, f.at, f.w.sm, f.ext, op.n, op.i, op.addr, op.version, op.t, op.now, op.choice);
    WorldAfterWrite(f.w, main, DataOwner(op.n, op.i), op.addr, op.version, op.t, op.now, op.choice, op.value);
    StepMapsPage(main, f.ext, Start(sh, f.nodes[op.n].pos) + op.i, op.addr);
    DataAfterWrite(sh, ino, f, f', op.n, op.i, op.addr, op.value);
  }

  lemma DataAfterReserve(sh: Shape, ino: nat, f: File, f': File, n: nat, i: nat)
    requires TreeOk(sh, ino, f.nodes) && DataOk(sh, f) && HasSlot(f, n, i) && f.nodes[n].addrs[i] == NULL_ADDR
    requires f'.nodes == SlotSet(f.nodes, n, i, NEW_ADDR) && f'.w == f.w && f'.data == f.data
    requires var page := Start(sh, f.nodes[n].pos) + i;
             E.PageAddr(f.ext.pages, page) == NULL_ADDR && f'.ext.pages == f.ext.pages[page := NEW_ADDR]
    ensures DataOk(sh, f')
  {
    hide Start;
    forall m, k: nat | HasSlot(f', m, k) ensures SlotData(sh, f', m, k) { assert SlotData(sh, f, m, k); }
    forall p: nat ensures p in f'.data <==> IsBlock(E.PageAddr(f'.ext.pages, p)) {
      assert p in f.data <==> IsBlock(E.PageAddr(f.ext.pages, p));
    }
  }

  lemma ReserveKeepsFile(sh: Shape, ino: nat, main: nat, f: File, op: Op)
    requires FileOk(sh, ino, main, f) && op.ReservePage? && Enabled(sh, ino, main, f, op)
    ensures FileOk(sh, ino, main, Step(sh, ino, main, f, op))
  {
    hide TreeOk, Held, MapsPages, R.Safe, P.CountersOk, P.SegsOk, P.SlotsOk, P.LogsOk, Sizes, E.RunInv, E.Step,
      Start, DataOk;
    var f' := Step(sh, ino, main, f, op);
    ReserveKeepsJoined(sh, ino, main, f.nodes, f.at, f.w.sm, f.ext, op.n, op.i);
    PagesAfterSet(sh, ino, f.nodes, op.n, op.i, NEW_ADDR, f.ext.pages);
    StepMapsPage(main, f.ext, Start(sh, f.nodes[op.n].pos) + op.i, NEW_ADDR);
    DataAfterReserve(sh, ino, f, f', op.n, op.i);
  }

  lemma NodeKeepsFile(sh: Shape, ino: nat, main: nat, f: File, op: Op)
    requires FileOk(sh, ino, main, f) && op.WriteNode? && Enabled(sh, ino, main, f, op)
    ensures FileOk(sh, ino, main, Step(sh, ino, main, f, op))
  {
    hide TreeOk, Held, MapsPages, R.Safe, P.CountersOk, P.SegsOk, P.SlotsOk, P.LogsOk, Sizes, E.RunInv, Start, LocOf;
    var f' := Step(sh, ino, main, f, op);
    WriteNodeKeepsJoined(sh, ino, main, f.nodes, f.at, f.w.sm, f.ext, op.n, op.addr, op.version, op.t, op.now, op.choice);
    WorldAfterWrite(f.w, main, NodeOwner(op.n), op.addr, op.version, op.t, op.now, op.choice, op.value);
    hide R.Step, R.Enabled, P.Inv, P.CanWrite, P.Write;
    SameData(sh, f, f');
  }

  /** The live data of the slots stay what they were. */
  lemma SameData(sh: Shape, f: File, f': File)
    requires DataOk(sh, f) && f'.nodes == f.nodes && f'.ext == f.ext && f'.data == f.data
    requires forall n, i: nat :: n in f.nodes && DataOwner(n, i) in f.w.live ==>
               DataOwner(n, i) in f'.w.live && f'.w.live[DataOwner(n, i)] == f.w.live[DataOwner(n, i)]
    ensures DataOk(sh, f')
  {
    forall m, k: nat | HasSlot(f', m, k) ensures SlotData(sh, f', m, k) { assert SlotData(sh, f, m, k); }
  }

  lemma DataAfterGrowth(sh: Shape, ino: nat, f: File, f': File)
    requires DataOk(sh, f) && Grew(sh, ino, f.nodes, f.at, f'.nodes, f'.at) && f' == f.(nodes := f'.nodes, at := f'.at)
    ensures DataOk(sh, f')
  {
    hide TreeOk, Lookup;
    forall m, k: nat | HasSlot(f', m, k) ensures SlotData(sh, f', m, k) {
      if m in f.nodes { assert SlotData(sh, f, m, k); }
    }
  }

  lemma GrowthKeepsFile(sh: Shape, ino: nat, main: nat, f: File, op: Op)
    requires FileOk(sh, ino, main, f) && op.AddNodes? && Enabled(sh, ino, main, f, op)
    ensures FileOk(sh, ino, main, Step(sh, ino, main, f, op))
  {
    hide Grew, Held, MapsPages, R.Safe, P.Inv, E.RunInv, DataOk;
    GrowthKeepsJoined(sh, ino, main, f.nodes, f.at, op.nodes, op.at, f.w.sm, f.ext);
    DataAfterGrowth(sh, ino, f, f.(nodes := op.nodes, at := op.at));
  }

  lemma SlotKept(sh: Shape, f: File, f': File, calls: seq<Call>, n: nat, i: nat)
    requires Called(sh, f.nodes, f.at, f'.nodes, f'.at, calls) && HasSlot(f', n, i) && IsBlock(f'.nodes[n].addrs[i])
    ensures HasSlot(f, n, i) && f.nodes[n].pos == f'.nodes[n].pos && f.nodes[n].addrs[i] == f'.nodes[n].addrs[i]
  {
  }

  lemma PageOfSlot(sh: Shape, ino: nat, nodes: map<nat, Node>, pages: map<nat, nat>, n: nat, i: nat)
    requires TreeOk(sh, ino, nodes) && MapsPages(sh, ino, nodes, pages) && n in nodes && i < |nodes[n].addrs|
    ensures E.PageAddr(pages, Start(sh, nodes[n].pos) + i) == nodes[n].addrs[i]
  {
    SlotPlace(sh, ino, nodes, n, i);
    LookupIs(sh, ino, nodes, Start(sh, nodes[n].pos) + i, n);
    hide TreeOk, Start, Lookup, LeafAt, Find;
  }

  lemma DataAfterTruncation(sh: Shape, ino: nat, f: File, f': File, calls: seq<Call>)
    requires TreeOk(sh, ino, f.nodes) && TreeOk(sh, ino, f'.nodes) && DataOk(sh, f)
    requires Called(sh, f.nodes, f.at, f'.nodes, f'.at, calls) && MapsPages(sh, ino, f'.nodes, f'.ext.pages)
    requires f'.data == (map p | p in f.data && !Unmaps(calls, p) :: f.data[p])
    requires forall p: nat :: E.PageAddr(f'.ext.pages, p) == if Unmaps(calls, p) then NULL_ADDR else E.PageAddr(f.ext.pages, p)
    requires f'.w.live.Keys == f'.w.sm.slots.Keys && forall o :: o in f'.w.live ==> o in f.w.live && f'.w.live[o] == f.w.live[o]
    requires forall n, i: nat :: HasSlot(f', n, i) && IsBlock(f'.nodes[n].addrs[i]) ==> DataOwner(n, i) in f'.w.sm.slots
    ensures DataOk(sh, f')
  {
    hide TreeOk, Start, Unmaps, E.PageAddr, MapsPages, Called;
    forall n, i: nat | HasSlot(f', n, i) && IsBlock(f'.nodes[n].addrs[i]) ensures SlotData(sh, f', n, i) {
      SlotKept(sh, f, f', calls, n, i);
      PageOfSlot(sh, ino, f'.nodes, f'.ext.pages, n, i);
      assert SlotData(sh, f, n, i);
    }
    forall p: nat ensures p in f'.data <==> IsBlock(E.PageAddr(f'.ext.pages, p)) {
      assert p in f.data <==> IsBlock(E.PageAddr(f.ext.pages, p));
    }
  }

  lemma TruncationKeepsFile(sh: Shape, ino: nat, main: nat, f: File, op: Op)
    requires FileOk(sh, ino, main, f) && op.Truncate? && Enabled(sh, ino, main, f, op)
    ensures FileOk(sh, ino, main, Step(sh, ino, main, f, op))
  {
    assert f.w.sm.geo.Valid();
    hide TreeOk, Called, Held, MapsPages, R.Safe, P.CountersOk, P.SegsOk, P.SlotsOk, P.LogsOk, Sizes, E.RunInv,
      DataOk, Unmaps;
    Truncates(sh, ino, main, f, op);
    var f' := Step(sh, ino, main, f, op);
    CallsKeepJoined(sh, ino, main, f.nodes, f.at, op.nodes, op.at, op.calls, f.w.sm, op.now, f.ext);
    DropsGiveBack(f.w, main, op.calls, op.now);
    R.RunIsSafe(f.w, Drops(op.calls, op.now));
    GiveBackKeeps(f.w.sm, main, op.calls, op.now);
    UpdatesUnmap(main, f.ext, op.calls);
    LiveIsHeld(main, f');
    DataAfterTruncation(sh, ino, f, f', op.calls);
  }

  lemma LiveIsHeld(main: nat, f: File)
    requires f.w.sm.geo.Valid() && Held(f.w.sm.geo, main, f.nodes, f.at, f.w.sm.slots) && R.Safe(f.w)
    ensures f.w.live.Keys == f.w.sm.slots.Keys
    ensures forall n, i: nat :: HasSlot(f, n, i) && IsBlock(f.nodes[n].addrs[i]) ==> DataOwner(n, i) in f.w.sm.slots
  {
    hide P.Inv;
    forall n, i: nat | HasSlot(f, n, i) && IsBlock(f.nodes[n].addrs[i]) ensures DataOwner(n, i) in f.w.sm.slots {
      assert SlotHeld(f.w.sm.geo, main, f.nodes, f.w.sm.slots, n, i);
    }
  }

  /** Others change nothing of what the file owns. */
  lemma SlotsElsewhere(w: R.World, op: R.Op, nodes: map<nat, Node>)
    requires R.Enabled(w, op) && (op.OpWrite? ==> op.o.nid !in nodes) && (op.OpDrop? ==> op.o.nid !in nodes)
    ensures var w' := R.Step(w, op);
            && w'.sm.geo == w.sm.geo
            && forall o: Owner :: o.nid in nodes ==>
                 (o in w'.sm.slots <==> o in w.sm.slots) && (o in w.sm.slots ==> w'.sm.slots[o] == w.sm.slots[o])
  {
    hide P.CountersOk, P.SegsOk, P.SlotsOk, P.LogsOk, Sizes;
    match op
    case OpWrite(o, version, t, now, choice, value) => P.WriteKeepsInv(w.sm, o, version, t, now, choice);
    case OpDrop(o, now) => R.DropKeepsInv(w.sm, o, now);
    case OpMove(t, segno) => R.MoveLogKeepsInv(w.sm, t, segno);
    case OpCheckpoint => R.CheckpointKeepsInv(w.sm);
  }

  lemma LiveElsewhere(w: R.World, op: R.Op, nodes: map<nat, Node>)
    requires R.Enabled(w, op) && (op.OpWrite? ==> op.o.nid !in nodes) && (op.OpDrop? ==> op.o.nid !in nodes)
    ensures forall o: Owner :: o.nid in nodes && o in w.live ==> o in R.Step(w, op).live && R.Step(w, op).live[o] == w.live[o]
  {
    hide P.CountersOk, P.SegsOk, P.SlotsOk, P.LogsOk, Sizes;
  }

  lemma HeldElsewhere(g: Geometry, main: nat, nodes: map<nat, Node>, at: map<nat, nat>, x: map<Owner, Slot>, y: map<Owner, Slot>)
    requires g.Valid() && Held(g, main, nodes, at, x)
    requires forall o: Owner :: o.nid in nodes ==> (o in y <==> o in x) && (o in x ==> y[o] == x[o])
    ensures Held(g, main, nodes, at, y)
  {
    forall n, i: nat | n in nodes ensures SlotHeld(g, main, nodes, y, n, i) { assert SlotHeld(g, main, nodes, x, n, i); }
    forall n | n in nodes ensures NodeHeld(g, main, at, y, n) { assert NodeHeld(g, main, at, x, n); }
  }

  lemma KeptElsewhere(sh: Shape, ino: nat, main: nat, f: File, w: R.World)
    requires FileOk(sh, ino, main, f) && R.Safe(w) && w.sm.geo == f.w.sm.geo
    requires forall o: Owner :: o.nid in f.nodes ==>
               (o in w.sm.slots <==> o in f.w.sm.slots) && (o in f.w.sm.slots ==> w.sm.slots[o] == f.w.sm.slots[o])
    requires forall o: Owner :: o.nid in f.nodes && o in f.w.live ==> o in w.live && w.live[o] == f.w.live[o]
    ensures FileOk(sh, ino, main, f.(w := w))
  {
    assert f.w.sm.geo.Valid();
    hide TreeOk, Held, MapsPages, P.Inv, E.RunInv, DataOk;
    HeldElsewhere(f.w.sm.geo, main, f.nodes, f.at, f.w.sm.slots, w.sm.slots);
    SameData(sh, f, f.(w := w));
  }

  lemma ElsewhereKeepsFile(sh: Shape, ino: nat, main: nat, f: File, op: Op)
    requires FileOk(sh, ino, main, f) && op.Elsewhere? && Enabled(sh, ino, main, f, op)
    ensures FileOk(sh, ino, main, Step(sh, ino, main, f, op))
  {
    SlotsElsewhere(f.w, op.op, f.nodes);
    LiveElsewhere(f.w, op.op, f.nodes);
    R.StepIsSafe(f.w, op.op);
    hide R.Step, R.Enabled, Joined, R.Safe, DataOk;
    KeptElsewhere(sh, ino, main, f, R.Step(f.w, op.op));
  }

  lemma StepKeepsFile(sh: Shape, ino: nat, main: nat, f: File, op: Op)
    requires FileOk(sh, ino, main, f) && Enabled(sh, ino, main, f, op)
    ensures FileOk(sh, ino, main, Step(sh, ino, main, f, op))
  {
    hide FileOk, Enabled, Step;
    match op
    case WritePage(_, _, _, _, _, _, _, _) => WriteKeepsFile(sh, ino, main, f, op);
    case DirectWrite(_, _, _, _, _, _, _, _) => DirectKeepsFile(sh, ino, main, f, op);
    case ReservePage(_, _) => ReserveKeepsFile(sh, ino, main, f, op);
    case WriteNode(_, _, _, _, _, _, _) => NodeKeepsFile(sh, ino, main, f, op);
    case AddNodes(_, _) => GrowthKeepsFile(sh, ino, main, f, op);
    case Truncate(_, _, _, _) => TruncationKeepsFile(sh, ino, main, f, op);
    case Elsewhere(_) => ElsewhereKeepsFile(sh, ino, main, f, op);
  }

  // ------------------------------------------------------- runs

  ghost predicate EnabledRun(sh: Shape, ino: nat, main: nat, f: File, ops: seq<Op>)
    requires FileOk(sh, ino, main, f)
    decreases ops
  {
    ops == [] ||
    (Enabled(sh, ino, main, f, ops[0]) &&
     (StepKeepsFile(sh, ino, main, f, ops[0]);
      EnabledRun(sh, ino, main, Step(sh, ino, main, f, ops[0]), ops[1..])))
  }

  ghost function Run(sh: Shape, ino: nat, main: nat, f: File, ops: seq<Op>): File
    requires FileOk(sh, ino, main, f) && EnabledRun(sh, ino, main, f, ops)
    decreases ops
  {
    if ops == [] then f
    else
      StepKeepsFile(sh, ino, main, f, ops[0]);
      Run(sh, ino, main, Step(sh, ino, main, f, ops[0]), ops[1..])
  }

  lemma {:induction false} RunKeepsFile(sh: Shape, ino: nat, main: nat, f: File, ops: seq<Op>)
    requires FileOk(sh, ino, main, f) && EnabledRun(sh, ino, main, f, ops)
    ensures FileOk(sh, ino, main, Run(sh, ino, main, f, ops))
    decreases ops
  {
    hide FileOk, Enabled, Step;
    if ops != [] {
      StepKeepsFile(sh, ino, main, f, ops[0]);
      RunKeepsFile(sh, ino, main, Step(sh, ino, main, f, ops[0]), ops[1..]);
    }
  }

  /** A file that new_inode_page has just given its inode: not yet written, all holes. */
  ghost predicate NewFile(sh: Shape, ino: nat, f: File) {
    && sh.Valid() && ino != 0 && f.nodes.Keys == {ino} && NodeOk(sh, f.nodes[ino]) && f.nodes[ino].pos == Root
    && (forall i :: 0 <= i < |f.nodes[ino].addrs| ==> f.nodes[ino].addrs[i] == NULL_ADDR)
    && (forall i :: 0 <= i < |f.nodes[ino].nids| ==> f.nodes[ino].nids[i] == 0)
    && ino in f.at && f.at[ino] == NEW_ADDR && Unowned([ino], f.w.sm.slots)
    && R.Safe(f.w) && f.ext == E.State(map[], E.Extent(0, 0, 0), false) && f.data == map[]
  }

  lemma NewTree(sh: Shape, ino: nat, f: File)
    requires NewFile(sh, ino, f)
    ensures TreeOk(sh, ino, f.nodes) && MapsPages(sh, ino, f.nodes, map[])
  {
    hide R.Safe, Unowned;
    forall i: nat | i < sh.Capacity() ensures Lookup(sh, ino, f.nodes, i) == NULL_ADDR { }
  }

  lemma NewHeld(g: Geometry, main: nat, ino: nat, nodes: map<nat, Node>, at: map<nat, nat>, slots: map<Owner, Slot>)
    requires g.Valid() && nodes.Keys == {ino} && ino in at && at[ino] == NEW_ADDR && Unowned([ino], slots)
    requires forall i :: 0 <= i < |nodes[ino].addrs| ==> nodes[ino].addrs[i] == NULL_ADDR
    ensures Held(g, main, nodes, at, slots)
  {
    assert ino in [ino];
    forall n, i: nat | n in nodes ensures SlotHeld(g, main, nodes, slots, n, i) { assert n in [ino]; }
    forall n | n in nodes ensures NodeHeld(g, main, at, slots, n) { assert n in [ino] && DataOwner(n, 0) !in slots; }
  }

  lemma NewFileOk(sh: Shape, ino: nat, main: nat, f: File)
    requires NewFile(sh, ino, f) && main > 1
    ensures FileOk(sh, ino, main, f)
  {
    assert P.Inv(f.w.sm) && f.w.sm.geo.Valid();
    hide TreeOk, MapsPages, R.Safe, P.Inv, Held, Unowned;
    NewTree(sh, ino, f);
    NewHeld(f.w.sm.geo, main, ino, f.nodes, f.at, f.w.sm.slots);
  }

  /**
    From its creation on, whatever is done to the file and elsewhere, each page reads
    as it was last written, and a page that is in no block was never written or is cut off.
   */
  lemma LifeReadsBack(sh: Shape, ino: nat, main: nat, f: File, ops: seq<Op>, p: nat)
    requires NewFile(sh, ino, f) && main > 1 && p < sh.Capacity()
    ensures FileOk(sh, ino, main, f)
    ensures EnabledRun(sh, ino, main, f, ops) ==>
              var f' := Run(sh, ino, main, f, ops);
              && FileOk(sh, ino, main, f')
              && ReadsPage(sh, ino, main, f', f'.w.disk, p)
              && (!f'.ext.noExtent && E.Covers(f'.ext.ext, p) ==>
                    p in f'.data && Lookup(sh, ino, f'.nodes, p) == f'.ext.ext.blkAddr + (p - f'.ext.ext.fofs))
  {
    NewFileOk(sh, ino, main, f);
    hide NewFile;
    if EnabledRun(sh, ino, main, f, ops) {
      RunKeepsFile(sh, ino, main, f, ops);
      ReadsBack(sh, ino, main, Run(sh, ino, main, f, ops), p);
    }
  }

  // ------------------------------------------------------- crashes

  ghost predicate NoCheckpoint(ops: seq<Op>) {
    forall i :: 0 <= i < |ops| && ops[i].Elsewhere? ==> !ops[i].op.OpCheckpoint?
  }

  lemma StepKeepsSaved(sh: Shape, ino: nat, main: nat, f: File, op: Op)
    requires FileOk(sh, ino, main, f) && Enabled(sh, ino, main, f, op) && (op.Elsewhere? ==> !op.op.OpCheckpoint?)
    ensures var w := Step(sh, ino, main, f, op).w; w.savedSlots == f.w.savedSlots && w.savedLive == f.w.savedLive
  {
    hide TreeOk, Held, MapsPages, R.Safe, P.CountersOk, P.SegsOk, P.SlotsOk, P.LogsOk, Sizes, E.RunInv, DataOk, Called;
    if op.Truncate? {
      Truncates(sh, ino, main, f, op);
      DropsGiveBack(f.w, main, op.calls, op.now);
      R.SavedUntilCheckpoint(f.w, Drops(op.calls, op.now));
    }
  }

  lemma {:induction false} SavedUntilCheckpoint(sh: Shape, ino: nat, main: nat, f: File, ops: seq<Op>)
    requires FileOk(sh, ino, main, f) && EnabledRun(sh, ino, main, f, ops) && NoCheckpoint(ops)
    ensures var w := Run(sh, ino, main, f, ops).w; w.savedSlots == f.w.savedSlots && w.savedLive == f.w.savedLive
    decreases ops
  {
    hide FileOk, Enabled, Step;
    if ops != [] {
      StepKeepsFile(sh, ino, main, f, ops[0]);
      StepKeepsSaved(sh, ino, main, f, ops[0]);
      SavedUntilCheckpoint(sh, ino, main, Step(sh, ino, main, f, ops[0]), ops[1..]);
    }
  }

  /**
    A crash at any time after a checkpoint: through the tree as it was, every page
    reads what it held when the checkpoint was taken, whatever was written, truncated
    or given to others since.
   */
  lemma CrashFindsFile(sh: Shape, ino: nat, main: nat, f: File, ops: seq<Op>, p: nat)
    requires FileOk(sh, ino, main, f) && p < sh.Capacity() && NoCheckpoint(ops)
    ensures Enabled(sh, ino, main, f, Elsewhere(R.OpCheckpoint))
    ensures var c := Step(sh, ino, main, f, Elsewhere(R.OpCheckpoint));
            && FileOk(sh, ino, main, c)
            && (EnabledRun(sh, ino, main, c, ops) ==> ReadsPage(sh, ino, main, f, Run(sh, ino, main, c, ops).w.disk, p))
  {
    var c := Step(sh, ino, main, f, Elsewhere(R.OpCheckpoint));
    StepKeepsFile(sh, ino, main, f, Elsewhere(R.OpCheckpoint));
    if EnabledRun(sh, ino, main, c, ops) {
      RunKeepsFile(sh, ino, main, c, ops);
      SavedUntilCheckpoint(sh, ino, main, c, ops);
      ReadsWhatIsLive(sh, ino, main, f, Run(sh, ino, main, c, ops).w.disk, p);
    }
  }

  // ------------------------------------------------------- truncation in place

  /** truncate_blocks is such a step, and what it leaves are the pages before the cut. */
  method TruncatePages(m: FileNodes, from: nat, blocksize: nat, ghost main: nat, ghost f: File, ghost now: nat)
    returns (bug: bool, err: int, ghost op: Op)
    requires m.Valid() && blocksize > 0 && m.nodes == f.nodes && m.nodeAddr == f.at && FileOk(m.sh, m.ino, main, f)
    modifies m
    ensures !bug ==>
              && m.Valid() && op == Truncate(m.nodes, m.nodeAddr, m.calls, now) && Enabled(m.sh, m.ino, main, f, op)
              && Step(m.sh, m.ino, main, f, op).data == map p | p in f.data && p < (from + blocksize - 1) / blocksize :: f.data[p]
  {
    bug, err := m.TruncateBlocks(from, blocksize);
    op := Truncate(m.nodes, m.nodeAddr, m.calls, now);
    if !bug { PagesLeft(m.sh, m.ino, main, f, (from + blocksize - 1) / blocksize, op); }
  }

  lemma UnmapsFrom(sh: Shape, ino: nat, f: File, op: Op, cut: nat, p: nat)
    requires TreeOk(sh, ino, f.nodes) && op.Truncate? && TreeOk(sh, ino, op.nodes) &&
             Called(sh, f.nodes, f.at, op.nodes, op.at, op.calls)
    requires cut < sh.Capacity() && Start(sh, LeafAt(sh, cut)) <= cut && Truncated(sh, ino, f.nodes, op.nodes, cut)
    requires p < sh.Capacity() && Lookup(sh, ino, f.nodes, p) != NULL_ADDR
    ensures Unmaps(op.calls, p) <==> p >= cut
  {
    hide TreeOk, Called, Lookup, Truncated, LeafAt, Start, Unmaps;
    LookupAfterCalls(sh, ino, f.nodes, f.at, op.nodes, op.at, op.calls, p);
    TruncationIsExact(sh, ino, f.nodes, op.nodes, cut, p);
  }

  lemma PagesLeft(sh: Shape, ino: nat, main: nat, f: File, cut: nat, op: Op)
    requires FileOk(sh, ino, main, f) && op.Truncate? && Enabled(sh, ino, main, f, op)
    requires cut < sh.Capacity() && Start(sh, LeafAt(sh, cut)) <= cut && Truncated(sh, ino, f.nodes, op.nodes, cut)
    ensures Step(sh, ino, main, f, op).data == map p | p in f.data && p < cut :: f.data[p]
  {
    hide P.Inv, R.Safe, E.RunInv, TreeOk, Held, Called, Lookup, Truncated, LeafAt, Start, Unmaps, SlotData;
    forall p: nat | p in f.data ensures Unmaps(op.calls, p) <==> p >= cut {
      assert IsBlock(E.PageAddr(f.ext.pages, p));
      UnmapsFrom(sh, ino, f, op, cut, p);
    }
  }
}
