/**
  A file, its blocks and its cached extent together: a block that a slot of a node
  or the node address table points at is owned by that slot or node in the segment
  manager, and the extent agrees with the tree. Truncation makes the calls that give
  back blocks and unmap pages; those calls, and every write, keep all three in step.
 */
module FileBlocks {
  import opened Addressing
  import opened FileTree
  import opened FreeSegmap
  import opened SegmentModel
  import P = SegmentProofs
  import R = SegmentRuns
  import E = ExtentCache

  /** An address that stands for a block: neither a hole nor a reservation. */
  predicate IsBlock(addr: nat) { addr != NULL_ADDR && addr != NEW_ADDR }

  /** GET_SEGNO and GET_BLKOFF_FROM_SEG0 of a block of the main area. */
  function LocOf(g: Geometry, main: nat, addr: nat): Loc
    requires g.Valid() && addr >= main
  {
    Loc((addr - main) / g.blocksPerSeg, (addr - main) % g.blocksPerSeg)
  }

  predicate LiesAt(g: Geometry, main: nat, addr: nat, loc: Loc)
    requires g.Valid()
  {
    addr >= main && loc == LocOf(g, main, addr)
  }

  function DataOwner(nid: nat, i: nat): Owner { Owner(false, nid, i) }

  function NodeOwner(nid: nat): Owner { Owner(true, nid, 0) }

  /** The owner has the block an address stands for, and none if it stands for none. */
  ghost predicate Owns(g: Geometry, main: nat, slots: map<Owner, Slot>, o: Owner, addr: nat)
    requires g.Valid()
  {
    if IsBlock(addr) then o in slots && LiesAt(g, main, addr, slots[o].loc) else o !in slots
  }

  /** Slot i of node n owns the block it points at, and nothing else. */
  ghost predicate SlotHeld(g: Geometry, main: nat, nodes: map<nat, Node>, slots: map<Owner, Slot>, n: nat, i: nat)
    requires g.Valid() && n in nodes
  {
    Owns(g, main, slots, DataOwner(n, i), if i < |nodes[n].addrs| then nodes[n].addrs[i] else NULL_ADDR)
  }

  /** Node n owns the block the node address table gives for it; it has none while its page was never written. */
  ghost predicate NodeHeld(g: Geometry, main: nat, at: map<nat, nat>, slots: map<Owner, Slot>, n: nat)
    requires g.Valid()
  {
    n in at && at[n] != NULL_ADDR && Owns(g, main, slots, NodeOwner(n), at[n])
  }

  ghost predicate Held(g: Geometry, main: nat, nodes: map<nat, Node>, at: map<nat, nat>, slots: map<Owner, Slot>)
    requires g.Valid()
  {
    && (forall n, i: nat :: n in nodes ==> SlotHeld(g, main, nodes, slots, n, i))
    && forall n :: n in nodes ==> NodeHeld(g, main, at, slots, n)
  }

  /** The extent cache stands for the pages as the tree maps them. */
  ghost predicate MapsPages(sh: Shape, ino: nat, nodes: map<nat, Node>, pages: map<nat, nat>)
    requires sh.Valid()
  {
    forall i: nat :: E.PageAddr(pages, i) == if i < sh.Capacity() then Lookup(sh, ino, nodes, i) else NULL_ADDR
  }

  /** The joined invariant of a file. */
  ghost predicate Joined(sh: Shape, ino: nat, main: nat, nodes: map<nat, Node>, at: map<nat, nat>, s: Sm, e: E.State) {
    && TreeOk(sh, ino, nodes) && P.Inv(s) && Held(s.geo, main, nodes, at, s.slots)
    && E.RunInv(main, e) && MapsPages(sh, ino, nodes, e.pages)
  }

  // ------------------------------------------------------- the blocks given back

  function OwnerOf(k: Call): Owner {
    match k
    case DataCall(n, i, _, _) => DataOwner(n, i)
    case NodeCall(n, _) => NodeOwner(n)
  }

  ghost predicate Gives(calls: seq<Call>, o: Owner) { exists j :: 0 <= j < |calls| && OwnerOf(calls[j]) == o }

  /** Every call is for the block its owner has, and no owner is called for twice. */
  ghost predicate CallsOwn(g: Geometry, main: nat, slots: map<Owner, Slot>, calls: seq<Call>)
    requires g.Valid()
  {
    && (forall j, k :: 0 <= j < k < |calls| ==> OwnerOf(calls[j]) != OwnerOf(calls[k]))
    && forall j :: 0 <= j < |calls| ==> Owns(g, main, slots, OwnerOf(calls[j]), calls[j].addr)
  }

  ghost predicate Callable(s: Sm, main: nat, calls: seq<Call>) {
    P.Inv(s) && CallsOwn(s.geo, main, s.slots, calls)
  }

  lemma RestOwns(g: Geometry, main: nat, slots: map<Owner, Slot>, calls: seq<Call>)
    requires g.Valid() && CallsOwn(g, main, slots, calls) && calls != []
    ensures CallsOwn(g, main, slots - {OwnerOf(calls[0])}, calls[1..])
  {
    hide OwnerOf, LiesAt;
    forall j | 0 <= j < |calls[1..]| ensures Owns(g, main, slots - {OwnerOf(calls[0])}, OwnerOf(calls[1..][j]), calls[1..][j].addr) {
      assert calls[1..][j] == calls[j + 1];
    }
  }

  /** invalidate_blocks on the address of a call; NEW_ADDR stands for no block. */
  ghost function GiveOne(s: Sm, main: nat, k: Call, now: nat): Sm
    requires P.Inv(s) && Owns(s.geo, main, s.slots, OwnerOf(k), k.addr)
  {
    if !IsBlock(k.addr) then s
    else
      assert P.SlotOk(s, OwnerOf(k));
      Invalidate(s, LocOf(s.geo, main, k.addr), now).(slots := s.slots - {OwnerOf(k)})
  }

  /** That is to take the block from its owner. */
  lemma GiveOneDrops(s: Sm, main: nat, k: Call, now: nat)
    requires P.Inv(s) && Owns(s.geo, main, s.slots, OwnerOf(k), k.addr)
    ensures var s' := GiveOne(s, main, k, now); P.Inv(s') && s'.geo == s.geo && s'.slots == s.slots - {OwnerOf(k)}
  {
    var o, s' := OwnerOf(k), GiveOne(s, main, k, now);
    if IsBlock(k.addr) {
      assert s' == R.Drop(s, o, now);
      R.DropKeepsInv(s, o, now);
    } else {
      assert s.slots - {o} == s.slots;
    }
  }

  lemma GiveOneKeeps(s: Sm, main: nat, calls: seq<Call>, now: nat)
    requires Callable(s, main, calls) && calls != []
    ensures var s' := GiveOne(s, main, calls[0], now);
            && Callable(s', main, calls[1..]) && s'.geo == s.geo && s'.slots == s.slots - {OwnerOf(calls[0])}
  {
    GiveOneDrops(s, main, calls[0], now);
    RestOwns(s.geo, main, s.slots, calls);
    hide P.Inv, GiveOne, OwnerOf;
  }

  /** The calls are made one after the other. */
  ghost function GiveBack(s: Sm, main: nat, calls: seq<Call>, now: nat): Sm
    requires Callable(s, main, calls)
    decreases calls
  {
    if calls == [] then s
    else
      GiveOneKeeps(s, main, calls, now);
      GiveBack(GiveOne(s, main, calls[0], now), main, calls[1..], now)
  }

  ghost predicate SlotsLeft(x: map<Owner, Slot>, y: map<Owner, Slot>, calls: seq<Call>) {
    forall o :: (o in y <==> o in x && !Gives(calls, o)) && (o in y ==> y[o] == x[o])
  }

  lemma {:induction false} GiveBackKeeps(s: Sm, main: nat, calls: seq<Call>, now: nat)
    requires Callable(s, main, calls)
    ensures var s' := GiveBack(s, main, calls, now);
            P.Inv(s') && s'.geo == s.geo && SlotsLeft(s.slots, s'.slots, calls)
    decreases calls
  {
    if calls != [] {
      GiveOneKeeps(s, main, calls, now);
      GiveBackKeeps(GiveOne(s, main, calls[0], now), main, calls[1..], now);
      FirstLeft(s.slots, GiveBack(s, main, calls, now).slots, calls);
    }
  }

  lemma FirstLeft(x: map<Owner, Slot>, y: map<Owner, Slot>, calls: seq<Call>)
    requires calls != [] && SlotsLeft(x - {OwnerOf(calls[0])}, y, calls[1..])
    ensures SlotsLeft(x, y, calls)
  {
    forall o ensures Gives(calls, o) <==> o == OwnerOf(calls[0]) || Gives(calls[1..], o) { GivesFirst(calls, o); }
  }

  lemma GivesFirst(calls: seq<Call>, o: Owner)
    requires calls != []
    ensures Gives(calls, o) <==> o == OwnerOf(calls[0]) || Gives(calls[1..], o)
  {
    if Gives(calls, o) {
      var j :| 0 <= j < |calls| && OwnerOf(calls[j]) == o;
      if j > 0 { assert OwnerOf(calls[1..][j - 1]) == o; }
    }
    if Gives(calls[1..], o) {
      var j :| 0 <= j < |calls[1..]| && OwnerOf(calls[1..][j]) == o;
      assert OwnerOf(calls[j + 1]) == o;
    }
  }

  /** What truncation has called for: the owners of what the tree lost, and the addresses they had. */
  lemma GivesWhatIsLost(sh: Shape, a: map<nat, Node>, at: map<nat, nat>, c: map<nat, Node>, ct: map<nat, nat>, calls: seq<Call>, n: nat, i: nat)
    requires Called(sh, a, at, c, ct, calls)
    ensures Gives(calls, DataOwner(n, i)) <==> Loses(a, c, n, i)
    ensures Gives(calls, NodeOwner(n)) <==> n in a && n !in c
  {
    if Gives(calls, DataOwner(n, i)) {
      var j :| 0 <= j < |calls| && OwnerOf(calls[j]) == DataOwner(n, i);
      assert Due(sh, a, at, c, calls[j]);
    }
    if Loses(a, c, n, i) {
      var k := DataCall(n, i, Start(sh, a[n].pos) + i, a[n].addrs[i]);
      assert Due(sh, a, at, c, k) && k in calls && OwnerOf(k) == DataOwner(n, i);
    }
    if Gives(calls, NodeOwner(n)) {
      var j :| 0 <= j < |calls| && OwnerOf(calls[j]) == NodeOwner(n);
      assert Due(sh, a, at, c, calls[j]);
    }
    if n in a && n !in c {
      var k := NodeCall(n, at[n]);
      assert Due(sh, a, at, c, k) && k in calls && OwnerOf(k) == NodeOwner(n);
    }
  }

  lemma CalledIsCallable(sh: Shape, main: nat, a: map<nat, Node>, at: map<nat, nat>, c: map<nat, Node>, ct: map<nat, nat>,
                         calls: seq<Call>, s: Sm)
    requires Called(sh, a, at, c, ct, calls) && P.Inv(s) && Held(s.geo, main, a, at, s.slots)
    ensures Callable(s, main, calls)
  {
    forall j | 0 <= j < |calls|
      ensures Owns(s.geo, main, s.slots, OwnerOf(calls[j]), calls[j].addr) {
      assert Due(sh, a, at, c, calls[j]);
      match calls[j]
      case DataCall(n, i, _, _) => assert SlotHeld(s.geo, main, a, s.slots, n, i);
      case NodeCall(n, _) => assert NodeHeld(s.geo, main, at, s.slots, n);
    }
    forall j, k | 0 <= j < k < |calls| ensures OwnerOf(calls[j]) != OwnerOf(calls[k]) {
      assert Due(sh, a, at, c, calls[j]) && Due(sh, a, at, c, calls[k]);
    }
  }

  /** Nobody owns a block for a node that went. */
  ghost predicate NoneFor(a: map<nat, Node>, c: map<nat, Node>, slots: map<Owner, Slot>) {
    forall n, i: nat :: n in a && n !in c ==> NodeOwner(n) !in slots && DataOwner(n, i) !in slots
  }

  /** The slots that are left hold the blocks of the tree that is left, and nobody owns a block for a node that went. */
  lemma HeldAfter(sh: Shape, g: Geometry, main: nat, a: map<nat, Node>, at: map<nat, nat>, c: map<nat, Node>, ct: map<nat, nat>,
                  calls: seq<Call>, x: map<Owner, Slot>, y: map<Owner, Slot>)
    requires g.Valid() && Held(g, main, a, at, x) && Called(sh, a, at, c, ct, calls) && SlotsLeft(x, y, calls)
    ensures Held(g, main, c, ct, y)
    ensures NoneFor(a, c, y)
  {
    forall n, i: nat | n in a
      ensures n in c ==> SlotHeld(g, main, c, y, n, i)
      ensures n !in c ==> DataOwner(n, i) !in y
    {
      assert SlotHeld(g, main, a, x, n, i);
      GivesWhatIsLost(sh, a, at, c, ct, calls, n, i);
    }
    forall n | n in a ensures if n in c then NodeHeld(g, main, ct, y, n) else NodeOwner(n) !in y {
      assert NodeHeld(g, main, at, x, n);
      GivesWhatIsLost(sh, a, at, c, ct, calls, n, 0);
    }
  }

  // ------------------------------------------------------- the pages unmapped

  ghost predicate Unmaps(calls: seq<Call>, page: nat) { exists j :: 0 <= j < |calls| && calls[j].DataCall? && calls[j].fofs == page }

  /** The calls of update_extent_cache, in order. */
  function Updates(calls: seq<Call>): seq<E.Op> {
    if calls == [] then []
    else (if calls[0].DataCall? && calls[0].fofs >= 0 then [E.Truncate(calls[0].fofs)] else []) + Updates(calls[1..])
  }

  lemma UnmapsFirst(calls: seq<Call>, page: nat)
    requires calls != []
    ensures Unmaps(calls, page) <==> (calls[0].DataCall? && calls[0].fofs == page) || Unmaps(calls[1..], page)
  {
    if Unmaps(calls, page) {
      var j :| 0 <= j < |calls| && calls[j].DataCall? && calls[j].fofs == page;
      if j > 0 { assert calls[1..][j - 1] == calls[j]; }
    }
    if Unmaps(calls[1..], page) {
      var j :| 0 <= j < |calls[1..]| && calls[1..][j].DataCall? && calls[1..][j].fofs == page;
      assert calls[j + 1] == calls[1..][j];
    }
  }

  lemma {:induction false} UpdatesUnmap(main: nat, e: E.State, calls: seq<Call>)
    requires main > 1 && E.RunInv(main, e)
    ensures E.EnabledRun(main, e, Updates(calls)) && E.RunInv(main, E.Run(e, Updates(calls)))
    ensures forall i: nat :: E.PageAddr(E.Run(e, Updates(calls)).pages, i)
                          == if Unmaps(calls, i) then NULL_ADDR else E.PageAddr(e.pages, i)
    decreases calls
  {
    if calls != [] {
      forall i: nat ensures Unmaps(calls, i) <==> (calls[0].DataCall? && calls[0].fofs == i) || Unmaps(calls[1..], i) {
        UnmapsFirst(calls, i);
      }
      if calls[0].DataCall? && calls[0].fofs >= 0 {
        var op := E.Truncate(calls[0].fofs);
        assert Updates(calls)[0] == op && Updates(calls)[1..] == Updates(calls[1..]);
        E.StepKeepsInv(main, e, op);
        UpdatesUnmap(main, E.Step(e, op), calls[1..]);
      } else {
        assert Updates(calls) == Updates(calls[1..]);
        UpdatesUnmap(main, e, calls[1..]);
      }
    }
  }

  /** The pages of the calls are those the new tree does not map any more. */
  lemma LookupAfterCalls(sh: Shape, ino: nat, a: map<nat, Node>, at: map<nat, nat>, c: map<nat, Node>, ct: map<nat, nat>,
                         calls: seq<Call>, i: nat)
    requires TreeOk(sh, ino, a) && TreeOk(sh, ino, c) && Called(sh, a, at, c, ct, calls) && i < sh.Capacity()
    ensures Lookup(sh, ino, c, i) == if Unmaps(calls, i) then NULL_ADDR else Lookup(sh, ino, a, i)
  {
    var p := LeafAt(sh, i);
    LeafHolds(sh, i);
    FindIs(sh, ino, a, p);
    var n := Find(ino, a, p);
    if n == 0 {
      forall m | m in a ensures a[m].pos != p { FindFinds(sh, ino, a, m); }
      LookupNone(sh, ino, a, i);
      LookupNone(sh, ino, c, i);
    } else {
      UnmapsIs(sh, ino, a, at, c, ct, calls, i, n);
      LookupIs(sh, ino, a, i, n);
      if n in c { LookupIs(sh, ino, c, i, n); } else { LookupNone(sh, ino, c, i); }
    }
  }

  lemma UnmapsLost(sh: Shape, ino: nat, a: map<nat, Node>, at: map<nat, nat>, c: map<nat, Node>, ct: map<nat, nat>,
                   calls: seq<Call>, i: nat, n: nat, slot: nat)
    requires TreeOk(sh, ino, a) && Called(sh, a, at, c, ct, calls) && i < sh.Capacity() && n in a && a[n].pos == LeafAt(sh, i)
    requires Unmaps(calls, i) && i == Start(sh, a[n].pos) + slot
    ensures Loses(a, c, n, slot)
  {
    var j :| 0 <= j < |calls| && calls[j].DataCall? && calls[j].fofs == i;
    assert Due(sh, a, at, c, calls[j]);
    OnePlace(sh, ino, a, n, i, calls[j].nid, calls[j].i);
  }

  lemma UnmapsIs(sh: Shape, ino: nat, a: map<nat, Node>, at: map<nat, nat>, c: map<nat, Node>, ct: map<nat, nat>,
                 calls: seq<Call>, i: nat, n: nat)
    requires TreeOk(sh, ino, a) && Called(sh, a, at, c, ct, calls) && i < sh.Capacity() && n in a && a[n].pos == LeafAt(sh, i)
    ensures Start(sh, LeafAt(sh, i)) <= i && (Unmaps(calls, i) <==> Loses(a, c, n, i - Start(sh, LeafAt(sh, i))))
  {
    LeafHolds(sh, i);
    var slot := i - Start(sh, LeafAt(sh, i));
    if Unmaps(calls, i) { UnmapsLost(sh, ino, a, at, c, ct, calls, i, n, slot); }
    if Loses(a, c, n, slot) {
      var k := DataCall(n, slot, i, a[n].addrs[slot]);
      assert Due(sh, a, at, c, k) && k in calls;
    }
  }

  /** No two slots hold the same page. */
  lemma OnePlace(sh: Shape, ino: nat, a: map<nat, Node>, n: nat, i: nat, m: nat, k: nat)
    requires TreeOk(sh, ino, a) && i < sh.Capacity() && n in a && a[n].pos == LeafAt(sh, i)
    requires m in a && k < |a[m].addrs| && Start(sh, a[m].pos) + k == i
    ensures m == n
  {
    SlotPlace(sh, ino, a, m, k);
  }

  lemma SlotPlace(sh: Shape, ino: nat, a: map<nat, Node>, n: nat, i: nat)
    requires TreeOk(sh, ino, a) && n in a && i < |a[n].addrs|
    ensures Start(sh, a[n].pos) + i < sh.Capacity() && LeafAt(sh, Start(sh, a[n].pos) + i) == a[n].pos
    ensures Find(ino, a, a[n].pos) == n
  {
    assert NodeOk(sh, a[n]);
    LeafIsUnique(sh, a[n].pos, i);
    FindFinds(sh, ino, a, n);
  }

  lemma PagesAfter(sh: Shape, ino: nat, main: nat, a: map<nat, Node>, at: map<nat, nat>, c: map<nat, Node>, ct: map<nat, nat>,
                   calls: seq<Call>, e: E.State)
    requires TreeOk(sh, ino, a) && TreeOk(sh, ino, c) && Called(sh, a, at, c, ct, calls)
    requires main > 1 && E.RunInv(main, e) && MapsPages(sh, ino, a, e.pages)
    ensures var e' := E.Run(e, Updates(calls)); E.RunInv(main, e') && MapsPages(sh, ino, c, e'.pages)
  {
    UpdatesUnmap(main, e, calls);
    forall i: nat | i < sh.Capacity()
      ensures Lookup(sh, ino, c, i) == if Unmaps(calls, i) then NULL_ADDR else Lookup(sh, ino, a, i)
    {
      LookupAfterCalls(sh, ino, a, at, c, ct, calls, i);
    }
    forall i: nat | i >= sh.Capacity() ensures E.PageAddr(e.pages, i) == NULL_ADDR { }
    hide TreeOk, Called, Lookup, Unmaps;
  }

  // ------------------------------------------------------- truncation

  /** Calls that are exactly those due keep the joined invariant, and leave no block owned for a node that went. */
  lemma CallsKeepJoined(sh: Shape, ino: nat, main: nat, a: map<nat, Node>, at: map<nat, nat>, c: map<nat, Node>, ct: map<nat, nat>,
                        calls: seq<Call>, s: Sm, now: nat, e: E.State)
    requires main > 1 && Joined(sh, ino, main, a, at, s, e) && TreeOk(sh, ino, c) && Called(sh, a, at, c, ct, calls)
    ensures Callable(s, main, calls)
    ensures Joined(sh, ino, main, c, ct, GiveBack(s, main, calls, now), E.Run(e, Updates(calls)))
    ensures NoneFor(a, c, GiveBack(s, main, calls, now).slots)
  {
    assert s.geo.Valid();
    hide TreeOk, Called, MapsPages, Held, P.CountersOk, P.SegsOk, P.SlotsOk, P.LogsOk, Sizes, GiveBack;
    PagesAfter(sh, ino, main, a, at, c, ct, calls, e);
    CalledIsCallable(sh, main, a, at, c, ct, calls, s);
    GiveBackKeeps(s, main, calls, now);
    HeldAfter(sh, s.geo, main, a, at, c, ct, calls, s.slots, GiveBack(s, main, calls, now).slots);
  }

  /**
    truncate_blocks, with the segment manager and the extent as the calls it makes
    leave them: tree, blocks and extent of the file are in step again.
   */
  method TruncateFile(m: FileNodes, from: nat, blocksize: nat, ghost main: nat, ghost s: Sm, ghost now: nat, ghost e: E.State)
    returns (bug: bool, err: int)
    requires m.Valid() && blocksize > 0 && main > 1 && Joined(m.sh, m.ino, main, m.nodes, m.nodeAddr, s, e)
    modifies m
    ensures !bug ==>
              && m.Valid() && Callable(s, main, m.calls)
              && Joined(m.sh, m.ino, main, m.nodes, m.nodeAddr, GiveBack(s, main, m.calls, now), E.Run(e, Updates(m.calls)))
              && NoneFor(old(m.nodes), m.nodes, GiveBack(s, main, m.calls, now).slots)
    ensures !bug ==>
              var f := (from + blocksize - 1) / blocksize;
              forall i: nat :: i < m.sh.Capacity() ==>
                Lookup(m.sh, m.ino, m.nodes, i) == if i < f then old(Lookup(m.sh, m.ino, m.nodes, i)) else NULL_ADDR
  {
    assert TreeOk(m.sh, m.ino, m.nodes);
    hide Called, Joined, Truncated, GiveBack, Callable, Lookup, NoneFor, TreeOk, FileNodes.Accounted;
    ghost var a, at := m.nodes, m.nodeAddr;
    bug, err := m.TruncateBlocks(from, blocksize);
    if !bug {
      CallsKeepJoined(m.sh, m.ino, main, a, at, m.nodes, m.nodeAddr, m.calls, s, now, e);
      ghost var f := (from + blocksize - 1) / blocksize;
      forall i: nat | i < m.sh.Capacity()
        ensures Lookup(m.sh, m.ino, m.nodes, i) == if i < f then Lookup(m.sh, m.ino, a, i) else NULL_ADDR
      {
        TruncationIsExact(m.sh, m.ino, a, m.nodes, f, i);
      }
    }
  }

  // ------------------------------------------------------- pages written and reserved

  /** Slot i of node n gets an address. */
  function SlotSet(nodes: map<nat, Node>, n: nat, i: nat, addr: nat): map<nat, Node>
    requires n in nodes && i < |nodes[n].addrs|
  {
    nodes[n := nodes[n].(addrs := nodes[n].addrs[i := addr])]
  }

  lemma SlotSetTree(sh: Shape, ino: nat, a: map<nat, Node>, n: nat, i: nat, addr: nat)
    requires TreeOk(sh, ino, a) && n in a && i < |a[n].addrs|
    ensures TreeOk(sh, ino, SlotSet(a, n, i, addr))
    ensures PosOk(sh, a[n].pos) && IsLeaf(a[n].pos) && i < Slots(sh, a[n].pos)
  {
    assert NodeOk(sh, a[n]);
    SameTreeOk(sh, ino, a, SlotSet(a, n, i, addr));
  }

  lemma FindAfterSet(sh: Shape, ino: nat, a: map<nat, Node>, n: nat, i: nat, addr: nat, p: Pos)
    requires TreeOk(sh, ino, a) && n in a && i < |a[n].addrs| && PosOk(sh, p)
    ensures Find(ino, SlotSet(a, n, i, addr), p) == Find(ino, a, p)
    ensures Find(ino, a, p) in a ==> a[Find(ino, a, p)].pos == p
  {
    FindIs(sh, ino, a, p);
    SameTreeFind(ino, a, SlotSet(a, n, i, addr), p);
  }

  /** The page of the slot is mapped to the address, the others as before. */
  lemma LookupAfterSet(sh: Shape, ino: nat, a: map<nat, Node>, n: nat, i: nat, addr: nat, j: nat)
    requires TreeOk(sh, ino, a) && n in a && i < |a[n].addrs| && j < sh.Capacity()
    ensures Start(sh, a[n].pos) + i < sh.Capacity()
    ensures Lookup(sh, ino, SlotSet(a, n, i, addr), j)
         == if j == Start(sh, a[n].pos) + i then addr else Lookup(sh, ino, a, j)
  {
    LeafHolds(sh, j);
    FindAfterSet(sh, ino, a, n, i, addr, LeafAt(sh, j));
    SlotPlace(sh, ino, a, n, i);
    hide TreeOk, Find, LeafAt, PosOk, Start, Slots, IsLeaf;
  }

  /** A page map changed like the tree still agrees with it. */
  lemma PagesAfterSet(sh: Shape, ino: nat, a: map<nat, Node>, n: nat, i: nat, addr: nat, pages: map<nat, nat>)
    requires TreeOk(sh, ino, a) && MapsPages(sh, ino, a, pages) && n in a && i < |a[n].addrs|
    ensures Start(sh, a[n].pos) + i < sh.Capacity() && TreeOk(sh, ino, SlotSet(a, n, i, addr))
    ensures MapsPages(sh, ino, SlotSet(a, n, i, addr), pages[Start(sh, a[n].pos) + i := addr])
    ensures E.PageAddr(pages, Start(sh, a[n].pos) + i) == a[n].addrs[i]
  {
    SlotSetTree(sh, ino, a, n, i, addr);
    LeafIsUnique(sh, a[n].pos, i);
    LookupIs(sh, ino, a, Start(sh, a[n].pos) + i, n);
    var pages' := pages[Start(sh, a[n].pos) + i := addr];
    hide TreeOk, Lookup, Start, Slots, PosOk;
    forall j: nat
      ensures E.PageAddr(pages', j) == if j < sh.Capacity() then Lookup(sh, ino, SlotSet(a, n, i, addr), j) else NULL_ADDR
    {
      assert E.PageAddr(pages, j) == if j < sh.Capacity() then Lookup(sh, ino, a, j) else NULL_ADDR;
      if j < sh.Capacity() { LookupAfterSet(sh, ino, a, n, i, addr, j); }
    }
  }

  lemma HeldAfterWrite(g: Geometry, main: nat, a: map<nat, Node>, at: map<nat, nat>, x: map<Owner, Slot>,
                       n: nat, i: nat, addr: nat, slot: Slot)
    requires g.Valid() && Held(g, main, a, at, x) && n in a && i < |a[n].addrs| && IsBlock(addr) && LiesAt(g, main, addr, slot.loc)
    ensures Held(g, main, SlotSet(a, n, i, addr), at, x[DataOwner(n, i) := slot])
  {
    var c, y := SlotSet(a, n, i, addr), x[DataOwner(n, i) := slot];
    forall m, k: nat | m in a ensures SlotHeld(g, main, c, y, m, k) {
      assert SlotHeld(g, main, a, x, m, k);
    }
    forall m | m in a ensures NodeHeld(g, main, at, y, m) { assert NodeHeld(g, main, at, x, m); }
  }

  /** Writing a page out of place keeps the joined invariant. */
  lemma WriteKeepsJoined(sh: Shape, ino: nat, main: nat, a: map<nat, Node>, at: map<nat, nat>, s: Sm, e: E.State,
                         n: nat, i: nat, addr: nat, version: nat, t: nat, now: nat, choice: Choice)
    requires main > 1 && Joined(sh, ino, main, a, at, s, e) && n in a && i < |a[n].addrs|
    requires P.CanWrite(s, DataOwner(n, i), version, t, choice)
    requires E.InMainArea(main, addr) && LiesAt(s.geo, main, addr, NextBlock(s, t))
    ensures Joined(sh, ino, main, SlotSet(a, n, i, addr), at, P.Write(s, DataOwner(n, i), version, t, now, choice),
                   E.Step(e, E.Write(Start(sh, a[n].pos) + i, addr)))
  {
    var op := E.Write(Start(sh, a[n].pos) + i, addr);
    PagesAfterSet(sh, ino, a, n, i, addr, e.pages);
    E.StepKeepsInv(main, e, op);
    assert E.Step(e, op).pages == e.pages[Start(sh, a[n].pos) + i := addr];
    P.WriteKeepsInv(s, DataOwner(n, i), version, t, now, choice);
    HeldAfterWrite(s.geo, main, a, at, s.slots, n, i, addr, Slot(NextBlock(s, t), version));
    hide TreeOk, MapsPages, Held, P.CountersOk, P.SegsOk, P.SlotsOk, P.LogsOk, Allocate, Sizes, E.Step, E.RunInv, Start;
  }

  /** So does giving a hole a block for direct I/O, which starts no extent. */
  lemma DirectKeepsJoined(sh: Shape, ino: nat, main: nat, a: map<nat, Node>, at: map<nat, nat>, s: Sm, e: E.State,
                          n: nat, i: nat, addr: nat, version: nat, t: nat, now: nat, choice: Choice)
    requires main > 1 && Joined(sh, ino, main, a, at, s, e) && n in a && i < |a[n].addrs| && a[n].addrs[i] == NULL_ADDR
    requires P.CanWrite(s, DataOwner(n, i), version, t, choice)
    requires E.InMainArea(main, addr) && LiesAt(s.geo, main, addr, NextBlock(s, t))
    ensures Joined(sh, ino, main, SlotSet(a, n, i, addr), at, P.Write(s, DataOwner(n, i), version, t, now, choice),
                   E.Step(e, E.DirectAlloc(Start(sh, a[n].pos) + i, addr)))
  {
    var op := E.DirectAlloc(Start(sh, a[n].pos) + i, addr);
    PagesAfterSet(sh, ino, a, n, i, addr, e.pages);
    E.StepKeepsInv(main, e, op);
    assert E.Step(e, op).pages == e.pages[Start(sh, a[n].pos) + i := addr];
    P.WriteKeepsInv(s, DataOwner(n, i), version, t, now, choice);
    HeldAfterWrite(s.geo, main, a, at, s.slots, n, i, addr, Slot(NextBlock(s, t), version));
    hide TreeOk, MapsPages, Held, P.CountersOk, P.SegsOk, P.SlotsOk, P.LogsOk, Allocate, Sizes, E.Step, E.RunInv, Start;
  }

  /** Reserving a page in a hole keeps the joined invariant: no block is owned for it yet. */
  lemma ReserveKeepsJoined(sh: Shape, ino: nat, main: nat, a: map<nat, Node>, at: map<nat, nat>, s: Sm, e: E.State, n: nat, i: nat)
    requires main > 1 && Joined(sh, ino, main, a, at, s, e) && n in a && i < |a[n].addrs| && a[n].addrs[i] == NULL_ADDR
    ensures Joined(sh, ino, main, SlotSet(a, n, i, NEW_ADDR), at, s, E.Step(e, E.Reserve(Start(sh, a[n].pos) + i)))
  {
    var op := E.Reserve(Start(sh, a[n].pos) + i);
    PagesAfterSet(sh, ino, a, n, i, NEW_ADDR, e.pages);
    E.StepKeepsInv(main, e, op);
    assert E.Step(e, op).pages == e.pages[Start(sh, a[n].pos) + i := NEW_ADDR];
    HeldAfterReserve(s.geo, main, a, at, s.slots, n, i);
    hide TreeOk, MapsPages, Held, P.CountersOk, P.SegsOk, P.SlotsOk, P.LogsOk, Sizes, E.Step, E.RunInv, Start;
  }

  lemma HeldAfterReserve(g: Geometry, main: nat, a: map<nat, Node>, at: map<nat, nat>, x: map<Owner, Slot>, n: nat, i: nat)
    requires g.Valid() && Held(g, main, a, at, x) && n in a && i < |a[n].addrs| && a[n].addrs[i] == NULL_ADDR
    ensures Held(g, main, SlotSet(a, n, i, NEW_ADDR), at, x)
  {
    var c := SlotSet(a, n, i, NEW_ADDR);
    forall m, k: nat | m in c ensures SlotHeld(g, main, c, x, m, k) { assert SlotHeld(g, main, a, x, m, k); }
  }

  // ------------------------------------------------------- nodes added and written

  lemma HeldAfterNode(g: Geometry, main: nat, a: map<nat, Node>, at: map<nat, nat>, x: map<Owner, Slot>, n: nat, addr: nat, slot: Slot)
    requires g.Valid() && Held(g, main, a, at, x) && n in a && IsBlock(addr) && LiesAt(g, main, addr, slot.loc)
    ensures Held(g, main, a, at[n := addr], x[NodeOwner(n) := slot])
  {
    var y := x[NodeOwner(n) := slot];
    forall m, k: nat | m in a ensures SlotHeld(g, main, a, y, m, k) { assert SlotHeld(g, main, a, x, m, k); }
    forall m | m in a ensures NodeHeld(g, main, at[n := addr], y, m) { assert NodeHeld(g, main, at, x, m); }
  }

  /** Writing the page of a node, for the first time or again, keeps the joined invariant. */
  lemma WriteNodeKeepsJoined(sh: Shape, ino: nat, main: nat, a: map<nat, Node>, at: map<nat, nat>, s: Sm, e: E.State,
                             n: nat, addr: nat, version: nat, t: nat, now: nat, choice: Choice)
    requires Joined(sh, ino, main, a, at, s, e) && n in a && P.CanWrite(s, NodeOwner(n), version, t, choice)
    requires IsBlock(addr) && LiesAt(s.geo, main, addr, NextBlock(s, t))
    ensures Joined(sh, ino, main, a, at[n := addr], P.Write(s, NodeOwner(n), version, t, now, choice), e)
  {
    P.WriteKeepsInv(s, NodeOwner(n), version, t, now, choice);
    HeldAfterNode(s.geo, main, a, at, s.slots, n, addr, Slot(NextBlock(s, t), version));
    hide TreeOk, MapsPages, Held, P.CountersOk, P.SegsOk, P.SlotsOk, P.LogsOk, Allocate, Sizes, E.RunInv;
  }

  /** Nobody owns a block for the nodes that are new. */
  ghost predicate Fresh(a: map<nat, Node>, c: map<nat, Node>, slots: map<Owner, Slot>) {
    forall n, i: nat :: n in c && n !in a ==> NodeOwner(n) !in slots && DataOwner(n, i) !in slots
  }

  lemma HeldAfterGrowth(sh: Shape, ino: nat, g: Geometry, main: nat, a: map<nat, Node>, at: map<nat, nat>,
                        c: map<nat, Node>, ct: map<nat, nat>, x: map<Owner, Slot>)
    requires g.Valid() && Held(g, main, a, at, x) && Grew(sh, ino, a, at, c, ct) && Fresh(a, c, x)
    ensures Held(g, main, c, ct, x)
  {
    hide TreeOk, Lookup;
    forall n, i: nat | n in c ensures SlotHeld(g, main, c, x, n, i) {
      if n in a { assert SlotHeld(g, main, a, x, n, i); } else { assert DataOwner(n, i) !in x; }
    }
    forall n | n in c ensures NodeHeld(g, main, ct, x, n) {
      if n in a { assert NodeHeld(g, main, at, x, n); } else { assert DataOwner(n, 0) !in x; }
    }
  }

  /** Adding the nodes that are missing on the way to a page keeps the joined invariant. */
  lemma GrowthKeepsJoined(sh: Shape, ino: nat, main: nat, a: map<nat, Node>, at: map<nat, nat>, c: map<nat, Node>, ct: map<nat, nat>,
                          s: Sm, e: E.State)
    requires Joined(sh, ino, main, a, at, s, e) && Grew(sh, ino, a, at, c, ct) && Fresh(a, c, s.slots)
    ensures Joined(sh, ino, main, c, ct, s, e)
  {
    HeldAfterGrowth(sh, ino, s.geo, main, a, at, c, ct, s.slots);
    hide TreeOk, Lookup, Held, P.CountersOk, P.SegsOk, P.SlotsOk, P.LogsOk, Sizes, E.RunInv;
    assert forall i: nat :: i < sh.Capacity() ==> E.PageAddr(e.pages, i) == Lookup(sh, ino, c, i);
  }

  ghost predicate Unowned(free: seq<nat>, slots: map<Owner, Slot>) {
    forall n: nat, i: nat :: n in free ==> NodeOwner(n) !in slots && DataOwner(n, i) !in slots
  }

  lemma FreshIds(a: map<nat, Node>, c: map<nat, Node>, free: seq<nat>, slots: map<Owner, Slot>)
    requires Unowned(free, slots) && forall n :: n in c ==> n in a || n in free
    ensures Fresh(a, c, slots)
  {
    forall n: nat, i: nat | n in c && n !in a ensures NodeOwner(n) !in slots && DataOwner(n, i) !in slots {
      assert n in free;
    }
  }

  /** get_dnode_of_data with ALLOC_NODE on a file in step. */
  method AllocInFile(m: FileNodes, index: nat, free: seq<nat>, room: nat, ghost main: nat, ghost s: Sm, ghost e: E.State)
    returns (bug: bool, err: int, nid: nat, ofsInNode: nat)
    requires m.Valid() && Joined(m.sh, m.ino, main, m.nodes, m.nodeAddr, s, e) && AllFree(m.nodes, free, m.maxNid)
    requires Unowned(free, s.slots)
    modifies m
    ensures m.Valid() && Joined(m.sh, m.ino, main, m.nodes, m.nodeAddr, s, e)
    ensures !bug && err == 0 ==>
              nid in m.nodes && ofsInNode < |m.nodes[nid].addrs| && Start(m.sh, m.nodes[nid].pos) + ofsInNode == index
  {
    hide FileNodes.Accounted, Joined, Grew, TreeOk, Missing;
    ghost var a, at := m.nodes, m.nodeAddr;
    bug, err, nid, ofsInNode := m.AllocDnodeOfData(index, free, room);
    FreshIds(a, m.nodes, free, s.slots);
    GrowthKeepsJoined(m.sh, m.ino, main, a, at, m.nodes, m.nodeAddr, s, e);
  }
}
