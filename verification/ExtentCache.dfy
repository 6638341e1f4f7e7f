/**
  The extent cache of an inode: one run of page indices mapped to consecutive
  blocks, kept up to date as pages are written, truncated, reserved and allocated.
  It agrees with the page map, so a hit gives what a walk of the node tree gives.
 */
module ExtentCache {
  import Addressing

  const NULL_ADDR: nat := 0
  const NEW_ADDR: nat := 0xFFFF_FFFF
  const MIN_EXTENT_LEN: nat := 16
  const UINT_MAX: nat := 0xFFFF_FFFF

  /** Pages fofs, fofs + 1, ... of the file lie in blocks blkAddr, blkAddr + 1, ... */
  datatype Extent = Extent(fofs: nat, blkAddr: nat, len: nat)

  /** The address the node tree holds for a page. */
  function PageAddr(pages: map<nat, nat>, i: nat): nat {
    if i in pages then pages[i] else NULL_ADDR
  }

  predicate Covers(e: Extent, i: nat) { e.fofs <= i < e.fofs + e.len }

  /** Every page of the extent is mapped, to the block the extent says. */
  ghost predicate Agrees(pages: map<nat, nat>, e: Extent) {
    forall i: nat :: Covers(e, i) ==>
      PageAddr(pages, i) == e.blkAddr + (i - e.fofs) && PageAddr(pages, i) != NULL_ADDR && PageAddr(pages, i) != NEW_ADDR
  }

  /** The extent after a page got an address: dropped and started anew, extended at either end, split, or left alone. */
  datatype Change = Start | FrontMerge | BackMerge | KeepHead | KeepTail | Leave | Forget

  function ChangeFor(e: Extent, fofs: nat, addr: nat): Change {
    if e.len == 0 || (e.len == 1 && fofs == e.fofs) then if addr != NULL_ADDR then Start else Forget
    else if fofs + 1 == e.fofs && addr + 1 == e.blkAddr then FrontMerge
    else if fofs == e.fofs + e.len && addr == e.blkAddr + e.len then BackMerge
    else if e.len > 1 && Covers(e, fofs) then
      if e.fofs + e.len - 1 - fofs < e.len / 2 then KeepHead else KeepTail
    else Leave
  }

  function Changed(e: Extent, fofs: nat, addr: nat): Extent {
    match ChangeFor(e, fofs, addr)
    case Start => Extent(fofs, addr, 1)
    case Forget => e.(len := 0)
    case FrontMerge => Extent(fofs, addr, e.len + 1)
    case BackMerge => e.(len := e.len + 1)
    case KeepHead => e.(len := fofs - e.fofs)
    case KeepTail => if Covers(e, fofs) then Extent(fofs + 1, e.blkAddr + (fofs - e.fofs) + 1, e.fofs + e.len - fofs - 1) else e
    case Leave => e
  }

  /** Only an extent that was split or left alone is dropped for being short. */
  predicate Dropped(e: Extent, fofs: nat, addr: nat) {
    var c := ChangeFor(e, fofs, addr);
    (c.KeepHead? || c.KeepTail? || c.Leave?) && Changed(e, fofs, addr).len < MIN_EXTENT_LEN
  }

  datatype State = State(pages: map<nat, nat>, ext: Extent, noExtent: bool)

  /** update_extent_cache. */
  function Update(s: State, fofs: nat, addr: nat): State {
    var pages := s.pages[fofs := addr];
    if s.noExtent then s.(pages := pages)
    else if Dropped(s.ext, fofs, addr) then State(pages, Changed(s.ext, fofs, addr).(len := 0), true)
    else State(pages, Changed(s.ext, fofs, addr), false)
  }

  /** What holds between operations. */
  ghost predicate Inv(s: State) {
    Agrees(s.pages, s.ext) && (s.noExtent ==> s.ext.len == 0)
  }

  /** The last page of an extent. */
  function LastOf(e: Extent): int { e.fofs + e.len - 1 }

  /**
    What the cache holds after an update: a page that continues the extent at either
    end is taken in, one inside splits it and the longer side stays, the side before
    only if the side behind has less than half of the pages; one elsewhere changes
    nothing. What a split or no change leaves is dropped exactly if it is too short.
   */
  lemma UpdateCovers(s: State, fofs: nat, addr: nat)
    requires !s.noExtent
    ensures var e, r := s.ext, Update(s, fofs, addr);
            var alone := e.len == 0 || (e.len == 1 && fofs == e.fofs);
            var front := !alone && fofs + 1 == e.fofs && addr + 1 == e.blkAddr;
            var back := !alone && fofs == e.fofs + e.len && addr == e.blkAddr + e.len;
            var inside := !alone && Covers(e, fofs);
            var before := inside && LastOf(e) - fofs < e.len / 2;
            var left := if before then fofs - e.fofs else if inside then LastOf(e) - fofs else e.len;
            && (alone && addr != NULL_ADDR ==> !r.noExtent && r.ext == Extent(fofs, addr, 1))
            && (alone && addr == NULL_ADDR ==> !r.noExtent && forall i: nat :: !Covers(r.ext, i))
            && (front || back ==> !r.noExtent && forall i: nat :: Covers(r.ext, i) <==> Covers(e, i) || i == fofs)
            && (!alone && !front && !back && left < 16 ==> r.noExtent && forall i: nat :: !Covers(r.ext, i))
            && (!alone && !front && !back && left >= 16 ==>
                  && !r.noExtent
                  && forall i: nat ::
                       Covers(r.ext, i) <==> Covers(e, i) && (before ==> i < fofs) && (inside && !before ==> i > fofs))
            && (forall i: nat :: Covers(r.ext, i) && Covers(e, i) && i != fofs ==>
                  r.ext.blkAddr + (i - r.ext.fofs) == e.blkAddr + (i - e.fofs))
            && (Covers(r.ext, fofs) && (alone || front || back) ==> r.ext.blkAddr + (fofs - r.ext.fofs) == addr)
    ensures Update(s, fofs, addr).pages == s.pages[fofs := addr]
  {
  }

  /** A cache that has been dropped stays as it is until direct I/O gives a page a block. */
  lemma DroppedStays(s: State, fofs: nat, addr: nat)
    requires s.noExtent
    ensures Update(s, fofs, addr) == s.(pages := s.pages[fofs := addr])
  {
  }

  /**
    The one way to spoil the cache: a page in front of an extent that starts in
    block 1 loses its block, and NULL_ADDR is taken for the block before.
   */
  predicate MergesNull(s: State, fofs: nat, addr: nat) {
    !s.noExtent && addr == NULL_ADDR && ChangeFor(s.ext, fofs, addr).FrontMerge?
  }

  lemma ChangedAgrees(pages: map<nat, nat>, e: Extent, fofs: nat, addr: nat)
    requires Agrees(pages, e) && addr != NEW_ADDR
    requires !(addr == NULL_ADDR && ChangeFor(e, fofs, addr).FrontMerge?)
    ensures Agrees(pages[fofs := addr], Changed(e, fofs, addr))
  {
    var e', pages' := Changed(e, fofs, addr), pages[fofs := addr];
    forall i: nat | Covers(e', i)
      ensures PageAddr(pages', i) == e'.blkAddr + (i - e'.fofs) && PageAddr(pages', i) != NULL_ADDR && PageAddr(pages', i) != NEW_ADDR
    {
      if i != fofs { assert Covers(e, i) && PageAddr(pages', i) == PageAddr(pages, i); }
      if i == fofs && addr == NULL_ADDR { assert Covers(e, fofs); }
    }
  }

  /** An update keeps the cache right exactly when it does not merge NULL_ADDR. */
  lemma UpdateKeepsInv(s: State, fofs: nat, addr: nat)
    requires Inv(s) && addr != NEW_ADDR
    ensures Inv(Update(s, fofs, addr)) <==> !MergesNull(s, fofs, addr)
  {
    if MergesNull(s, fofs, addr) {
      assert Covers(Update(s, fofs, addr).ext, fofs) && PageAddr(Update(s, fofs, addr).pages, fofs) == NULL_ADDR;
    } else if !s.noExtent {
      ChangedAgrees(s.pages, s.ext, fofs, addr);
    }
  }

  /** Blocks of the main area lie beyond block 1, so there no update can merge NULL_ADDR. */
  lemma MainAreaNeverMerges(s: State, fofs: nat, addr: nat)
    requires s.ext.len > 0 ==> s.ext.blkAddr > 1
    ensures !MergesNull(s, fofs, addr)
  {
  }

  /** With an extent in block 1 the cache would answer for a hole. */
  lemma NullIsMerged()
    ensures exists s: State, fofs: nat :: Inv(s) && !Inv(Update(s, fofs, NULL_ADDR))
  {
    var s := State(map[4 := 7, 5 := 1, 6 := 2], Extent(5, 1, 2), false);
    assert forall i: nat :: Covers(s.ext, i) ==> i == 5 || i == 6;
    UpdateKeepsInv(s, 4, NULL_ADDR);
    assert MergesNull(s, 4, NULL_ADDR);
  }

  // ------------------------------------------------------- runs

  datatype Op =
    | Write(fofs: nat, addr: nat)        // a page is written to a new block
    | Truncate(fofs: nat)                // a page loses its block
    | Reserve(fofs: nat)                 // a hole becomes a reserved page
    | DirectAlloc(fofs: nat, addr: nat)  // direct I/O gives a hole a block

  predicate InMainArea(mainStart: nat, addr: nat) { mainStart <= addr < NEW_ADDR }

  /** Callers reserve and allocate only where the tree has a hole. */
  predicate Enabled(mainStart: nat, s: State, op: Op) {
    match op
    case Write(_, addr) => InMainArea(mainStart, addr)
    case Truncate(_) => true
    case Reserve(fofs) => PageAddr(s.pages, fofs) == NULL_ADDR
    case DirectAlloc(fofs, addr) => PageAddr(s.pages, fofs) == NULL_ADDR && InMainArea(mainStart, addr)
  }

  function Step(s: State, op: Op): State {
    match op
    case Write(fofs, addr) => Update(s, fofs, addr)
    case Truncate(fofs) => Update(s, fofs, NULL_ADDR)
    case Reserve(fofs) => s.(pages := s.pages[fofs := NEW_ADDR])
    case DirectAlloc(fofs, addr) => s.(pages := s.pages[fofs := addr], noExtent := false)
  }

  ghost predicate RunInv(mainStart: nat, s: State) { Inv(s) && (s.ext.len > 0 ==> s.ext.blkAddr >= mainStart) }

  lemma StepKeepsInv(mainStart: nat, s: State, op: Op)
    requires mainStart > 1 && RunInv(mainStart, s) && Enabled(mainStart, s, op)
    ensures RunInv(mainStart, Step(s, op))
  {
    match op
    case Write(fofs, addr) =>
      MainAreaNeverMerges(s, fofs, addr);
      UpdateKeepsInv(s, fofs, addr);
    case Truncate(fofs) =>
      MainAreaNeverMerges(s, fofs, NULL_ADDR);
      UpdateKeepsInv(s, fofs, NULL_ADDR);
    case Reserve(fofs) =>
      assert !Covers(s.ext, fofs);
    case DirectAlloc(fofs, addr) =>
      assert !Covers(s.ext, fofs);
  }

  ghost predicate EnabledRun(mainStart: nat, s: State, ops: seq<Op>)
    decreases ops
  {
    ops == [] || (Enabled(mainStart, s, ops[0]) && EnabledRun(mainStart, Step(s, ops[0]), ops[1..]))
  }

  function Run(s: State, ops: seq<Op>): State
    decreases ops
  {
    if ops == [] then s else Run(Step(s, ops[0]), ops[1..])
  }

  /** Whatever happens to the pages of a file, the cache agrees with the tree. */
  lemma {:induction false} RunKeepsInv(mainStart: nat, s: State, ops: seq<Op>)
    requires mainStart > 1 && RunInv(mainStart, s) && EnabledRun(mainStart, s, ops)
    ensures RunInv(mainStart, Run(s, ops))
    decreases ops
  {
    if ops != [] {
      StepKeepsInv(mainStart, s, ops[0]);
      RunKeepsInv(mainStart, Step(s, ops[0]), ops[1..]);
    }
  }

  /** n pages from fofs on are written to consecutive blocks, in order. */
  function InOrder(fofs: nat, addr: nat, n: nat): seq<Op> {
    seq(n, i requires 0 <= i < n => Write(fofs + i, addr + i))
  }

  lemma {:induction false} GrowsInOrder(s: State, n: nat)
    requires !s.noExtent && s.ext.len > 0
    ensures var r := Run(s, InOrder(s.ext.fofs + s.ext.len, s.ext.blkAddr + s.ext.len, n));
            !r.noExtent && r.ext == s.ext.(len := s.ext.len + n)
    decreases n
  {
    var ops := InOrder(s.ext.fofs + s.ext.len, s.ext.blkAddr + s.ext.len, n);
    if n > 0 {
      var s' := Step(s, ops[0]);
      assert s'.ext == s.ext.(len := s.ext.len + 1) && !s'.noExtent;
      assert ops[1..] == InOrder(s'.ext.fofs + s'.ext.len, s'.ext.blkAddr + s'.ext.len, n - 1);
      GrowsInOrder(s', n - 1);
    }
  }

  /** Pages of a new file written in order to consecutive blocks are all covered, whatever their number. */
  lemma WrittenInOrder(s: State, fofs: nat, addr: nat, n: nat)
    requires !s.noExtent && s.ext.len == 0 && addr != NULL_ADDR && n > 0
    ensures var r := Run(s, InOrder(fofs, addr, n)); !r.noExtent && r.ext == Extent(fofs, addr, n)
  {
    var ops := InOrder(fofs, addr, n);
    var s' := Step(s, ops[0]);
    assert ops[1..] == InOrder(fofs + 1, addr + 1, n - 1);
    GrowsInOrder(s', n - 1);
  }

  // ------------------------------------------------------- the cache in place

  class InodeExtent {
    /** what the node tree holds, and the cached extent */
    var pages: map<nat, nat>
    var fofs: nat
    var blkAddr: nat
    var len: nat
    var noExtent: bool

    constructor ()
      ensures Inv(Abs()) && pages == map[]
    {
      pages := map[];
      fofs, blkAddr, len, noExtent := 0, 0, 0, false;
    }

    function Abs(): State
      reads this
    {
      State(pages, Extent(fofs, blkAddr, len), noExtent)
    }

    /** __set_data_blkaddr. */
    method SetDataBlkaddr(index: nat, addr: nat)
      modifies this`pages
      ensures pages == old(pages)[index := addr]
    {
      pages := pages[index := addr];
    }

    /**
      update_extent_cache. needUpdate says that the inode page has to be written;
      when it is false, neither the extent nor its flag has changed.
     */
    method UpdateExtentCache(addr: nat, index: nat) returns (needUpdate: bool)
      requires addr != NEW_ADDR
      modifies this
      ensures Abs() == Update(old(Abs()), index, addr)
      ensures !needUpdate ==> Abs().ext == old(Abs()).ext && noExtent == old(noExtent)
      ensures needUpdate <==>
                && !old(noExtent)
                && !(old(len) >= 16 && !Covers(old(Abs()).ext, index)
                     && !(index + 1 == old(fofs) && addr + 1 == old(blkAddr))
                     && !(index == old(fofs) + old(len) && addr == old(blkAddr) + old(len)))
    {
      needUpdate := true;
      SetDataBlkaddr(index, addr);
      if noExtent { return false; }
      var startFofs, endFofs: int := fofs, fofs + len - 1;
      var startBlkaddr, endBlkaddr: int := blkAddr, blkAddr + len - 1;
      if len == 1 && index == startFofs { len := 0; }
      if len == 0 {
        if addr != NULL_ADDR {
          fofs := index;
          blkAddr := addr;
          len := 1;
        }
        return;
      }
      if index == startFofs - 1 && addr == startBlkaddr - 1 {
        fofs := fofs - 1;
        blkAddr := blkAddr - 1;
        len := len + 1;
        return;
      }
      if index == endFofs + 1 && addr == endBlkaddr + 1 {
        len := len + 1;
        return;
      }
      if len > 1 && startFofs <= index <= endFofs {
        if endFofs - index < len / 2 {
          len := index - startFofs;
        } else {
          fofs := index + 1;
          blkAddr := startBlkaddr + index - startFofs + 1;
          len := len - (index - startFofs + 1);
        }
      } else {
        needUpdate := false;
      }
      if len < MIN_EXTENT_LEN {
        len := 0;
        noExtent := true;
        needUpdate := true;
      }
    }

    /** reserve_new_block, once space for the block has been granted. */
    method ReserveNewBlock(index: nat)
      requires PageAddr(pages, index) == NULL_ADDR
      modifies this
      ensures Abs() == Step(old(Abs()), Reserve(index))
      ensures pages == old(pages)[index := 0xFFFF_FFFF] && Abs().ext == old(Abs()).ext && noExtent == old(noExtent)
    {
      SetDataBlkaddr(index, NEW_ADDR);
    }

    /** __allocate_data_block for direct I/O, given the block that was allocated. */
    method AllocateDataBlock(index: nat, newBlkaddr: nat)
      requires PageAddr(pages, index) == NULL_ADDR && newBlkaddr != NEW_ADDR
      modifies this
      ensures Abs() == Step(old(Abs()), DirectAlloc(index, newBlkaddr))
      ensures pages == old(pages)[index := newBlkaddr] && Abs().ext == old(Abs()).ext && !noExtent
    {
      ghost var was := pages;
      SetDataBlkaddr(index, NEW_ADDR);
      noExtent := true;
      var _ := UpdateExtentCache(newBlkaddr, index);
      noExtent := false;
      assert pages == was[index := newBlkaddr];
    }

    /** check_extent_cache: the block of a page, and how many bytes of the file follow on (whole blocks count). */
    method CheckExtentCache(index: nat, blocksize: nat) returns (hit: bool, block: nat, bytes: nat)
      requires Inv(Abs()) && blocksize > 0
      ensures hit <==> !noExtent && Covers(Abs().ext, index)
      ensures hit ==> block == PageAddr(pages, index) != NULL_ADDR
      ensures hit ==> var count := fofs + len - index;
                      bytes == if count < UINT_MAX / blocksize then count * blocksize else 0xFFFF_FFFF
      ensures hit ==> forall j: nat :: index <= j < index + bytes / blocksize ==> PageAddr(pages, j) == block + (j - index)
    {
      hit, block, bytes := false, 0, 0;
      if noExtent { return; }
      if len == 0 { return; }
      var startFofs, endFofs := fofs, fofs + len - 1;
      if startFofs <= index <= endFofs {
        assert Covers(Abs().ext, index);
        hit, block := true, blkAddr + index - startFofs;
        var count := endFofs - index + 1;
        bytes := if count < UINT_MAX / blocksize then count * blocksize else UINT_MAX;
        WithinCount(blocksize, count);
        forall j: nat | index <= j < index + bytes / blocksize ensures PageAddr(pages, j) == block + (j - index) {
          assert Covers(Abs().ext, j);
        }
      }
    }
  }

  /** The mapped bytes hold no more whole blocks than the extent. */
  lemma WithinCount(blocksize: nat, count: nat)
    requires blocksize > 0
    ensures (if count < UINT_MAX / blocksize then count * blocksize else UINT_MAX) / blocksize <= count
  {
    if count < UINT_MAX / blocksize { Addressing.DivIs(count * blocksize, blocksize, count, 0); }
  }
}
