/**
  The two checkpoint packs: how do_checkpoint lays one out, how mount chooses
  between them, and why a crash in between leaves one of them whole.
 */
module CheckpointPack {

  const U32: nat := 0x1_0000_0000
  const U64: nat := 0x1_0000_0000_0000_0000
  const ORPHANS_PER_BLOCK: nat := 1020
  /** NR_CURSEG_DATA_TYPE, and NR_CURSEG_NODE_TYPE as well. */
  const LOGS_OF_KIND: nat := 3

  /** The fields of the checkpoint block that the packs depend on; state stands for all the others. */
  datatype Header = Header(version: nat, total: nat, startSum: nat, compact: bool, umount: bool, orphans: bool, state: nat)

  /** A block that passes the checksum test, an orphan block, or anything else. */
  datatype Block = Cp(h: Header) | Orphan(inos: seq<nat>, index: nat, count: nat) | Raw(data: nat)

  /** cp_blkaddr, blocks_per_seg and cp_payload. */
  datatype Area = Area(base: nat, bps: nat, payload: nat)
  {
    predicate Valid() { 8 <= bps && base + 2 * bps <= U32 }

    /** __start_cp_addr: odd versions in the first segment, even ones in the second. */
    function Start(version: nat): nat { if version % 2 == 1 then base else base + bps }

    /** The limit on orphan inodes set by init_ino_entry_info. */
    function MaxOrphans(): nat
      requires Valid()
    {
      (bps - 2 - 6) * ORPHANS_PER_BLOCK
    }
  }

  function OrphanBlocks(n: nat): (b: nat)
    ensures n <= 1020 * b < n + 1020
  {
    (n + (ORPHANS_PER_BLOCK - 1)) / ORPHANS_PER_BLOCK
  }

  /** What the j-th orphan block lists. */
  function OrphansIn(inos: seq<nat>, j: nat): seq<nat>
    requires j < OrphanBlocks(|inos|)
  {
    if (j + 1) * ORPHANS_PER_BLOCK <= |inos| then inos[j * ORPHANS_PER_BLOCK..(j + 1) * ORPHANS_PER_BLOCK]
    else inos[j * ORPHANS_PER_BLOCK..]
  }

  /** The last block is the one that is not full. */
  lemma LastOrphans(inos: seq<nat>, index: nat)
    requires 1 <= index && (index - 1) * ORPHANS_PER_BLOCK < |inos| < index * ORPHANS_PER_BLOCK
    ensures OrphanBlocks(|inos|) == index && OrphansIn(inos, index - 1) == inos[(index - 1) * ORPHANS_PER_BLOCK..]
  {
  }

  function OrphanSeq(inos: seq<nat>): seq<Block> {
    seq(OrphanBlocks(|inos|), j requires 0 <= j < OrphanBlocks(|inos|) =>
      Orphan(OrphansIn(inos, j), j + 1, OrphanBlocks(|inos|)))
  }

  /** What goes into a checkpoint besides its block. */
  datatype Contents = Contents(payload: seq<Block>, inos: seq<nat>, sums: seq<Block>, nodes: seq<Block>)
  {
    /** CRC strength: only the checkpoint block passes the checksum test. */
    predicate Valid(z: Area) {
      && |payload| == z.payload && 1 <= |sums| <= LOGS_OF_KIND && |nodes| == LOGS_OF_KIND
      && (forall i :: 0 <= i < |payload| ==> !payload[i].Cp?)
      && (forall i :: 0 <= i < |sums| ==> !sums[i].Cp?)
      && forall i :: 0 <= i < |nodes| ==> !nodes[i].Cp?
    }
  }

  /** The whole pack: nothing but its first and last block passes the checksum test. */
  function Pack(h: Header, c: Contents): seq<Block> {
    [Cp(h)] + c.payload + OrphanSeq(c.inos) + c.sums + (if h.umount then c.nodes else []) + [Cp(h)]
  }

  /** The checkpoint block agrees with what is packed. */
  predicate HeaderOk(h: Header, c: Contents) {
    && h.total == |Pack(h, c)| && h.startSum == 1 + |c.payload| + OrphanBlocks(|c.inos|)
    && h.compact == (|c.sums| < LOGS_OF_KIND) && h.orphans == (|c.inos| > 0)
  }

  function Offset(start: nat, a: nat): int { a - start }

  function Laid(start: nat, blocks: seq<Block>): map<nat, Block> {
    map a: nat {:trigger Offset(start, a)} | start <= a < start + |blocks| :: blocks[Offset(start, a)]
  }

  /** The pages after writing blocks from start on. */
  ghost predicate Wrote(before: map<nat, Block>, after: map<nat, Block>, start: nat, blocks: seq<Block>) {
    forall a: nat :: (a in after <==> a in before || start <= a < start + |blocks|) &&
      (a in after ==> after[a] == if start <= a < start + |blocks| then blocks[Offset(start, a)] else before[a])
  }

  lemma WroteMore(m0: map<nat, Block>, m1: map<nat, Block>, m2: map<nat, Block>, start: nat, a: seq<Block>, b: seq<Block>)
    requires Wrote(m0, m1, start, a) && Wrote(m1, m2, start + |a|, b)
    ensures Wrote(m0, m2, start, a + b)
  {
    forall x: nat
      ensures x in m2 <==> x in m0 || start <= x < start + |a + b|
      ensures x in m2 ==> m2[x] == if start <= x < start + |a + b| then (a + b)[Offset(start, x)] else m0[x]
    {
      assert x in m2 <==> x in m1 || start + |a| <= x < start + |a| + |b|;
    }
  }

  lemma WroteAll(m: map<nat, Block>, start: nat, blocks: seq<Block>)
    requires Wrote(map[], m, start, blocks)
    ensures m == Laid(start, blocks)
  {
  }

  lemma MiddlePlain(z: Area, h: Header, c: Contents)
    requires c.Valid(z)
    ensures forall i :: 0 < i < |Pack(h, c)| - 1 ==> !Pack(h, c)[i].Cp?
  {
  }

  // ------------------------------------------------------- reading

  ghost function Read(disk: map<nat, Block>, addr: nat): Block { if addr in disk then disk[addr] else Raw(0) }

  /** Where the closing block of a pack is looked for: block addresses have 32 bits. */
  function Closing(addr: nat, total: nat): nat { (addr + total + (U32 - 1)) % U32 }

  /** The test of validate_checkpoint. */
  ghost predicate ValidPack(disk: map<nat, Block>, addr: nat) {
    && Read(disk, addr).Cp? && Read(disk, Closing(addr, Read(disk, addr).h.total)).Cp?
    && Read(disk, Closing(addr, Read(disk, addr).h.total)).h.version == Read(disk, addr).h.version
  }

  /** ver_after: the difference as a signed 64-bit number. */
  predicate VerAfter(a: nat, b: nat)
    requires a < U64 && b < U64
  {
    0 < (a - b) % U64 < U64 / 2
  }

  /** The larger of two versions comes after, or the smaller once the numbers have wrapped around between them. */
  lemma VerAfterIs(a: nat, b: nat)
    requires a < U64 && b < U64
    ensures VerAfter(a, b) <==> (b < a < b + 0x8000_0000_0000_0000) || a + 0x8000_0000_0000_0000 < b
  {
    if a >= b { assert (a - b) % U64 == a - b; } else { assert (a - b) % U64 == a - b + U64; }
  }

  /** The checkpoint area of the device, the dirty meta pages, and the checkpoint in memory. */
  class CheckpointArea {
    const z: Area
    /** What a block that is no orphan block lists when it is read as one. */
    const garbage: Block -> seq<nat>
    var disk: map<nat, Block>
    var meta: map<nat, Block>
    var ckpt: Header
    var inos: seq<nat>
    var nOrphans: nat

    constructor (z: Area, garbage: Block -> seq<nat>, disk: map<nat, Block>)
      ensures this.z == z && this.garbage == garbage && this.disk == disk && meta == map[] && inos == [] && nOrphans == 0
    {
      this.z, this.garbage := z, garbage;
      this.disk := disk;
      meta, inos, nOrphans := map[], [], 0;
      ckpt := Header(0, 0, 0, false, false, false, 0);
    }

    /** acquire_orphan_inode and add_orphan_inode. */
    method AddOrphan(ino: nat) returns (ok: bool)
      requires z.Valid() && nOrphans == |inos| <= z.MaxOrphans()
      modifies `inos, `nOrphans
      ensures ok == (old(|inos|) < z.MaxOrphans())
      ensures inos == if ok then old(inos) + [ino] else old(inos)
      ensures nOrphans == |inos| <= z.MaxOrphans()
    {
      if nOrphans >= z.MaxOrphans() { return false; }
      nOrphans := nOrphans + 1;
      inos := inos + [ino];
      return true;
    }

    /** Grab pages from addr on and fill them. */
    method WriteBlocks(addr: nat, blocks: seq<Block>)
      modifies `meta
      ensures Wrote(old(meta), meta, addr, blocks)
    {
      for i: nat := 0 to |blocks|
        invariant Wrote(old(meta), meta, addr, blocks[..i])
      {
        meta := meta[addr + i := blocks[i]];
      }
      assert blocks[..|blocks|] == blocks;
    }

    /** A full or last orphan block goes to its page. */
    method PutOrphanBlock(start: nat, startBlk: nat, page: seq<nat>, index: nat, orphanBlocks: nat, ghost before: map<nat, Block>)
      requires 1 <= index <= OrphanBlocks(|inos|) == orphanBlocks && page == OrphansIn(inos, index - 1) && startBlk == start + index
      requires Wrote(before, meta, start, OrphanSeq(inos)[..index - 1])
      modifies `meta
      ensures Wrote(before, meta, start, OrphanSeq(inos)[..index])
    {
      ghost var all, m1 := OrphanSeq(inos), meta;
      meta := meta[startBlk - 1 := Orphan(page, index, orphanBlocks)];
      WroteMore(before, m1, meta, start, all[..index - 1], [Orphan(page, index, orphanBlocks)]);
      assert all[..index] == all[..index - 1] + [Orphan(page, index, orphanBlocks)];
    }

    /** write_orphan_inodes. */
    method WriteOrphanInodes(start: nat)
      requires nOrphans == |inos|
      modifies `meta
      ensures Wrote(old(meta), meta, start, OrphanSeq(inos))
    {
      var orphanBlocks := OrphanBlocks(nOrphans);
      var startBlk: nat, index: nat, page: seq<nat>, hasPage := start, 1, [], false;
      ghost var m0, all := meta, OrphanSeq(inos);
      for i: nat := 0 to |inos|
        invariant 1 <= index && i == (index - 1) * ORPHANS_PER_BLOCK + |page| && |page| < ORPHANS_PER_BLOCK
        invariant Wrote(m0, meta, start, all[..index - 1])
        invariant page == inos[(index - 1) * ORPHANS_PER_BLOCK..i]
        invariant hasPage == (|page| > 0) && startBlk == start + index - 1 + if hasPage then 1 else 0
      {
        if !hasPage {
          startBlk, page, hasPage := startBlk + 1, [], true;
        }
        page := page + [inos[i]];
        if |page| == ORPHANS_PER_BLOCK {
          PutOrphanBlock(start, startBlk, page, index, orphanBlocks, m0);
          index, page, hasPage := index + 1, [], false;
        }
      }
      if hasPage {
        LastOrphans(inos, index);
        PutOrphanBlock(start, startBlk, page, index, orphanBlocks, m0);
        assert all[..index] == all;
      } else {
        assert all[..index - 1] == all;
      }
    }

    /** The part of do_checkpoint that fills the checkpoint in memory. */
    method SetCheckpoint(umount: bool, state: nat, c: Contents)
      requires c.Valid(z) && c.inos == inos && nOrphans == |inos|
      modifies `ckpt
      ensures ckpt.version == old(ckpt).version && ckpt.umount == umount && ckpt.state == state && HeaderOk(ckpt, c)
    {
      var dataSumBlocks, orphanBlocks := |c.sums|, OrphanBlocks(nOrphans);
      ckpt := ckpt.(state := state, compact := dataSumBlocks < LOGS_OF_KIND, startSum := 1 + z.payload + orphanBlocks);
      if umount {
        ckpt := ckpt.(umount := true, total := 2 + z.payload + dataSumBlocks + orphanBlocks + LOGS_OF_KIND);
      } else {
        ckpt := ckpt.(umount := false, total := 2 + z.payload + dataSumBlocks + orphanBlocks);
      }
      ckpt := ckpt.(orphans := nOrphans > 0);
    }

    /** The part of do_checkpoint that writes the checkpoint pack from start_blk on. */
    method WritePack(c: Contents)
      requires c.Valid(z) && c.inos == inos && nOrphans == |inos| && HeaderOk(ckpt, c)
      modifies `meta
      ensures Wrote(old(meta), meta, z.Start(ckpt.version), Pack(ckpt, c))
    {
      var startBlk: nat := z.Start(ckpt.version);
      ghost var m0, s0, done := meta, startBlk, [Cp(ckpt)];
      WriteBlocks(startBlk, [Cp(ckpt)]);
      startBlk := startBlk + 1;
      done := WriteAfter(startBlk, c.payload, m0, s0, done);
      startBlk := startBlk + z.payload;
      if nOrphans > 0 {
        ghost var m1 := meta;
        WriteOrphanInodes(startBlk);
        WroteMore(m0, m1, meta, s0, done, OrphanSeq(inos));
        startBlk := startBlk + OrphanBlocks(nOrphans);
      } else {
        assert OrphanSeq(inos) == [] && done + [] == done;
      }
      done := done + OrphanSeq(inos);
      done := WriteAfter(startBlk, c.sums, m0, s0, done);
      startBlk := startBlk + |c.sums|;
      if ckpt.umount {
        done := WriteAfter(startBlk, c.nodes, m0, s0, done);
        startBlk := startBlk + LOGS_OF_KIND;
      } else {
        assert done + [] == done;
      }
      done := WriteAfter(startBlk, [Cp(ckpt)], m0, s0, done);
    }

    /** WriteBlocks behind what has been written since m0. */
    method WriteAfter(addr: nat, blocks: seq<Block>, ghost m0: map<nat, Block>, ghost start: nat, ghost done: seq<Block>)
      returns (ghost all: seq<Block>)
      requires Wrote(m0, meta, start, done) && addr == start + |done|
      modifies `meta
      ensures all == done + blocks && Wrote(m0, meta, start, all)
    {
      ghost var m1 := meta;
      WriteBlocks(addr, blocks);
      WroteMore(m0, m1, meta, start, done, blocks);
      all := done + blocks;
    }

    /** do_checkpoint up to the last sync: the new blocks are among the dirty pages, the device is as before. */
    method DoCheckpoint(umount: bool, state: nat, c: Contents)
      requires c.Valid(z) && c.inos == inos && nOrphans == |inos| && meta == map[]
      modifies `meta, `ckpt
      ensures ckpt.version == old(ckpt).version && ckpt.umount == umount && ckpt.state == state && HeaderOk(ckpt, c)
      ensures meta == Laid(z.Start(ckpt.version), Pack(ckpt, c))
    {
      SetCheckpoint(umount, state, c);
      WritePack(c);
      WroteAll(meta, z.Start(ckpt.version), Pack(ckpt, c));
    }

    /** write_checkpoint, with the device as it is once everything is synced. */
    method WriteCheckpoint(umount: bool, state: nat, c: Contents)
      requires c.Valid(z) && c.inos == inos && nOrphans == |inos| && meta == map[]
      modifies `meta, `ckpt, `disk
      ensures ckpt.version == (old(ckpt).version + 1) % U64 && ckpt.umount == umount && ckpt.state == state && HeaderOk(ckpt, c)
      ensures disk == old(disk) + Laid(z.Start(ckpt.version), Pack(ckpt, c)) && meta == map[]
    {
      ckpt := ckpt.(version := (ckpt.version + 1) % U64);
      DoCheckpoint(umount, state, c);
      SyncMetaPages();
    }

    /** The last sync_meta_pages. */
    method SyncMetaPages()
      modifies `disk, `meta
      ensures disk == old(disk) + old(meta) && meta == map[]
    {
      disk, meta := disk + meta, map[];
    }

    method ReadBlock(addr: nat) returns (b: Block)
      ensures b == Read(disk, addr)
    {
      b := if addr in disk then disk[addr] else Raw(0);
    }

    /** validate_checkpoint. */
    method ValidateCheckpoint(addr: nat) returns (found: bool, h: Header)
      ensures found == ValidPack(disk, addr)
      ensures found ==> Read(disk, addr) == Cp(h)
    {
      h := Header(0, 0, 0, false, false, false, 0);
      var first := ReadBlock(addr);
      if !first.Cp? { return false, h; }
      h := first.h;
      var second := ReadBlock(Closing(addr, h.total));
      if !second.Cp? { return false, h; }
      found := second.h.version == h.version;
    }

    /** get_valid_checkpoint: the chosen segment and the checkpoint read from it, its payload blocks included. */
    method GetValidCheckpoint() returns (ok: bool, start: nat, blocks: seq<Block>)
      requires z.Valid()
      requires forall a: nat :: Read(disk, a).Cp? ==> Read(disk, a).h.version < U64
      ensures ok == (ValidPack(disk, z.base) || ValidPack(disk, z.base + z.bps))
      ensures ok ==> start == Chosen(z, disk)
      ensures ok ==> |blocks| == 1 + z.payload && forall i :: 0 <= i < |blocks| ==> blocks[i] == Read(disk, start + i)
    {
      ok, start, blocks := true, z.base, [];
      var cp1, h1 := ValidateCheckpoint(z.base);
      var cp2, h2 := ValidateCheckpoint(z.base + z.bps);
      if cp1 && cp2 {
        start := if VerAfter(h2.version, h1.version) then z.base + z.bps else z.base;
      } else if cp1 {
        start := z.base;
      } else if cp2 {
        start := z.base + z.bps;
      } else {
        return false, 0, [];
      }
      var first := ReadBlock(start);
      blocks := [first];
      for i: nat := 1 to 1 + z.payload
        invariant |blocks| == i && forall k :: 0 <= k < i ==> blocks[k] == Read(disk, start + k)
      {
        var b := ReadBlock(start + i);
        blocks := blocks + [b];
      }
    }

    /**
      recover_orphan_inodes on a checkpoint pack that lists these inodes. It reads as
      many blocks too many as there are payload blocks, and takes what these seem to
      list for orphans as well.
     */
    method RecoverOrphanInodes(ghost list: seq<nat>) returns (recovered: seq<nat>)
      requires ckpt.orphans == (|list| > 0) && ckpt.startSum == 1 + z.payload + OrphanBlocks(|list|)
      requires forall i :: 0 <= i < OrphanBlocks(|list|) ==> Read(disk, z.Start(ckpt.version) + 1 + z.payload + i) == OrphanSeq(list)[i]
      modifies `ckpt
      ensures ckpt == old(ckpt).(orphans := false)
      ensures recovered ==
                if list == [] then [] else list + Seems(disk, garbage, z.Start(ckpt.version) + ckpt.startSum, z.payload)
    {
      recovered := [];
      if !ckpt.orphans {
        assert list == [] && ckpt.(orphans := false) == ckpt;
        return;
      }
      var startBlk: nat, orphanBlkaddr: nat := z.Start(ckpt.version) + 1 + z.payload, ckpt.startSum - 1;
      ghost var n := OrphanBlocks(|list|);
      for i: nat := 0 to orphanBlkaddr
        invariant ckpt == old(ckpt)
        invariant i <= n ==> recovered == list[..if i * ORPHANS_PER_BLOCK <= |list| then i * ORPHANS_PER_BLOCK else |list|]
        invariant i >= n ==> recovered == list + Seems(disk, garbage, startBlk + n, i - n)
      {
        var b := ReadBlock(startBlk + i);
        if i < n { assert b == OrphanSeq(list)[i]; }
        recovered := recovered + if b.Orphan? then b.inos else garbage(b);
      }
      ckpt := ckpt.(orphans := false);
    }
  }

  /** The inodes that n blocks from addr on seem to list. */
  ghost function Seems(disk: map<nat, Block>, garbage: Block -> seq<nat>, addr: nat, n: nat): seq<nat> {
    if n == 0 then []
    else
      var b := Read(disk, addr + n - 1);
      Seems(disk, garbage, addr, n - 1) + if b.Orphan? then b.inos else garbage(b)
  }

  /** The segment get_valid_checkpoint chooses when one of them is valid. */
  ghost function Chosen(z: Area, disk: map<nat, Block>): nat
    requires forall a: nat :: Read(disk, a).Cp? ==> Read(disk, a).h.version < U64
  {
    var one, two := ValidPack(disk, z.base), ValidPack(disk, z.base + z.bps);
    if one && two then
      if VerAfter(Read(disk, z.base + z.bps).h.version, Read(disk, z.base).h.version) then z.base + z.bps else z.base
    else if one then z.base
    else z.base + z.bps
  }

  // ------------------------------------------------------- crashes

  /** The device after a crash: of the dirty pages, those in kept have arrived. */
  function Crashed(disk: map<nat, Block>, meta: map<nat, Block>, kept: set<nat>): map<nat, Block> {
    disk + (map a | a in meta && a in kept :: meta[a])
  }

  ghost predicate Stored(disk: map<nat, Block>, start: nat, blocks: seq<Block>) {
    forall i: nat :: i < |blocks| ==> Read(disk, start + i) == blocks[i]
  }

  /** A pack that mount can find: it stays inside its segment. */
  ghost predicate PackOk(z: Area, h: Header, c: Contents) {
    && z.Valid() && c.Valid(z) && HeaderOk(h, c) && |Pack(h, c)| <= z.bps && h.version < U64
  }

  /**
    Between checkpoints: the blocks of the checkpoint in memory are stored; no block
    carries a later version, unless a crash left the first block of the next pack;
    and the other segment is no valid pack, or the one before.
   */
  ghost predicate Inv(z: Area, disk: map<nat, Block>, h: Header, c: Contents) {
    PackOk(z, h, c) && Stored(disk, z.Start(h.version), Pack(h, c)) && OthersOld(z, disk, h.version)
  }

  ghost predicate OthersOld(z: Area, disk: map<nat, Block>, version: nat) {
    var other := z.Start(version + 1);
    && (forall a: nat :: Read(disk, a).Cp? ==>
         Read(disk, a).h.version <= version || (a == other && Read(disk, a).h.version == version + 1 && 2 <= Read(disk, a).h.total <= z.bps))
    && (ValidPack(disk, other) ==> Read(disk, other).h.version + 1 == version)
  }

  lemma StoredIsValid(z: Area, disk: map<nat, Block>, h: Header, c: Contents)
    requires PackOk(z, h, c) && Stored(disk, z.Start(h.version), Pack(h, c))
    ensures ValidPack(disk, z.Start(h.version)) && Read(disk, z.Start(h.version)) == Cp(h)
    ensures 3 <= h.total <= z.bps && Closing(z.Start(h.version), h.total) == z.Start(h.version) + h.total - 1
    ensures Read(disk, Closing(z.Start(h.version), h.total)) == Cp(h)
  {
    var s, p := z.Start(h.version), Pack(h, c);
    var last: nat := |p| - 1;
    assert Read(disk, s + 0) == p[0] && Read(disk, s + last) == p[last];
    assert Closing(s, h.total) == s + last;
  }

  /** Mount finds the checkpoint that Inv speaks of. */
  lemma MountFinds(z: Area, disk: map<nat, Block>, h: Header, c: Contents)
    requires Inv(z, disk, h, c) && h.version + 1 < U64
    ensures forall a: nat :: Read(disk, a).Cp? ==> Read(disk, a).h.version < U64
    ensures ValidPack(disk, z.Start(h.version)) && Chosen(z, disk) == z.Start(h.version)
    ensures Stored(disk, Chosen(z, disk), Pack(h, c))
  {
    StoredIsValid(z, disk, h, c);
  }

  /**
    The device after a crash while a pack with header n was written: of its two
    checkpoint blocks the first or the last may have arrived; the other segment
    was not written, and no other block in its own now passes the checksum test
    unless it was there before.
   */
  ghost predicate Leaves(z: Area, disk: map<nat, Block>, after: map<nat, Block>, n: Header, first: bool, last: bool) {
    var s := z.Start(n.version);
    && 3 <= n.total <= z.bps
    && (forall a: nat :: a < s || s + z.bps <= a ==> Read(after, a) == Read(disk, a))
    && (forall a: nat :: Read(after, a).Cp? && a != s && !(last && a == s + n.total - 1) ==> Read(after, a) == Read(disk, a))
    && Read(after, s) == (if first then Cp(n) else Read(disk, s))
    && (last ==> Read(after, s + n.total - 1) == Cp(n))
  }

  lemma CrashLeaves(z: Area, disk: map<nat, Block>, n: Header, c: Contents, kept: set<nat>)
    requires PackOk(z, n, c)
    ensures var s := z.Start(n.version);
            Leaves(z, disk, Crashed(disk, Laid(s, Pack(n, c)), kept), n, s in kept, s + n.total - 1 in kept)
  {
    var s, p := z.Start(n.version), Pack(n, c);
    MiddlePlain(z, n, c);
    var last: nat := s + (|p| - 1);
    var laid := Laid(s, p);
    assert s in laid && laid[s] == p[Offset(s, s)];
    assert last in laid && laid[last] == p[Offset(s, last)];
    var after := Crashed(disk, laid, kept);
    forall a: nat | Read(after, a).Cp? && a != s && !(last in kept && a == last)
      ensures Read(after, a) == Read(disk, a)
    {
      if a in laid { assert laid[a] == p[Offset(s, a)]; }
    }
  }

  lemma OldStays(z: Area, disk: map<nat, Block>, h: Header, c: Contents, after: map<nat, Block>, n: Header, first: bool, last: bool)
    requires PackOk(z, h, c) && Stored(disk, z.Start(h.version), Pack(h, c))
    requires Leaves(z, disk, after, n, first, last) && n.version == h.version + 1
    ensures Stored(after, z.Start(h.version), Pack(h, c))
  {
    var s, p := z.Start(h.version), Pack(h, c);
    forall i: nat | i < |p|
      ensures Read(after, s + i) == p[i]
    {
      assert Read(disk, s + i) == p[i];
    }
  }

  /**
    What a crash in do_checkpoint leaves, whichever of the pages have arrived: the
    old pack is as it was, and mount takes the new segment exactly if the closing
    block has arrived and a first block of the new version and size is there,
    from this attempt or from one that crashed before.
   */
  lemma CrashSelects(z: Area, disk: map<nat, Block>, h: Header, c: Contents, after: map<nat, Block>, n: Header, first: bool, last: bool)
    requires Inv(z, disk, h, c) && Leaves(z, disk, after, n, first, last) && n.version == h.version + 1 < U64 - 1
    ensures forall a: nat :: Read(after, a).Cp? ==> Read(after, a).h.version < U64
    ensures Stored(after, z.Start(h.version), Pack(h, c))
    ensures Chosen(z, after) == z.Start(n.version) || Chosen(z, after) == z.Start(h.version)
    ensures Chosen(z, after) == z.Start(n.version) <==>
              last && Read(after, z.Start(n.version)).Cp?
              && Read(after, z.Start(n.version)).h.version == n.version && Read(after, z.Start(n.version)).h.total == n.total
  {
    OldStays(z, disk, h, c, after, n, first, last);
    StoredIsValid(z, after, h, c);
    NewVersions(z, disk, h, after, n, first, last);
    var s := z.Start(n.version);
    if Read(after, s).Cp? {
      if Read(after, s).h.version == n.version {
        NewFirst(z, disk, h, after, n, first, last);
      } else {
        OldFirst(z, disk, h, after, n, first, last);
      }
    }
  }

  lemma NewVersions(z: Area, disk: map<nat, Block>, h: Header, after: map<nat, Block>, n: Header, first: bool, last: bool)
    requires OthersOld(z, disk, h.version) && Leaves(z, disk, after, n, first, last) && n.version == h.version + 1
    ensures forall a: nat :: Read(after, a).Cp? ==> Read(after, a).h.version <= n.version
  {
  }

  /** With a first block of the new version in place, it is valid exactly if the closing block is where it says. */
  lemma NewFirst(z: Area, disk: map<nat, Block>, h: Header, after: map<nat, Block>, n: Header, first: bool, last: bool)
    requires z.Valid() && OthersOld(z, disk, h.version) && Leaves(z, disk, after, n, first, last) && n.version == h.version + 1
    requires Read(after, z.Start(n.version)).Cp? && Read(after, z.Start(n.version)).h.version == n.version
    ensures ValidPack(after, z.Start(n.version)) <==> last && Read(after, z.Start(n.version)).h.total == n.total
  {
    var s := z.Start(n.version);
    var total := Read(after, s).h.total;
    assert Closing(s, total) == s + total - 1;
  }

  /** With a first block of an older version there, it is valid only if it was before. */
  lemma OldFirst(z: Area, disk: map<nat, Block>, h: Header, after: map<nat, Block>, n: Header, first: bool, last: bool)
    requires z.Valid() && OthersOld(z, disk, h.version) && Leaves(z, disk, after, n, first, last) && n.version == h.version + 1
    requires Read(after, z.Start(n.version)).Cp? && Read(after, z.Start(n.version)).h.version != n.version
    ensures ValidPack(after, z.Start(n.version)) ==> Read(after, z.Start(n.version)).h.version + 1 == h.version
  {
    var s := z.Start(n.version);
    assert Read(after, s) == Read(disk, s);
    if ValidPack(after, s) {
      assert Read(after, Closing(s, Read(after, s).h.total)) == Read(disk, Closing(s, Read(after, s).h.total));
    }
  }

  /** A crash that loses the closing block leaves the old checkpoint in force. */
  lemma CrashWithoutClosing(z: Area, disk: map<nat, Block>, h: Header, c: Contents, after: map<nat, Block>, n: Header, first: bool)
    requires Inv(z, disk, h, c) && Leaves(z, disk, after, n, first, false) && n.version == h.version + 1
    ensures Inv(z, after, h, c)
  {
    OldStays(z, disk, h, c, after, n, first, false);
    var s := z.Start(n.version);
    if Read(after, s).Cp? {
      if Read(after, s).h.version == n.version {
        NewFirst(z, disk, h, after, n, first, false);
      } else {
        OldFirst(z, disk, h, after, n, first, false);
      }
    }
  }

  lemma NewStored(z: Area, disk: map<nat, Block>, n: Header, c: Contents)
    requires PackOk(z, n, c)
    ensures Stored(disk + Laid(z.Start(n.version), Pack(n, c)), z.Start(n.version), Pack(n, c))
  {
    var s, p := z.Start(n.version), Pack(n, c);
    forall i: nat | i < |p|
      ensures Read(disk + Laid(s, p), s + i) == p[i]
    {
      KeysHold(s, p, i);
    }
  }

  lemma NewLeaves(z: Area, disk: map<nat, Block>, n: Header, c: Contents)
    requires PackOk(z, n, c)
    ensures Leaves(z, disk, disk + Laid(z.Start(n.version), Pack(n, c)), n, true, true)
  {
    var s, p := z.Start(n.version), Pack(n, c);
    var laid := Laid(s, p);
    AllKept(disk, laid);
    CrashLeaves(z, disk, n, c, laid.Keys);
    KeysHold(s, p, 0);
    KeysHold(s, p, |p| - 1);
  }

  lemma KeysHold(s: nat, p: seq<Block>, i: nat)
    requires i < |p|
    ensures s + i in Laid(s, p) && Laid(s, p)[s + i] == p[i]
  {
    assert p[Offset(s, s + i)] == p[i];
  }

  lemma AllKept(disk: map<nat, Block>, laid: map<nat, Block>)
    ensures disk + laid == Crashed(disk, laid, laid.Keys)
  {
  }

  /** Once the whole pack has arrived, the new checkpoint is in force. */
  lemma CheckpointDone(z: Area, disk: map<nat, Block>, h: Header, c: Contents, after: map<nat, Block>, n: Header, c': Contents)
    requires Inv(z, disk, h, c) && PackOk(z, n, c') && n.version == h.version + 1
    requires Leaves(z, disk, after, n, true, true) && Stored(after, z.Start(n.version), Pack(n, c'))
    ensures Inv(z, after, n, c')
  {
    OldStays(z, disk, h, c, after, n, true, true);
    StoredIsValid(z, after, h, c);
    NewVersions(z, disk, h, after, n, true, true);
    assert z.Start(n.version + 1) == z.Start(h.version);
  }

  // ------------------------------------------------------- whole runs

  datatype State = State(disk: map<nat, Block>, h: Header, c: Contents)

  /** One checkpoint with header n: it comes through, or crashes with only these pages on the device. */
  datatype Event = Done(n: Header, c: Contents) | Crash(n: Header, c: Contents, kept: set<nat>)

  /** A crash may keep any of the pages but the closing block, which goes out last. */
  ghost predicate Next(z: Area, a: State, e: Event, b: State) {
    var s := z.Start(e.n.version);
    && PackOk(z, e.n, e.c) && e.n.version == a.h.version + 1
    && match e
       case Done(n, c) => b == State(a.disk + Laid(s, Pack(n, c)), n, c)
       case Crash(n, c, kept) => s + n.total - 1 !in kept && b == State(Crashed(a.disk, Laid(s, Pack(n, c)), kept), a.h, a.c)
  }

  ghost predicate IsRun(z: Area, states: seq<State>, events: seq<Event>) {
    && |states| == |events| + 1
    && forall k :: 0 <= k < |events| ==> Next(z, states[k], events[k], states[k + 1])
  }

  lemma NextKeepsInv(z: Area, a: State, e: Event, b: State)
    requires Inv(z, a.disk, a.h, a.c) && Next(z, a, e, b)
    ensures Inv(z, b.disk, b.h, b.c)
  {
    match e
    case Done(n, c) =>
      NewStored(z, a.disk, n, c);
      NewLeaves(z, a.disk, n, c);
      CheckpointDone(z, a.disk, a.h, a.c, b.disk, n, c);
    case Crash(n, c, kept) =>
      CrashLeaves(z, a.disk, n, c, kept);
      CrashWithoutClosing(z, a.disk, a.h, a.c, b.disk, n, z.Start(n.version) in kept);
  }

  /** After any run of checkpoints and crashes, mount takes the last checkpoint that came through, whole. */
  lemma {:induction false} RunMounts(z: Area, states: seq<State>, events: seq<Event>)
    requires IsRun(z, states, events) && Inv(z, states[0].disk, states[0].h, states[0].c)
    requires states[|events|].h.version + 1 < U64
    ensures var last := states[|events|];
            && (forall a: nat :: Read(last.disk, a).Cp? ==> Read(last.disk, a).h.version < U64)
            && Inv(z, last.disk, last.h, last.c)
            && Chosen(z, last.disk) == z.Start(last.h.version) && Stored(last.disk, Chosen(z, last.disk), Pack(last.h, last.c))
    decreases |events|
  {
    if events == [] {
      MountFinds(z, states[0].disk, states[0].h, states[0].c);
    } else {
      assert Next(z, states[0], events[0], states[0 + 1]);
      NextKeepsInv(z, states[0], events[0], states[1]);
      forall k | 0 <= k < |events[1..]|
        ensures Next(z, states[1..][k], events[1..][k], states[1..][k + 1])
      {
        assert Next(z, states[k + 1], events[k + 1], states[k + 1 + 1]);
      }
      RunMounts(z, states[1..], events[1..]);
    }
  }

  /** Mount, on a device as a run leaves it: the checkpoint block and the payload are those written. */
  method Remount(area: CheckpointArea, h: Header, c: Contents) returns (ok: bool, start: nat, blocks: seq<Block>)
    requires Inv(area.z, area.disk, h, c) && h.version + 1 < U64
    ensures ok && start == area.z.Start(h.version) && blocks == [Cp(h)] + c.payload
  {
    MountFinds(area.z, area.disk, h, c);
    ok, start, blocks := area.GetValidCheckpoint();
    var p := Pack(h, c);
    forall i: nat | i < |blocks|
      ensures blocks[i] == ([Cp(h)] + c.payload)[i]
    {
      assert Read(area.disk, start + i) == p[i];
    }
  }

  // ------------------------------------------------------- the layout

  /** With no payload a checkpoint pack fits its segment, however many orphans were let in. */
  lemma PackFits(z: Area, h: Header, c: Contents)
    requires z.Valid() && c.Valid(z) && HeaderOk(h, c) && z.payload == 0 && |c.inos| <= z.MaxOrphans()
    ensures |Pack(h, c)| <= z.bps
  {
    assert OrphanBlocks(|c.inos|) <= z.bps - 8;
  }

  /**
    What a checkpoint can be asked to write: no more orphans than are let in, and none
    at unmount, where every inode has been evicted.
   */
  predicate Writable(z: Area, h: Header, c: Contents)
    requires z.Valid()
  {
    c.Valid(z) && HeaderOk(h, c) && |c.inos| <= z.MaxOrphans() && (h.umount ==> c.inos == [])
  }

  lemma PackLength(z: Area, h: Header, c: Contents)
    requires z.Valid() && Writable(z, h, c)
    ensures |Pack(h, c)| == 2 + z.payload + OrphanBlocks(|c.inos|) + |c.sums| + if h.umount then LOGS_OF_KIND else 0
    ensures OrphanBlocks(|c.inos|) <= z.bps - 8
  {
  }

  /** The longest checkpoint pack: all orphans are let in, and the data summaries are not compacted. */
  lemma LongestPack(z: Area) returns (h: Header, c: Contents)
    requires z.Valid()
    ensures Writable(z, h, c) && !h.umount && h.version == 1 && |Pack(h, c)| == z.bps - 3 + z.payload
  {
    c := Contents(seq(z.payload, _ => Raw(0)), seq(z.MaxOrphans(), _ => 0), seq(LOGS_OF_KIND, _ => Raw(0)), seq(LOGS_OF_KIND, _ => Raw(0)));
    assert |c.inos| == z.MaxOrphans() == (z.bps - 8) * ORPHANS_PER_BLOCK && OrphanBlocks(|c.inos|) == z.bps - 8;
    h := Header(1, z.bps - 3 + z.payload, 1 + z.payload + (z.bps - 8), false, false, |c.inos| > 0, 0);
  }

  /** Every checkpoint pack fits its segment exactly if there are at most three payload blocks. */
  lemma AllPacksFit(z: Area)
    requires z.Valid() && z.bps >= 11
    ensures (forall h: Header, c: Contents :: Writable(z, h, c) ==> |Pack(h, c)| <= z.bps) <==> z.payload <= 3
  {
    if z.payload <= 3 {
      forall h: Header, c: Contents | Writable(z, h, c)
        ensures |Pack(h, c)| <= z.bps
      {
        PackLength(z, h, c);
      }
    } else {
      var h, c := LongestPack(z);
      assert Writable(z, h, c);
    }
  }

  /** A checkpoint pack writes to no block outside its segment exactly if it fits. */
  lemma StaysInSegment(z: Area, n: Header, c: Contents)
    requires z.Valid() && c.Valid(z) && HeaderOk(n, c)
    ensures (forall a: nat :: a in Laid(z.Start(n.version), Pack(n, c)) ==> z.Start(n.version) <= a < z.Start(n.version) + z.bps)
            <==> |Pack(n, c)| <= z.bps
  {
    var beyond: nat := z.Start(n.version) + z.bps;
    assert beyond in Laid(z.Start(n.version), Pack(n, c)) <==> |Pack(n, c)| > z.bps;
  }

  lemma LongPackOverwrites(z: Area, disk: map<nat, Block>, n: Header, c: Contents)
    requires z.Valid() && c.Valid(z) && HeaderOk(n, c) && |Pack(n, c)| > z.bps
    ensures var b := Read(disk + Laid(z.base, Pack(n, c)), z.base + z.bps);
            if |Pack(n, c)| == z.bps + 1 then b == Cp(n) else !b.Cp?
  {
    var p := Pack(n, c);
    KeysHold(z.base, p, z.bps);
    if |p| > z.bps + 1 { MiddlePlain(z, n, c); }
  }

  /** One of odd version that does not fit destroys the one before, whose first block it overwrites. */
  lemma LongPackDestroys(z: Area, disk: map<nat, Block>, h: Header, c: Contents, n: Header, c': Contents)
    requires z.Valid() && c'.Valid(z) && HeaderOk(n, c')
    requires n.version % 2 == 1 && n.version == h.version + 1 && |Pack(n, c')| > z.bps
    ensures !Stored(disk + Laid(z.Start(n.version), Pack(n, c')), z.Start(h.version), Pack(h, c))
  {
    assert Pack(h, c)[0] == Cp(h);
    hide Pack, Stored, Laid;
    LongPackOverwrites(z, disk, n, c');
    StoredFirst(disk + Laid(z.base, Pack(n, c')), z.base + z.bps, Pack(h, c));
  }

  /**
    If it is one block too long, it puts its own closing block there, and a mount takes
    this for a second checkpoint exactly if the block behind the checkpoint area carries
    the same version.
   */
  lemma LongPackSeemsWhole(z: Area, disk: map<nat, Block>, n: Header, c: Contents)
    requires z.Valid() && c.Valid(z) && HeaderOk(n, c) && n.version % 2 == 1 && |Pack(n, c)| > z.bps
    ensures var after := disk + Laid(z.Start(n.version), Pack(n, c));
            var behind := Read(after, Closing(z.base + z.bps, z.bps + 1));
            ValidPack(after, z.base + z.bps) <==> |Pack(n, c)| == z.bps + 1 && behind.Cp? && behind.h.version == n.version
  {
    hide Pack, Laid, Closing;
    LongPackOverwrites(z, disk, n, c);
  }

  lemma StoredFirst(disk: map<nat, Block>, start: nat, blocks: seq<Block>)
    requires |blocks| > 0
    ensures Stored(disk, start, blocks) ==> Read(disk, start) == blocks[0]
  {
    var first: nat := 0;
    assert Stored(disk, start, blocks) ==> Read(disk, start + first) == blocks[first];
  }

  /** One of even version that does not fit overwrites the block behind the checkpoint area. */
  lemma LongPackLeavesArea(z: Area, disk: map<nat, Block>, n: Header, c: Contents)
    requires z.Valid() && c.Valid(z) && HeaderOk(n, c) && n.version % 2 == 0 && |Pack(n, c)| > z.bps
    ensures Read(disk + Laid(z.Start(n.version), Pack(n, c)), z.base + 2 * z.bps) == Pack(n, c)[z.bps]
  {
    KeysHold(z.base + z.bps, Pack(n, c), z.bps);
  }

  /** sum_blk_addr. */
  function SumBlkAddr(start: nat, total: nat, base: nat, type': nat): int { start + total - (base + 1) + type' }

  /** Where read_normal_summaries looks for the summary of a log: the data logs come first. */
  function NormalSumAddr(h: Header, start: nat, type': nat): int
    requires type' < 2 * LOGS_OF_KIND
  {
    if type' < LOGS_OF_KIND then SumBlkAddr(start, h.total, if h.umount then 2 * LOGS_OF_KIND else LOGS_OF_KIND, type')
    else SumBlkAddr(start, h.total, LOGS_OF_KIND, type' - LOGS_OF_KIND)
  }

  /** The data summaries are read from where they were written, compacted or not, at unmount or not. */
  lemma DataSummaryFound(z: Area, disk: map<nat, Block>, start: nat, h: Header, c: Contents, i: nat)
    requires c.Valid(z) && HeaderOk(h, c) && Stored(disk, start, Pack(h, c)) && i < |c.sums|
    ensures Read(disk, start + h.startSum + i) == c.sums[i]
    ensures !h.compact ==> NormalSumAddr(h, start, i) == start + h.startSum + i
  {
    var k := 1 + |c.payload| + OrphanBlocks(|c.inos|) + i;
    assert Read(disk, start + k) == Pack(h, c)[k];
  }

  /** So are the node summaries written at unmount. */
  lemma NodeSummaryFound(z: Area, disk: map<nat, Block>, start: nat, h: Header, c: Contents, i: nat)
    requires c.Valid(z) && HeaderOk(h, c) && Stored(disk, start, Pack(h, c)) && i < LOGS_OF_KIND && h.umount
    ensures var a := NormalSumAddr(h, start, LOGS_OF_KIND + i); a >= 0 && Read(disk, a) == c.nodes[i]
  {
    var k := 1 + |c.payload| + OrphanBlocks(|c.inos|) + |c.sums| + i;
    assert Read(disk, start + k) == Pack(h, c)[k];
    assert NormalSumAddr(h, start, LOGS_OF_KIND + i) == start + k;
  }

  /** And the orphan blocks. */
  lemma OrphansFound(z: Area, disk: map<nat, Block>, start: nat, h: Header, c: Contents, i: nat)
    requires c.Valid(z) && HeaderOk(h, c) && Stored(disk, start, Pack(h, c)) && i < OrphanBlocks(|c.inos|)
    ensures Read(disk, start + 1 + z.payload + i) == OrphanSeq(c.inos)[i]
  {
    var k := 1 + |c.payload| + i;
    assert Read(disk, start + k) == Pack(h, c)[k];
  }
}
