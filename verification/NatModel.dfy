/**
  The node address table on values: a cache in front of a journal in front of
  NAT pages that exist twice. However an entry is stored, the table answers one
  logical map from node ids to node information.
 */
module NatModel {
  import Addressing
  import opened SummaryJournal

  const NULL_ADDR: nat := 0
  const NEW_ADDR: nat := 0xFFFF_FFFF

  datatype NodeInfo = NodeInfo(ino: nat, blkAddr: nat, version: nat)

  datatype Entry = Entry(info: NodeInfo, dirty: bool)

  /** Sizes of the table: entries per NAT page, NAT pages, entries the journal holds, and where the area lies. */
  datatype Layout = Layout(perBlock: nat, blocks: nat, journalMax: nat, base: nat, blocksPerSeg: nat)
  {
    predicate Valid() { perBlock > 0 && blocksPerSeg > 0 }

    function Nids(): nat { perBlock * blocks }
  }

  datatype Nat = Nat(lay: Layout, cache: map<nat, Entry>, journal: seq<JEntry<NodeInfo>>,
                     area: map<nat, seq<NodeInfo>>, bitmap: seq<bool>)

  // ------------------------------------------------------- the two copies of a NAT page

  /** current_nat_addr for a page whose bit is given. */
  function NatAddr(lay: Layout, block: nat, bit: bool): nat
    requires lay.Valid()
  {
    lay.base + (block / lay.blocksPerSeg) * lay.blocksPerSeg * 2 + block % lay.blocksPerSeg
      + if bit then lay.blocksPerSeg else 0
  }

  /** next_nat_addr. */
  function NextNatAddr(lay: Layout, addr: nat): int
    requires lay.Valid() && addr >= lay.base
  {
    var a := addr - lay.base;
    lay.base + if (a / lay.blocksPerSeg) % 2 != 0 then a - lay.blocksPerSeg else a + lay.blocksPerSeg
  }

  lemma PairParts(q: nat, r: nat, n: nat, bit: bool)
    requires r < n
    ensures var a := q * n * 2 + r + if bit then n else 0;
            a / n == 2 * q + (if bit then 1 else 0) && a % n == r
  {
    var k := 2 * q + if bit then 1 else 0;
    assert k * n == q * n * 2 + if bit then n else 0;
    Addressing.DivIs(k * n + r, n, k, r);
  }

  /** Segment pairs: copies of a page lie at the same place of the two segments of a pair. */
  lemma NatAddrParts(lay: Layout, block: nat, bit: bool)
    requires lay.Valid()
    ensures var a := NatAddr(lay, block, bit) - lay.base;
            && a / lay.blocksPerSeg == 2 * (block / lay.blocksPerSeg) + (if bit then 1 else 0)
            && a % lay.blocksPerSeg == block % lay.blocksPerSeg
  {
    PairParts(block / lay.blocksPerSeg, block % lay.blocksPerSeg, lay.blocksPerSeg, bit);
  }

  lemma NatAddrFromBase(lay: Layout, block: nat, bit: bool)
    requires lay.Valid()
    ensures NatAddr(lay, block, bit) >= lay.base
  {
    assert (block / lay.blocksPerSeg) * lay.blocksPerSeg >= 0;
  }

  /** The next page of the current one is the other copy of the same page. */
  lemma NextIsOtherCopy(lay: Layout, block: nat, bit: bool)
    requires lay.Valid()
    ensures NatAddr(lay, block, bit) >= lay.base
    ensures NextNatAddr(lay, NatAddr(lay, block, bit)) == NatAddr(lay, block, !bit)
  {
    NatAddrFromBase(lay, block, bit);
    NatAddrParts(lay, block, bit);
    Odd(block / lay.blocksPerSeg, bit);
  }

  lemma Odd(q: nat, bit: bool)
    ensures ((2 * q + if bit then 1 else 0) % 2 != 0) == bit
  {
  }

  /** No two copies of NAT pages share a block. */
  lemma NatAddrInjective(lay: Layout, b: nat, x: bool, c: nat, y: bool)
    requires lay.Valid() && NatAddr(lay, b, x) == NatAddr(lay, c, y)
    ensures b == c && x == y
  {
    NatAddrParts(lay, b, x);
    NatAddrParts(lay, c, y);
    assert b == (b / lay.blocksPerSeg) * lay.blocksPerSeg + b % lay.blocksPerSeg;
  }

  // ------------------------------------------------------- the logical map

  ghost predicate AreaOk(s: Nat) {
    && s.lay.Valid() && |s.bitmap| == s.lay.blocks
    && forall block: nat, bit: bool :: block < s.lay.blocks ==>
         NatAddr(s.lay, block, bit) in s.area && |s.area[NatAddr(s.lay, block, bit)]| == s.lay.perBlock
  }

  function BlockOf(lay: Layout, nid: nat): nat
    requires lay.Valid()
  {
    nid / lay.perBlock
  }

  lemma BlockInRange(lay: Layout, nid: nat)
    requires lay.Valid() && nid < lay.Nids()
    ensures BlockOf(lay, nid) < lay.blocks
  {
    Addressing.DivBound(nid, lay.perBlock, lay.blocks);
  }

  /** The entry of the current NAT page. */
  ghost function PageEntry(s: Nat, nid: nat): NodeInfo
    requires AreaOk(s) && nid < s.lay.Nids()
  {
    BlockInRange(s.lay, nid);
    var block := BlockOf(s.lay, nid);
    s.area[NatAddr(s.lay, block, s.bitmap[block])][nid % s.lay.perBlock]
  }

  /** The entries of a page stand in the order of their numbers. */
  lemma EntryInPage(s: Nat, block: nat, i: nat)
    requires AreaOk(s) && block < s.lay.blocks && i < s.lay.perBlock && block * s.lay.perBlock + i < s.lay.Nids()
    ensures PageEntry(s, block * s.lay.perBlock + i) == s.area[NatAddr(s.lay, block, s.bitmap[block])][i]
  {
    Addressing.DivIs(block * s.lay.perBlock + i, s.lay.perBlock, block, i);
  }

  /** What a mount would read: the journal entry, else that of the NAT page. */
  ghost function Persisted(s: Nat, nid: nat): NodeInfo
    requires AreaOk(s) && nid < s.lay.Nids()
  {
    Get(s.journal, nid, PageEntry(s, nid))
  }

  /** What get_node_info answers. */
  ghost function Logical(s: Nat, nid: nat): NodeInfo
    requires AreaOk(s) && nid < s.lay.Nids()
  {
    if nid in s.cache then s.cache[nid].info else Persisted(s, nid)
  }

  /** What makes eviction safe: a clean entry repeats what is stored. */
  ghost predicate NatOk(s: Nat) {
    && AreaOk(s)
    && |s.journal| <= s.lay.journalMax && Unique(s.journal)
    && (forall i :: 0 <= i < |s.journal| ==> s.journal[i].key < s.lay.Nids())
    && (forall nid :: nid in s.cache ==> nid < s.lay.Nids())
    && forall nid :: nid in s.cache && !s.cache[nid].dirty ==> s.cache[nid].info == Persisted(s, nid)
  }

  ghost predicate SameMap(s: Nat, s': Nat)
    requires AreaOk(s) && AreaOk(s') && s'.lay == s.lay
  {
    forall nid: nat :: nid < s.lay.Nids() ==> Logical(s', nid) == Logical(s, nid)
  }

  // ------------------------------------------------------- what the operations do

  /** cache_nat_entry with what is stored. */
  ghost function Fill(s: Nat, nid: nat): Nat
    requires AreaOk(s) && nid < s.lay.Nids()
  {
    if nid in s.cache then s else s.(cache := s.cache[nid := Entry(Persisted(s, nid), false)])
  }

  function Evict(s: Nat, nid: nat): Nat { s.(cache := s.cache - {nid}) }

  function MarkDirty(s: Nat, nid: nat): Nat
    requires nid in s.cache
  {
    s.(cache := s.cache[nid := s.cache[nid].(dirty := true)])
  }

  /** Version numbers are one byte wide. */
  function IncVersion(v: nat): nat { (v + 1) % 256 }

  /** The entry set_node_addr starts from, and the one it leaves. */
  function Base(s: Nat, nid: nat, ni: NodeInfo, addr: nat): NodeInfo {
    if nid in s.cache && addr != NEW_ADDR then s.cache[nid].info else ni
  }

  function Moved(e: NodeInfo, addr: nat): NodeInfo {
    NodeInfo(e.ino, addr, if e.blkAddr != NEW_ADDR && addr == NULL_ADDR then IncVersion(e.version) else e.version)
  }

  function SetAddr(s: Nat, nid: nat, ni: NodeInfo, addr: nat): Nat {
    s.(cache := s.cache[nid := Entry(Moved(Base(s, nid, ni, addr), addr), true)])
  }

  /** One entry goes to the journal. */
  function ToJournal(s: Nat, nid: nat): Nat
    requires nid in s.cache
  {
    s.(journal := Put(s.journal, nid, s.cache[nid].info), cache := s.cache[nid := s.cache[nid].(dirty := false)])
  }

  /** get_next_nat_page: the other copy becomes current, with the same contents. */
  function Flip(s: Nat, block: nat): Nat
    requires s.lay.Valid() && block < |s.bitmap| && NatAddr(s.lay, block, s.bitmap[block]) in s.area
  {
    s.(area := s.area[NatAddr(s.lay, block, !s.bitmap[block]) := s.area[NatAddr(s.lay, block, s.bitmap[block])]],
       bitmap := s.bitmap[block := !s.bitmap[block]])
  }

  /** One entry goes to the current NAT page. */
  function ToPage(s: Nat, nid: nat): Nat
    requires s.lay.Valid() && nid in s.cache && BlockOf(s.lay, nid) < |s.bitmap|
    requires var a := NatAddr(s.lay, BlockOf(s.lay, nid), s.bitmap[BlockOf(s.lay, nid)]);
             a in s.area && |s.area[a]| == s.lay.perBlock
  {
    var a := NatAddr(s.lay, BlockOf(s.lay, nid), s.bitmap[BlockOf(s.lay, nid)]);
    s.(area := s.area[a := s.area[a][nid % s.lay.perBlock := s.cache[nid].info]],
       cache := s.cache[nid := s.cache[nid].(dirty := false)])
  }

  // ------------------------------------------------------- and what they keep

  lemma FillKeeps(s: Nat, nid: nat)
    requires NatOk(s) && nid < s.lay.Nids()
    ensures NatOk(Fill(s, nid)) && SameMap(s, Fill(s, nid))
  {
  }

  /** Evicting a clean entry changes no answer. */
  lemma EvictKeeps(s: Nat, nid: nat)
    requires NatOk(s) && nid in s.cache && !s.cache[nid].dirty
    ensures NatOk(Evict(s, nid)) && SameMap(s, Evict(s, nid))
  {
  }

  lemma MarkDirtyKeeps(s: Nat, nid: nat)
    requires NatOk(s) && nid in s.cache
    ensures NatOk(MarkDirty(s, nid)) && SameMap(s, MarkDirty(s, nid))
  {
  }

  lemma PutDirtyKeeps(s: Nat, nid: nat, e: NodeInfo)
    requires NatOk(s) && nid < s.lay.Nids()
    ensures NatOk(s.(cache := s.cache[nid := Entry(e, true)]))
  {
  }

  /**
    set_node_addr: the node is answered at the new address from then on. The inode is
    that of the cached entry, unless the id is used anew, and the version grows when
    a node is removed that had been written. No other answer changes.
   */
  lemma SetAddrKeeps(s: Nat, nid: nat, ni: NodeInfo, addr: nat)
    requires NatOk(s) && nid < s.lay.Nids()
    ensures NatOk(SetAddr(s, nid, ni, addr))
    ensures var was := if nid in s.cache && addr != NEW_ADDR then s.cache[nid].info else ni;
            var e := Logical(SetAddr(s, nid, ni, addr), nid);
            && e.blkAddr == addr && e.ino == was.ino
            && e.version == if addr == NULL_ADDR && was.blkAddr != NEW_ADDR then (was.version + 1) % 256 else was.version
    ensures forall n: nat :: n < s.lay.Nids() && n != nid ==> Logical(SetAddr(s, nid, ni, addr), n) == Logical(s, n)
  {
  }

  lemma ToJournalKeeps(s: Nat, nid: nat)
    requires NatOk(s) && nid in s.cache
    requires Find(s.journal, nid) < |s.journal| || |s.journal| < s.lay.journalMax
    ensures NatOk(ToJournal(s, nid)) && SameMap(s, ToJournal(s, nid))
  {
    var s' := ToJournal(s, nid);
    PutKeys(s.journal, nid, s.cache[nid].info);
    forall n: nat | n < s.lay.Nids()
      ensures Persisted(s', n) == if n == nid then s.cache[nid].info else Persisted(s, n)
    {
      PutGet(s.journal, nid, s.cache[nid].info, n, PageEntry(s, n));
      assert PageEntry(s', n) == PageEntry(s, n);
    }
  }

  lemma FlipArea(s: Nat, block: nat)
    requires AreaOk(s) && block < s.lay.blocks
    ensures AreaOk(Flip(s, block))
  {
  }

  lemma FlipKeepsEntry(s: Nat, block: nat, nid: nat)
    requires AreaOk(s) && block < s.lay.blocks && nid < s.lay.Nids()
    ensures AreaOk(Flip(s, block)) && PageEntry(Flip(s, block), nid) == PageEntry(s, nid)
  {
    FlipArea(s, block);
    BlockInRange(s.lay, nid);
    var b := BlockOf(s.lay, nid);
    if b != block && NatAddr(s.lay, b, s.bitmap[b]) == NatAddr(s.lay, block, !s.bitmap[block]) {
      NatAddrInjective(s.lay, b, s.bitmap[b], block, !s.bitmap[block]);
    }
  }

  /** Switching to the other copy changes no answer. */
  lemma FlipKeeps(s: Nat, block: nat)
    requires NatOk(s) && block < s.lay.blocks
    ensures NatOk(Flip(s, block)) && SameMap(s, Flip(s, block))
  {
    FlipArea(s, block);
    forall nid: nat | nid < s.lay.Nids() ensures Persisted(Flip(s, block), nid) == Persisted(s, nid) {
      FlipKeepsEntry(s, block, nid);
    }
  }

  lemma ToPageArea(s: Nat, nid: nat)
    requires AreaOk(s) && nid in s.cache && nid < s.lay.Nids()
    ensures BlockOf(s.lay, nid) < s.lay.blocks && AreaOk(ToPage(s, nid))
  {
    BlockInRange(s.lay, nid);
  }

  lemma SameEntry(lay: Layout, m: nat, n: nat)
    requires lay.Valid() && BlockOf(lay, m) == BlockOf(lay, n) && m % lay.perBlock == n % lay.perBlock
    ensures m == n
  {
    assert m == (m / lay.perBlock) * lay.perBlock + m % lay.perBlock;
    assert n == (n / lay.perBlock) * lay.perBlock + n % lay.perBlock;
  }

  lemma ToPageStored(s: Nat, nid: nat, n: nat)
    requires AreaOk(s) && nid in s.cache && nid < s.lay.Nids() && n < s.lay.Nids()
    ensures BlockOf(s.lay, nid) < s.lay.blocks && AreaOk(ToPage(s, nid))
    ensures PageEntry(ToPage(s, nid), n) == if n == nid then s.cache[nid].info else PageEntry(s, n)
  {
    ToPageArea(s, nid);
    BlockInRange(s.lay, n);
    var b, c := BlockOf(s.lay, nid), BlockOf(s.lay, n);
    if b != c {
      if NatAddr(s.lay, b, s.bitmap[b]) == NatAddr(s.lay, c, s.bitmap[c]) {
        NatAddrInjective(s.lay, b, s.bitmap[b], c, s.bitmap[c]);
      }
    } else if n != nid && n % s.lay.perBlock == nid % s.lay.perBlock {
      SameEntry(s.lay, n, nid);
    }
  }

  /** Writing an entry to its page is safe when the journal does not shadow it. */
  lemma ToPageKeeps(s: Nat, nid: nat)
    requires NatOk(s) && nid in s.cache && Find(s.journal, nid) == |s.journal|
    ensures BlockOf(s.lay, nid) < s.lay.blocks
    ensures NatOk(ToPage(s, nid)) && SameMap(s, ToPage(s, nid))
  {
    ToPageArea(s, nid);
    forall n: nat | n < s.lay.Nids()
      ensures Persisted(ToPage(s, nid), n) == if n == nid then s.cache[nid].info else Persisted(s, n)
    {
      ToPageStored(s, nid, n);
    }
  }

  /** The journal may be emptied once all it holds is in the cache and dirty. */
  lemma DropJournalKeeps(s: Nat)
    requires NatOk(s)
    requires forall i :: 0 <= i < |s.journal| ==> s.journal[i].key in s.cache && s.cache[s.journal[i].key].dirty
    ensures NatOk(s.(journal := [])) && SameMap(s, s.(journal := []))
  {
  }

  // ------------------------------------------------------- the copies a crash would read

  /** The pages that were current in s0 are as they were. */
  ghost predicate OldCopies(s0: Nat, s: Nat)
    requires AreaOk(s0) && AreaOk(s) && s.lay == s0.lay
  {
    forall block: nat :: block < s0.lay.blocks ==>
      s.area[NatAddr(s0.lay, block, s0.bitmap[block])] == s0.area[NatAddr(s0.lay, block, s0.bitmap[block])]
  }

  lemma FlipKeepsOld(s0: Nat, s: Nat, block: nat)
    requires AreaOk(s0) && AreaOk(s) && s.lay == s0.lay && OldCopies(s0, s)
    requires block < s.lay.blocks && s.bitmap[block] == s0.bitmap[block]
    ensures AreaOk(Flip(s, block)) && OldCopies(s0, Flip(s, block))
  {
    FlipArea(s, block);
    forall b: nat | b < s0.lay.blocks
      ensures Flip(s, block).area[NatAddr(s0.lay, b, s0.bitmap[b])] == s0.area[NatAddr(s0.lay, b, s0.bitmap[b])]
    {
      if NatAddr(s.lay, b, s0.bitmap[b]) == NatAddr(s.lay, block, !s.bitmap[block]) {
        NatAddrInjective(s.lay, b, s0.bitmap[b], block, !s.bitmap[block]);
        assert false;
      }
    }
  }

  lemma ToPageKeepsOld(s0: Nat, s: Nat, nid: nat)
    requires AreaOk(s0) && AreaOk(s) && s.lay == s0.lay && OldCopies(s0, s) && nid in s.cache && nid < s.lay.Nids()
    requires BlockOf(s.lay, nid) < s.lay.blocks && s.bitmap[BlockOf(s.lay, nid)] != s0.bitmap[BlockOf(s.lay, nid)]
    ensures AreaOk(ToPage(s, nid)) && OldCopies(s0, ToPage(s, nid))
  {
    ToPageArea(s, nid);
    var block := BlockOf(s.lay, nid);
    forall b: nat | b < s0.lay.blocks
      ensures ToPage(s, nid).area[NatAddr(s0.lay, b, s0.bitmap[b])] == s0.area[NatAddr(s0.lay, b, s0.bitmap[b])]
    {
      if NatAddr(s.lay, b, s0.bitmap[b]) == NatAddr(s.lay, block, s.bitmap[block]) {
        NatAddrInjective(s.lay, b, s0.bitmap[b], block, s.bitmap[block]);
        assert false;
      }
    }
  }

  // ------------------------------------------------------- after a flush

  /** Once nothing is dirty but entries that still have NEW_ADDR, what is stored is what the table answers. */
  lemma FlushedIsPersisted(s: Nat, nid: nat)
    requires NatOk(s) && nid < s.lay.Nids()
    requires forall n :: n in s.cache && s.cache[n].dirty ==> s.cache[n].info.blkAddr == NEW_ADDR
    requires nid in s.cache ==> s.cache[nid].info.blkAddr != NEW_ADDR
    ensures Persisted(s, nid) == Logical(s, nid)
  {
  }

  /** No entry stored in the journal or in a current page has NEW_ADDR: on disk an address is 0 or that of a block. */
  ghost predicate StoresNoNew(s: Nat)
    requires AreaOk(s)
  {
    && (forall i :: 0 <= i < |s.journal| ==> s.journal[i].val.blkAddr != NEW_ADDR)
    && forall nid: nat :: nid < s.lay.Nids() ==> PageEntry(s, nid).blkAddr != NEW_ADDR
  }

  /** Steps of a flush leave what is stored of a node id with NEW_ADDR, and store no NEW_ADDR. */
  ghost predicate Carries(s: Nat, s': Nat)
    requires AreaOk(s) && AreaOk(s') && s'.lay == s.lay
  {
    && (StoresNoNew(s) ==> StoresNoNew(s'))
    && forall nid: nat :: nid < s.lay.Nids() && Logical(s, nid).blkAddr == NEW_ADDR ==>
         PageEntry(s', nid) == PageEntry(s, nid) && Persisted(s', nid) == Persisted(s, nid)
  }

  lemma CarriesTwice(a: Nat, b: Nat, c: Nat)
    requires AreaOk(a) && AreaOk(b) && AreaOk(c) && a.lay == b.lay == c.lay
    requires SameMap(a, b) && Carries(a, b) && Carries(b, c)
    ensures Carries(a, c)
  {
    hide AreaOk, PageEntry, Persisted, Logical;
    forall nid: nat | nid < a.lay.Nids() && Logical(a, nid).blkAddr == NEW_ADDR
      ensures PageEntry(c, nid) == PageEntry(a, nid) && Persisted(c, nid) == Persisted(a, nid)
    {
      assert Logical(b, nid) == Logical(a, nid);
    }
  }

  lemma FlipCarries(s: Nat, block: nat)
    requires AreaOk(s) && block < s.lay.blocks
    ensures AreaOk(Flip(s, block)) && Carries(s, Flip(s, block))
  {
    FlipArea(s, block);
    forall nid: nat | nid < s.lay.Nids() ensures PageEntry(Flip(s, block), nid) == PageEntry(s, nid) {
      FlipKeepsEntry(s, block, nid);
    }
    hide PageEntry, AreaOk;
  }

  lemma ToPageCarries(s: Nat, nid: nat)
    requires AreaOk(s) && nid in s.cache && nid < s.lay.Nids() && s.cache[nid].info.blkAddr != NEW_ADDR
    ensures BlockOf(s.lay, nid) < s.lay.blocks && AreaOk(ToPage(s, nid)) && Carries(s, ToPage(s, nid))
  {
    ToPageArea(s, nid);
    forall n: nat | n < s.lay.Nids()
      ensures PageEntry(ToPage(s, nid), n) == if n == nid then s.cache[nid].info else PageEntry(s, n)
    {
      ToPageStored(s, nid, n);
    }
    hide PageEntry, AreaOk;
  }

  lemma ToJournalCarries(s: Nat, nid: nat)
    requires AreaOk(s) && Unique(s.journal) && nid in s.cache && s.cache[nid].info.blkAddr != NEW_ADDR
    ensures AreaOk(ToJournal(s, nid)) && Carries(s, ToJournal(s, nid))
  {
    var s' := ToJournal(s, nid);
    forall n: nat | n < s.lay.Nids() ensures PageEntry(s', n) == PageEntry(s, n) { }
    forall n: nat | n < s.lay.Nids() && n != nid ensures Persisted(s', n) == Persisted(s, n) {
      PutGet(s.journal, nid, s.cache[nid].info, n, PageEntry(s, n));
    }
    hide PageEntry, Persisted, AreaOk;
  }

  /**
    What is stored after a flush. A node id that is cached with NEW_ADDR is not
    written; a spilled journal forgets what it held of it.
   */
  ghost predicate StoredAfter(s: Nat, spilled: bool, s': Nat)
    requires AreaOk(s) && AreaOk(s') && s'.lay == s.lay
  {
    forall nid: nat :: nid < s.lay.Nids() ==>
      Persisted(s', nid) == if Logical(s, nid).blkAddr != NEW_ADDR then Logical(s, nid)
                            else if spilled then PageEntry(s, nid)
                            else Persisted(s, nid)
  }

  /** A flush stores the table for exactly the node ids that have got an address. */
  lemma FlushStores(s: Nat, spilled: bool, s': Nat, nid: nat)
    requires AreaOk(s) && AreaOk(s') && s'.lay == s.lay && nid < s.lay.Nids()
    requires StoresNoNew(s) && StoredAfter(s, spilled, s')
    ensures Persisted(s', nid) == Logical(s, nid) <==> Logical(s, nid).blkAddr != NEW_ADDR
  {
    assert Persisted(s, nid).blkAddr != NEW_ADDR && PageEntry(s, nid).blkAddr != NEW_ADDR;
  }

  /** And it changes what is stored of a node id with NEW_ADDR exactly when a spilled journal held something else than the page. */
  lemma FlushForgets(s: Nat, spilled: bool, s': Nat, nid: nat)
    requires AreaOk(s) && AreaOk(s') && s'.lay == s.lay && nid < s.lay.Nids()
    requires StoredAfter(s, spilled, s') && Logical(s, nid).blkAddr == NEW_ADDR
    ensures Persisted(s', nid) != Persisted(s, nid) <==>
            spilled && Find(s.journal, nid) < |s.journal| && s.journal[Find(s.journal, nid)].val != PageEntry(s, nid)
  {
    var i := Find(s.journal, nid);
    assert i < |s.journal| ==> Persisted(s, nid) == s.journal[i].val;
  }
}
