/**
  The node address table in place: the operations of node.c on the cache, its
  clean list, the sets of dirty entries, the journal and the NAT pages.
 */
module NatManagement {
  import opened NatModel
  import opened SummaryJournal

  // ------------------------------------------------------- lists without repetition

  ghost predicate NoDups(s: seq<nat>) { forall i, j :: 0 <= i < j < |s| ==> s[i] != s[j] }

  function Without(s: seq<nat>, x: nat): (r: seq<nat>)
    ensures forall y :: y in r <==> y in s && y != x
    ensures |r| <= |s|
  {
    if s == [] then []
    else
      var rest := Without(s[1..], x);
      assert forall y :: y in s <==> y == s[0] || y in s[1..];
      if s[0] == x then rest else [s[0]] + rest
  }

  lemma {:induction false} WithoutNoDups(s: seq<nat>, x: nat)
    requires NoDups(s)
    ensures NoDups(Without(s, x)) && |Without(s, x)| == |s| - if x in s then 1 else 0
  {
    if s != [] {
      WithoutNoDups(s[1..], x);
      assert forall i :: 1 <= i < |s| ==> s[i] == s[1..][i - 1];
      assert s[0] !in s[1..];
    }
  }

  /** Entries in the sets below k. */
  ghost function Total(sets: map<nat, seq<nat>>, k: nat): nat {
    if k == 0 then 0 else Total(sets, k - 1) + if k - 1 in sets then |sets[k - 1]| else 0
  }

  lemma {:induction false} TotalUpdate(sets: map<nat, seq<nat>>, set': nat, list: seq<nat>, k: nat)
    ensures Total(sets[set' := list], k)
         == Total(sets, k) + if set' < k then |list| - (if set' in sets then |sets[set']| else 0) else 0
  {
    if k > 0 { TotalUpdate(sets, set', list, k - 1); }
  }

  lemma {:induction false} TotalRemove(sets: map<nat, seq<nat>>, set': nat, k: nat)
    requires set' in sets
    ensures Total(sets - {set'}, k) == Total(sets, k) - if set' < k then |sets[set']| else 0
  {
    if k > 0 { TotalRemove(sets, set', k - 1); }
  }

  lemma {:induction false} TotalZero(sets: map<nat, seq<nat>>, set': nat, k: nat)
    requires Total(sets, k) == 0 && set' in sets && set' < k
    ensures sets[set'] == []
  {
    if set' < k - 1 { TotalZero(sets, set', k - 1); }
  }

  // ------------------------------------------------------- the dirty sets

  /** Sets of dirty entries, one list for each NAT page that has any. */
  ghost predicate SetsOk(lay: Layout, cache: map<nat, Entry>, sets: map<nat, seq<nat>>)
  {
    && lay.Valid()
    && (forall set' :: set' in sets ==> set' < lay.blocks && NoDups(sets[set']))
    && (forall set', nid :: set' in sets && nid in sets[set'] ==>
          nid in cache && cache[nid].dirty && BlockOf(lay, nid) == set')
    && (forall nid :: nid in cache && cache[nid].dirty ==>
          BlockOf(lay, nid) in sets && nid in sets[BlockOf(lay, nid)])
  }

  ghost predicate CleanOk(cache: map<nat, Entry>, clean: seq<nat>) {
    NoDups(clean) && forall nid :: nid in clean <==> nid in cache && !cache[nid].dirty
  }

  /** Where a set belongs: before the first that is not smaller, or last if it will not fit in the journal anyway. */
  ghost predicate GoesTo(sets: map<nat, seq<nat>>, order: seq<nat>, set': nat, max: int, p: nat)
    requires set' in sets && forall x :: x in order ==> x in sets
  {
    && p <= |order| && (|sets[set']| >= max ==> p == |order|)
    && (|sets[set']| < max ==>
         && (forall k :: 0 <= k < p ==> |sets[order[k]]| < |sets[set']|)
         && (p < |order| ==> |sets[order[p]]| >= |sets[set']|))
  }

  /** Sets that fit in the journal come in the order of their sizes, larger ones behind them. */
  ghost predicate SmallFirst(order: seq<nat>, sets: map<nat, seq<nat>>, max: int)
    requires forall x :: x in order ==> x in sets
  {
    forall i, j :: 0 <= i < j < |order| ==> |sets[order[i]]| <= |sets[order[j]]| || |sets[order[j]]| >= max
  }

  lemma SmallStayFirst(a: seq<nat>, b: seq<nat>, sets: map<nat, seq<nat>>, set': nat, max: int, p: nat)
    requires set' in sets && (forall x :: x in a ==> x in sets) && SmallFirst(a, sets, max) && GoesTo(sets, a, set', max, p)
    requires b == a[..p] + [set'] + a[p..]
    ensures (forall x :: x in b ==> x in sets) && SmallFirst(b, sets, max)
  {
    forall i, j | 0 <= i < j < |b| ensures |sets[b[i]]| <= |sets[b[j]]| || |sets[b[j]]| >= max {
      if i == p { assert b[j] == a[j - 1]; }
    }
  }

  /** All sets below k, in the order they will be flushed. */
  ghost predicate Ordered(order: seq<nat>, k: nat, sets: map<nat, seq<nat>>, max: int) {
    && NoDups(order) && (forall x :: x in order <==> x in sets && x < k)
    && Sum(order, sets) == Total(sets, k) && SmallFirst(order, sets, max)
  }

  lemma OrderedSkips(order: seq<nat>, k: nat, sets: map<nat, seq<nat>>, max: int)
    requires k !in sets && Ordered(order, k, sets, max)
    ensures Ordered(order, k + 1, sets, max)
  {
    hide SmallFirst, NoDups, Sum;
    forall x ensures x in order <==> x in sets && x < k + 1 { }
  }

  /** The set has been put where it belongs. */
  ghost predicate PutByRule(sets: map<nat, seq<nat>>, order: seq<nat>, set': nat, max: int, r: seq<nat>)
    requires set' in sets && forall x :: x in order ==> x in sets
  {
    exists p: nat :: GoesTo(sets, order, set', max, p) && r == order[..p] + [set'] + order[p..]
  }

  class NatManager {
    const lay: Layout
    var cache: map<nat, Entry>
    /** nat_entries, the list of clean entries in the order of their arrival */
    var natEntries: seq<nat>
    /** the sets of dirty entries, and dirty_nat_cnt */
    var sets: map<nat, seq<nat>>
    var dirtyNatCnt: int
    var journal: seq<JEntry<NodeInfo>>
    var area: map<nat, seq<NodeInfo>>
    var natBitmap: seq<bool>

    ghost function Abs(): Nat
      reads this
    {
      Nat(lay, cache, journal, area, natBitmap)
    }

    ghost predicate Valid()
      reads this
    {
      && NatOk(Abs())
      && CleanOk(cache, natEntries)
      && SetsOk(lay, cache, sets)
      && dirtyNatCnt == Total(sets, lay.blocks)
    }

    /** init_node_manager on an area that is there already. */
    constructor (l: Layout, j: seq<JEntry<NodeInfo>>, a: map<nat, seq<NodeInfo>>, bits: seq<bool>)
      requires NatOk(Nat(l, map[], j, a, bits))
      ensures Valid() && Abs() == Nat(l, map[], j, a, bits)
    {
      lay, cache, natEntries, sets, dirtyNatCnt, journal, area, natBitmap := l, map[], [], map[], 0, j, a, bits;
      new;
      NoneInSets(l.blocks);
    }

    // ----------------------------------------------------- cache

    /** cache_nat_entry with what was read from the journal or the page. */
    method CacheNatEntry(nid: nat, ne: NodeInfo)
      requires Valid() && nid < lay.Nids() && ne == Persisted(Abs(), nid)
      modifies this`cache, this`natEntries
      ensures Valid() && old(AreaOk(Abs())) && Abs() == Fill(old(Abs()), nid)
    {
      if nid !in cache {
        FillKeeps(Abs(), nid);
        cache := cache[nid := Entry(ne, false)];
        natEntries := natEntries + [nid];
      }
    }

    /** get_node_info. */
    method GetNodeInfo(nid: nat) returns (ni: NodeInfo)
      requires Valid() && nid < lay.Nids()
      modifies this`cache, this`natEntries
      ensures Valid() && old(NatOk(Abs())) && ni == Logical(old(Abs()), nid)
      ensures SameMap(old(Abs()), Abs()) && area == old(area) && journal == old(journal) && natBitmap == old(natBitmap)
    {
      if nid in cache { return cache[nid].info; }
      var i := Find(journal, nid);
      if i < |journal| {
        ni := journal[i].val;
      } else {
        var block := nid / lay.perBlock;
        BlockInRange(lay, nid);
        assert block == BlockOf(lay, nid);
        ni := area[NatAddr(lay, block, natBitmap[block])][nid % lay.perBlock];
      }
      FillKeeps(Abs(), nid);
      CacheNatEntry(nid, ni);
    }

    /** __set_nat_cache_dirty: the entry moves from the clean list to the set of its page. */
    method SetNatCacheDirty(nid: nat)
      requires Valid() && nid in cache
      modifies this`cache, this`natEntries, this`sets, this`dirtyNatCnt
      ensures Valid() && nid in old(cache) && Abs() == MarkDirty(old(Abs()), nid)
      ensures dirtyNatCnt >= old(dirtyNatCnt)
    {
      MarkDirtyKeeps(Abs(), nid);
      ghost var after := MarkDirty(Abs(), nid);
      if !cache[nid].dirty { MoveToSet(nid); }
      assert Abs() == after;
    }

    /** The entry moves from the clean list to the set of its page. */
    method MoveToSet(nid: nat)
      requires CleanOk(cache, natEntries) && SetsOk(lay, cache, sets) && dirtyNatCnt == Total(sets, lay.blocks)
      requires nid in cache && !cache[nid].dirty && nid < lay.Nids()
      modifies this`cache, this`natEntries, this`sets, this`dirtyNatCnt
      ensures CleanOk(cache, natEntries) && SetsOk(lay, cache, sets) && dirtyNatCnt == Total(sets, lay.blocks)
      ensures nid in old(cache) && cache == old(cache)[nid := old(cache)[nid].(dirty := true)]
      ensures dirtyNatCnt >= old(dirtyNatCnt)
    {
      var set' := nid / lay.perBlock;
      BlockInRange(lay, nid);
      assert set' == BlockOf(lay, nid);
      var list := if set' in sets then sets[set'] else [];
      DirtyKeeps(lay, cache, natEntries, sets, nid, list);
      TotalUpdate(sets, set', list + [nid], lay.blocks);
      natEntries := Without(natEntries, nid);
      sets := sets[set' := list + [nid]];
      dirtyNatCnt := dirtyNatCnt + 1;
      cache := cache[nid := cache[nid].(dirty := true)];
    }

    /**
      set_node_addr. The source stops the system when ni does not carry the address
      the table answers, or when the change makes no sense.
     */
    method SetNodeAddr(nid: nat, ni: NodeInfo, addr: nat)
      requires Valid() && nid < lay.Nids()
      requires nid in cache && addr != NEW_ADDR ==> cache[nid].info.blkAddr == ni.blkAddr
      requires nid !in cache ==> ni.blkAddr != NEW_ADDR
      requires !(ni.blkAddr == NULL_ADDR && addr == NULL_ADDR)
      requires addr == NEW_ADDR ==> ni.blkAddr == NULL_ADDR
      modifies this`cache, this`natEntries, this`sets, this`dirtyNatCnt
      ensures Valid() && old(NatOk(Abs())) && Abs() == SetAddr(old(Abs()), nid, ni, addr)
      ensures var e := Logical(Abs(), nid);
              var was := if nid in old(cache) && addr != NEW_ADDR then old(cache)[nid].info else ni;
              && e.blkAddr == addr && e.ino == was.ino
              && e.version == if addr == NULL_ADDR && ni.blkAddr != NEW_ADDR then (was.version + 1) % 256 else was.version
      ensures forall n: nat :: n < lay.Nids() && n != nid ==> Logical(Abs(), n) == old(Logical(Abs(), n))
    {
      SetAddrKeeps(Abs(), nid, ni, addr);
      ghost var after := SetAddr(Abs(), nid, ni, addr);
      var e := NewInfo(nid, ni, addr);
      if nid in cache { SetCached(nid, e); } else { GrabAndMark(nid, e); }
      assert cache == after.cache;
    }

    /** The case of set_node_addr for an entry that is there. */
    method SetCached(nid: nat, e: NodeInfo)
      requires Valid() && nid in cache
      modifies this`cache, this`natEntries, this`sets, this`dirtyNatCnt
      ensures Valid() && cache == old(cache)[nid := Entry(e, true)]
    {
      SetNatCacheDirty(nid);
      PutInfo(nid, e);
    }

    /** The entry set_node_addr leaves: a removed node gets a new version. */
    method NewInfo(nid: nat, ni: NodeInfo, addr: nat) returns (e: NodeInfo)
      ensures e == Moved(Base(Abs(), nid, ni, addr), addr)
    {
      e := if nid in cache && addr != NEW_ADDR then cache[nid].info else ni;
      if e.blkAddr != NEW_ADDR && addr == NULL_ADDR {
        e := e.(version := IncVersion(e.version));
      }
      e := e.(blkAddr := addr);
    }

    /** The information of a dirty entry changes. */
    method PutInfo(nid: nat, e: NodeInfo)
      requires Valid() && nid in cache && cache[nid].dirty
      modifies this`cache
      ensures Valid() && cache == old(cache)[nid := Entry(e, true)]
    {
      PutDirtyKeeps(Abs(), nid, e);
      InfoKeeps(lay, cache, natEntries, sets, nid, e);
      cache := cache[nid := Entry(e, true)];
    }

    /** grab_nat_entry for an entry that becomes dirty at once. */
    method GrabAndMark(nid: nat, ni: NodeInfo)
      requires Valid() && nid < lay.Nids() && nid !in cache
      modifies this`cache, this`natEntries, this`sets, this`dirtyNatCnt
      ensures Valid() && cache == old(cache)[nid := Entry(ni, true)]
      ensures dirtyNatCnt >= old(dirtyNatCnt)
    {
      PutDirtyKeeps(Abs(), nid, ni);
      var set' := nid / lay.perBlock;
      BlockInRange(lay, nid);
      assert set' == BlockOf(lay, nid);
      var list := if set' in sets then sets[set'] else [];
      GrabKeeps(lay, cache, natEntries, sets, nid, ni, list);
      TotalUpdate(sets, set', list + [nid], lay.blocks);
      sets := sets[set' := list + [nid]];
      dirtyNatCnt := dirtyNatCnt + 1;
      cache := cache[nid := Entry(ni, true)];
    }

    /** try_to_free_nats, when memory is short: evicts the oldest clean entries. */
    method TryToFreeNats(nr: nat) returns (left: nat)
      requires Valid()
      modifies this`cache, this`natEntries
      ensures Valid() && old(NatOk(Abs())) && SameMap(old(Abs()), Abs())
      ensures |natEntries| <= |old(natEntries)| && natEntries == old(natEntries)[|old(natEntries)| - |natEntries|..]
      ensures left == 0 || natEntries == []
      ensures left + |old(natEntries)| == nr + |natEntries|
    {
      ghost var s, n0, k := Abs(), natEntries, 0;
      left := nr;
      while left > 0 && natEntries != []
        invariant Valid() && SameMap(s, Abs()) && 0 <= k <= |n0| && natEntries == n0[k..] && left + k == nr
      {
        ghost var before := Abs();
        EvictOldest();
        SameMapTwice(s, before, Abs());
        k := k + 1;
        left := left - 1;
      }
    }

    /** __del_from_nat_cache on the first clean entry. */
    method EvictOldest()
      requires Valid() && natEntries != []
      modifies this`cache, this`natEntries
      ensures Valid() && old(NatOk(Abs())) && SameMap(old(Abs()), Abs())
      ensures natEntries == old(natEntries[1..])
    {
      var nid := natEntries[0];
      EvictKeeps(Abs(), nid);
      EvictBook(lay, cache, natEntries, sets);
      cache := cache - {nid};
      natEntries := natEntries[1..];
    }

    // ----------------------------------------------------- flush

    /** remove_nats_in_journal: what the journal holds becomes dirty cache entries. */
    method RemoveNatsInJournal()
      requires Valid()
      modifies this`cache, this`natEntries, this`sets, this`dirtyNatCnt, this`journal
      ensures Valid() && journal == [] && old(NatOk(Abs())) && SameMap(old(Abs()), Abs())
    {
      ghost var s := Abs();
      for i: nat := 0 to |journal|
        invariant Valid() && SameMap(s, Abs()) && journal == s.journal
        invariant forall k: nat :: k < i ==> journal[k].key in cache && cache[journal[k].key].dirty
      {
        hide NatOk, SameMap, SetsOk, CleanOk;
        ghost var before := Abs();
        MergeJournalEntry(i);
        SameMapTwice(s, before, Abs());
      }
      DropJournalKeeps(Abs());
      ghost var before := Abs();
      hide SameMap, SetsOk, CleanOk;
      journal := [];
      SameMapTwice(s, before, Abs());
    }

    method MergeJournalEntry(i: nat)
      requires Valid() && i < |journal|
      modifies this`cache, this`natEntries, this`sets, this`dirtyNatCnt
      ensures Valid() && old(NatOk(Abs())) && SameMap(old(Abs()), Abs())
      ensures var nid := journal[i].key; nid in cache && cache[nid].dirty && cache == old(cache)[nid := cache[nid]]
    {
      var nid := journal[i].key;
      if nid in cache {
        MarkDirtyKeeps(Abs(), nid);
        SetNatCacheDirty(nid);
      } else {
        FindIs(journal, nid, i);
        GrabAndMark(nid, journal[i].val);
      }
    }

    /**
      __flush_nat_entry_set, one entry: it is stored in the journal or in the page
      of its set, and moves to the clean list.
     */
    method FlushEntry(set': nat, nid: nat, toJournal: bool)
      requires Valid() && set' in sets && nid in sets[set']
      requires if toJournal then |journal| < lay.journalMax else Find(journal, nid) == |journal|
      modifies this
      ensures Valid() && old(NatOk(Abs())) && SameMap(old(Abs()), Abs())
      ensures set' in old(sets) && sets == old(sets)[set' := Without(old(sets)[set'], nid)]
      ensures nid in old(cache) && BlockOf(lay, nid) == set' < lay.blocks
      ensures if toJournal then Abs() == ToJournal(old(Abs()), nid)
              else old(AreaOk(Abs())) && Abs() == PagedFrom(old(Abs()), nid)
    {
      ghost var s := Abs();
      ghost var after := if toJournal then ToJournal(s, nid) else PagedFrom(s, nid);
      BlockInRange(lay, nid);
      if toJournal { ToJournalKeeps(s, nid); } else { ToPageKeeps(s, nid); }
      hide SameMap, Persisted, PageEntry;
      StoreEntry(set', nid, toJournal);
      MarkClean(set', nid);
      assert Abs() == after;
    }

    /** The entry moves from its set to the clean list. */
    method MarkClean(set': nat, nid: nat)
      requires CleanOk(cache, natEntries) && SetsOk(lay, cache, sets) && dirtyNatCnt == Total(sets, lay.blocks)
      requires set' in sets && nid in sets[set']
      modifies this`cache, this`natEntries, this`sets, this`dirtyNatCnt
      ensures CleanOk(cache, natEntries) && SetsOk(lay, cache, sets) && dirtyNatCnt == Total(sets, lay.blocks)
      ensures nid in old(cache) && cache == old(cache)[nid := old(cache)[nid].(dirty := false)]
      ensures set' in old(sets) && sets == old(sets)[set' := Without(old(sets)[set'], nid)]
    {
      FlushedKeeps(lay, cache, natEntries, sets, nid);
      TotalUpdate(sets, set', Without(sets[set'], nid), lay.blocks);
      WithoutNoDups(sets[set'], nid);
      cache := cache[nid := cache[nid].(dirty := false)];
      natEntries := natEntries + [nid];
      sets := sets[set' := Without(sets[set'], nid)];
      dirtyNatCnt := dirtyNatCnt - 1;
    }

    /** raw_nat_from_node_info into the journal entry or the page entry of a node id. */
    method StoreEntry(set': nat, nid: nat, toJournal: bool)
      requires NatOk(Abs()) && nid in cache && set' == BlockOf(lay, nid) < lay.blocks
      modifies this`journal, this`area
      ensures journal == if toJournal then ToJournal(old(Abs()), nid).journal else old(journal)
      ensures old(AreaOk(Abs())) && area == if toJournal then old(area) else PagedFrom(old(Abs()), nid).area
    {
      var info := cache[nid].info;
      if toJournal {
        var offset := Find(journal, nid);
        if offset == |journal| { journal := journal + [JEntry(nid, info)]; }
        journal := journal[offset := JEntry(nid, info)];
      } else {
        var addr := NatAddr(lay, set', natBitmap[set']);
        area := area[addr := area[addr][nid % lay.perBlock := info]];
      }
    }

    /**
      __flush_nat_entry_set: to the journal if all entries fit, else to the other
      copy of the NAT page. Entries that still have NEW_ADDR stay dirty. s0 is the
      table at the start of the checkpoint.
     */
    method FlushNatEntrySet(set': nat, ghost s0: Nat)
      requires Valid() && set' in sets
      requires |sets[set']| > lay.journalMax - |journal| ==> NotJournaled(lay, journal, set')
      requires AreaOk(s0) && s0.lay == lay && OldCopies(s0, Abs()) && set' < lay.blocks && natBitmap[set'] == s0.bitmap[set']
      modifies this
      ensures Valid() && old(NatOk(Abs())) && SameMap(old(Abs()), Abs()) && OldCopies(s0, Abs())
      ensures Carries(old(Abs()), Abs())
      ensures Flushed(set', old(Abs()), old(sets), Abs(), sets)
      ensures if |old(sets[set'])| <= lay.journalMax - |old(journal)| then area == old(area) && natBitmap == old(natBitmap)
              else journal == old(journal) && natBitmap == old(natBitmap)[set' := !old(natBitmap[set'])]
    {
      hide Carries;
      ghost var s, sets0 := Abs(), sets;
      var entries := sets[set'];
      var toJournal := |entries| <= lay.journalMax - |journal|;
      TurnToPage(set', toJournal, s0);
      for idx: nat := 0 to |entries|
        invariant Valid() && SameMap(s, Abs()) && OldCopies(s0, Abs()) && Carries(s, Abs())
        invariant Progress(set', toJournal, entries, idx, s, sets0, Abs(), sets)
      {
        ghost var before := Abs();
        FlushNext(set', toJournal, entries, idx, s, sets0, s0);
        SameMapTwice(s, before, Abs());
        CarriesTwice(s, before, Abs());
      }
      ProgressDone(set', toJournal, entries, s, sets0, Abs(), sets);
      DeleteIfEmpty(set');
    }

    /** The start of __flush_nat_entry_set. */
    method TurnToPage(set': nat, toJournal: bool, ghost s0: Nat)
      requires Valid() && set' in sets && set' < lay.blocks
      requires AreaOk(s0) && s0.lay == lay && OldCopies(s0, Abs()) && natBitmap[set'] == s0.bitmap[set']
      modifies this`area, this`natBitmap
      ensures Valid() && old(NatOk(Abs())) && SameMap(old(Abs()), Abs()) && OldCopies(s0, Abs())
      ensures Carries(old(Abs()), Abs())
      ensures Progress(set', toJournal, sets[set'], 0, old(Abs()), sets, Abs(), sets)
    {
      if !toJournal {
        FlipCarries(Abs(), set');
        hide Carries;
        FlipKeepsOld(s0, Abs(), set');
        FlipKeeps(Abs(), set');
        FlipPage(set');
      }
    }

    /** The end of __flush_nat_entry_set. */
    method DeleteIfEmpty(set': nat)
      requires Valid() && set' in sets
      modifies this`sets
      ensures Valid() && set' in old(sets)
      ensures sets == if old(sets)[set'] == [] then old(sets) - {set'} else old(sets)
    {
      if sets[set'] == [] {
        EmptySetGone(lay, cache, sets, set');
        sets := sets - {set'};
      }
    }

    /** One round of the loop of __flush_nat_entry_set. */
    method FlushNext(set': nat, toJournal: bool, entries: seq<nat>, idx: nat, ghost s: Nat, ghost sets0: map<nat, seq<nat>>, ghost s0: Nat)
      requires Valid() && s.lay == lay && Progress(set', toJournal, entries, idx, s, sets0, Abs(), sets) && idx < |entries|
      requires if toJournal then |s.journal| + |entries| <= lay.journalMax else NotJournaled(lay, journal, set')
      requires AreaOk(s0) && s0.lay == lay && OldCopies(s0, Abs()) && set' < lay.blocks
      requires !toJournal ==> natBitmap[set'] != s0.bitmap[set']
      modifies this
      ensures Valid() && old(NatOk(Abs())) && SameMap(old(Abs()), Abs()) && OldCopies(s0, Abs())
      ensures Carries(old(Abs()), Abs())
      ensures Progress(set', toJournal, entries, idx + 1, s, sets0, Abs(), sets)
    {
      var nid := entries[idx];
      if cache[nid].info.blkAddr == NEW_ADDR {
        ProgressSkips(set', toJournal, entries, idx, s, sets0, Abs(), sets);
        return;
      }
      ghost var before, setsBefore := Abs(), sets;
      if !toJournal {
        NotJournaledAt(lay, journal, set', nid);
        ToPageKeepsOld(s0, before, nid);
        ToPageCarries(before, nid);
      } else {
        ToJournalCarries(before, nid);
      }
      hide Carries;
      FlushEntry(set', nid, toJournal);
      ProgressStores(set', toJournal, entries, idx, s, sets0, before, setsBefore, Abs(), sets);
    }

    /** get_next_nat_page. */
    method FlipPage(set': nat)
      requires Valid() && set' < lay.blocks
      modifies this`area, this`natBitmap
      ensures old(AreaOk(Abs())) && Abs() == Flip(old(Abs()), set')
      ensures Valid()
    {
      FlipKeeps(Abs(), set');
      ghost var s := Abs();
      var src := NatAddr(lay, set', natBitmap[set']);
      NextIsOtherCopy(lay, set', natBitmap[set']);
      var dst: nat := NextNatAddr(lay, src);
      area := area[dst := area[src]];
      natBitmap := natBitmap[set' := !natBitmap[set']];
      assert Abs() == Flip(s, set');
    }

    /** __adjust_nat_entry_set: small sets first, so that as many as possible fit in the journal. */
    method AdjustNatEntrySet(order: seq<nat>, set': nat, max: int) returns (r: seq<nat>)
      requires set' in sets && forall x :: x in order ==> x in sets
      ensures PutByRule(sets, order, set', max, r)
    {
      if |sets[set']| < max {
        for k: nat := 0 to |order|
          invariant forall j :: 0 <= j < k ==> |sets[order[j]]| < |sets[set']|
        {
          if |sets[order[k]]| >= |sets[set']| {
            assert GoesTo(sets, order, set', max, k);
            return order[..k] + [set'] + order[k..];
          }
        }
      }
      assert GoesTo(sets, order, set', max, |order|);
      assert order[..|order|] == order && order[|order|..] == [];
      r := order + [set'];
    }

    /** The gang lookup of flush_nat_entries: all sets, in the order they will be flushed. */
    method OrderSets() returns (order: seq<nat>)
      requires Valid()
      ensures NoDups(order) && (forall x :: x in order <==> x in sets) && Sum(order, sets) == dirtyNatCnt
      ensures SmallFirst(order, sets, lay.journalMax - |journal|)
    {
      order := [];
      var max := lay.journalMax - |journal|;
      assert Ordered(order, 0, sets, max);
      for set': nat := 0 to lay.blocks
        invariant Ordered(order, set', sets, max)
      {
        hide Ordered;
        if set' in sets {
          order := AddSet(order, set', max);
        } else {
          OrderedSkips(order, set', sets, max);
        }
      }
    }

    /** One set of the gang lookup. */
    method AddSet(order: seq<nat>, set': nat, max: int) returns (r: seq<nat>)
      requires set' in sets && Ordered(order, set', sets, max)
      ensures Ordered(r, set' + 1, sets, max)
    {
      r := AdjustNatEntrySet(order, set', max);
      hide SmallFirst, PutByRule, NoDups, Sum;
      InsertedByRule(order, r, set', max, sets);
    }

    /**
      flush_nat_entries. bug stands for the check that stops the system when dirty
      entries are left, which happens only when some node id still has NEW_ADDR.
     */
    method FlushNatEntries() returns (bug: bool)
      requires Valid()
      modifies this
      ensures Valid() && old(NatOk(Abs())) && SameMap(old(Abs()), Abs()) && OldCopies(old(Abs()), Abs())
      ensures forall nid :: nid in cache && cache[nid].dirty ==> cache[nid].info.blkAddr == NEW_ADDR
      ensures StoredAfter(old(Abs()), old(dirtyNatCnt > lay.journalMax - |journal|), Abs())
      ensures old(dirtyNatCnt) <= lay.journalMax - |old(journal)| ==> area == old(area) && natBitmap == old(natBitmap)
      ensures old(StoresNoNew(Abs())) ==> StoresNoNew(Abs())
      ensures bug ==> exists nid :: nid in cache && cache[nid].info.blkAddr == NEW_ADDR
      ensures old(StoresNoNew(Abs())) && (exists nid :: nid in cache && cache[nid].info.blkAddr == NEW_ADDR) ==> bug
    {
      hide Carries, OldCopies, StoresNoNew, StoredAfter, Persisted, PageEntry;
      ghost var s0 := Abs();
      var spilled := dirtyNatCnt > lay.journalMax - |journal|;
      if spilled { RemoveNatsInJournal(); }
      ghost var s1 := Abs();
      SpillStores(s0, spilled, s1);
      if dirtyNatCnt == 0 {
        NothingDirty(lay, cache, sets);
        StoredByFlush(s0, spilled, s1, Abs());
        if StoresNoNew(s0) { NewIsDirty(Abs(), sets); }
        return false;
      }
      var order := OrderSets();
      ghost var sets1 := sets;
      for idx: nat := 0 to |order|
        invariant Valid() && SameMap(s0, Abs()) && SameMap(s1, Abs()) && OldCopies(s0, Abs()) && Carries(s1, Abs())
        invariant Plan(order, idx, spilled, s0, sets1, Abs(), sets)
        invariant !spilled ==> area == s0.area && natBitmap == s0.bitmap
      {
        ghost var before, setsBefore := Abs(), sets;
        PlanAllows(order, idx, spilled, s0, sets1, before, sets);
        FlushNatEntrySet(order[idx], s0);
        SameMapTwice(s0, before, Abs());
        SameMapTwice(s1, before, Abs());
        CarriesTwice(s1, before, Abs());
        PlanGoesOn(order, idx, spilled, s0, sets1, before, setsBefore, Abs(), sets);
      }
      PlanDone(lay, order, spilled, s0, sets1, Abs(), sets);
      StoredByFlush(s0, spilled, s1, Abs());
      bug := dirtyNatCnt != 0;
      if bug { SomethingDirty(lay, cache, sets); }
      if StoresNoNew(s0) { NewIsDirty(Abs(), sets); }
    }
  }

  lemma SameMapTwice(a: Nat, b: Nat, c: Nat)
    requires NatOk(a) && NatOk(b) && NatOk(c) && a.lay == b.lay == c.lay && SameMap(a, b) && SameMap(b, c)
    ensures SameMap(a, c)
  {
  }

  lemma {:induction false} NoneInSets(k: nat)
    ensures Total(map[], k) == 0
  {
    if k > 0 { NoneInSets(k - 1); }
  }

  /** Moving an entry from the clean list to the set of its page. */
  lemma DirtyKeeps(lay: Layout, cache: map<nat, Entry>, clean: seq<nat>, sets: map<nat, seq<nat>>, nid: nat, list: seq<nat>)
    requires nid in cache && !cache[nid].dirty && SetsOk(lay, cache, sets) && CleanOk(cache, clean)
    requires BlockOf(lay, nid) < lay.blocks
    requires list == if BlockOf(lay, nid) in sets then sets[BlockOf(lay, nid)] else []
    ensures nid !in list
    ensures var c := cache[nid := cache[nid].(dirty := true)];
            SetsOk(lay, c, sets[BlockOf(lay, nid) := list + [nid]]) && CleanOk(c, Without(clean, nid))
  {
    WithoutNoDups(clean, nid);
    var rest := cache - {nid};
    assert SetsOk(lay, rest, sets);
    assert cache[nid := cache[nid].(dirty := true)] == rest[nid := Entry(cache[nid].info, true)];
    GrabKeeps(lay, rest, Without(clean, nid), sets, nid, cache[nid].info, list);
  }

  /** A new entry that goes straight to the set of its page. */
  lemma GrabKeeps(lay: Layout, cache: map<nat, Entry>, clean: seq<nat>, sets: map<nat, seq<nat>>, nid: nat, ni: NodeInfo, list: seq<nat>)
    requires nid !in cache && SetsOk(lay, cache, sets) && CleanOk(cache, clean) && BlockOf(lay, nid) < lay.blocks
    requires list == if BlockOf(lay, nid) in sets then sets[BlockOf(lay, nid)] else []
    ensures var c := cache[nid := Entry(ni, true)];
            SetsOk(lay, c, sets[BlockOf(lay, nid) := list + [nid]]) && CleanOk(c, clean)
  {
  }

  lemma InfoKeeps(lay: Layout, cache: map<nat, Entry>, clean: seq<nat>, sets: map<nat, seq<nat>>, nid: nat, e: NodeInfo)
    requires nid in cache && cache[nid].dirty && SetsOk(lay, cache, sets) && CleanOk(cache, clean)
    ensures SetsOk(lay, cache[nid := Entry(e, true)], sets) && CleanOk(cache[nid := Entry(e, true)], clean)
  {
  }

  /** A stored entry moves from the set of its page to the clean list. */
  lemma FlushedKeeps(lay: Layout, cache: map<nat, Entry>, clean: seq<nat>, sets: map<nat, seq<nat>>, nid: nat)
    requires SetsOk(lay, cache, sets) && CleanOk(cache, clean) && nid in cache && cache[nid].dirty
    ensures BlockOf(lay, nid) in sets
    ensures var c := cache[nid := cache[nid].(dirty := false)];
            && CleanOk(c, clean + [nid])
            && SetsOk(lay, c, sets[BlockOf(lay, nid) := Without(sets[BlockOf(lay, nid)], nid)])
  {
    FlushedSets(lay, cache, sets, nid);
  }

  lemma FlushedSets(lay: Layout, cache: map<nat, Entry>, sets: map<nat, seq<nat>>, nid: nat)
    requires SetsOk(lay, cache, sets) && nid in cache && cache[nid].dirty
    ensures BlockOf(lay, nid) in sets
    ensures SetsOk(lay, cache[nid := cache[nid].(dirty := false)], sets[BlockOf(lay, nid) := Without(sets[BlockOf(lay, nid)], nid)])
  {
    WithoutNoDups(sets[BlockOf(lay, nid)], nid);
  }

  lemma EvictBook(lay: Layout, cache: map<nat, Entry>, clean: seq<nat>, sets: map<nat, seq<nat>>)
    requires SetsOk(lay, cache, sets) && CleanOk(cache, clean) && clean != []
    ensures SetsOk(lay, cache - {clean[0]}, sets) && CleanOk(cache - {clean[0]}, clean[1..])
  {
    var nid, rest := clean[0], cache - {clean[0]};
    assert nid in cache && !cache[nid].dirty;
    forall x ensures x in clean[1..] <==> x in rest && !rest[x].dirty {
      assert x in clean <==> x == nid || x in clean[1..];
    }
    forall set', x | set' in sets && x in sets[set'] ensures x in rest && rest[x].dirty && BlockOf(lay, x) == set' { }
  }

  /** ToPage on a table whose area is complete. */
  ghost function PagedFrom(s: Nat, nid: nat): Nat
    requires AreaOk(s) && nid in s.cache && BlockOf(s.lay, nid) < s.lay.blocks
  {
    ToPage(s, nid)
  }

  ghost predicate NotJournaled(lay: Layout, j: seq<JEntry<NodeInfo>>, set': nat)
    requires lay.Valid()
  {
    forall i :: 0 <= i < |j| ==> BlockOf(lay, j[i].key) != set'
  }

  lemma NotJournaledAt(lay: Layout, j: seq<JEntry<NodeInfo>>, set': nat, nid: nat)
    requires lay.Valid() && NotJournaled(lay, j, set') && BlockOf(lay, nid) == set'
    ensures Find(j, nid) == |j|
  {
  }

  /** What flushing some entries of a set has done to the journal and the pages. */
  ghost predicate Stored(set': nat, toJournal: bool, s: Nat, s': Nat, n: nat)
    requires s.lay.Valid()
  {
    && s'.lay == s.lay && s'.cache.Keys == s.cache.Keys
    && (if toJournal then s'.bitmap == s.bitmap && s'.area == s.area && |s'.journal| <= |s.journal| + n
        else s'.journal == s.journal && |s'.bitmap| == |s.bitmap| && set' < |s.bitmap|
             && s'.bitmap == s.bitmap[set' := !s.bitmap[set']])
    && forall i :: 0 <= i < |s'.journal| ==>
         BlockOf(s.lay, s'.journal[i].key) == set' || exists k :: 0 <= k < |s.journal| && s.journal[k].key == s'.journal[i].key
  }

  lemma StoredMore(set': nat, toJournal: bool, s: Nat, a: Nat, b: Nat, n: nat, nid: nat)
    requires AreaOk(a) && s.lay.Valid() && Stored(set', toJournal, s, a, n) && nid in a.cache && BlockOf(s.lay, nid) == set' < s.lay.blocks
    requires if toJournal then b == ToJournal(a, nid) else b == ToPage(a, nid)
    ensures Stored(set', toJournal, s, b, n + 1)
  {
  }

  /** Entries before idx are stored, unless they have NEW_ADDR; entries from idx on still wait in their set. */
  ghost predicate Progress(set': nat, toJournal: bool, entries: seq<nat>, idx: nat,
                           s: Nat, sets0: map<nat, seq<nat>>, s': Nat, sets': map<nat, seq<nat>>)
  {
    && s.lay.Valid() && Stored(set', toJournal, s, s', idx) && NoDups(entries)
    && set' in sets' && sets'.Keys == sets0.Keys && (forall x :: x in sets0 && x != set' ==> sets'[x] == sets0[x])
    && (forall k :: idx <= k < |entries| ==> entries[k] in sets'[set'])
    && forall nid :: nid in sets'[set'] ==>
         nid in s'.cache && (s'.cache[nid].info.blkAddr == NEW_ADDR || exists k :: idx <= k < |entries| && entries[k] == nid)
  }

  lemma ProgressSkips(set': nat, toJournal: bool, entries: seq<nat>, idx: nat,
                      s: Nat, sets0: map<nat, seq<nat>>, s': Nat, sets': map<nat, seq<nat>>)
    requires Progress(set', toJournal, entries, idx, s, sets0, s', sets') && idx < |entries|
    requires entries[idx] in s'.cache && s'.cache[entries[idx]].info.blkAddr == NEW_ADDR
    ensures Progress(set', toJournal, entries, idx + 1, s, sets0, s', sets')
  {
    forall nid | nid in sets'[set'] && s'.cache[nid].info.blkAddr != NEW_ADDR
      ensures exists k :: idx + 1 <= k < |entries| && entries[k] == nid
    {
      var k :| idx <= k < |entries| && entries[k] == nid;
      assert k != idx;
    }
  }

  lemma ProgressStores(set': nat, toJournal: bool, entries: seq<nat>, idx: nat,
                       s: Nat, sets0: map<nat, seq<nat>>, a: Nat, setsA: map<nat, seq<nat>>, b: Nat, setsB: map<nat, seq<nat>>)
    requires Progress(set', toJournal, entries, idx, s, sets0, a, setsA) && idx < |entries| && AreaOk(a)
    requires entries[idx] in a.cache && BlockOf(s.lay, entries[idx]) == set' < s.lay.blocks
    requires if toJournal then b == ToJournal(a, entries[idx]) else b == ToPage(a, entries[idx])
    requires setsB == setsA[set' := Without(setsA[set'], entries[idx])]
    ensures Progress(set', toJournal, entries, idx + 1, s, sets0, b, setsB)
  {
    var nid := entries[idx];
    StoredMore(set', toJournal, s, a, b, idx, nid);
    forall n | n in setsB[set']
      ensures n in b.cache && (b.cache[n].info.blkAddr == NEW_ADDR || exists k :: idx + 1 <= k < |entries| && entries[k] == n)
    {
      assert n in setsA[set'] && n != nid;
      if a.cache[n].info.blkAddr != NEW_ADDR {
        var k :| idx <= k < |entries| && entries[k] == n;
        assert k != idx;
      }
    }
  }

  lemma ProgressDone(set': nat, toJournal: bool, entries: seq<nat>,
                     s: Nat, sets0: map<nat, seq<nat>>, s': Nat, sets': map<nat, seq<nat>>)
    requires Progress(set', toJournal, entries, |entries|, s, sets0, s', sets')
    ensures forall nid :: nid in sets'[set'] ==> nid in s'.cache && s'.cache[nid].info.blkAddr == NEW_ADDR
  {
  }

  /** The result of flushing one set. */
  ghost predicate Flushed(set': nat, s: Nat, sets: map<nat, seq<nat>>, s': Nat, sets': map<nat, seq<nat>>)
    requires s.lay.Valid()
  {
    && set' in sets
    && (forall x :: x in sets' ==> x in sets && (x != set' ==> sets'[x] == sets[x]))
    && (forall x :: x in sets && x != set' ==> x in sets')
    && (set' in sets' ==> forall nid :: nid in sets'[set'] ==> nid in s'.cache && s'.cache[nid].info.blkAddr == NEW_ADDR)
    && Stored(set', |sets[set']| <= s.lay.journalMax - |s.journal|, s, s', |sets[set']|)
  }

  lemma EmptySetGone(lay: Layout, cache: map<nat, Entry>, sets: map<nat, seq<nat>>, set': nat)
    requires SetsOk(lay, cache, sets) && set' in sets && sets[set'] == []
    ensures SetsOk(lay, cache, sets - {set'}) && Total(sets - {set'}, lay.blocks) == Total(sets, lay.blocks)
  {
    TotalRemove(sets, set', lay.blocks);
  }

  ghost function Sum(order: seq<nat>, sets: map<nat, seq<nat>>): nat
    requires forall x :: x in order ==> x in sets
  {
    if order == [] then 0 else |sets[order[0]]| + Sum(order[1..], sets)
  }

  lemma {:induction false} SumInsert(order: seq<nat>, set': nat, p: nat, sets: map<nat, seq<nat>>)
    requires p <= |order| && set' in sets && forall x :: x in order ==> x in sets
    ensures forall x :: x in order[..p] + [set'] + order[p..] ==> x in sets
    ensures Sum(order[..p] + [set'] + order[p..], sets) == Sum(order, sets) + |sets[set']|
    decreases p
  {
    var r := order[..p] + [set'] + order[p..];
    if p == 0 {
      assert r[1..] == order;
    } else {
      assert r[0] == order[0] && r[1..] == order[1..][..p - 1] + [set'] + order[1..][p - 1..];
      SumInsert(order[1..], set', p - 1, sets);
    }
  }

  lemma Inserted(order: seq<nat>, r: seq<nat>, set': nat, p: nat, sets: map<nat, seq<nat>>)
    requires p <= |order| && r == order[..p] + [set'] + order[p..] && NoDups(order) && set' !in order
    requires set' in sets && forall x :: x in order ==> x in sets
    ensures NoDups(r) && (forall x :: x in r <==> x in order || x == set')
    ensures Sum(r, sets) == Sum(order, sets) + |sets[set']|
  {
    SumInsert(order, set', p, sets);
    InsertedIndex(order, r, set', p);
    forall x ensures x in r <==> x in order || x == set' { InsertedMember(order, r, set', p, x); }
  }

  lemma InsertedByRule(a: seq<nat>, b: seq<nat>, set': nat, max: int, sets: map<nat, seq<nat>>)
    requires set' in sets && (forall x :: x in a ==> x in sets) && NoDups(a) && set' !in a && SmallFirst(a, sets, max)
    requires PutByRule(sets, a, set', max, b)
    ensures NoDups(b) && (forall x :: x in b <==> x in a || x == set') && SmallFirst(b, sets, max)
    ensures Sum(b, sets) == Sum(a, sets) + |sets[set']|
  {
    var p: nat :| GoesTo(sets, a, set', max, p) && b == a[..p] + [set'] + a[p..];
    Inserted(a, b, set', p, sets);
    SmallStayFirst(a, b, sets, set', max, p);
  }

  lemma InsertedMember(order: seq<nat>, r: seq<nat>, set': nat, p: nat, x: nat)
    requires p <= |order| && r == order[..p] + [set'] + order[p..]
    ensures x in r <==> x in order || x == set'
  {
    assert order == order[..p] + order[p..];
    assert x in order <==> x in order[..p] || x in order[p..];
  }

  lemma InsertedIndex(order: seq<nat>, r: seq<nat>, set': nat, p: nat)
    requires p <= |order| && r == order[..p] + [set'] + order[p..] && NoDups(order) && set' !in order
    ensures forall i :: 0 <= i < |r| ==> r[i] == if i < p then order[i] else if i == p then set' else order[i - 1]
    ensures NoDups(r)
  {
  }

  /** Sets before idx are flushed, sets from idx on are as they were, and their pages still current. */
  ghost predicate Plan(order: seq<nat>, idx: nat, spilled: bool, s0: Nat, sets1: map<nat, seq<nat>>, s': Nat, sets': map<nat, seq<nat>>)
  {
    && s'.lay.Valid() && s0.lay == s'.lay && |s0.bitmap| == |s'.bitmap| == s0.lay.blocks && idx <= |order| && NoDups(order)
    && (forall x :: x in order ==> x in sets1 && x < s0.lay.blocks)
    && (forall x :: x in sets' ==> x in order)
    && (forall k :: idx <= k < |order| ==>
          order[k] in sets' && sets'[order[k]] == sets1[order[k]] && s'.bitmap[order[k]] == s0.bitmap[order[k]])
    && (forall k :: 0 <= k < idx && order[k] in sets' ==>
          forall nid :: nid in sets'[order[k]] ==> nid in s'.cache && s'.cache[nid].info.blkAddr == NEW_ADDR)
    && (if spilled then forall i :: 0 <= i < |s'.journal| ==> BlockOf(s0.lay, s'.journal[i].key) in order[..idx]
        else |s'.journal| + Sum(order[idx..], sets1) <= s0.lay.journalMax)
  }

  lemma PlanAllows(order: seq<nat>, idx: nat, spilled: bool, s0: Nat, sets1: map<nat, seq<nat>>, s': Nat, sets': map<nat, seq<nat>>)
    requires Plan(order, idx, spilled, s0, sets1, s', sets') && idx < |order|
    ensures order[idx] in sets' && order[idx] < s0.lay.blocks && s'.bitmap[order[idx]] == s0.bitmap[order[idx]]
    ensures |sets'[order[idx]]| > s0.lay.journalMax - |s'.journal| ==> NotJournaled(s0.lay, s'.journal, order[idx])
    ensures !spilled ==> |sets'[order[idx]]| <= s0.lay.journalMax - |s'.journal|
  {
    if !spilled { assert order[idx..][0] == order[idx]; }
  }

  lemma PlanGoesOn(order: seq<nat>, idx: nat, spilled: bool, s0: Nat, sets1: map<nat, seq<nat>>,
                   a: Nat, setsA: map<nat, seq<nat>>, b: Nat, setsB: map<nat, seq<nat>>)
    requires Plan(order, idx, spilled, s0, sets1, a, setsA) && idx < |order|
    requires SetsOk(a.lay, a.cache, setsA) && NatOk(a) && NatOk(b) && a.lay == b.lay && SameMap(a, b)
    requires Flushed(order[idx], a, setsA, b, setsB)
    ensures Plan(order, idx + 1, spilled, s0, sets1, b, setsB)
  {
    WaitingSets(order, idx, spilled, s0, sets1, a, setsA, b, setsB);
    DoneSets(order, idx, spilled, s0, sets1, a, setsA, b, setsB);
    JournalRoom(order, idx, spilled, s0, sets1, a, setsA, b, setsB);
  }

  lemma WaitingSets(order: seq<nat>, idx: nat, spilled: bool, s0: Nat, sets1: map<nat, seq<nat>>,
                    a: Nat, setsA: map<nat, seq<nat>>, b: Nat, setsB: map<nat, seq<nat>>)
    requires Plan(order, idx, spilled, s0, sets1, a, setsA) && idx < |order| && NatOk(a) && NatOk(b) && a.lay == b.lay
    requires Flushed(order[idx], a, setsA, b, setsB)
    ensures forall k :: idx + 1 <= k < |order| ==>
              order[k] in setsB && setsB[order[k]] == sets1[order[k]] && b.bitmap[order[k]] == s0.bitmap[order[k]]
  {
  }

  lemma DoneSets(order: seq<nat>, idx: nat, spilled: bool, s0: Nat, sets1: map<nat, seq<nat>>,
                 a: Nat, setsA: map<nat, seq<nat>>, b: Nat, setsB: map<nat, seq<nat>>)
    requires Plan(order, idx, spilled, s0, sets1, a, setsA) && idx < |order|
    requires SetsOk(a.lay, a.cache, setsA) && NatOk(a) && NatOk(b) && a.lay == b.lay && SameMap(a, b)
    requires Flushed(order[idx], a, setsA, b, setsB)
    ensures forall k :: 0 <= k < idx + 1 && order[k] in setsB ==>
              forall nid :: nid in setsB[order[k]] ==> nid in b.cache && b.cache[nid].info.blkAddr == NEW_ADDR
  {
    forall k, nid | 0 <= k < idx && order[k] in setsB && nid in setsB[order[k]]
      ensures nid in b.cache && b.cache[nid].info.blkAddr == NEW_ADDR
    {
      assert order[k] != order[idx];
      assert nid in a.cache && Logical(b, nid) == Logical(a, nid);
    }
  }

  lemma JournalRoom(order: seq<nat>, idx: nat, spilled: bool, s0: Nat, sets1: map<nat, seq<nat>>,
                    a: Nat, setsA: map<nat, seq<nat>>, b: Nat, setsB: map<nat, seq<nat>>)
    requires Plan(order, idx, spilled, s0, sets1, a, setsA) && idx < |order| && a.lay == b.lay && a.lay.Valid()
    requires Flushed(order[idx], a, setsA, b, setsB)
    ensures if spilled then forall i :: 0 <= i < |b.journal| ==> BlockOf(s0.lay, b.journal[i].key) in order[..idx + 1]
            else |b.journal| + Sum(order[idx + 1..], sets1) <= s0.lay.journalMax
  {
    if spilled {
      assert order[..idx + 1] == order[..idx] + [order[idx]];
    } else {
      assert order[idx..][0] == order[idx] && order[idx..][1..] == order[idx + 1..];
    }
  }

  lemma PlanDone(lay: Layout, order: seq<nat>, spilled: bool, s0: Nat, sets1: map<nat, seq<nat>>, s': Nat, sets': map<nat, seq<nat>>)
    requires Plan(order, |order|, spilled, s0, sets1, s', sets') && SetsOk(lay, s'.cache, sets')
    ensures forall nid :: nid in s'.cache && s'.cache[nid].dirty ==> s'.cache[nid].info.blkAddr == NEW_ADDR
  {
  }

  lemma NothingDirty(lay: Layout, cache: map<nat, Entry>, sets: map<nat, seq<nat>>)
    requires SetsOk(lay, cache, sets) && Total(sets, lay.blocks) == 0
    ensures forall nid :: nid in cache ==> !cache[nid].dirty
  {
    forall nid | nid in cache && cache[nid].dirty ensures false { TotalZero(sets, BlockOf(lay, nid), lay.blocks); }
  }

  lemma {:induction false} SomethingInSets(sets: map<nat, seq<nat>>, k: nat) returns (set': nat)
    requires Total(sets, k) > 0
    ensures set' in sets && sets[set'] != []
  {
    if k - 1 in sets && sets[k - 1] != [] { set' := k - 1; } else { set' := SomethingInSets(sets, k - 1); }
  }

  lemma SomethingDirty(lay: Layout, cache: map<nat, Entry>, sets: map<nat, seq<nat>>)
    requires SetsOk(lay, cache, sets) && Total(sets, lay.blocks) != 0
    requires forall nid :: nid in cache && cache[nid].dirty ==> cache[nid].info.blkAddr == NEW_ADDR
    ensures exists nid :: nid in cache && cache[nid].info.blkAddr == NEW_ADDR
  {
    var set' := SomethingInSets(sets, lay.blocks);
    assert sets[set'][0] in cache;
  }

  lemma NewIsDirty(s: Nat, sets: map<nat, seq<nat>>)
    requires NatOk(s) && StoresNoNew(s) && SetsOk(s.lay, s.cache, sets)
    ensures Total(sets, s.lay.blocks) == 0 ==> forall nid :: nid in s.cache ==> s.cache[nid].info.blkAddr != NEW_ADDR
  {
    forall nid | nid in s.cache && s.cache[nid].info.blkAddr == NEW_ADDR && Total(sets, s.lay.blocks) == 0 ensures false {
      assert s.cache[nid].dirty by { assert Persisted(s, nid).blkAddr != NEW_ADDR; }
      TotalZero(sets, BlockOf(s.lay, nid), s.lay.blocks);
    }
  }

  /** What the start of the flush leaves: everything, or the pages and an empty journal. */
  ghost predicate Spilled(s0: Nat, spilled: bool, s1: Nat)
  {
    if spilled then s1.lay == s0.lay && s1.area == s0.area && s1.bitmap == s0.bitmap && s1.journal == []
    else s1 == s0
  }

  lemma SpillStores(s0: Nat, spilled: bool, s1: Nat)
    requires AreaOk(s0) && AreaOk(s1) && Spilled(s0, spilled, s1)
    ensures (StoresNoNew(s0) ==> StoresNoNew(s1)) && OldCopies(s0, s1) && Carries(s1, s1)
    ensures forall nid: nat :: nid < s0.lay.Nids() ==>
              Persisted(s1, nid) == if spilled then PageEntry(s0, nid) else Persisted(s0, nid)
  {
    forall nid: nat | nid < s0.lay.Nids() ensures PageEntry(s1, nid) == PageEntry(s0, nid) { }
  }

  lemma StoredByFlush(s0: Nat, spilled: bool, s1: Nat, s: Nat)
    requires NatOk(s0) && NatOk(s1) && NatOk(s) && s.lay == s0.lay && Spilled(s0, spilled, s1)
    requires SameMap(s0, s1) && SameMap(s1, s) && Carries(s1, s)
    requires forall nid :: nid in s.cache && s.cache[nid].dirty ==> s.cache[nid].info.blkAddr == NEW_ADDR
    ensures StoredAfter(s0, spilled, s) && (StoresNoNew(s0) ==> StoresNoNew(s))
  {
    SpillStores(s0, spilled, s1);
    forall nid: nat | nid < s0.lay.Nids()
      ensures Persisted(s, nid) == if Logical(s0, nid).blkAddr != NEW_ADDR then Logical(s0, nid)
                                   else if spilled then PageEntry(s0, nid)
                                   else Persisted(s0, nid)
    {
      assert Logical(s, nid) == Logical(s1, nid) == Logical(s0, nid);
      if Logical(s0, nid).blkAddr != NEW_ADDR { FlushedIsPersisted(s, nid); }
    }
  }

  /** A table of one entry, in the journal and in its page. */
  ghost function SmallTable(journaled: NodeInfo, page: NodeInfo): Nat {
    Nat(Layout(1, 1, 1, 0, 1), map[], [JEntry(0, journaled)], map[0 := [page], 1 := [page]], [false])
  }

  lemma SmallTableOk(journaled: NodeInfo, page: NodeInfo)
    requires journaled.blkAddr != NEW_ADDR && page.blkAddr != NEW_ADDR
    ensures var s := SmallTable(journaled, page); NatOk(s) && StoresNoNew(s) && PageEntry(s, 0) == page
  {
    var s := SmallTable(journaled, page);
    assert forall bit: bool :: NatAddr(s.lay, 0, bit) == if bit then 1 else 0;
    assert AreaOk(s);
    assert s.lay.Nids() == 1;
    assert PageEntry(s, 0) == page by {
      assert BlockOf(s.lay, 0) == 0 && 0 % s.lay.perBlock == 0 && NatAddr(s.lay, 0, s.bitmap[0]) == 0;
    }
    hide PageEntry;
  }

  /** The same table once the id has been given out again. */
  lemma SmallTableAgain(journaled: NodeInfo, page: NodeInfo)
    requires journaled.blkAddr == NULL_ADDR && page.blkAddr != NEW_ADDR
    ensures var s := SmallTable(journaled, page);
            && NatOk(s) && var s' := SetAddr(s, 0, journaled, NEW_ADDR);
            && NatOk(s') && StoresNoNew(s') && PageEntry(s', 0) == page
            && Logical(s', 0) == journaled.(blkAddr := NEW_ADDR) && s'.lay == s.lay && s'.journal == s.journal
  {
    var s := SmallTable(journaled, page);
    SmallTableOk(journaled, page);
    var s' := SetAddr(s, 0, journaled, NEW_ADDR);
    SetAddrKeeps(s, 0, journaled, NEW_ADDR);
    assert forall nid: nat :: nid < s.lay.Nids() ==> PageEntry(s', nid) == PageEntry(s, nid);
  }

  /**
    A removed node's entry is in a full journal, with an older one in its page;
    its id is given out again and the table flushed before the node is written:
    a mount would now read the older entry, with the removed node's old block.
   */
  method SpillLosesNewAddr() returns (m: NatManager, bug: bool)
    ensures m.Valid() && m.lay == Layout(1, 1, 1, 0, 1) && bug
    ensures Logical(m.Abs(), 0) == NodeInfo(5, NEW_ADDR, 3)
    ensures Persisted(m.Abs(), 0) == NodeInfo(5, 9, 2)
  {
    var lay := Layout(1, 1, 1, 0, 1);
    var removed, older := NodeInfo(5, NULL_ADDR, 3), NodeInfo(5, 9, 2);
    var journal := [JEntry(0, removed)];
    var area := map[0 := [older], 1 := [older]];
    ghost var s := SmallTable(removed, older);
    SmallTableOk(removed, older);
    SmallTableAgain(removed, older);
    assert SetAddr(s, 0, removed, NEW_ADDR).cache == map[0 := Entry(removed.(blkAddr := NEW_ADDR), true)];
    hide NatOk, AreaOk, PageEntry, StoresNoNew, SameMap, OldCopies, SetsOk, CleanOk, Fill;
    m := new NatManager(lay, journal, area, [false]);
    m.SetNodeAddr(0, removed, NEW_ADDR);
    ghost var s' := m.Abs();
    assert s' == SetAddr(s, 0, removed, NEW_ADDR);
    NewIsDirty(s', m.sets);
    assert 0 in s'.cache;
    bug := m.FlushNatEntries();
    SameAt(s', m.Abs(), 0);
  }

  lemma SameAt(s: Nat, s': Nat, nid: nat)
    requires AreaOk(s) && AreaOk(s') && s'.lay == s.lay && SameMap(s, s') && nid < s.lay.Nids()
    ensures Logical(s', nid) == Logical(s, nid)
  {
  }
}
