/**
  Compacted summaries: the two journals and the summary entries of the three data
  logs, packed byte by byte into as few checkpoint blocks as possible, and read
  back from there.
 */
module CompactSummaries {
  import Addressing

  type Byte = bv8

  /** PAGE_CACHE_SIZE, SUM_JOURNAL_SIZE, SUM_FOOTER_SIZE and SUMMARY_SIZE, and the summary entries of a log. */
  datatype Sizes = Sizes(page: nat, journal: nat, footer: nat, entry: nat, perLog: nat)
  {
    predicate Valid() { entry > 0 && 2 * journal + entry + footer <= page }

    /** Entries that fit in the first page and in each later one. */
    function First(): nat
      requires Valid()
    {
      (page - 2 * journal - footer) / entry
    }

    function Later(): nat
      requires Valid()
    {
      (page - footer) / entry
    }
  }

  const NR_DATA_LOGS: nat := 3

  /** A data log as far as its summary goes. */
  datatype DataLog = DataLog(entries: seq<seq<Byte>>, journal: seq<Byte>, ssr: bool, next: nat)

  predicate LogOk(z: Sizes, l: DataLog) {
    && |l.entries| == z.perLog && l.next <= z.perLog && |l.journal| == z.journal
    && forall j :: 0 <= j < |l.entries| ==> |l.entries[j]| == z.entry
  }

  /** Entries that are written for a log: all of them if it is reused, else those before the next offset. */
  function Count(z: Sizes, l: DataLog): nat { if l.ssr then z.perLog else l.next }

  // ------------------------------------------------------- where the entries lie

  /** Page and offset of an entry. */
  datatype Place = Place(page: nat, off: nat)

  function NextPlace(z: Sizes, p: Place): Place {
    if p.off + z.entry + z.entry + z.footer <= z.page then Place(p.page, p.off + z.entry) else Place(p.page + 1, 0)
  }

  function PlaceOf(z: Sizes, k: nat): Place {
    if k == 0 then Place(0, 2 * z.journal) else NextPlace(z, PlaceOf(z, k - 1))
  }

  lemma {:induction false} PlaceFits(z: Sizes, k: nat)
    requires z.Valid()
    ensures PlaceOf(z, k).off + z.entry + z.footer <= z.page
    ensures PlaceOf(z, k).page == 0 ==> PlaceOf(z, k).off >= 2 * z.journal
  {
    if k > 0 { PlaceFits(z, k - 1); }
  }

  /** Entries do not overlap: later ones lie behind earlier ones. */
  lemma {:induction false} PlacesInOrder(z: Sizes, j: nat, k: nat)
    requires z.Valid() && j < k
    ensures var p, q := PlaceOf(z, j), PlaceOf(z, k);
            p.page < q.page || (p.page == q.page && p.off + z.entry <= q.off)
    decreases k
  {
    PlaceFits(z, k - 1);
    if j < k - 1 { PlacesInOrder(z, j, k - 1); }
  }

  /** Pages used by n entries: the first is written even when there is none. */
  function PagesFor(z: Sizes, n: nat): nat { if n == 0 then 1 else PlaceOf(z, n - 1).page + 1 }

  lemma {:induction false} PlaceInFirst(z: Sizes, k: nat)
    requires z.Valid() && k < z.First()
    ensures PlaceOf(z, k) == Place(0, 2 * z.journal + k * z.entry)
  {
    if k > 0 {
      PlaceInFirst(z, k - 1);
      Room(z.page - 2 * z.journal - z.footer, z.entry, k);
    }
  }

  lemma FirstFull(z: Sizes)
    requires z.Valid()
    ensures z.First() > 0 && z.Later() > 0 && PlaceOf(z, z.First()) == Place(1, 0)
  {
    var n := z.First();
    var room := z.page - 2 * z.journal - z.footer;
    AtLeastOne(room, z.entry);
    AtLeastOne(z.page - z.footer, z.entry);
    PlaceInFirst(z, n - 1);
    Room(room, z.entry, n);
  }

  lemma AtLeastOne(room: nat, d: nat)
    requires 0 < d <= room
    ensures room / d > 0
  {
    assert room == (room / d) * d + room % d;
  }

  /** One more item of size d fits behind the first k exactly if k is below the quotient. */
  lemma Room(room: nat, d: nat, k: nat)
    requires d > 0 && 0 < k <= room / d
    ensures k * d == (k - 1) * d + d
    ensures k < room / d ==> k * d + d <= room
    ensures k == room / d ==> k * d + d > room
  {
    var q := room / d;
    assert room == q * d + room % d;
    if k < q {
      Addressing.MulMono(d, k + 1, q);
      assert (k + 1) * d == k * d + d;
    }
  }

  lemma {:induction false} PlaceInSecond(z: Sizes, k: nat)
    requires z.Valid() && k < z.Later()
    ensures PlaceOf(z, z.First() + k) == Place(1, k * z.entry)
  {
    if k == 0 {
      FirstFull(z);
    } else {
      PlaceInSecond(z, k - 1);
      Room(z.page - z.footer, z.entry, k);
    }
  }

  lemma SecondFull(z: Sizes)
    requires z.Valid()
    ensures PlaceOf(z, z.First() + z.Later()) == Place(2, 0)
  {
    FirstFull(z);
    var n := z.Later();
    PlaceInSecond(z, n - 1);
    Room(z.page - z.footer, z.entry, n);
    assert PlaceOf(z, z.First() + n) == NextPlace(z, PlaceOf(z, z.First() + (n - 1)));
  }

  /** npages_for_summary_flush. */
  method NpagesForSummaryFlush(z: Sizes, logs: seq<DataLog>) returns (n: nat)
    requires z.Valid() && |logs| == NR_DATA_LOGS
    ensures n == if Total(z, logs, 3) <= z.First() then 1 else if Total(z, logs, 3) - z.First() <= z.Later() then 2 else 3
    ensures var total := (if logs[0].ssr then z.perLog else logs[0].next) + (if logs[1].ssr then z.perLog else logs[1].next)
                         + (if logs[2].ssr then z.perLog else logs[2].next);
            var first := (z.page - 2 * z.journal - z.footer) / z.entry;
            n == if total <= first then 1 else if total <= first + (z.page - z.footer) / z.entry then 2 else 3
  {
    TotalIs(z, logs);
    var validSumCount := 0;
    for i := 0 to NR_DATA_LOGS
      invariant validSumCount == Total(z, logs, i)
    {
      validSumCount := validSumCount + if logs[i].ssr then z.perLog else logs[i].next;
    }
    var sumInPage := (z.page - 2 * z.journal - z.footer) / z.entry;
    if validSumCount <= sumInPage { return 1; }
    if validSumCount - sumInPage <= (z.page - z.footer) / z.entry { return 2; }
    return 3;
  }

  /** Entries of the first n logs. */
  function Total(z: Sizes, logs: seq<DataLog>, n: nat): nat
    requires n <= |logs|
  {
    if n == 0 then 0 else Total(z, logs, n - 1) + Count(z, logs[n - 1])
  }

  /** A reused log has all its entries written, any other those before its next offset. */
  lemma TotalIs(z: Sizes, logs: seq<DataLog>)
    requires |logs| == NR_DATA_LOGS
    ensures Total(z, logs, 0) == 0
    ensures Total(z, logs, 1) == if logs[0].ssr then z.perLog else logs[0].next
    ensures Total(z, logs, 2) == Total(z, logs, 1) + if logs[1].ssr then z.perLog else logs[1].next
    ensures Total(z, logs, 3) == Total(z, logs, 2) + if logs[2].ssr then z.perLog else logs[2].next
  {
    assert Total(z, logs, 1) == Total(z, logs, 0) + Count(z, logs[0]);
    assert Total(z, logs, 2) == Total(z, logs, 1) + Count(z, logs[1]);
  }

  /** The pages needed are one, two, or at least three, just as npages_for_summary_flush says. */
  lemma PagesAgree(z: Sizes, n: nat)
    requires z.Valid()
    ensures PagesFor(z, n) == 1 <==> n <= z.First()
    ensures PagesFor(z, n) == 2 <==> z.First() < n <= z.First() + z.Later()
  {
    FirstFull(z);
    SecondFull(z);
    if n > 0 {
      if n <= z.First() {
        PlaceInFirst(z, n - 1);
      } else if n <= z.First() + z.Later() {
        PlaceInSecond(z, n - 1 - z.First());
      } else if n - 1 > z.First() + z.Later() {
        PlacesInOrder(z, z.First() + z.Later(), n - 1);
      }
    }
  }

  // ------------------------------------------------------- the meta pages

  /** Pages from blkaddr on are there and of page size. */
  ghost predicate PagesOk(z: Sizes, pages: map<nat, seq<Byte>>) {
    forall a :: a in pages ==> |pages[a]| == z.page
  }

  function Splice(s: seq<Byte>, off: nat, bytes: seq<Byte>): (r: seq<Byte>)
    requires off + |bytes| <= |s|
    ensures |r| == |s|
    ensures r[off..off + |bytes|] == bytes
    ensures forall i :: 0 <= i < |s| && !(off <= i < off + |bytes|) ==> r[i] == s[i]
  {
    s[..off] + bytes + s[off + |bytes|..]
  }

  /** Entry k lies at its place, counted from page start. */
  ghost predicate Holds(z: Sizes, pages: map<nat, seq<Byte>>, start: nat, k: nat, entry: seq<Byte>) {
    var p := PlaceOf(z, k);
    && start + p.page in pages && |pages[start + p.page]| == z.page && p.off + z.entry <= z.page
    && pages[start + p.page][p.off..p.off + z.entry] == entry
  }

  ghost predicate JournalsHold(z: Sizes, pages: map<nat, seq<Byte>>, start: nat, nat': seq<Byte>, sit: seq<Byte>) {
    && start in pages && |pages[start]| == z.page && 2 * z.journal <= z.page
    && pages[start][..z.journal] == nat' && pages[start][z.journal..2 * z.journal] == sit
  }

  /** Entry j of log i is the entry with this number. */
  ghost function Number(z: Sizes, logs: seq<DataLog>, i: nat, j: nat): nat
    requires i < |logs|
  {
    Total(z, logs, i) + j
  }

  /** All entries of the logs before i, and those before j of log i, are in place. */
  ghost predicate Written(z: Sizes, pages: map<nat, seq<Byte>>, start: nat, logs: seq<DataLog>, i: nat, j: nat)
    requires |logs| == NR_DATA_LOGS && forall l :: 0 <= l < |logs| ==> LogOk(z, logs[l])
  {
    forall x: nat, y: nat :: x < NR_DATA_LOGS && y < Count(z, logs[x]) && y < |logs[x].entries| && (x < i || (x == i && y < j)) ==>
      Holds(z, pages, start, Number(z, logs, x, y), logs[x].entries[y])
  }

  /** Writing entry n leaves the entries before it, and the journals, as they are. */
  lemma WriteKeeps(z: Sizes, pages: map<nat, seq<Byte>>, start: nat, k: nat, n: nat, entry: seq<Byte>, bytes: seq<Byte>)
    requires z.Valid() && k < n && Holds(z, pages, start, k, entry) && |bytes| == z.entry
    requires var q := PlaceOf(z, n); start + q.page in pages && |pages[start + q.page]| == z.page
    ensures PlaceOf(z, n).off + z.entry <= z.page
    ensures var q := PlaceOf(z, n);
            Holds(z, pages[start + q.page := Splice(pages[start + q.page], q.off, bytes)], start, k, entry)
  {
    PlacesInOrder(z, k, n);
    PlaceFits(z, n);
  }

  lemma WriteKeepsJournals(z: Sizes, pages: map<nat, seq<Byte>>, start: nat, n: nat, a: seq<Byte>, b: seq<Byte>, bytes: seq<Byte>)
    requires z.Valid() && JournalsHold(z, pages, start, a, b) && |bytes| == z.entry
    requires var q := PlaceOf(z, n); start + q.page in pages && |pages[start + q.page]| == z.page
    ensures PlaceOf(z, n).off + z.entry <= z.page
    ensures var q := PlaceOf(z, n);
            JournalsHold(z, pages[start + q.page := Splice(pages[start + q.page], q.off, bytes)], start, a, b)
  {
    PlaceFits(z, n);
  }

  lemma {:induction false} TotalGrows(z: Sizes, logs: seq<DataLog>, x: nat, y: nat)
    requires x < y <= |logs|
    ensures Total(z, logs, x) + Count(z, logs[x]) <= Total(z, logs, y)
  {
    if x < y - 1 { TotalGrows(z, logs, x, y - 1); }
  }

  /** One more entry is in place, and all before it still are. */
  lemma WrittenMore(z: Sizes, a: map<nat, seq<Byte>>, b: map<nat, seq<Byte>>, start: nat, logs: seq<DataLog>, i: nat, j: nat)
    requires z.Valid() && |logs| == NR_DATA_LOGS && forall l :: 0 <= l < |logs| ==> LogOk(z, logs[l])
    requires i < NR_DATA_LOGS && j < Count(z, logs[i]) && Written(z, a, start, logs, i, j)
    requires var q := PlaceOf(z, Number(z, logs, i, j));
             && start + q.page in a && |a[start + q.page]| == z.page && q.off + z.entry <= z.page && j < |logs[i].entries|
             && b == a[start + q.page := Splice(a[start + q.page], q.off, logs[i].entries[j])]
    ensures Written(z, b, start, logs, i, j + 1)
  {
    var n := Number(z, logs, i, j);
    forall x: nat, y: nat | x < NR_DATA_LOGS && y < Count(z, logs[x]) && y < |logs[x].entries| && (x < i || (x == i && y < j + 1))
      ensures Holds(z, b, start, Number(z, logs, x, y), logs[x].entries[y])
    {
      if x < i || y < j {
        if x < i { TotalGrows(z, logs, x, i); }
        WriteKeeps(z, a, start, Number(z, logs, x, y), n, logs[x].entries[y], logs[i].entries[j]);
      }
    }
  }

  /** The log is done: the next entry is the first of the next log. */
  lemma WrittenLog(z: Sizes, pages: map<nat, seq<Byte>>, start: nat, logs: seq<DataLog>, i: nat)
    requires |logs| == NR_DATA_LOGS && forall l :: 0 <= l < |logs| ==> LogOk(z, logs[l])
    requires i < NR_DATA_LOGS && Written(z, pages, start, logs, i, Count(z, logs[i]))
    ensures Written(z, pages, start, logs, i + 1, 0) && Number(z, logs, i, Count(z, logs[i])) == Total(z, logs, i + 1)
  {
  }

  /** Bringing in a page that was not there yet changes none of the others. */
  lemma GrabKeeps(z: Sizes, a: map<nat, seq<Byte>>, b: map<nat, seq<Byte>>, start: nat, logs: seq<DataLog>, i: nat, j: nat)
    requires |logs| == NR_DATA_LOGS && (forall l :: 0 <= l < |logs| ==> LogOk(z, logs[l]))
    requires Written(z, a, start, logs, i, j) && forall x :: x in a ==> x in b && b[x] == a[x]
    ensures Written(z, b, start, logs, i, j)
  {
    forall x: nat, y: nat | x < NR_DATA_LOGS && y < Count(z, logs[x]) && y < |logs[x].entries| && (x < i || (x == i && y < j))
      ensures Holds(z, b, start, Number(z, logs, x, y), logs[x].entries[y])
    {
      assert Holds(z, a, start, Number(z, logs, x, y), logs[x].entries[y]);
    }
  }

  /** Where the writer stands before entry n: how many pages it has taken, and whether the last has room. */
  ghost predicate At(z: Sizes, start: nat, n: nat, blkaddr: nat, hasPage: bool, written: nat) {
    && blkaddr == start + PagesFor(z, n)
    && if hasPage then PlaceOf(z, n) == Place(PagesFor(z, n) - 1, written) else PlaceOf(z, n) == Place(PagesFor(z, n), 0)
  }

  class MetaPages {
    var pages: map<nat, seq<Byte>>

    constructor ()
      ensures pages == map[]
    {
      pages := map[];
    }

    /** grab_meta_page. */
    method GrabPage(z: Sizes, addr: nat)
      requires PagesOk(z, pages)
      modifies this
      ensures PagesOk(z, pages) && addr in pages
      ensures forall a :: a in old(pages) ==> a in pages && pages[a] == old(pages)[a]
      ensures forall a :: a in pages && a != addr ==> a in old(pages)
    {
      if addr !in pages { pages := pages[addr := seq(z.page, _ => 0)]; }
    }

    /** write_compacted_summaries; the number of pages written is returned. */
    method WriteCompactedSummaries(z: Sizes, logs: seq<DataLog>, start: nat) returns (used: nat)
      requires z.Valid() && PagesOk(z, pages) && |logs| == NR_DATA_LOGS && forall l :: 0 <= l < |logs| ==> LogOk(z, logs[l])
      modifies this
      ensures PagesOk(z, pages) && used == PagesFor(z, Total(z, logs, 3))
      ensures JournalsHold(z, pages, start, logs[0].journal, logs[2].journal)
      ensures start in pages && pages[start][..z.journal] == logs[0].journal && pages[start][z.journal..2 * z.journal] == logs[2].journal
      ensures Written(z, pages, start, logs, 3, 0)
      ensures forall x: nat, y: nat :: x < NR_DATA_LOGS && y < (if logs[x].ssr then z.perLog else logs[x].next) ==>
                y < |logs[x].entries| && Holds(z, pages, start, Number(z, logs, x, y), logs[x].entries[y])
      ensures Kept(old(pages), pages, start, start + used)
    {
      var blkaddr: nat, written: nat, hasPage := start, 0, true;
      GrabPage(z, blkaddr);
      blkaddr := blkaddr + 1;
      var first := Splice(pages[start], 0, logs[0].journal);
      written := z.journal;
      first := Splice(first, written, logs[2].journal);
      written := written + z.journal;
      JournalsPlaced(z, pages[start], logs[0].journal, logs[2].journal);
      pages := pages[start := first];
      ghost var p0 := old(pages);
      for i: nat := 0 to NR_DATA_LOGS
        invariant PagesOk(z, pages) && At(z, start, Total(z, logs, i), blkaddr, hasPage, written)
        invariant Written(z, pages, start, logs, i, 0) && JournalsHold(z, pages, start, logs[0].journal, logs[2].journal)
        invariant Kept(p0, pages, start, blkaddr)
        invariant hasPage ==> blkaddr - 1 in pages
      {
        blkaddr, hasPage, written := WriteLog(z, logs, start, i, blkaddr, hasPage, written, p0);
      }
      used := blkaddr - start;
    }

    /** The entries of one log. */
    method WriteLog(z: Sizes, logs: seq<DataLog>, start: nat, i: nat, blkaddr0: nat, hasPage0: bool, written0: nat,
                    ghost p0: map<nat, seq<Byte>>)
      returns (blkaddr: nat, hasPage: bool, written: nat)
      requires z.Valid() && |logs| == NR_DATA_LOGS && (forall l :: 0 <= l < |logs| ==> LogOk(z, logs[l])) && i < NR_DATA_LOGS
      requires PagesOk(z, pages) && At(z, start, Total(z, logs, i), blkaddr0, hasPage0, written0)
      requires Written(z, pages, start, logs, i, 0) && JournalsHold(z, pages, start, logs[0].journal, logs[2].journal)
      requires Kept(p0, pages, start, blkaddr0) && (hasPage0 ==> blkaddr0 - 1 in pages)
      modifies this
      ensures PagesOk(z, pages) && At(z, start, Total(z, logs, i + 1), blkaddr, hasPage, written)
      ensures Written(z, pages, start, logs, i + 1, 0) && JournalsHold(z, pages, start, logs[0].journal, logs[2].journal)
      ensures Kept(p0, pages, start, blkaddr) && (hasPage ==> blkaddr - 1 in pages)
    {
      blkaddr, hasPage, written := blkaddr0, hasPage0, written0;
      var blkoff := if logs[i].ssr then z.perLog else logs[i].next;
      for j: nat := 0 to blkoff
        invariant PagesOk(z, pages) && At(z, start, Number(z, logs, i, j), blkaddr, hasPage, written)
        invariant Written(z, pages, start, logs, i, j) && JournalsHold(z, pages, start, logs[0].journal, logs[2].journal)
        invariant Kept(p0, pages, start, blkaddr) && (hasPage ==> blkaddr - 1 in pages)
      {
        blkaddr, hasPage, written := WriteEntry(z, logs, start, i, j, blkaddr, hasPage, written, p0);
      }
      WrittenLog(z, pages, start, logs, i);
    }

    /** The body of the inner loop of write_compacted_summaries. */
    method WriteEntry(z: Sizes, logs: seq<DataLog>, start: nat, i: nat, j: nat, blkaddr0: nat, hasPage0: bool, written0: nat,
                      ghost p0: map<nat, seq<Byte>>)
      returns (blkaddr: nat, hasPage: bool, written: nat)
      requires z.Valid() && |logs| == NR_DATA_LOGS && (forall l :: 0 <= l < |logs| ==> LogOk(z, logs[l]))
      requires i < NR_DATA_LOGS && j < Count(z, logs[i])
      requires PagesOk(z, pages) && At(z, start, Number(z, logs, i, j), blkaddr0, hasPage0, written0)
      requires Written(z, pages, start, logs, i, j) && JournalsHold(z, pages, start, logs[0].journal, logs[2].journal)
      requires Kept(p0, pages, start, blkaddr0) && (hasPage0 ==> blkaddr0 - 1 in pages)
      modifies this
      ensures PagesOk(z, pages) && At(z, start, Number(z, logs, i, j + 1), blkaddr, hasPage, written)
      ensures Written(z, pages, start, logs, i, j + 1) && JournalsHold(z, pages, start, logs[0].journal, logs[2].journal)
      ensures Kept(p0, pages, start, blkaddr) && (hasPage ==> blkaddr - 1 in pages)
    {
      ghost var before := pages;
      blkaddr, hasPage, written := blkaddr0, hasPage0, written0;
      if !hasPage {
        GrabPage(z, blkaddr);
        blkaddr := blkaddr + 1;
        hasPage, written := true, 0;
      }
      GrabKeeps(z, before, pages, start, logs, i, j);
      StoreEntry(z, logs, start, i, j, blkaddr - 1, written);
      written := written + z.entry;
      PlaceFits(z, Number(z, logs, i, j));
      if written + z.entry > z.page - z.footer { hasPage := false; }
    }

    /** One summary entry goes to its page. */
    method StoreEntry(z: Sizes, logs: seq<DataLog>, start: nat, i: nat, j: nat, addr: nat, off: nat)
      requires z.Valid() && |logs| == NR_DATA_LOGS && (forall l :: 0 <= l < |logs| ==> LogOk(z, logs[l]))
      requires i < NR_DATA_LOGS && j < Count(z, logs[i]) && PagesOk(z, pages) && addr in pages
      requires addr >= start && PlaceOf(z, Number(z, logs, i, j)) == Place(addr - start, off)
      requires Written(z, pages, start, logs, i, j) && JournalsHold(z, pages, start, logs[0].journal, logs[2].journal)
      modifies this
      ensures PagesOk(z, pages) && (forall a :: a in old(pages) <==> a in pages)
      ensures forall a :: a in pages && a != addr ==> pages[a] == old(pages)[a]
      ensures Written(z, pages, start, logs, i, j + 1) && JournalsHold(z, pages, start, logs[0].journal, logs[2].journal)
    {
      ghost var n, before := Number(z, logs, i, j), pages;
      PlaceFits(z, n);
      pages := pages[addr := Splice(pages[addr], off, logs[i].entries[j])];
      WrittenMore(z, before, pages, start, logs, i, j);
      WriteKeepsJournals(z, before, start, n, logs[0].journal, logs[2].journal, logs[i].entries[j]);
    }

    /** get_meta_page; a page that was never written reads as zeros. */
    method GetPage(z: Sizes, addr: nat) returns (page: seq<Byte>)
      requires PagesOk(z, pages)
      ensures |page| == z.page && (addr in pages ==> page == pages[addr])
    {
      page := if addr in pages then pages[addr] else seq(z.page, _ => 0);
    }

    /**
      read_compacted_summaries: logs come in as they are in memory, with the
      allocation types and offsets of the checkpoint block, and get their entries
      and the two journals from the pages.
     */
    method ReadCompactedSummaries(z: Sizes, logs0: seq<DataLog>, start: nat) returns (logs: seq<DataLog>)
      requires z.Valid() && PagesOk(z, pages) && |logs0| == NR_DATA_LOGS && forall l :: 0 <= l < |logs0| ==> LogOk(z, logs0[l])
      requires forall x: nat :: start <= x < start + PagesFor(z, Total(z, logs0, 3)) ==> x in pages
      ensures |logs| == NR_DATA_LOGS && forall l :: 0 <= l < |logs| ==> LogOk(z, logs[l]) && SameHead(logs0[l], logs[l])
      ensures JournalsHold(z, pages, start, logs[0].journal, logs[2].journal)
      ensures start in pages && pages[start][..z.journal] == logs[0].journal && pages[start][z.journal..2 * z.journal] == logs[2].journal
      ensures Written(z, pages, start, logs, 3, 0)
      ensures forall x: nat, y: nat :: x < NR_DATA_LOGS && y < (if logs[x].ssr then z.perLog else logs[x].next) ==>
                y < |logs[x].entries| && Holds(z, pages, start, Number(z, logs, x, y), logs[x].entries[y])
    {
      var blkaddr: nat := start;
      var kaddr := GetPage(z, blkaddr);
      blkaddr := blkaddr + 1;
      logs := logs0[0 := logs0[0].(journal := kaddr[..z.journal])];
      logs := logs[2 := logs[2].(journal := kaddr[z.journal..2 * z.journal])];
      ghost var j0, j2 := logs[0].journal, logs[2].journal;
      var offset: nat := 2 * z.journal;
      for i: nat := 0 to NR_DATA_LOGS
        invariant |logs| == NR_DATA_LOGS && forall l :: 0 <= l < |logs| ==> LogOk(z, logs[l]) && SameHead(logs0[l], logs[l])
        invariant logs[0].journal == j0 && logs[2].journal == j2
        invariant Reading(z, pages, start, Total(z, logs0, i), blkaddr, kaddr, offset)
        invariant Written(z, pages, start, logs, i, 0)
      {
        SameTotals(z, logs0, logs, 3);
        SameTotals(z, logs0, logs, i);
        ghost var before := logs;
        blkaddr, kaddr, offset, logs := ReadLog(z, logs, start, i, blkaddr, kaddr, offset);
        SameTotals(z, logs0, before, i + 1);
      }
    }

    /** The entries of one log. */
    method ReadLog(z: Sizes, logs0: seq<DataLog>, start: nat, i: nat, blkaddr0: nat, kaddr0: seq<Byte>, offset0: nat)
      returns (blkaddr: nat, kaddr: seq<Byte>, offset: nat, logs: seq<DataLog>)
      requires z.Valid() && PagesOk(z, pages) && |logs0| == NR_DATA_LOGS && forall l :: 0 <= l < |logs0| ==> LogOk(z, logs0[l])
      requires i < NR_DATA_LOGS && forall x: nat :: start <= x < start + PagesFor(z, Total(z, logs0, 3)) ==> x in pages
      requires Reading(z, pages, start, Total(z, logs0, i), blkaddr0, kaddr0, offset0)
      requires Written(z, pages, start, logs0, i, 0)
      ensures |logs| == NR_DATA_LOGS && logs == logs0[i := logs0[i].(entries := logs[i].entries)] && LogOk(z, logs[i])
      ensures Reading(z, pages, start, Total(z, logs0, i + 1), blkaddr, kaddr, offset)
      ensures Written(z, pages, start, logs, i + 1, 0)
    {
      blkaddr, kaddr, offset, logs := blkaddr0, kaddr0, offset0, logs0;
      assert logs0[i := logs0[i].(entries := logs0[i].entries)] == logs0;
      var blkOff := if logs0[i].ssr then z.perLog else logs0[i].next;
      for j: nat := 0 to blkOff
        invariant InLog(z, logs0, logs, i) && Written(z, pages, start, logs, i, j)
        invariant Reading(z, pages, start, Number(z, logs0, i, j), blkaddr, kaddr, offset)
      {
        blkaddr, kaddr, offset, logs := ReadEntry(z, logs0, logs, start, i, j, blkaddr, kaddr, offset);
      }
      SameTotals(z, logs0, logs, i);
      WrittenLog(z, pages, start, logs, i);
    }

    /** The body of the inner loop of read_compacted_summaries. */
    method ReadEntry(z: Sizes, ghost logs0: seq<DataLog>, a: seq<DataLog>, start: nat, i: nat, j: nat, blkaddr0: nat, kaddr0: seq<Byte>, offset0: nat)
      returns (blkaddr: nat, kaddr: seq<Byte>, offset: nat, b: seq<DataLog>)
      requires z.Valid() && PagesOk(z, pages) && |logs0| == NR_DATA_LOGS && (forall l :: 0 <= l < |logs0| ==> LogOk(z, logs0[l]))
      requires i < NR_DATA_LOGS && InLog(z, logs0, a, i) && j < Count(z, logs0[i])
      requires forall x: nat :: start <= x < start + PagesFor(z, Total(z, logs0, 3)) ==> x in pages
      requires Reading(z, pages, start, Number(z, logs0, i, j), blkaddr0, kaddr0, offset0) && Written(z, pages, start, a, i, j)
      ensures InLog(z, logs0, b, i) && Written(z, pages, start, b, i, j + 1)
      ensures Reading(z, pages, start, Number(z, logs0, i, j + 1), blkaddr, kaddr, offset)
    {
      ghost var n := Number(z, logs0, i, j);
      SameTotals(z, logs0, a, i);
      PageThere(z, logs0, i, j);
      assert start + PlaceOf(z, n).page in pages;
      PlaceFits(z, n);
      blkaddr, kaddr, offset := blkaddr0, kaddr0, offset0;
      b := a[i := a[i].(entries := a[i].entries[j := kaddr[offset..offset + z.entry]])];
      ReadMore(z, pages, start, a, b, i, j);
      offset := offset + z.entry;
      if offset + z.entry > z.page - z.footer {
        kaddr := GetPage(z, blkaddr);
        blkaddr := blkaddr + 1;
        offset := 0;
      }
    }
  }

  /** Only the entries of log i have been read. */
  predicate InLog(z: Sizes, logs0: seq<DataLog>, logs: seq<DataLog>, i: nat) {
    && |logs0| == NR_DATA_LOGS && i < NR_DATA_LOGS && |logs| == NR_DATA_LOGS
    && logs == logs0[i := logs0[i].(entries := logs[i].entries)] && forall l :: 0 <= l < |logs| ==> LogOk(z, logs[l])
  }

  /** The pages from start to end are there; the others are as they were. */
  ghost predicate Kept(a: map<nat, seq<Byte>>, b: map<nat, seq<Byte>>, start: nat, end: nat) {
    && (forall x: nat :: start <= x < end ==> x in b)
    && forall x :: x in a && !(start <= x < end) ==> x in b && b[x] == a[x]
  }

  lemma JournalsPlaced(z: Sizes, page: seq<Byte>, a: seq<Byte>, b: seq<Byte>)
    requires z.Valid() && |page| == z.page && |a| == z.journal == |b|
    ensures var r := Splice(Splice(page, 0, a), z.journal, b); r[..z.journal] == a && r[z.journal..2 * z.journal] == b
  {
    var r := Splice(Splice(page, 0, a), z.journal, b);
    assert r[..z.journal] == Splice(page, 0, a)[0..z.journal];
  }

  /** Only entries and journals differ. */
  predicate SameHead(a: DataLog, b: DataLog) { a.ssr == b.ssr && a.next == b.next }

  lemma {:induction false} SameTotals(z: Sizes, a: seq<DataLog>, b: seq<DataLog>, n: nat)
    requires |a| == |b| && n <= |a| && forall l :: 0 <= l < |a| ==> SameHead(a[l], b[l])
    ensures Total(z, a, n) == Total(z, b, n)
  {
    if n > 0 { SameTotals(z, a, b, n - 1); }
  }

  /** The reader has the page of entry n in its hands, and stands at the entry. */
  ghost predicate Reading(z: Sizes, pages: map<nat, seq<Byte>>, start: nat, n: nat, blkaddr: nat, kaddr: seq<Byte>, offset: nat) {
    var p := PlaceOf(z, n);
    blkaddr == start + p.page + 1 && offset == p.off && |kaddr| == z.page && (start + p.page in pages ==> kaddr == pages[start + p.page])
  }

  /** The page of every entry was written. */
  lemma PageThere(z: Sizes, logs: seq<DataLog>, i: nat, j: nat)
    requires z.Valid() && i < |logs| && |logs| == NR_DATA_LOGS && j < Count(z, logs[i])
    ensures PlaceOf(z, Number(z, logs, i, j)).page < PagesFor(z, Total(z, logs, 3))
  {
    TotalGrows(z, logs, i, 3);
    var n, last := Number(z, logs, i, j), Total(z, logs, 3) - 1;
    if n < last { PlacesInOrder(z, n, last); }
  }

  lemma ReadMore(z: Sizes, pages: map<nat, seq<Byte>>, start: nat, a: seq<DataLog>, b: seq<DataLog>, i: nat, j: nat)
    requires z.Valid() && |a| == NR_DATA_LOGS && (forall l :: 0 <= l < |a| ==> LogOk(z, a[l]))
    requires i < NR_DATA_LOGS && j < Count(z, a[i]) && j < |a[i].entries| && Written(z, pages, start, a, i, j)
    requires var p := PlaceOf(z, Number(z, a, i, j));
             && start + p.page in pages && |pages[start + p.page]| == z.page && p.off + z.entry <= z.page
             && b == a[i := a[i].(entries := a[i].entries[j := pages[start + p.page][p.off..p.off + z.entry]])]
    ensures LogOk(z, b[i]) && Written(z, pages, start, b, i, j + 1)
  {
    forall x: nat, y: nat | x < NR_DATA_LOGS && y < Count(z, b[x]) && y < |b[x].entries| && (x < i || (x == i && y < j + 1))
      ensures Holds(z, pages, start, Number(z, b, x, y), b[x].entries[y])
    {
      SameTotals(z, a, b, x);
      if x < i || y < j { assert Holds(z, pages, start, Number(z, a, x, y), a[x].entries[y]); }
    }
  }

  /** Reading what was written restores both journals and every entry of the data logs. */
  lemma RoundTrip(z: Sizes, pages: map<nat, seq<Byte>>, start: nat, written: seq<DataLog>, read: seq<DataLog>)
    requires z.Valid() && |written| == NR_DATA_LOGS == |read|
    requires forall l :: 0 <= l < NR_DATA_LOGS ==> LogOk(z, written[l]) && LogOk(z, read[l]) && SameHead(written[l], read[l])
    requires Written(z, pages, start, written, 3, 0) && Written(z, pages, start, read, 3, 0)
    requires JournalsHold(z, pages, start, written[0].journal, written[2].journal)
    requires JournalsHold(z, pages, start, read[0].journal, read[2].journal)
    ensures read[0].journal == written[0].journal && read[2].journal == written[2].journal
    ensures forall i, j :: 0 <= i < NR_DATA_LOGS && 0 <= j < (if written[i].ssr then z.perLog else written[i].next) ==>
              read[i].entries[j] == written[i].entries[j]
  {
    forall i: nat, j: nat | i < NR_DATA_LOGS && j < (if written[i].ssr then z.perLog else written[i].next)
      ensures read[i].entries[j] == written[i].entries[j]
    {
      SameTotals(z, written, read, i);
      assert Holds(z, pages, start, Number(z, written, i, j), written[i].entries[j]);
      assert Holds(z, pages, start, Number(z, read, i, j), read[i].entries[j]);
    }
  }

  /** A checkpoint's summaries and the mount after it. */
  method WriteThenRead(meta: MetaPages, z: Sizes, logs: seq<DataLog>, memory: seq<DataLog>, start: nat)
    returns (read: seq<DataLog>, npages: nat, used: nat)
    requires z.Valid() && PagesOk(z, meta.pages) && |logs| == NR_DATA_LOGS == |memory|
    requires forall l :: 0 <= l < NR_DATA_LOGS ==> LogOk(z, logs[l]) && LogOk(z, memory[l]) && SameHead(logs[l], memory[l])
    modifies meta
    ensures |read| == NR_DATA_LOGS && (npages < 3 ==> used == npages) && (npages >= 3 ==> used >= 3)
    ensures read[0].journal == logs[0].journal && read[2].journal == logs[2].journal
    ensures forall i, j :: 0 <= i < NR_DATA_LOGS && 0 <= j < (if logs[i].ssr then z.perLog else logs[i].next) ==>
              j < |read[i].entries| && j < |logs[i].entries| && read[i].entries[j] == logs[i].entries[j]
  {
    npages := NpagesForSummaryFlush(z, logs);
    PagesAgree(z, Total(z, logs, 3));
    used := meta.WriteCompactedSummaries(z, logs, start);
    SameTotals(z, logs, memory, 3);
    read := meta.ReadCompactedSummaries(z, memory, start);
    RoundTrip(z, meta.pages, start, logs, read);
  }
}
