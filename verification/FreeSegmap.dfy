/**
  The free-segment map of the segment manager: one bit per segment, one bit per
  section, and a counter for each. The functions say what each update means on
  values; class FreeSegmapInfo performs them in place, and get_new_segment is
  proved to pick a segment that was free.
 */
module FreeSegmap {
  import opened Bitmap

  /** Sizes of the main area; segments are grouped in sections, sections in zones. */
  datatype Geometry = Geometry(sections: nat, segsPerSec: nat, secsPerZone: nat, blocksPerSeg: nat)
  {
    predicate Valid() { segsPerSec > 0 && secsPerZone > 0 && blocksPerSeg > 0 }

    function Segments(): nat { sections * segsPerSec }
  }

  function SecOf(g: Geometry, segno: nat): nat
    requires g.Valid()
  {
    segno / g.segsPerSec
  }

  function ZoneOf(g: Geometry, segno: nat): nat
    requires g.Valid()
  {
    SecOf(g, segno) / g.secsPerZone
  }

  lemma SecRange(g: Geometry, segno: nat, secno: nat)
    requires g.Valid()
    ensures SecOf(g, segno) == secno <==> secno * g.segsPerSec <= segno < secno * g.segsPerSec + g.segsPerSec
    ensures segno < g.Segments() <==> SecOf(g, segno) < g.sections
  {
    var q, r := segno / g.segsPerSec, segno % g.segsPerSec;
    assert segno == q * g.segsPerSec + r;
    MulOrder(g.segsPerSec, q, secno);
    MulOrder(g.segsPerSec, secno, q);
    MulOrder(g.segsPerSec, q, g.sections);
    MulOrder(g.segsPerSec, g.sections, q);
  }

  lemma {:induction false} MulOrder(n: nat, a: nat, b: nat)
    ensures a < b ==> a * n + n <= b * n
    ensures a <= b ==> a * n <= b * n
    decreases b
  {
    if a < b {
      MulOrder(n, a, b - 1);
      assert b * n == (b - 1) * n + n;
    }
  }

  datatype FreeMap = FreeMap(inuse: seq<bool>, secInuse: seq<bool>, freeSegments: int, freeSections: int)

  ghost predicate SomeInuse(g: Geometry, inuse: seq<bool>, secno: nat)
    requires g.Valid()
  {
    exists segno: nat :: segno < |inuse| && inuse[segno] && SecOf(g, segno) == secno
  }

  /** The section map and both counters agree with the segment map. */
  ghost predicate FreeMapOk(g: Geometry, f: FreeMap)
  {
    && g.Valid()
    && |f.inuse| == g.Segments()
    && |f.secInuse| == g.sections
    && (forall segno: nat {:trigger SecOf(g, segno)} :: segno < |f.inuse| ==> SecOf(g, segno) < |f.secInuse|)
    && (forall secno: nat :: secno < g.sections ==> f.secInuse[secno] == SomeInuse(g, f.inuse, secno))
    && f.freeSegments == |f.inuse| - Count(f.inuse)
    && f.freeSections == |f.secInuse| - Count(f.secInuse)
  }

  /** Taking a segment into use: what __set_inuse and __set_test_and_inuse leave behind. */
  function TakeSegment(g: Geometry, f: FreeMap, segno: nat): FreeMap
    requires g.Valid() && segno < |f.inuse| && SecOf(g, segno) < |f.secInuse|
  {
    if f.inuse[segno] then f
    else FreeMap(f.inuse[segno := true], f.secInuse[SecOf(g, segno) := true], f.freeSegments - 1,
                 if f.secInuse[SecOf(g, segno)] then f.freeSections else f.freeSections - 1)
  }

  /** Giving a segment back: what __set_free and __set_test_and_free leave behind. */
  function GiveSegment(g: Geometry, f: FreeMap, segno: nat): FreeMap
    requires g.Valid() && segno < |f.inuse| && SecOf(g, segno) < |f.secInuse|
  {
    if !f.inuse[segno] then f
    else
      var inuse := f.inuse[segno := false];
      var secno := SecOf(g, segno);
      if NextOne(inuse, secno * g.segsPerSec) < secno * g.segsPerSec + g.segsPerSec then FreeMap(inuse, f.secInuse, f.freeSegments + 1, f.freeSections)
      else FreeMap(inuse, f.secInuse[secno := false], f.freeSegments + 1,
                   if f.secInuse[secno] then f.freeSections + 1 else f.freeSections)
  }

  lemma TakeKeepsOk(g: Geometry, f: FreeMap, segno: nat)
    requires FreeMapOk(g, f) && segno < |f.inuse|
    ensures SecOf(g, segno) < |f.secInuse|
    ensures FreeMapOk(g, TakeSegment(g, f, segno))
    ensures TakeSegment(g, f, segno).inuse == f.inuse[segno := true]
  {
    var s := SecOf(g, segno);
    if !f.inuse[segno] {
      var f' := TakeSegment(g, f, segno);
      CountUpdate(f.inuse, segno, true);
      CountUpdate(f.secInuse, s, true);
      forall secno: nat | secno < g.sections
        ensures f'.secInuse[secno] == SomeInuse(g, f'.inuse, secno)
      {
        if secno == s {
          assert f'.inuse[segno];
        } else if SomeInuse(g, f.inuse, secno) {
          var w: nat :| w < |f.inuse| && f.inuse[w] && SecOf(g, w) == secno;
          assert f'.inuse[w];
        }
      }
    }
  }

  lemma GiveKeepsOk(g: Geometry, f: FreeMap, segno: nat)
    requires FreeMapOk(g, f) && segno < |f.inuse|
    ensures SecOf(g, segno) < |f.secInuse|
    ensures FreeMapOk(g, GiveSegment(g, f, segno))
    ensures GiveSegment(g, f, segno).inuse == f.inuse[segno := false]
  {
    var s := SecOf(g, segno);
    if f.inuse[segno] {
      assert SomeInuse(g, f.inuse, s);
      var f' := GiveSegment(g, f, segno);
      CountUpdate(f.inuse, segno, false);
      CountUpdate(f.secInuse, s, false);
      FirstInSection(g, f'.inuse, s);
      forall secno: nat | secno < g.sections && secno != s
        ensures f'.secInuse[secno] == SomeInuse(g, f'.inuse, secno)
      {
        if SomeInuse(g, f.inuse, secno) {
          var w: nat :| w < |f.inuse| && f.inuse[w] && SecOf(g, w) == secno;
          assert f'.inuse[w];
        }
      }
    }
  }

  /** Searching from the start of a section finds whether any of its segments is in use. */
  lemma FirstInSection(g: Geometry, inuse: seq<bool>, secno: nat)
    requires g.Valid() && |inuse| == g.Segments() && secno < g.sections
    ensures SomeInuse(g, inuse, secno) <==>
              NextOne(inuse, secno * g.segsPerSec) < secno * g.segsPerSec + g.segsPerSec
  {
    var start := secno * g.segsPerSec;
    var n := NextOne(inuse, start);
    SectionEnd(g, secno);
    if n < start + g.segsPerSec {
      assert inuse[n];
      SecRange(g, n, secno);
    } else if SomeInuse(g, inuse, secno) {
      var w: nat :| w < |inuse| && inuse[w] && SecOf(g, w) == secno;
      SecRange(g, w, secno);
      assert false;
    }
  }

  lemma SectionEnd(g: Geometry, secno: nat)
    requires secno < g.sections
    ensures secno * g.segsPerSec + g.segsPerSec <= g.Segments()
  {
    MulOrder(g.segsPerSec, secno, g.sections);
  }

  /** A clear section bit means every segment of the section is free. */
  lemma FreeSection(g: Geometry, f: FreeMap, secno: nat)
    requires FreeMapOk(g, f) && secno < g.sections && !f.secInuse[secno]
    ensures secno * g.segsPerSec < |f.inuse| && !f.inuse[secno * g.segsPerSec]
    ensures SecOf(g, secno * g.segsPerSec) == secno
  {
    SecRange(g, secno * g.segsPerSec, secno);
  }

  // ------------------------------------------------- choosing a new segment

  datatype Direction = AllocRight | AllocLeft

  /** The leftward walk of get_new_segment: the nearest free section at or before l, else the first one. */
  function WalkLeft(s: seq<bool>, l: nat): (r: nat)
    requires l < |s| && NextZero(s, 0) < |s|
    ensures r < |s| && !s[r]
  {
    if !s[l] then l
    else if l > 0 then WalkLeft(s, l - 1)
    else NextZero(s, 0)
  }

  /** One pass of the section search: the section found, whether the search went left, and where to. */
  datatype Pass = Pass(secno: nat, goLeft: bool, leftStart: nat)

  function SearchSection(s: seq<bool>, hint: nat, dir: Direction, goLeft: bool, leftStart: nat): (p: Pass)
    requires hint <= |s| && NextZero(s, 0) < |s| && leftStart < |s|
    ensures p.secno < |s| && !s[p.secno] && p.leftStart < |s|
    ensures goLeft ==> p.goLeft
    ensures p.goLeft ==> goLeft || dir == AllocLeft
  {
    var right := NextZero(s, hint);
    if right < |s| && !goLeft then Pass(right, false, leftStart)
    else if right >= |s| && dir != AllocLeft && !goLeft then Pass(NextZero(s, 0), false, leftStart)
    else
      var from := if right >= |s| && dir == AllocLeft && hint > 0 then hint - 1 else leftStart;
      var l := WalkLeft(s, from);
      Pass(l, true, l)
  }

  /** Whether the first section found is kept although another zone could be tried. */
  predicate KeepZone(g: Geometry, p: Pass, oldZone: nat, dir: Direction, zones: seq<nat>)
    requires g.Valid()
  {
    var zone := p.secno / g.secsPerZone;
    || g.secsPerZone == 1
    || zone == oldZone
    || (dir == AllocLeft && !p.goLeft && zone + 1 >= g.sections / g.secsPerZone)
    || (dir == AllocLeft && p.goLeft && zone == 0)
    || zone !in zones
  }

  function NextHint(g: Geometry, p: Pass): (h: int)
    requires g.Valid()
  {
    var zone := p.secno / g.secsPerZone;
    if p.goLeft then zone * g.secsPerZone - 1
    else if zone + 1 >= g.sections / g.secsPerZone then 0
    else (zone + 1) * g.secsPerZone
  }

  lemma NextHintInRange(g: Geometry, p: Pass)
    requires g.Valid() && p.secno < g.sections && (p.goLeft ==> p.secno / g.secsPerZone > 0)
    ensures 0 <= NextHint(g, p) <= g.sections
  {
    var zone, total := p.secno / g.secsPerZone, g.sections / g.secsPerZone;
    MulOrder(g.secsPerZone, 0, zone);
    MulOrder(g.secsPerZone, zone + 1, total);
    assert zone * g.secsPerZone <= p.secno && total * g.secsPerZone <= g.sections;
  }

  /** The section get_new_segment settles on, after at most one retry in another zone. */
  function ChooseSection(g: Geometry, s: seq<bool>, cur: nat, dir: Direction, zones: seq<nat>): (secno: nat)
    requires g.Valid() && |s| == g.sections && NextZero(s, 0) < |s| && SecOf(g, cur) < |s|
    ensures secno < |s| && !s[secno]
  {
    var first := SearchSection(s, SecOf(g, cur), dir, false, SecOf(g, cur));
    if KeepZone(g, first, ZoneOf(g, cur), dir, zones) then first.secno
    else
      assert 0 <= NextHint(g, first) <= |s| by { NextHintInRange(g, first); }
      SearchSection(s, NextHint(g, first), dir, first.goLeft, first.leftStart).secno
  }

  /** The next segment of the same section, when the caller does not ask for a new section. */
  predicate NextInSection(g: Geometry, f: FreeMap, cur: nat, newSec: bool)
    requires g.Valid()
  {
    && !newSec
    && (cur + 1) % g.segsPerSec != 0
    && NextZero(f.inuse, cur + 1) - cur < g.segsPerSec - cur % g.segsPerSec
  }

  function ChooseSegment(g: Geometry, f: FreeMap, cur: nat, newSec: bool, dir: Direction, zones: seq<nat>): (segno: nat)
    requires g.Valid() && |f.secInuse| == g.sections && SecOf(g, cur) < g.sections
    requires NextInSection(g, f, cur, newSec) || NextZero(f.secInuse, 0) < |f.secInuse|
  {
    if NextInSection(g, f, cur, newSec) then NextZero(f.inuse, cur + 1)
    else ChooseSection(g, f.secInuse, cur, dir, zones) * g.segsPerSec
  }

  lemma NextStaysInSection(g: Geometry, cur: nat, n: nat)
    requires g.Valid() && SecOf(g, cur) < g.sections && cur <= n
    requires n - cur < g.segsPerSec - cur % g.segsPerSec
    ensures n < g.Segments() && SecOf(g, n) == SecOf(g, cur)
  {
    SecRange(g, cur, SecOf(g, cur));
    SecRange(g, n, SecOf(g, cur));
    assert cur == SecOf(g, cur) * g.segsPerSec + cur % g.segsPerSec;
  }

  /** Whatever the hint, the direction and the zones in use, the chosen segment was free. */
  lemma ChosenSegmentIsFree(g: Geometry, f: FreeMap, cur: nat, newSec: bool, dir: Direction, zones: seq<nat>)
    requires FreeMapOk(g, f) && cur < |f.inuse| && SecOf(g, cur) < g.sections
    requires NextInSection(g, f, cur, newSec) || NextZero(f.secInuse, 0) < |f.secInuse|
    ensures var segno := ChooseSegment(g, f, cur, newSec, dir, zones);
            segno < |f.inuse| && !f.inuse[segno]
    ensures NextInSection(g, f, cur, newSec) ==>
              SecOf(g, ChooseSegment(g, f, cur, newSec, dir, zones)) == SecOf(g, cur)
  {
    if NextInSection(g, f, cur, newSec) {
      NextStaysInSection(g, cur, NextZero(f.inuse, cur + 1));
    } else {
      FreeSection(g, f, ChooseSection(g, f.secInuse, cur, dir, zones));
    }
  }

  /**
    The free section a search from hint on ends at: the first one at or behind hint;
    if there is none, the very first one, or the nearest one before hint for a search
    that turns to the left.
   */
  ghost predicate FoundFrom(s: seq<bool>, hint: nat, dir: Direction, r: nat) {
    && r < |s| && !s[r]
    && if r >= hint then forall k :: hint <= k < r ==> s[k]
       else
         && (forall k :: hint <= k < |s| ==> s[k])
         && if dir == AllocRight then forall k :: 0 <= k < r ==> s[k] else forall k :: r < k < hint && k < |s| ==> s[k]
  }

  lemma {:induction false} WalkLeftIs(s: seq<bool>, l: nat, r: nat)
    requires l < |s| && NextZero(s, 0) < |s| && r <= l && !s[r]
    ensures r <= WalkLeft(s, l) <= l && forall k :: WalkLeft(s, l) < k <= l ==> s[k]
  {
    if s[l] { WalkLeftIs(s, l - 1, r); }
  }

  lemma PassIs(s: seq<bool>, hint: nat, dir: Direction, leftStart: nat)
    requires hint <= |s| && NextZero(s, 0) < |s| && leftStart < |s|
    ensures var p := SearchSection(s, hint, dir, false, leftStart);
            && FoundFrom(s, hint, dir, p.secno)
            && (p.goLeft <==> dir == AllocLeft && p.secno < hint) && (p.goLeft ==> p.leftStart == p.secno)
  {
    if NextZero(s, hint) >= |s| && dir == AllocLeft { WalkLeftIs(s, hint - 1, NextZero(s, 0)); }
  }

  /** A second pass after a walk to the left ends where the walk did. */
  lemma SecondPassLeft(s: seq<bool>, hint: nat, leftStart: nat)
    requires hint <= leftStart < |s| && !s[leftStart] && NextZero(s, 0) < |s|
    ensures SearchSection(s, hint, AllocLeft, true, leftStart).secno == leftStart
  {
  }

  /**
    Where get_new_segment ends when it leaves the section: first is the section found
    from the current one on. It is kept, unless its zone is that of another log and
    another zone can be tried; then the search starts anew at the next zone, or at
    the beginning. A search that has turned to the left never leaves the zone it found.
   */
  lemma ChosenSection(g: Geometry, s: seq<bool>, cur: nat, dir: Direction, zones: seq<nat>) returns (first: nat)
    requires g.Valid() && |s| == g.sections && NextZero(s, 0) < |s| && SecOf(g, cur) < |s|
    ensures FoundFrom(s, SecOf(g, cur), dir, first)
    ensures var secno := ChooseSection(g, s, cur, dir, zones);
            var zone, total := first / g.secsPerZone, g.sections / g.secsPerZone;
            var moves :=
              && g.secsPerZone != 1 && zone != SecOf(g, cur) / g.secsPerZone && zone in zones
              && (dir == AllocLeft ==> first >= SecOf(g, cur) && zone + 1 < total);
            if moves then FoundFrom(s, if zone + 1 >= total then 0 else (zone + 1) * g.secsPerZone, dir, secno) else secno == first
  {
    var p := SearchSection(s, SecOf(g, cur), dir, false, SecOf(g, cur));
    first := p.secno;
    PassIs(s, SecOf(g, cur), dir, SecOf(g, cur));
    if !KeepZone(g, p, ZoneOf(g, cur), dir, zones) {
      NextHintInRange(g, p);
      if p.goLeft {
        HintBefore(g, first);
        SecondPassLeft(s, NextHint(g, p), first);
      } else {
        PassIs(s, NextHint(g, p), dir, p.leftStart);
      }
    }
  }

  lemma HintBefore(g: Geometry, secno: nat)
    requires g.Valid()
    ensures (secno / g.secsPerZone) * g.secsPerZone - 1 <= secno
  {
    MulOrder(g.secsPerZone, 0, secno / g.secsPerZone);
  }

  /** The segment: the next free one of the same section if that will do, else the first one of the section chosen. */
  lemma ChosenSegment(g: Geometry, f: FreeMap, cur: nat, newSec: bool, dir: Direction, zones: seq<nat>)
    requires FreeMapOk(g, f) && cur < |f.inuse| && SecOf(g, cur) < g.sections
    requires NextInSection(g, f, cur, newSec) || NextZero(f.secInuse, 0) < |f.secInuse|
    ensures NextInSection(g, f, cur, newSec) <==>
              !newSec && exists k :: cur < k < |f.inuse| && !f.inuse[k] && SecOf(g, k) == SecOf(g, cur)
    ensures var segno := ChooseSegment(g, f, cur, newSec, dir, zones);
            if NextInSection(g, f, cur, newSec) then cur < segno < |f.inuse| && !f.inuse[segno] && forall k :: cur < k < segno ==> f.inuse[k]
            else segno == ChooseSection(g, f.secInuse, cur, dir, zones) * g.segsPerSec
  {
    ChosenSegmentIsFree(g, f, cur, newSec, dir, zones);
    var n := NextZero(f.inuse, cur + 1);
    if NextInSection(g, f, cur, newSec) { NextStaysInSection(g, cur, n); }
    if !newSec && exists k :: cur < k < |f.inuse| && !f.inuse[k] && SecOf(g, k) == SecOf(g, cur) {
      var k: nat :| cur < k < |f.inuse| && !f.inuse[k] && SecOf(g, k) == SecOf(g, cur);
      assert n <= k;
      InSection(g, cur, n, k);
    }
  }

  lemma InSection(g: Geometry, cur: nat, n: nat, k: nat)
    requires g.Valid() && cur < n <= k && SecOf(g, k) == SecOf(g, cur)
    ensures (cur + 1) % g.segsPerSec != 0 && n - cur < g.segsPerSec - cur % g.segsPerSec
  {
    var q, r, m := SecOf(g, cur), cur % g.segsPerSec, k % g.segsPerSec;
    assert cur == q * g.segsPerSec + r && k == q * g.segsPerSec + m;
    Quotient(g.segsPerSec, q, r + 1);
  }

  lemma Quotient(d: nat, q: nat, r: nat)
    requires r < d
    ensures (q * d + r) % d == r
  {
    var x := q * d + r;
    assert x == (x / d) * d + x % d;
    MulOrder(d, x / d, q);
    MulOrder(d, q, x / d);
  }

  // ------------------------------------------------- the map in place

  class FreeSegmapInfo {
    const geo: Geometry
    var freeSegmap: seq<bool>
    var freeSecmap: seq<bool>
    var freeSegments: int
    var freeSections: int

    ghost function Abs(): FreeMap
      reads this
    {
      FreeMap(freeSegmap, freeSecmap, freeSegments, freeSections)
    }

    ghost predicate Valid()
      reads this
    {
      FreeMapOk(geo, Abs())
    }

    /** build_free_segmap: everything is marked in use until the SIT is read. */
    constructor (g: Geometry)
      requires g.Valid()
      ensures geo == g && Valid()
      ensures freeSegmap == seq(g.Segments(), _ => true)
    {
      geo := g;
      freeSegmap := seq(g.Segments(), _ => true);
      freeSecmap := seq(g.sections, _ => true);
      freeSegments, freeSections := 0, 0;
      new;
      AllInuse(g, Abs());
    }

    /** __set_free: the caller knows that the segment is in use. */
    method SetFree(segno: nat)
      requires Valid() && segno < |freeSegmap| && freeSegmap[segno]
      modifies this
      ensures Valid() && Abs() == GiveSegment(geo, old(Abs()), segno)
      ensures freeSegmap == old(freeSegmap)[segno := false]
    {
      GiveKeepsOk(geo, Abs(), segno);
      ghost var after := GiveSegment(geo, Abs(), segno);
      var secno := segno / geo.segsPerSec;
      var startSegno := secno * geo.segsPerSec;
      assert SomeInuse(geo, freeSegmap, secno);
      freeSegmap := freeSegmap[segno := false];
      freeSegments := freeSegments + 1;
      var next := NextOne(freeSegmap, startSegno);
      if next >= startSegno + geo.segsPerSec {
        freeSecmap := freeSecmap[secno := false];
        freeSections := freeSections + 1;
      }
      assert Abs() == after;
    }

    /** __set_inuse: the caller knows that the segment is free. */
    method SetInuse(segno: nat)
      requires Valid() && segno < |freeSegmap| && !freeSegmap[segno]
      modifies this
      ensures Valid() && Abs() == TakeSegment(geo, old(Abs()), segno)
      ensures freeSegmap == old(freeSegmap)[segno := true]
    {
      TakeKeepsOk(geo, Abs(), segno);
      ghost var after := TakeSegment(geo, Abs(), segno);
      var secno := segno / geo.segsPerSec;
      freeSegmap := freeSegmap[segno := true];
      freeSegments := freeSegments - 1;
      if !freeSecmap[secno] {
        freeSecmap := freeSecmap[secno := true];
        freeSections := freeSections - 1;
      } else {
        assert freeSecmap[secno := true] == freeSecmap;
      }
      assert Abs() == after;
    }

    method SetTestAndFree(segno: nat)
      requires Valid() && segno < |freeSegmap|
      modifies this
      ensures Valid() && Abs() == GiveSegment(geo, old(Abs()), segno)
      ensures freeSegmap == old(freeSegmap)[segno := false]
    {
      GiveKeepsOk(geo, Abs(), segno);
      ghost var after := GiveSegment(geo, Abs(), segno);
      var secno := segno / geo.segsPerSec;
      var startSegno := secno * geo.segsPerSec;
      if freeSegmap[segno] {
        assert SomeInuse(geo, freeSegmap, secno);
        freeSegmap := freeSegmap[segno := false];
        freeSegments := freeSegments + 1;
        var next := NextOne(freeSegmap, startSegno);
        if next >= startSegno + geo.segsPerSec {
          if freeSecmap[secno] {
            freeSecmap := freeSecmap[secno := false];
            freeSections := freeSections + 1;
          }
        }
      }
      assert Abs() == after;
    }

    method SetTestAndInuse(segno: nat)
      requires Valid() && segno < |freeSegmap|
      modifies this
      ensures Valid() && Abs() == TakeSegment(geo, old(Abs()), segno)
      ensures freeSegmap == old(freeSegmap)[segno := true]
    {
      TakeKeepsOk(geo, Abs(), segno);
      ghost var after := TakeSegment(geo, Abs(), segno);
      var secno := segno / geo.segsPerSec;
      if !freeSegmap[segno] {
        freeSegmap := freeSegmap[segno := true];
        freeSegments := freeSegments - 1;
        if !freeSecmap[secno] {
          freeSecmap := freeSecmap[secno := true];
          freeSections := freeSections - 1;
        } else {
          assert freeSecmap[secno := true] == freeSecmap;
        }
      }
      assert Abs() == after;
    }

    /** The while loop of get_new_segment that walks to the left. */
    method WalkToTheLeft(from: nat) returns (leftStart: nat)
      requires from < |freeSecmap| && NextZero(freeSecmap, 0) < |freeSecmap|
      ensures leftStart == WalkLeft(freeSecmap, from)
    {
      leftStart := from;
      while freeSecmap[leftStart]
        invariant leftStart < |freeSecmap|
        invariant WalkLeft(freeSecmap, from) == WalkLeft(freeSecmap, leftStart)
        decreases leftStart
      {
        if leftStart > 0 {
          leftStart := leftStart - 1;
          continue;
        }
        leftStart := NextZero(freeSecmap, 0);
        break;
      }
    }

    /** The code between find_other_zone and skip_left. */
    method SearchPass(hint: nat, dir: Direction, wasLeft: bool, left: nat) returns (secno: nat, goLeft: bool, leftStart: nat)
      requires hint <= |freeSecmap| && NextZero(freeSecmap, 0) < |freeSecmap| && left < |freeSecmap|
      ensures Pass(secno, goLeft, leftStart) == SearchSection(freeSecmap, hint, dir, wasLeft, left)
    {
      goLeft, leftStart := wasLeft, left;
      secno := NextZero(freeSecmap, hint);
      if secno >= |freeSecmap| {
        if dir != AllocLeft {
          secno := NextZero(freeSecmap, 0);
        } else {
          goLeft := true;
          leftStart := hint - 1;
        }
      }
      if goLeft {
        leftStart := WalkToTheLeft(leftStart);
        secno := leftStart;
      }
    }

    /** The code between skip_left and got_it: whether to look in another zone, and from where. */
    method TryOtherZone(p: Pass, oldZone: nat, dir: Direction, zones: seq<nat>) returns (retry: bool, hint: nat)
      requires geo.Valid() && p.secno < geo.sections && (p.goLeft ==> dir == AllocLeft)
      ensures retry == !KeepZone(geo, p, oldZone, dir, zones)
      ensures retry ==> hint == NextHint(geo, p)
      ensures hint <= geo.sections
    {
      var Pass(secno, goLeft, _) := p;
      retry, hint := false, 0;
      var totalZones := geo.sections / geo.secsPerZone;
      var zoneno := secno / geo.secsPerZone;
      if geo.secsPerZone == 1 { return; }
      if zoneno == oldZone { return; }
      if dir == AllocLeft {
        if !goLeft && zoneno + 1 >= totalZones { return; }
        if goLeft && zoneno == 0 { return; }
      }
      if zoneno !in zones { return; }
      retry := true;
      NextHintInRange(geo, p);
      if goLeft {
        hint := zoneno * geo.secsPerZone - 1;
      } else if zoneno + 1 >= totalZones {
        hint := 0;
      } else {
        hint := (zoneno + 1) * geo.secsPerZone;
      }
    }

    /** The section search of get_new_segment: a second pass when the first zone is busy. */
    method GetNewSection(cur: nat, dir: Direction, zones: seq<nat>) returns (secno: nat)
      requires geo.Valid() && |freeSecmap| == geo.sections && NextZero(freeSecmap, 0) < |freeSecmap|
      requires SecOf(geo, cur) < |freeSecmap|
      ensures secno == ChooseSection(geo, freeSecmap, cur, dir, zones)
    {
      var hint: nat := cur / geo.segsPerSec;
      var oldZone := hint / geo.secsPerZone;
      var leftStart: nat, init, goLeft := hint, true, false;
      ghost var first := SearchSection(freeSecmap, hint, dir, false, hint);
      ghost var want := ChooseSection(geo, freeSecmap, cur, dir, zones);
      while true
        invariant hint <= |freeSecmap| && leftStart < |freeSecmap|
        invariant init ==> hint == SecOf(geo, cur) && leftStart == hint && !goLeft
        invariant !init ==> want == SearchSection(freeSecmap, hint, dir, goLeft, leftStart).secno
        decreases if init then 1 else 0
      {
        secno, goLeft, leftStart := SearchPass(hint, dir, goLeft, leftStart);
        if !init { return; }
        assert first == Pass(secno, goLeft, leftStart);
        var retry, other := TryOtherZone(Pass(secno, goLeft, leftStart), oldZone, dir, zones);
        if !retry { return; }
        hint := other;
        init := false;
      }
    }

    method FindSegment(cur: nat, newSec: bool, dir: Direction, zones: seq<nat>) returns (segno: nat)
      requires geo.Valid() && |freeSecmap| == geo.sections && SecOf(geo, cur) < geo.sections
      requires NextInSection(geo, Abs(), cur, newSec) || NextZero(freeSecmap, 0) < |freeSecmap|
      ensures segno == ChooseSegment(geo, Abs(), cur, newSec, dir, zones)
    {
      if !newSec && (cur + 1) % geo.segsPerSec != 0 {
        segno := NextZero(freeSegmap, cur + 1);
        if segno - cur < geo.segsPerSec - cur % geo.segsPerSec { return; }
      }
      var secno := GetNewSection(cur, dir, zones);
      segno := secno * geo.segsPerSec;
    }

    /**
      get_new_segment: takes a free segment into use and returns it. Some section
      must be free unless the section of the current segment has a free one ahead;
      the source stops the system otherwise.
     */
    method GetNewSegment(cur: nat, newSec: bool, dir: Direction, zones: seq<nat>) returns (segno: nat)
      requires Valid() && cur < |freeSegmap|
      requires NextInSection(geo, Abs(), cur, newSec) || NextZero(freeSecmap, 0) < |freeSecmap|
      modifies this
      ensures old(SecOf(geo, cur) < geo.sections && segno == ChooseSegment(geo, Abs(), cur, newSec, dir, zones))
      ensures segno < old(|freeSegmap|) && SecOf(geo, segno) < old(|freeSecmap|) && !old(freeSegmap)[segno]
      ensures Valid() && Abs() == TakeSegment(geo, old(Abs()), segno)
      ensures freeSegmap == old(freeSegmap)[segno := true]
    {
      ChosenSegmentIsFree(geo, Abs(), cur, newSec, dir, zones);
      segno := FindSegment(cur, newSec, dir, zones);
      SetInuse(segno);
    }
  }

  lemma AllInuse(g: Geometry, f: FreeMap)
    requires g.Valid() && f == FreeMap(seq(g.Segments(), _ => true), seq(g.sections, _ => true), 0, 0)
    ensures FreeMapOk(g, f)
  {
    CountExtremes(f.inuse);
    CountExtremes(f.secInuse);
    forall segno: nat | segno < |f.inuse| ensures SecOf(g, segno) < |f.secInuse| { SecRange(g, segno, 0); }
    forall secno: nat | secno < g.sections ensures SomeInuse(g, f.inuse, secno) {
      SecRange(g, secno * g.segsPerSec, secno);
      assert f.inuse[secno * g.segsPerSec];
    }
  }
}
