/**
  Extended attributes: entries packed into the bytes of the inline area and of one
  node block, and the map from keys to values that they stand for.
 */
module Xattr {
  import opened Wrappers

  newtype Byte = x: int | 0 <= x < 256

  datatype Error = ERange | ENoData | EExist | ENoSpace
  datatype Result<T> = Ok(value: T) | Err(error: Error)

  /** Size of struct f2fs_xattr_header, and of struct f2fs_xattr_entry without the name. */
  const HEADER: nat := 24
  const FIXED: nat := 4
  const F2FS_NAME_LEN: nat := 255

  /** XATTR_ALIGN. */
  function Align(n: nat): (r: nat)
    ensures n <= r < n + 4 && r % 4 == 0
  {
    (n + 3) / 4 * 4
  }

  /** Size of the inline area, of a page, and of the node footer. */
  datatype Sizes = Sizes(inlined: nat, page: nat, footer: nat)
  {
    predicate Valid() {
      inlined % 4 == 0 && page % 4 == 0 && footer % 4 == 0 && footer + HEADER + 2 * FIXED <= page && inlined + page < 0x1_0000
    }

    /** The bytes up to the footer. */
    function Limit(): nat
      requires Valid()
    {
      inlined + page - footer
    }

    /** MIN_OFFSET and MAX_VALUE_LEN. */
    function MinOffset(): (m: nat)
      requires Valid()
      ensures m == inlined + page - footer - 4
    {
      Align(inlined + page - footer - 4)
    }

    function MaxValueLen(): nat
      requires Valid()
    {
      MinOffset() - HEADER - FIXED
    }
  }

  // ------------------------------------------------------- entries

  datatype Key = Key(index: nat, name: seq<Byte>)
  datatype Attr = Attr(key: Key, value: seq<Byte>)

  predicate KeyOk(k: Key) { 1 <= k.index < 256 && |k.name| <= F2FS_NAME_LEN }

  predicate AttrOk(e: Attr) { KeyOk(e.key) && |e.value| < 0x1_0000 }

  function Zeros(n: nat): (s: seq<Byte>)
    ensures |s| == n && forall i :: 0 <= i < n ==> s[i] == 0
  {
    seq(n, _ => 0)
  }

  function Unpadded(e: Attr): nat { FIXED + |e.key.name| + |e.value| }

  /** The bytes of an entry. */
  function Encode(e: Attr): (s: seq<Byte>)
    requires AttrOk(e)
    ensures |s| == Align(Unpadded(e))
  {
    [e.key.index as Byte, |e.key.name| as Byte, (|e.value| % 256) as Byte, (|e.value| / 256) as Byte] + e.key.name + e.value + Zeros(Align(Unpadded(e)) - Unpadded(e))
  }

  predicate AllOk(es: seq<Attr>) { forall i :: 0 <= i < |es| ==> AttrOk(es[i]) }

  function EncodeAll(es: seq<Attr>): seq<Byte>
    requires AllOk(es)
  {
    if es == [] then [] else EncodeAll(es[..|es| - 1]) + Encode(es[|es| - 1])
  }

  lemma Assoc(a: seq<Byte>, b: seq<Byte>, c: seq<Byte>)
    ensures a + (b + c) == a + b + c
  {
  }

  lemma {:induction false} EncodeConcat(a: seq<Attr>, b: seq<Attr>)
    requires AllOk(a) && AllOk(b)
    ensures EncodeAll(a + b) == EncodeAll(a) + EncodeAll(b)
  {
    if b == [] {
      assert a + b == a;
    } else {
      var b', last := b[..|b| - 1], Encode(b[|b| - 1]);
      EncodeConcat(a, b');
      assert (a + b)[..|a + b| - 1] == a + b';
      Assoc(EncodeAll(a), EncodeAll(b'), last);
    }
  }

  /** Where entry k starts. */
  function Off(es: seq<Attr>, k: nat): nat
    requires AllOk(es) && k <= |es|
  {
    HEADER + |EncodeAll(es[..k])|
  }

  /** Where the entries end. */
  function End(es: seq<Attr>): nat
    requires AllOk(es)
  {
    HEADER + |EncodeAll(es)|
  }

  lemma EncodeParts(es: seq<Attr>, k: nat)
    requires AllOk(es) && k < |es|
    ensures EncodeAll(es) == EncodeAll(es[..k]) + Encode(es[k]) + EncodeAll(es[k + 1..])
    ensures Off(es, k + 1) == Off(es, k) + |Encode(es[k])|
  {
    assert es == es[..k + 1] + es[k + 1..] && es[..k + 1][..k] == es[..k];
    EncodeConcat(es[..k + 1], es[k + 1..]);
  }

  /** No two entries have the same key. */
  predicate Unique(es: seq<Attr>) { forall i, j :: 0 <= i < j < |es| ==> es[i].key != es[j].key }

  /** The map that the entries stand for. */
  ghost predicate IsMap(es: seq<Attr>, m: map<Key, seq<Byte>>) {
    && (forall i :: 0 <= i < |es| ==> es[i].key in m && m[es[i].key] == es[i].value)
    && forall k :: k in m ==> Among(es, k)
  }

  ghost predicate Among(es: seq<Attr>, k: Key) { exists i :: 0 <= i < |es| && es[i].key == k }

  // ------------------------------------------------------- the bytes

  /** The bytes hold these entries, and nothing but zeros behind them. */
  ghost predicate Laid(z: Sizes, buf: seq<Byte>, es: seq<Attr>)
    requires z.Valid()
  {
    && AllOk(es) && |buf| == z.inlined + z.page && End(es) <= z.MinOffset()
    && buf[HEADER..End(es)] == EncodeAll(es)
    && forall i :: End(es) <= i < z.Limit() ==> buf[i] == 0
  }

  ghost predicate EntryAt(buf: seq<Byte>, off: nat, e: Attr) {
    AttrOk(e) && off + |Encode(e)| <= |buf| && buf[off..off + |Encode(e)|] == Encode(e)
  }

  /** e_value_size, and ENTRY_SIZE. */
  function ValueSize(buf: seq<Byte>, off: nat): nat
    requires off + FIXED <= |buf|
  {
    buf[off + 2] as nat + 256 * buf[off + 3] as nat
  }

  function EntrySize(buf: seq<Byte>, off: nat): nat
    requires off + FIXED <= |buf|
  {
    Align(FIXED + buf[off + 1] as nat + ValueSize(buf, off))
  }

  /** IS_XATTR_LAST_ENTRY. */
  predicate IsLast(buf: seq<Byte>, off: nat)
    requires off + FIXED <= |buf|
  {
    buf[off] == 0 && buf[off + 1] == 0 && buf[off + 2] == 0 && buf[off + 3] == 0
  }

  lemma SubSlice(s: seq<Byte>, a: nat, b: nat, c: nat, d: nat)
    requires a <= b <= |s| && c <= d <= b - a
    ensures s[a..b][c..d] == s[a + c..a + d]
  {
    var t, u := s[a..b][c..d], s[a + c..a + d];
    assert |t| == |u|;
    forall i | 0 <= i < |t|
      ensures t[i] == u[i]
    {
      assert t[i] == s[a..b][c + i];
    }
  }

  lemma MidSlice(a: seq<Byte>, s: seq<Byte>, b: seq<Byte>)
    ensures (a + s + b)[|a|..|a| + |s|] == s
  {
  }

  lemma EncodeAt(e: Attr)
    requires AttrOk(e)
    ensures Encode(e)[0] == e.key.index as Byte && Encode(e)[1] == |e.key.name| as Byte
    ensures Encode(e)[2] == (|e.value| % 256) as Byte && Encode(e)[3] == (|e.value| / 256) as Byte
    ensures forall i :: FIXED <= i < |Encode(e)| ==>
              Encode(e)[i] == if i < FIXED + |e.key.name| then e.key.name[i - FIXED]
                              else if i < Unpadded(e) then e.value[i - FIXED - |e.key.name|] else 0
  {
  }

  lemma EncodeFields(e: Attr)
    requires AttrOk(e)
    ensures Encode(e)[0] as nat == e.key.index && Encode(e)[1] as nat == |e.key.name|
    ensures Encode(e)[2] as nat + 256 * Encode(e)[3] as nat == |e.value|
    ensures Encode(e)[FIXED..FIXED + |e.key.name|] == e.key.name
    ensures Encode(e)[FIXED + |e.key.name|..FIXED + |e.key.name| + |e.value|] == e.value
  {
    var head := [e.key.index as Byte, |e.key.name| as Byte, (|e.value| % 256) as Byte, (|e.value| / 256) as Byte];
    var pad := Zeros(Align(Unpadded(e)) - Unpadded(e));
    var s, h2 := Encode(e), head + e.key.name;
    MidSlice(h2, e.value, pad);
    assert s == h2 + e.value + pad;
    MidSlice(head, e.key.name, e.value + pad);
    Assoc(h2, e.value, pad);
    assert s == head + e.key.name + (e.value + pad);
  }

  lemma Fields(buf: seq<Byte>, off: nat, e: Attr)
    requires EntryAt(buf, off, e)
    ensures off + FIXED + |e.key.name| + |e.value| <= off + |Encode(e)| <= |buf|
    ensures buf[off] as nat == e.key.index && buf[off + 1] as nat == |e.key.name| && ValueSize(buf, off) == |e.value|
    ensures EntrySize(buf, off) == |Encode(e)|
    ensures buf[off + FIXED..off + FIXED + |e.key.name|] == e.key.name
    ensures buf[off + FIXED + |e.key.name|..off + FIXED + |e.key.name| + |e.value|] == e.value
  {
    var s, v := Encode(e), FIXED + |e.key.name|;
    EncodeFields(e);
    SubSlice(buf, off, off + |s|, FIXED, v);
    SubSlice(buf, off, off + |s|, v, v + |e.value|);
    var t := buf[off..off + |s|];
    assert buf[off + 0] == t[0] && buf[off + 1] == t[1] && buf[off + 2] == t[2] && buf[off + 3] == t[3];
  }

  /** Entry k is found where the entries before it end. */
  lemma LaidEntry(z: Sizes, buf: seq<Byte>, es: seq<Attr>, k: nat)
    requires z.Valid() && Laid(z, buf, es) && k < |es|
    ensures EntryAt(buf, Off(es, k), es[k]) && !IsLast(buf, Off(es, k)) && EntrySize(buf, Off(es, k)) == |Encode(es[k])|
    ensures Off(es, k + 1) == Off(es, k) + |Encode(es[k])| <= End(es)
  {
    var a, s, b := EncodeAll(es[..k]), Encode(es[k]), EncodeAll(es[k + 1..]);
    EncodeParts(es, k);
    MidSlice(a, s, b);
    assert es[..|es|] == es;
    SubSlice(buf, HEADER, End(es), |a|, |a| + |s|);
    Fields(buf, Off(es, k), es[k]);
  }

  /** Behind the last entry there is the terminating zero word, still before the footer. */
  lemma LaidEnd(z: Sizes, buf: seq<Byte>, es: seq<Attr>)
    requires z.Valid() && Laid(z, buf, es)
    ensures End(es) + FIXED <= z.Limit() <= |buf| && IsLast(buf, End(es))
  {
  }

  /** The index of this key, or the number of entries. */
  ghost function Pos(es: seq<Attr>, key: Key): (k: nat)
    ensures k <= |es| && (k < |es| ==> es[k].key == key)
    ensures forall i :: 0 <= i < k ==> es[i].key != key
  {
    if es == [] then 0 else if es[0].key == key then 0 else 1 + Pos(es[1..], key)
  }

  /** What a scan sees where entry k starts, or where the entries end. */
  lemma Here(z: Sizes, buf: seq<Byte>, es: seq<Attr>, k: nat)
    requires z.Valid() && Laid(z, buf, es) && k <= |es|
    ensures Off(es, k) + FIXED <= |buf| && (IsLast(buf, Off(es, k)) <==> k == |es|)
    ensures k == |es| ==> Off(es, k) == End(es)
    ensures k < |es| ==> EntryAt(buf, Off(es, k), es[k]) && Off(es, k + 1) == Off(es, k) + EntrySize(buf, Off(es, k))
  {
    if k < |es| {
      LaidEntry(z, buf, es, k);
    } else {
      assert es[..k] == es;
      LaidEnd(z, buf, es);
    }
  }

  /** The comparisons of __find_xattr. */
  predicate HasKey(buf: seq<Byte>, off: nat, key: Key)
    requires off + FIXED <= |buf|
  {
    buf[off] as nat == key.index && buf[off + 1] as nat == |key.name|
    && off + FIXED + |key.name| <= |buf| && buf[off + FIXED..off + FIXED + |key.name|] == key.name
  }

  lemma HasKeyIs(buf: seq<Byte>, off: nat, e: Attr, key: Key)
    requires EntryAt(buf, off, e)
    ensures off + FIXED <= |buf| && (HasKey(buf, off, key) <==> e.key == key)
  {
    Fields(buf, off, e);
  }

  /** The scan for a key has come to entry k and not found it before. */
  ghost predicate Scanning(buf: seq<Byte>, es: seq<Attr>, key: Key, off: nat, k: nat)
    requires AllOk(es)
  {
    k <= Pos(es, key) && off == Off(es, k) && off + FIXED <= |buf| && (IsLast(buf, off) <==> k == |es|)
  }

  lemma ScanStep(z: Sizes, buf: seq<Byte>, es: seq<Attr>, key: Key, off: nat, k: nat)
    requires z.Valid() && Laid(z, buf, es) && Scanning(buf, es, key, off, k) && !IsLast(buf, off)
    ensures k < |es| && (HasKey(buf, off, key) <==> k == Pos(es, key))
    ensures !HasKey(buf, off, key) ==> Scanning(buf, es, key, off + EntrySize(buf, off), k + 1)
  {
    Here(z, buf, es, k);
    Here(z, buf, es, k + 1);
    ScanEntry(buf, es, key, off, k);
  }

  lemma ScanEntry(buf: seq<Byte>, es: seq<Attr>, key: Key, off: nat, k: nat)
    requires AllOk(es) && k < |es| && k <= Pos(es, key) && EntryAt(buf, off, es[k])
    ensures off + FIXED <= |buf| && (HasKey(buf, off, key) <==> k == Pos(es, key))
  {
    HasKeyIs(buf, off, es[k], key);
  }

  lemma ScanStart(z: Sizes, buf: seq<Byte>, es: seq<Attr>, key: Key)
    requires z.Valid() && Laid(z, buf, es)
    ensures Scanning(buf, es, key, HEADER, 0)
  {
    assert es[..0] == [];
    Here(z, buf, es, 0);
  }

  /** __find_xattr: the offset of the entry, or of the terminator. */
  method FindXattr(z: Sizes, buf: seq<Byte>, key: Key, ghost es: seq<Attr>) returns (off: nat)
    requires z.Valid() && Laid(z, buf, es)
    ensures off == Off(es, Pos(es, key)) && off + FIXED <= |buf|
    ensures IsLast(buf, off) <==> Pos(es, key) == |es|
  {
    off := HEADER;
    ghost var k := 0;
    ScanStart(z, buf, es, key);
    while !IsLast(buf, off)
      invariant Scanning(buf, es, key, off, k)
      decreases |es| - k
    {
      ScanStep(z, buf, es, key, off, k);
      if HasKey(buf, off, key) { return; }
      off := off + EntrySize(buf, off);
      k := k + 1;
    }
  }

  /** The scan has come to entry k, or to the end. */
  ghost predicate StandsAt(buf: seq<Byte>, es: seq<Attr>, off: nat, k: nat)
    requires AllOk(es)
  {
    && k <= |es| && off == Off(es, k) && off + FIXED <= |buf|
    && (IsLast(buf, off) <==> k == |es|) && (k == |es| ==> off == End(es))
  }

  lemma StepOn(z: Sizes, buf: seq<Byte>, es: seq<Attr>, off: nat, k: nat)
    requires z.Valid() && Laid(z, buf, es) && StandsAt(buf, es, off, k) && !IsLast(buf, off)
    ensures k < |es| && StandsAt(buf, es, off + EntrySize(buf, off), k + 1)
  {
    Here(z, buf, es, k);
    Here(z, buf, es, k + 1);
  }

  /** The loop of __f2fs_setxattr to the terminator. */
  method FindLast(z: Sizes, buf: seq<Byte>, from: nat, ghost es: seq<Attr>, ghost k0: nat) returns (off: nat)
    requires z.Valid() && Laid(z, buf, es) && k0 <= |es| && from == Off(es, k0)
    ensures off == End(es)
  {
    off := from;
    ghost var k := k0;
    Here(z, buf, es, k);
    while !IsLast(buf, off)
      invariant StandsAt(buf, es, off, k)
      decreases |es| - k
    {
      StepOn(z, buf, es, off, k);
      off := off + EntrySize(buf, off);
      k := k + 1;
    }
  }

  // ------------------------------------------------------- changing the bytes

  /** The entries without the one at p. */
  function Without(es: seq<Attr>, p: nat): seq<Attr>
    requires p <= |es|
  {
    if p < |es| then es[..p] + es[p + 1..] else es
  }

  /** The entries after a change: the old one goes, the new one, if any, comes last. */
  ghost function After(es: seq<Attr>, key: Key, value: Option<seq<Byte>>): seq<Attr> {
    Without(es, Pos(es, key)) + if value.Some? then [Attr(key, value.value)] else []
  }

  lemma WithoutAt(es: seq<Attr>, p: nat)
    requires p <= |es|
    ensures |Without(es, p)| == if p < |es| then |es| - 1 else |es|
    ensures forall i :: 0 <= i < |Without(es, p)| ==> Without(es, p)[i] == es[if i < p then i else i + 1]
  {
    var t := Without(es, p);
    forall i | 0 <= i < |t|
      ensures t[i] == es[if i < p then i else i + 1]
    {
      if p < |es| && i >= p { assert t[i] == es[p + 1..][i - p]; }
    }
  }

  lemma WithoutUnique(es: seq<Attr>, key: Key)
    requires Unique(es)
    ensures var t := Without(es, Pos(es, key)); Unique(t) && forall i :: 0 <= i < |t| ==> t[i].key != key
  {
    var p := Pos(es, key);
    WithoutAt(es, p);
    var t := Without(es, p);
    forall i | 0 <= i < |t|
      ensures t[i].key != key
    {
      if p < |es| { assert es[p].key != es[if i < p then i else i + 1].key; }
    }
  }

  lemma WithoutIsMap(es: seq<Attr>, m: map<Key, seq<Byte>>, key: Key)
    requires Unique(es) && IsMap(es, m)
    ensures IsMap(Without(es, Pos(es, key)), m - {key})
  {
    var p := Pos(es, key);
    WithoutAt(es, p);
    WithoutUnique(es, key);
    var t := Without(es, p);
    var less := m - {key};
    forall k | k in less
      ensures Among(t, k)
    {
      assert Among(es, k);
      var i :| 0 <= i < |es| && es[i].key == k;
      assert i != p;
      var j := if i < p then i else i - 1;
      assert t[j] == es[i];
    }
  }

  lemma PosInMap(es: seq<Attr>, m: map<Key, seq<Byte>>, key: Key)
    requires IsMap(es, m)
    ensures key in m <==> Pos(es, key) < |es|
    ensures Pos(es, key) < |es| ==> m[key] == es[Pos(es, key)].value
  {
  }

  lemma AppendIsMap(t: seq<Attr>, m: map<Key, seq<Byte>>, e: Attr)
    requires Unique(t) && IsMap(t, m) && e.key !in m
    ensures Unique(t + [e]) && IsMap(t + [e], m[e.key := e.value])
  {
    var t' := t + [e];
    var more := m[e.key := e.value];
    assert t <= t';
    forall k | k in more
      ensures Among(t', k)
    {
      if k == e.key {
        assert t'[|t|].key == k;
      } else {
        var i :| 0 <= i < |t| && t[i].key == k;
        assert t'[i].key == k;
      }
    }
  }

  /** Removing and appending do to the entries what is meant to happen to the map: one key gets the value, or goes. */
  lemma AfterIsMap(es: seq<Attr>, m: map<Key, seq<Byte>>, key: Key, value: Option<seq<Byte>>)
    requires Unique(es) && IsMap(es, m)
    ensures Unique(After(es, key, value))
    ensures IsMap(After(es, key, value), if value.Some? then m[key := value.value] else m - {key})
  {
    var t := Without(es, Pos(es, key));
    WithoutUnique(es, key);
    WithoutIsMap(es, m, key);
    if value.Some? {
      AppendIsMap(t, m - {key}, Attr(key, value.value));
      assert (m - {key})[key := value.value] == m[key := value.value];
    } else {
      assert t + [] == t;
    }
  }

  function Spliced(buf: seq<Byte>, off: nat, bytes: seq<Byte>): (r: seq<Byte>)
    requires off + |bytes| <= |buf|
    ensures |r| == |buf| && r[off..off + |bytes|] == bytes
    ensures forall i :: 0 <= i < |buf| ==> r[i] == if off <= i < off + |bytes| then bytes[i - off] else buf[i]
  {
    buf[..off] + bytes + buf[off + |bytes|..]
  }

  /** What was from here to next is gone, what was up to last has moved down, and zeros follow. */
  function Cut(buf: seq<Byte>, here: nat, next: nat, last: nat): (r: seq<Byte>)
    requires here <= next <= last <= |buf|
    ensures |r| == |buf|
  {
    buf[..here] + buf[next..last] + Zeros(next - here) + buf[last..]
  }

  lemma CutIs(buf: seq<Byte>, off: nat, a: seq<Byte>, s: seq<Byte>, b: seq<Byte>, here: nat, next: nat, last: nat)
    requires here == off + |a| && next == here + |s| && last == next + |b| && last <= |buf| && buf[off..last] == a + s + b
    ensures Cut(buf, here, next, last)[off..here + |b|] == a + b
    ensures forall i :: here + |b| <= i < last ==> Cut(buf, here, next, last)[i] == 0
    ensures forall i :: last <= i < |buf| ==> Cut(buf, here, next, last)[i] == buf[i]
  {
    SubSlice(buf, off, last, 0, |a|);
    SubSlice(buf, off, last, |a| + |s|, |a| + |s| + |b|);
    assert (a + s + b)[0..|a|] == a && (a + s + b)[|a| + |s|..|a| + |s| + |b|] == b;
    var r := Cut(buf, here, next, last);
    assert r[off..here + |b|] == buf[off..here] + buf[next..last];
  }

  /** memmove over the old entry, and memset of the room that becomes free. */
  method RemoveEntry(buf0: seq<Byte>, here: nat, next: nat, last: nat, ghost a: seq<Byte>, ghost s: seq<Byte>, ghost b: seq<Byte>)
    returns (buf: seq<Byte>)
    requires here == HEADER + |a| && next == here + |s| && last == next + |b| && last <= |buf0| && buf0[HEADER..last] == a + s + b
    ensures |buf| == |buf0| && buf[HEADER..HEADER + |a + b|] == a + b
    ensures forall i :: HEADER + |a + b| <= i < last ==> buf[i] == 0
    ensures forall i :: last <= i < |buf0| ==> buf[i] == buf0[i]
  {
    buf := Spliced(buf0, here, buf0[next..last]);
    var oldSize := next - here;
    buf := Spliced(buf, last - oldSize, Zeros(oldSize));
    assert buf == Cut(buf0, here, next, last);
    CutIs(buf0, HEADER, a, s, b, here, next, last);
  }

  /** The new entry, field by field. */
  method PutEntry(buf0: seq<Byte>, last: nat, e: Attr) returns (buf: seq<Byte>)
    requires AttrOk(e) && last + |Encode(e)| <= |buf0|
    ensures buf == Spliced(buf0, last, Encode(e))
  {
    var newSize := Align(Unpadded(e));
    buf := Spliced(buf0, last, Zeros(newSize));
    buf := buf[last := e.key.index as Byte];
    buf := buf[last + 1 := |e.key.name| as Byte];
    buf := Spliced(buf, last + FIXED, e.key.name);
    buf := Spliced(buf, last + FIXED + |e.key.name|, e.value);
    buf := buf[last + 2 := (|e.value| % 256) as Byte];
    buf := buf[last + 3 := (|e.value| / 256) as Byte];
    var r := Spliced(buf0, last, Encode(e));
    EncodeAt(e);
    forall i | 0 <= i < |buf0|
      ensures buf[i] == r[i]
    {
    }
  }

  /** What is left is encoded as before, without the bytes of the entry at p. */
  lemma WithoutEncode(es: seq<Attr>, p: nat)
    requires AllOk(es) && p < |es|
    ensures AllOk(Without(es, p)) && EncodeAll(Without(es, p)) == EncodeAll(es[..p]) + EncodeAll(es[p + 1..])
    ensures EncodeAll(es) == EncodeAll(es[..p]) + Encode(es[p]) + EncodeAll(es[p + 1..])
    ensures Off(es, p + 1) == Off(es, p) + |Encode(es[p])|
    ensures End(es) == Off(es, p) + |Encode(es[p])| + |EncodeAll(es[p + 1..])|
    ensures End(Without(es, p)) == End(es) - |Encode(es[p])|
  {
    EncodeParts(es, p);
    EncodeConcat(es[..p], es[p + 1..]);
  }

  lemma LaidIf(z: Sizes, buf: seq<Byte>, es: seq<Attr>, enc: seq<Byte>)
    requires z.Valid() && |buf| == z.inlined + z.page && AllOk(es) && EncodeAll(es) == enc && HEADER + |enc| <= z.MinOffset()
    requires buf[HEADER..HEADER + |enc|] == enc
    requires forall i :: HEADER + |enc| <= i < z.Limit() ==> buf[i] == 0
    ensures Laid(z, buf, es)
  {
    assert es[..|es|] == es;
  }

  lemma AppendedLaid(z: Sizes, buf: seq<Byte>, es: seq<Attr>, e: Attr)
    requires z.Valid() && Laid(z, buf, es) && AttrOk(e) && End(es) + |Encode(e)| <= z.MinOffset()
    ensures End(es) + |Encode(e)| <= |buf| && Laid(z, Spliced(buf, End(es), Encode(e)), es + [e])
    ensures End(es + [e]) == End(es) + |Encode(e)|
  {
    var t, last := es + [e], End(es);
    assert t[..|t| - 1] == es;
    var buf' := Spliced(buf, last, Encode(e));
    assert buf'[HEADER..last + |Encode(e)|] == buf[HEADER..last] + Encode(e);
  }

  /** Only the bytes between header and footer matter. */
  lemma LaidSame(z: Sizes, a: seq<Byte>, b: seq<Byte>, es: seq<Attr>)
    requires z.Valid() && Laid(z, a, es) && |b| == |a| && forall i :: HEADER <= i < z.Limit() ==> a[i] == b[i]
    ensures Laid(z, b, es)
  {
    assert b[HEADER..End(es)] == a[HEADER..End(es)];
  }

  /** Where the entries end once the one at p is gone. */
  lemma WithoutEnd(es: seq<Attr>, p: nat)
    requires AllOk(es) && p <= |es|
    ensures AllOk(Without(es, p)) && End(Without(es, p)) == End(es) - if p < |es| then |Encode(es[p])| else 0
  {
    if p < |es| { WithoutEncode(es, p); }
  }

  /** The bytes of an entry: the fixed part, name and value, rounded up to a multiple of four. */
  function Padded(key: Key, value: seq<Byte>): nat { (4 + |key.name| + |value| + 3) / 4 * 4 }

  /** The bytes of all entries but that of a key. */
  function OthersTake(es: seq<Attr>, key: Key): nat {
    if es == [] then 0
    else
      var e := es[|es| - 1];
      OthersTake(es[..|es| - 1], key) + if e.key == key then 0 else Padded(e.key, e.value)
  }

  lemma PosBefore(es: seq<Attr>, key: Key)
    requires es != [] && Unique(es)
    ensures var t, e := es[..|es| - 1], es[|es| - 1];
            Pos(es, key) == if Pos(t, key) < |t| then Pos(t, key) else if e.key == key then |t| else |es|
  {
    var t, p, q := es[..|es| - 1], Pos(es, key), Pos(es[..|es| - 1], key);
    if q < |t| { assert es[q].key == key; }
    if p < |t| { assert t[p].key == key; }
  }

  lemma {:induction false} OthersTakeIs(es: seq<Attr>, key: Key)
    requires AllOk(es) && Unique(es)
    ensures AllOk(Without(es, Pos(es, key))) && End(Without(es, Pos(es, key))) == 24 + OthersTake(es, key)
  {
    hide Without, Encode, Unpadded;
    WithoutEnd(es, Pos(es, key));
    if es != [] {
      var t, e := es[..|es| - 1], es[|es| - 1];
      PosBefore(es, key);
      OthersTakeIs(t, key);
      WithoutEnd(t, Pos(t, key));
      EntryTakes(e);
      hide Pos;
      assert End(es) == End(t) + |Encode(e)|;
    }
  }

  lemma EntryTakes(e: Attr)
    requires AttrOk(e)
    ensures |Encode(e)| == Padded(e.key, e.value)
  {
  }

  /** Where the entries end after a change: behind the header, the other entries and the new one. */
  function EndAfter(es: seq<Attr>, key: Key, value: Option<seq<Byte>>): nat {
    24 + OthersTake(es, key) + if value.Some? then Padded(key, value.value) else 0
  }

  lemma EndAfterIs(es: seq<Attr>, key: Key, value: Option<seq<Byte>>)
    requires AllOk(es) && Unique(es) && AllOk(After(es, key, value))
    ensures End(After(es, key, value)) == EndAfter(es, key, value)
  {
    OthersTakeIs(es, key);
    var t := Without(es, Pos(es, key));
    hide Without, OthersTake, Encode, Unpadded;
    if value.Some? {
      var e := Attr(key, value.value);
      assert After(es, key, value) == t + [e] && (t + [e])[..|t|] == t && AttrOk((t + [e])[|t|]);
      EntryTakes(e);
    } else {
      assert After(es, key, value) == t;
    }
  }

  /** Step 1 of __f2fs_setxattr. */
  method HasSpace(z: Sizes, buf: seq<Byte>, here: nat, last: nat, found: bool, newSize: nat, ghost es: seq<Attr>, ghost p: nat)
    returns (ok: bool)
    requires z.Valid() && Laid(z, buf, es) && p <= |es| && here == Off(es, p) && last == End(es) && found == (p < |es|)
    ensures AllOk(Without(es, p)) && ok == (End(Without(es, p)) + newSize <= z.MinOffset())
  {
    WithoutEnd(es, p);
    var free: int := z.MinOffset() - last;
    if found {
      LaidEntry(z, buf, es, p);
      free := free + EntrySize(buf, here);
    }
    ok := free >= newSize;
  }

  lemma SizeAt(z: Sizes, buf: seq<Byte>, es: seq<Attr>, p: nat)
    requires z.Valid() && Laid(z, buf, es) && p < |es|
    ensures Off(es, p) + FIXED <= |buf| && EntrySize(buf, Off(es, p)) == |Encode(es[p])|
  {
    LaidEntry(z, buf, es, p);
  }

  /** Step 2: the old entry is removed. */
  method TakeOut(z: Sizes, buf0: seq<Byte>, here: nat, last0: nat, ghost es: seq<Attr>, ghost p: nat)
    returns (buf: seq<Byte>, last: nat)
    requires z.Valid() && Laid(z, buf0, es) && p < |es| && here == Off(es, p) && last0 == End(es)
    ensures Laid(z, buf, Without(es, p)) && last == End(Without(es, p))
  {
    SizeAt(z, buf0, es, p);
    var oldSize := EntrySize(buf0, here);
    WithoutEncode(es, p);
    ghost var a, s, b := EncodeAll(es[..p]), Encode(es[p]), EncodeAll(es[p + 1..]);
    buf := RemoveEntry(buf0, here, here + oldSize, last0, a, s, b);
    LaidIf(z, buf, Without(es, p), a + b);
    last := last0 - oldSize;
  }

  /** Step 3: the new entry is written. */
  method PutIn(z: Sizes, buf0: seq<Byte>, last: nat, e: Attr, ghost t: seq<Attr>) returns (buf: seq<Byte>, hsize: nat)
    requires z.Valid() && Laid(z, buf0, t) && AttrOk(e) && last == End(t) && last + Align(Unpadded(e)) <= z.MinOffset()
    ensures Laid(z, buf, t + [e]) && hsize == End(t + [e])
  {
    AppendedLaid(z, buf0, t, e);
    buf := PutEntry(buf0, last, e);
    hsize := last + Align(Unpadded(e));
  }

  /** All three; here and last are where the entry and the terminator are. */
  method Change(z: Sizes, buf0: seq<Byte>, here: nat, last0: nat, found: bool, key: Key, value: Option<seq<Byte>>, ghost es: seq<Attr>)
    returns (ok: bool, buf: seq<Byte>, hsize: nat)
    requires z.Valid() && Laid(z, buf0, es) && KeyOk(key) && (value.Some? ==> |value.value| < 0x1_0000)
    requires here == Off(es, Pos(es, key)) && last0 == End(es) && found == (Pos(es, key) < |es|) && Unique(es)
    ensures ok == !(value.Some? && EndAfter(es, key, value) > z.inlined + z.page - z.footer - 4)
    ensures ok ==> Laid(z, buf, After(es, key, value)) && hsize == End(After(es, key, value))
  {
    ghost var p := Pos(es, key);
    OthersTakeIs(es, key);
    hide Laid, OthersTake;
    if value.Some? {
      assert Align(FIXED + |key.name| + |value.value|) == Padded(key, value.value);
      ok := HasSpace(z, buf0, here, last0, found, Align(FIXED + |key.name| + |value.value|), es, p);
      if !ok { return false, buf0, 0; }
    }
    buf, hsize := buf0, last0;
    if found { buf, hsize := TakeOut(z, buf0, here, last0, es, p); }
    if value.Some? {
      buf, hsize := PutIn(z, buf, hsize, Attr(key, value.value), Without(es, p));
    } else {
      assert Without(es, p) + [] == Without(es, p);
    }
    ok := true;
  }

  // ------------------------------------------------------- the inode

  function Magic(): seq<Byte> { [0x11, 0x20, 0xF5, 0xF2] }

  /** Which byte stands where when the two areas are read one behind the other. */
  function Joined(z: Sizes, inlined: seq<Byte>, node: Option<seq<Byte>>): seq<Byte> {
    inlined + if node.Some? then node.value else Zeros(z.page)
  }

  /** The part of f2fs_getxattr that reads the entry found. */
  method ReadValue(buf: seq<Byte>, entry: nat, bufferSize: Option<nat>, ghost e: Attr) returns (r: Result<nat>, data: seq<Byte>)
    requires EntryAt(buf, entry, e)
    ensures r == if bufferSize.Some? && |e.value| > bufferSize.value then Err(ERange) else Ok(|e.value|)
    ensures data == if r.Ok? && bufferSize.Some? then e.value else []
  {
    Fields(buf, entry, e);
    var size := ValueSize(buf, entry);
    data := [];
    if bufferSize.Some? {
      if size > bufferSize.value { return Err(ERange), []; }
      var pval := entry + FIXED + buf[entry + 1] as nat;
      data := buf[pval..pval + size];
    }
    r := Ok(size);
  }

  /** The areas as write_all_xattrs leaves them: there is a node block only if the entries do not end in the inline area. */
  predicate WrittenAs(z: Sizes, buf: seq<Byte>, hsize: nat, inlined: seq<Byte>, node: Option<seq<Byte>>)
    requires z.Valid() && |buf| == z.inlined + z.page
  {
    && inlined == buf[..z.inlined] && (node.Some? ==> |node.value| == z.page)
    && if hsize <= z.inlined then node.None? else node.Some? && node.value[..z.page - z.footer] == buf[z.inlined..z.Limit()]
  }

  /** The header of attributes that have never been written is made up. */
  method WithMagic(buf0: seq<Byte>) returns (buf: seq<Byte>)
    requires |buf0| >= HEADER
    ensures |buf| == |buf0| && buf[HEADER..] == buf0[HEADER..] && buf[..4] == [0x11, 0x20, 0xF5, 0xF2]
    ensures if buf0[..4] == [0x11, 0x20, 0xF5, 0xF2] then buf == buf0 else buf[4..8] == [1, 0, 0, 0] && buf[8..] == buf0[8..]
  {
    buf := buf0;
    if buf[..4] != Magic() {
      buf := Magic() + [1, 0, 0, 0] + buf0[8..];
    }
  }

  class XattrInode {
    const z: Sizes
    /** The inline area, and the node block if there is one. */
    var inlined: seq<Byte>
    var node: Option<seq<Byte>>
    ghost var es: seq<Attr>
    ghost var attrs: map<Key, seq<Byte>>

    ghost predicate Shaped()
      reads `inlined, `node
    {
      z.Valid() && |inlined| == z.inlined && (node.Some? ==> |node.value| == z.page)
    }

    ghost predicate Valid()
      reads this
    {
      Shaped() && Laid(z, Joined(z, inlined, node), es) && Unique(es) && IsMap(es, attrs)
    }

    /** Without a node block, the entries end in the inline area. */
    ghost predicate Settled()
      requires AllOk(es)
      reads this
    {
      node.None? && es != [] ==> End(es) <= z.inlined
    }

    /** An inode without attributes. */
    constructor (z: Sizes)
      requires z.Valid()
      ensures Valid() && attrs == map[] && this.z == z
    {
      this.z := z;
      inlined, node, es, attrs := Zeros(z.inlined), None, [], map[];
    }

    /** read_all_xattrs. */
    method ReadAllXattrs() returns (buf: seq<Byte>)
      requires Shaped()
      ensures |buf| == z.inlined + z.page && buf[HEADER..] == Joined(z, inlined, node)[HEADER..]
      ensures buf[..4] == Magic()
    {
      buf := Zeros(z.inlined + z.page);
      if z.inlined > 0 { buf := Spliced(buf, 0, inlined); }
      if node.Some? { buf := Spliced(buf, z.inlined, node.value); }
      assert buf == Joined(z, inlined, node);
      buf := WithMagic(buf);
    }

    /** write_all_xattrs; noNid and noNode say whether the inode number or the node block cannot be had. */
    method WriteAllXattrs(hsize: nat, buf: seq<Byte>, noNid: bool, noNode: bool, footer: seq<Byte>) returns (ok: bool)
      requires Shaped() && |buf| == z.inlined + z.page && |footer| == z.footer && hsize > 0
      modifies `inlined, `node
      ensures Shaped() && ok == !(hsize > z.inlined && old(node).None? && (noNid || noNode))
      ensures ok ==> WrittenAs(z, buf, hsize, inlined, node)
      ensures ok && hsize > z.inlined ==> node.value[z.page - z.footer..] == if old(node).Some? then old(node).value[z.page - z.footer..] else footer
      ensures !ok ==> node == old(node) && inlined == if noNid then old(inlined) else buf[..z.inlined]
    {
      if hsize > z.inlined && node.None? {
        if noNid { return false; }
      }
      if z.inlined > 0 {
        inlined := buf[..z.inlined];
        if hsize <= z.inlined {
          node := None;
          return true;
        }
      }
      var tail := footer;
      if node.Some? {
        tail := node.value[z.page - z.footer..];
      } else if noNode {
        return false;
      }
      node := Some(buf[z.inlined..z.Limit()] + tail);
      return true;
    }

    /** f2fs_getxattr: the size of the value, and the value if there is a buffer for it. */
    method GetXattr(key: Key, bufferSize: Option<nat>) returns (r: Result<nat>, data: seq<Byte>)
      requires Valid()
      ensures r == if |key.name| > F2FS_NAME_LEN then Err(ERange)
                   else if key !in attrs then Err(ENoData)
                   else if bufferSize.Some? && |attrs[key]| > bufferSize.value then Err(ERange)
                   else Ok(|attrs[key]|)
      ensures data == if r.Ok? && bufferSize.Some? then attrs[key] else []
    {
      if |key.name| > F2FS_NAME_LEN { return Err(ERange), []; }
      var buf := ReadAllXattrs();
      LaidRead(z, Joined(z, inlined, node), buf, es);
      var entry := FindXattr(z, buf, key, es);
      PosInMap(es, attrs, key);
      if IsLast(buf, entry) { return Err(ENoData), []; }
      LaidEntry(z, buf, es, Pos(es, key));
      r, data := ReadValue(buf, entry, bufferSize, es[Pos(es, key)]);
    }

    /** The part of __f2fs_setxattr that works on the buffer alone. */
    method Prepare(key: Key, value: Option<seq<Byte>>, create: bool, replace: bool)
      returns (r: Option<Error>, buf: seq<Byte>, hsize: nat)
      requires Valid() && 1 <= key.index < 256
      ensures var long := |key.name| > 255 || (value.Some? && |value.value| > z.inlined + z.page - z.footer - 32);
              && (r == Some(ERange) <==> long)
              && (r == Some(ENoData) <==> !long && replace && key !in attrs)
              && (r == Some(EExist) <==> !long && create && key in attrs)
              && (r == Some(ENoSpace) <==>
                    && !long && !(replace && key !in attrs) && !(create && key in attrs)
                    && value.Some? && EndAfter(es, key, value) > z.inlined + z.page - z.footer - 4)
      ensures r.None? ==> Laid(z, buf, After(es, key, value)) && hsize == End(After(es, key, value))
    {
      if |key.name| > F2FS_NAME_LEN || (value.Some? && |value.value| > z.MaxValueLen()) { return Some(ERange), [], 0; }
      buf := ReadAllXattrs();
      LaidRead(z, Joined(z, inlined, node), buf, es);
      var here := FindXattr(z, buf, key, es);
      PosInMap(es, attrs, key);
      var found := !IsLast(buf, here);
      if replace && !found { return Some(ENoData), [], 0; }
      if create && found { return Some(EExist), [], 0; }
      var last := FindLast(z, buf, here, es, Pos(es, key));
      var ok;
      ok, buf, hsize := Change(z, buf, here, last, found, key, value, es);
      r := if ok then None else Some(ENoSpace);
    }

    /** The call of write_all_xattrs in __f2fs_setxattr. */
    method Commit(buf: seq<Byte>, hsize: nat, noNid: bool, noNode: bool, footer: seq<Byte>, ghost t: seq<Attr>, ghost m: map<Key, seq<Byte>>)
      returns (ok: bool)
      requires Shaped() && |footer| == z.footer && Laid(z, buf, t) && hsize == End(t) && Unique(t) && IsMap(t, m)
      modifies this
      ensures ok == !(hsize > z.inlined && old(node).None? && (noNid || noNode))
      ensures ok ==> Valid() && Settled() && es == t && attrs == m
      ensures !ok ==> es == old(es) && attrs == old(attrs) && node == old(node)
      ensures !ok ==> inlined == if noNid then old(inlined) else buf[..z.inlined]
    {
      ok := WriteAllXattrs(hsize, buf, noNid, noNode, footer);
      if ok {
        LaidWritten(z, buf, t, inlined, node);
        es, attrs := t, m;
      }
    }

    /**
      __f2fs_setxattr; no value means removal. All refusals but one change nothing:
      when the node block cannot be had, the inline area has been written already.
     */
    method SetXattr(key: Key, value: Option<seq<Byte>>, create: bool, replace: bool, noNid: bool, noNode: bool, footer: seq<Byte>)
      returns (r: Option<Error>, ghost buf': seq<Byte>)
      requires Valid() && 1 <= key.index < 256 && |footer| == z.footer
      modifies this
      ensures var long := |key.name| > 255 || (value.Some? && |value.value| > z.inlined + z.page - z.footer - 32);
              && (r == Some(ERange) <==> long)
              && (r == Some(ENoData) <==> !long && replace && key !in old(attrs))
              && (r == Some(EExist) <==> !long && create && key in old(attrs))
              && (r == Some(ENoSpace) <==>
                    && !long && !(replace && key !in old(attrs)) && !(create && key in old(attrs))
                    && var end := EndAfter(old(es), key, value);
                       || (value.Some? && end > z.inlined + z.page - z.footer - 4)
                       || (end > z.inlined && old(node).None? && (noNid || noNode)))
      ensures r.None? ==> Valid() && Settled() && es == After(old(es), key, value)
      ensures r.None? ==> attrs == if value.Some? then old(attrs)[key := value.value] else old(attrs) - {key}
      ensures r.Some? ==> es == old(es) && attrs == old(attrs) && node == old(node)
      ensures r.Some? && inlined != old(inlined) ==> !noNid && NoBlock(z, buf', old(es), key, value, old(node), noNode)
      ensures r.Some? && inlined != old(inlined) ==> inlined == buf'[..z.inlined]
    {
      var buf, hsize;
      r, buf, hsize := Prepare(key, value, create, replace);
      buf' := buf;
      if r.Some? {
        assert r.value.ERange? || r.value.ENoData? || r.value.EExist? || r.value.ENoSpace?;
        return;
      }
      ghost var t := After(es, key, value);
      AfterIsMap(es, attrs, key, value);
      EndAfterIs(es, key, value);
      ghost var m := if value.Some? then attrs[key := value.value] else attrs - {key};
      var ok := Commit(buf, hsize, noNid, noNode, footer, t, m);
      if !ok { r := Some(ENoSpace); }
    }
  }

  /** The changed entries need a node block that cannot be had. */
  ghost predicate NoBlock(z: Sizes, buf: seq<Byte>, es: seq<Attr>, key: Key, value: Option<seq<Byte>>, node: Option<seq<Byte>>, fails: bool)
    requires z.Valid()
  {
    Laid(z, buf, After(es, key, value)) && End(After(es, key, value)) > z.inlined && node.None? && fails
  }

  lemma LaidRead(z: Sizes, raw: seq<Byte>, buf: seq<Byte>, es: seq<Attr>)
    requires z.Valid() && Laid(z, raw, es) && |buf| == |raw| && buf[HEADER..] == raw[HEADER..]
    ensures Laid(z, buf, es)
  {
    forall i | HEADER <= i < z.Limit()
      ensures raw[i] == buf[i]
    {
      assert raw[i] == raw[HEADER..][i - HEADER] && buf[i] == buf[HEADER..][i - HEADER];
    }
    LaidSame(z, raw, buf, es);
  }

  /** What was written reads as the buffer did, even without the node block if the entries end in the inline area. */
  lemma LaidWritten(z: Sizes, buf: seq<Byte>, es: seq<Attr>, inlined: seq<Byte>, node: Option<seq<Byte>>)
    requires z.Valid() && Laid(z, buf, es) && WrittenAs(z, buf, End(es), inlined, node)
    ensures Laid(z, Joined(z, inlined, node), es)
  {
    var raw := Joined(z, inlined, node);
    forall i | HEADER <= i < z.Limit()
      ensures buf[i] == raw[i]
    {
      if i >= z.inlined && node.Some? {
        assert node.value[..z.page - z.footer][i - z.inlined] == buf[z.inlined..z.Limit()][i - z.inlined];
      }
    }
    LaidSame(z, buf, raw, es);
  }

  // ------------------------------------------------------- the refusal that leaves a trace

  /** Where the bytes of an entry are the same, the key and the size of the value are. */
  lemma SameEntry(a: seq<Byte>, b: seq<Byte>, off: nat, e: Attr, f: Attr)
    requires EntryAt(a, off, e) && EntryAt(b, off, f)
    requires off + |Encode(e)| <= |b| && forall i :: off <= i < off + |Encode(e)| ==> a[i] == b[i]
    ensures e.key == f.key && |e.value| == |f.value|
  {
    Fields(a, off, e);
    Fields(b, off, f);
    var n := |e.key.name|;
    assert a[off + FIXED..off + FIXED + n] == b[off + FIXED..off + FIXED + n];
  }

  /** Appending an entry changes nothing before it. */
  lemma SameBefore(z: Sizes, before: seq<Byte>, buf: seq<Byte>, es: seq<Attr>, e: Attr, i: nat)
    requires z.Valid() && Laid(z, before, es) && Laid(z, buf, es + [e]) && HEADER <= i < End(es)
    ensures i < |buf| && i < |before| && buf[i] == before[i]
  {
    var a := EncodeAll(es);
    EncodeConcat(es, [e]);
    assert before[HEADER..End(es)][i - HEADER] == a[i - HEADER];
    assert buf[HEADER..End(es + [e])][i - HEADER] == (a + EncodeAll([e]))[i - HEADER];
  }

  /** The new entry starts with a byte that was zero and no longer is. */
  lemma StartDiffers(z: Sizes, before: seq<Byte>, buf: seq<Byte>, es: seq<Attr>, e: Attr)
    requires z.Valid() && Laid(z, before, es) && Laid(z, buf, es + [e])
    ensures End(es) < |buf| && End(es) < |before| && buf[End(es)] != before[End(es)]
  {
    var t := es + [e];
    assert t[..|es|] == es && t[|es|] == e;
    LaidEntry(z, buf, t, |es|);
    Fields(buf, End(es), e);
  }

  /** A new key: the inline area stays the same exactly if it was full to the last byte. */
  lemma NewKeyTrace(z: Sizes, before: seq<Byte>, buf: seq<Byte>, es: seq<Attr>, e: Attr)
    requires z.Valid() && Laid(z, before, es) && Laid(z, buf, es + [e]) && End(es) <= z.inlined
    ensures (forall i :: HEADER <= i < z.inlined ==> buf[i] == before[i]) <==> End(es) == z.inlined
  {
    StartDiffers(z, before, buf, es, e);
    forall i | HEADER <= i < End(es)
      ensures buf[i] == before[i]
    {
      SameBefore(z, before, buf, es, e, i);
    }
  }

  /** What comes to stand where the old entry was differs from it in the key or in the size of the value. */
  lemma OtherEntry(es: seq<Attr>, p: nat, e: Attr)
    requires AllOk(es) && AttrOk(e) && Unique(es) && p < |es|
    requires End(es) < End(Without(es, p) + [e])
    ensures var f := (Without(es, p) + [e])[p]; f.key != es[p].key || |f.value| != |es[p].value|
  {
    var t := Without(es, p) + [e];
    if p < |es| - 1 {
      assert t[p] == es[p + 1];
    } else {
      assert t == es[..p] + [e] && es == es[..p] + [es[p]];
      EncodeConcat(es[..p], [e]);
      EncodeConcat(es[..p], [es[p]]);
    }
  }

  /** An old key: the inline area never stays the same if the entries outgrow it. */
  lemma OldKeyTrace(z: Sizes, before: seq<Byte>, buf: seq<Byte>, es: seq<Attr>, p: nat, e: Attr)
    requires z.Valid() && Laid(z, before, es) && p < |es| && Laid(z, buf, Without(es, p) + [e]) && Unique(es)
    requires End(es) <= z.inlined < End(Without(es, p) + [e])
    ensures exists i :: HEADER <= i < z.inlined && buf[i] != before[i]
  {
    var t, off := Without(es, p) + [e], Off(es, p);
    assert t[..p] == es[..p];
    OtherEntry(es, p, e);
    LaidEntry(z, before, es, p);
    LaidEntry(z, buf, t, p);
    if forall i :: HEADER <= i < z.inlined ==> buf[i] == before[i] {
      SameEntry(before, buf, off, es[p], t[p]);
      assert false;
    }
  }

  /**
    When the node block cannot be had, the attributes are still as they were, byte
    for byte, exactly if the key is new and the entries fill the inline area.
   */
  lemma RefusalLeavesNoTrace(z: Sizes, before: seq<Byte>, buf: seq<Byte>, es: seq<Attr>, key: Key, value: seq<Byte>)
    requires z.Valid() && Laid(z, before, es) && Unique(es) && Laid(z, buf, After(es, key, Some(value)))
    requires End(es) <= z.inlined < End(After(es, key, Some(value)))
    ensures (forall i :: HEADER <= i < z.inlined ==> buf[i] == before[i]) <==> Pos(es, key) == |es| && End(es) == z.inlined
  {
    if Pos(es, key) == |es| {
      NewKeyTrace(z, before, buf, es, Attr(key, value));
    } else {
      OldKeyTrace(z, before, buf, es, Pos(es, key), Attr(key, value));
    }
  }
}
