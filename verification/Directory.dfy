/**
  A directory as hashed blocks of entries, and the map from names to inodes that it
  stands for.
 */
module Directory {
  import Addressing
  import Bitmap
  import opened DirLevels
  import opened Wrappers

  type Byte = bv8
  type Name = seq<Byte>

  const NR_DENTRY_IN_BLOCK: nat := 214
  const F2FS_SLOT_LEN: nat := 8
  const F2FS_NAME_LEN: nat := 255

  /** GET_DENTRY_SLOTS. */
  function Slots(len: nat): (n: nat)
    ensures len <= 8 * n < len + 8
  {
    (len + (F2FS_SLOT_LEN - 1)) / F2FS_SLOT_LEN
  }

  datatype Dentry = Dentry(hash: nat, ino: nat, len: nat)

  /** A dentry block: one bit, one entry and eight name bytes per slot; a long name runs on into the next slots. */
  datatype Block = Block(bits: seq<bool>, dents: seq<Dentry>, names: seq<Byte>)
  {
    predicate Sized() {
      && |bits| == NR_DENTRY_IN_BLOCK && |dents| == NR_DENTRY_IN_BLOCK
      && |names| == NR_DENTRY_IN_BLOCK * F2FS_SLOT_LEN
    }

    /** Entry p is the entry of this name. */
    ghost predicate EntryAt(p: nat, name: Name, hash: nat) {
      && Sized() && 1 <= |name| && p + Slots(|name|) <= NR_DENTRY_IN_BLOCK
      && (forall k :: p <= k < p + Slots(|name|) ==> bits[k])
      && dents[p].len == |name| && dents[p].hash == hash
      && names[F2FS_SLOT_LEN * p..F2FS_SLOT_LEN * p + |name|] == name
    }
  }

  function ZeroBlock(): Block {
    Block(Bitmap.Clear(NR_DENTRY_IN_BLOCK), seq(NR_DENTRY_IN_BLOCK, _ => Dentry(0, 0, 0)),
          seq(NR_DENTRY_IN_BLOCK * F2FS_SLOT_LEN, _ => 0))
  }

  /** Slot k belongs to one of the entries. */
  ghost predicate Covered(heads: map<Name, nat>, k: nat) {
    exists n :: n in heads && heads[n] <= k < heads[n] + Slots(|n|)
  }

  ghost predicate Apart(heads: map<Name, nat>, n: Name, m: Name)
    requires n in heads && m in heads
  {
    heads[n] + Slots(|n|) <= heads[m] || heads[m] + Slots(|m|) <= heads[n]
  }

  /** The block holds exactly these names, at these positions. */
  ghost predicate BlockIs(hash: Name -> nat, b: Block, heads: map<Name, nat>) {
    && b.Sized()
    && (forall n :: n in heads ==> b.EntryAt(heads[n], n, hash(n)))
    && (forall n, m :: n in heads && m in heads && n != m ==> Apart(heads, n, m))
    && forall k: nat :: k < NR_DENTRY_IN_BLOCK && b.bits[k] ==> Covered(heads, k)
  }

  function Filled(bits: seq<bool>, p: nat, n: nat, v: bool): (r: seq<bool>)
    requires p + n <= |bits|
    ensures |r| == |bits|
    ensures forall k :: 0 <= k < |bits| ==> r[k] == if p <= k < p + n then v else bits[k]
  {
    seq(|bits|, k requires 0 <= k < |bits| => if p <= k < p + n then v else bits[k])
  }

  function NameStored(names: seq<Byte>, p: nat, name: Name): (r: seq<Byte>)
    requires F2FS_SLOT_LEN * p + |name| <= |names|
    ensures |r| == |names|
    ensures r[F2FS_SLOT_LEN * p..F2FS_SLOT_LEN * p + |name|] == name
    ensures forall i :: 0 <= i < |names| && !(F2FS_SLOT_LEN * p <= i < F2FS_SLOT_LEN * p + |name|) ==> r[i] == names[i]
  {
    names[..F2FS_SLOT_LEN * p] + name + names[F2FS_SLOT_LEN * p + |name|..]
  }

  /** The block with one more entry. */
  function WithEntry(b: Block, p: nat, name: Name, hash: nat, ino: nat): Block
    requires b.Sized() && 1 <= |name| && p + Slots(|name|) <= NR_DENTRY_IN_BLOCK
  {
    Block(Filled(b.bits, p, Slots(|name|), true), b.dents[p := Dentry(hash, ino, |name|)], NameStored(b.names, p, name))
  }

  lemma EntryUnchanged(a: Block, b: Block, p: nat, name: Name, hash: nat)
    requires a.EntryAt(p, name, hash) && b.Sized()
    requires forall k :: p <= k < p + Slots(|name|) ==> b.bits[k]
    requires b.dents[p].len == a.dents[p].len && b.dents[p].hash == a.dents[p].hash
    requires forall i :: F2FS_SLOT_LEN * p <= i < F2FS_SLOT_LEN * (p + Slots(|name|)) ==> b.names[i] == a.names[i]
    ensures b.EntryAt(p, name, hash)
  {
    assert b.names[F2FS_SLOT_LEN * p..F2FS_SLOT_LEN * p + |name|] == a.names[F2FS_SLOT_LEN * p..F2FS_SLOT_LEN * p + |name|];
  }

  /** An entry put into free slots is added to those that are there. */
  lemma InsertIs(hash: Name -> nat, b: Block, heads: map<Name, nat>, p: nat, name: Name, ino: nat)
    requires BlockIs(hash, b, heads) && name !in heads && 1 <= |name| && p + Slots(|name|) <= NR_DENTRY_IN_BLOCK
    requires forall k :: p <= k < p + Slots(|name|) ==> !b.bits[k]
    ensures BlockIs(hash, WithEntry(b, p, name, hash(name), ino), heads[name := p])
  {
    var c, more := WithEntry(b, p, name, hash(name), ino), heads[name := p];
    forall n | n in heads
      ensures c.EntryAt(heads[n], n, hash(n)) && Apart(more, n, name)
    {
      assert b.EntryAt(heads[n], n, hash(n));
      FreeIsApart(b, heads[n], n, hash(n), p, name);
      EntryUnchanged(b, c, heads[n], n, hash(n));
    }
    forall n, m | n in more && m in more && n != m
      ensures Apart(more, n, m)
    {
      if n != name && m != name { assert Apart(heads, n, m); }
    }
    forall k: nat | k < NR_DENTRY_IN_BLOCK && c.bits[k]
      ensures Covered(more, k)
    {
      if p <= k < p + Slots(|name|) {
        assert more[name] <= k < more[name] + Slots(|name|);
      } else {
        var n :| n in heads && heads[n] <= k < heads[n] + Slots(|n|);
        assert more[n] <= k < more[n] + Slots(|n|);
      }
    }
  }

  /** Free slots belong to no entry. */
  lemma FreeIsApart(b: Block, q: nat, n: Name, h: nat, p: nat, name: Name)
    requires b.EntryAt(q, n, h) && 1 <= |name| && p + Slots(|name|) <= NR_DENTRY_IN_BLOCK
    requires forall k :: p <= k < p + Slots(|name|) ==> !b.bits[k]
    ensures q + Slots(|n|) <= p || p + Slots(|name|) <= q
  {
    assert b.bits[q] && !b.bits[p];
  }

  /** The block with some bits cleared. */
  function Cleared(b: Block, p: nat, n: nat): Block
    requires p + n <= |b.bits|
  {
    b.(bits := Filled(b.bits, p, n, false))
  }

  /** Clearing the bits of an entry removes this entry and no other. */
  lemma EraseIs(hash: Name -> nat, b: Block, heads: map<Name, nat>, name: Name)
    requires BlockIs(hash, b, heads) && name in heads
    ensures b.EntryAt(heads[name], name, hash(name))
    ensures BlockIs(hash, Cleared(b, heads[name], Slots(|name|)), heads - {name})
  {
    var p := heads[name];
    var c, less := Cleared(b, p, Slots(|name|)), heads - {name};
    forall n | n in less
      ensures c.EntryAt(less[n], n, hash(n))
    {
      assert b.EntryAt(heads[n], n, hash(n)) && Apart(heads, n, name);
      EntryUnchanged(b, c, heads[n], n, hash(n));
    }
    forall n, m | n in less && m in less && n != m
      ensures Apart(less, n, m)
    {
      assert Apart(heads, n, m);
    }
    forall k: nat | k < NR_DENTRY_IN_BLOCK && c.bits[k]
      ensures Covered(less, k)
    {
      var n :| n in heads && heads[n] <= k < heads[n] + Slots(|n|);
      assert n in less && less[n] <= k < less[n] + Slots(|n|);
    }
  }

  /** The scan stands between entries, and has not passed this name. */
  ghost predicate Between(heads: map<Name, nat>, pos: nat, name: Name) {
    && (forall n :: n in heads ==> heads[n] + Slots(|n|) <= pos || pos <= heads[n])
    && (name in heads ==> pos <= heads[name])
  }

  /** A set bit is the first of an entry, and the scan goes on behind it. */
  lemma AtEntry(hash: Name -> nat, b: Block, heads: map<Name, nat>, pos: nat, name: Name)
    returns (n: Name)
    requires BlockIs(hash, b, heads) && pos < NR_DENTRY_IN_BLOCK && b.bits[pos] && Between(heads, pos, name)
    ensures n in heads && heads[n] == pos && b.EntryAt(pos, n, hash(n)) && Slots(|n|) >= 1
    ensures pos + Slots(|n|) <= NR_DENTRY_IN_BLOCK == |b.dents| == |b.bits| && b.dents[pos].len == |n|
    ensures forall k :: pos <= k < pos + Slots(|n|) ==> b.bits[k]
    ensures n != name ==> Between(heads, pos + Slots(|n|), name)
  {
    assert Covered(heads, pos);
    n :| n in heads && heads[n] <= pos < heads[n] + Slots(|n|);
    assert b.EntryAt(heads[n], n, hash(n));
    forall m | m in heads && n != m
      ensures heads[m] + Slots(|m|) <= pos || pos + Slots(|n|) <= heads[m]
    {
      assert Apart(heads, n, m);
    }
  }

  /** A scan that has come to the end has passed every entry. */
  lemma PastAll(heads: map<Name, nat>, pos: nat, name: Name)
    requires Between(heads, pos, name)
    ensures name in heads ==> pos <= heads[name]
  {
  }

  lemma AtGap(hash: Name -> nat, b: Block, heads: map<Name, nat>, pos: nat, name: Name)
    requires BlockIs(hash, b, heads) && pos < NR_DENTRY_IN_BLOCK && !b.bits[pos] && Between(heads, pos, name)
    ensures Between(heads, pos + 1, name)
  {
    forall n | n in heads
      ensures heads[n] + Slots(|n|) <= pos + 1 || pos + 1 <= heads[n]
    {
      assert b.EntryAt(heads[n], n, hash(n));
    }
    if name in heads { assert b.EntryAt(heads[name], name, hash(name)); }
  }

  /** A run of free slots of this length starts at p. */
  ghost predicate RoomAt(bits: seq<bool>, p: nat, slots: nat) {
    p + slots <= |bits| && forall k :: p <= k < p + slots ==> !bits[k]
  }

  /**
    The longest run that find_in_block believes it has seen after slot k on: runs are
    counted on until they set a record, and the first slot of a run is not counted
    unless it is the first of the block.
   */
  function Reported(bits: seq<bool>, k: nat, len: nat, most: nat): nat
    decreases |bits| - k
  {
    if k >= |bits| then if len > most then len else most
    else if bits[k] then if len > most then Reported(bits, k + 1, 0, len) else Reported(bits, k + 1, len, most)
    else Reported(bits, k + 1, if k == 0 then 1 else if !bits[k - 1] then len + 1 else len, most)
  }

  /** Slots of an entry set one record at most. */
  lemma {:induction false} ReportedSkips(bits: seq<bool>, k: nat, n: nat, len: nat, most: nat)
    requires k + n <= |bits| && len <= most && forall i :: k <= i < k + n ==> bits[i]
    ensures Reported(bits, k, len, most) == Reported(bits, k + n, len, most)
    decreases n
  {
    if n > 0 { ReportedSkips(bits, k + 1, n - 1, len, most); }
  }

  lemma ReportedEntry(bits: seq<bool>, k: nat, n: nat, len: nat, most: nat)
    requires 1 <= n && k + n <= |bits| && forall i :: k <= i < k + n ==> bits[i]
    ensures Reported(bits, k, len, most) == if len > most then Reported(bits, k + n, 0, len) else Reported(bits, k + n, len, most)
  {
    if len > most { ReportedSkips(bits, k + 1, n - 1, 0, len); } else { ReportedSkips(bits, k + 1, n - 1, len, most); }
  }

  lemma ReportedDone(bits: seq<bool>, k: nat, len: nat, most: nat)
    requires k >= |bits|
    ensures Reported(bits, k, len, most) == if len > most then len else most
  {
  }

  lemma ReportedGap(bits: seq<bool>, k: nat, len: nat, most: nat)
    requires k < |bits| && !bits[k]
    ensures Reported(bits, k, len, most) ==
              Reported(bits, k + 1, if k == 0 then 1 else if !bits[k - 1] then len + 1 else len, most)
  {
  }

  /** Inside a run every slot counts. */
  lemma {:induction false} ReportedRun(bits: seq<bool>, k: nat, n: nat, len: nat, most: nat)
    requires RoomAt(bits, k, n) && (if k == 0 then len == 0 else n > 0 ==> !bits[k - 1])
    ensures Reported(bits, k, len, most) >= len + n && Reported(bits, k, len, most) >= most
    decreases |bits| - k
  {
    if k < |bits| {
      var next := if bits[k] then if len > most then 0 else len else if k == 0 then 1 else if !bits[k - 1] then len + 1 else len;
      var record := if bits[k] && len > most then len else most;
      ReportedRun(bits, k + 1, if n > 0 then n - 1 else 0, next, record);
    }
  }

  /** A run adds its slots to the count, but for the first slot, unless it is the first of the block. */
  lemma {:induction false} ReportedFreeRun(bits: seq<bool>, k: nat, n: nat, len: nat, most: nat)
    requires RoomAt(bits, k, n) && n >= 1 && (k > 0 ==> bits[k - 1])
    ensures Reported(bits, k, len, most) == Reported(bits, k + n, if k == 0 then n else len + n - 1, most)
    decreases n
  {
    if n > 1 {
      ReportedFreeRun(bits, k, n - 1, len, most);
      assert !bits[k + n - 2];
    }
  }

  /** The scan passes slot q with some count and some record. */
  lemma {:induction false} ReportedReaches(bits: seq<bool>, k: nat, q: nat, len: nat, most: nat) returns (len': nat, most': nat)
    requires k <= q <= |bits|
    ensures Reported(bits, k, len, most) == Reported(bits, q, len', most')
    decreases q - k
  {
    if k == q { return len, most; }
    if bits[k] {
      len', most' := ReportedReaches(bits, k + 1, q, if len > most then 0 else len, if len > most then len else most);
    } else {
      len', most' := ReportedReaches(bits, k + 1, q, if k == 0 then 1 else if !bits[k - 1] then len + 1 else len, most);
    }
  }

  /** What is reported falls short of no free run by more than its first slot. */
  lemma ReportedCovers(bits: seq<bool>, q: nat, n: nat, most: nat)
    requires RoomAt(bits, q, n) && n >= 1
    ensures Reported(bits, 0, 0, most) + 1 >= n && (q == 0 ==> Reported(bits, 0, 0, most) >= n)
  {
    var len, record := ReportedReaches(bits, 0, q, 0, most);
    if q == 0 {
      ReportedRun(bits, 0, n, 0, most);
    } else {
      ReportedRun(bits, q + 1, n - 1, if !bits[q - 1] then len + 1 else len, record);
    }
  }

  /** And it is not more than the free slots there are, or what had been reported before. */
  lemma {:induction false} ReportedWithin(bits: seq<bool>, k: nat, len: nat, most: nat)
    ensures Reported(bits, k, len, most) <= if len + FreeFrom(bits, k) > most then len + FreeFrom(bits, k) else most
    decreases |bits| - k
  {
    if k < |bits| {
      var next := if bits[k] then if len > most then 0 else len else if k == 0 then 1 else if !bits[k - 1] then len + 1 else len;
      ReportedWithin(bits, k + 1, next, if bits[k] && len > most then len else most);
    }
  }

  /** Free slots from k on. */
  function FreeFrom(bits: seq<bool>, k: nat): nat
    decreases |bits| - k
  {
    if k >= |bits| then 0 else FreeFrom(bits, k + 1) + if bits[k] then 0 else 1
  }

  /** early_match_name and memcmp: whether the entry at pos, which is that of n, has this name. */
  method Matches(b: Block, pos: nat, name: Name, nameHash: nat, ghost n: Name, ghost h: nat) returns (same: bool)
    requires b.EntryAt(pos, n, h) && (n == name ==> h == nameHash)
    ensures same == (n == name)
  {
    var de := b.dents[pos];
    if de.len != |name| || de.hash != nameHash { return false; }
    same := b.names[F2FS_SLOT_LEN * pos..F2FS_SLOT_LEN * pos + |name|] == name;
  }

  /** The part of the loop of find_in_block for a slot that is in use: an entry starts there. */
  method PassEntry(hash: Name -> nat, b: Block, name: Name, pos: nat, len0: nat, most0: nat, ghost heads: map<Name, nat>)
    returns (found: bool, next: nat, len: nat, most: nat)
    requires BlockIs(hash, b, heads) && pos < NR_DENTRY_IN_BLOCK && b.bits[pos] && Between(heads, pos, name)
    ensures found ==> name in heads && heads[name] == pos
    ensures !found ==> pos < next <= NR_DENTRY_IN_BLOCK && Between(heads, next, name)
    ensures !found ==> Reported(b.bits, pos, len0, most0) == Reported(b.bits, next, len, most)
  {
    ghost var n := AtEntry(hash, b, heads, pos, name);
    hide BlockIs, Reported, Between;
    found, next, len, most := false, pos, len0, most0;
    var de := b.dents[pos];
    found := Matches(b, pos, name, hash(name), n, hash(n));
    if found { return; }
    if len > most { len, most := 0, len; }
    ReportedEntry(b.bits, pos, Slots(de.len), len0, most0);
    next := pos + Slots(de.len);
  }

  /**
    find_in_block: the slot of the name, or the number of slots if it is not there;
    then also how long a free run the hint for insertions may count on.
   */
  method FindInBlock(hash: Name -> nat, b: Block, name: Name, maxSlots0: nat, ghost heads: map<Name, nat>)
    returns (pos: nat, maxSlots: nat)
    requires BlockIs(hash, b, heads) && |name| >= 1
    ensures if name in heads then pos == heads[name] < NR_DENTRY_IN_BLOCK else pos == NR_DENTRY_IN_BLOCK
    ensures name !in heads ==> maxSlots == Reported(b.bits, 0, 0, maxSlots0)
  {
    pos, maxSlots := 0, maxSlots0;
    var maxLen: nat := 0;
    assert b.Sized() && Between(heads, 0, name) && (name in heads ==> b.EntryAt(heads[name], name, hash(name)));
    assert name in heads ==> heads[name] < NR_DENTRY_IN_BLOCK;
    hide BlockIs, Reported, Between;
    while pos < NR_DENTRY_IN_BLOCK
      invariant pos <= NR_DENTRY_IN_BLOCK && Between(heads, pos, name)
      invariant Reported(b.bits, pos, maxLen, maxSlots) == Reported(b.bits, 0, 0, maxSlots0)
      decreases NR_DENTRY_IN_BLOCK - pos
    {
      if b.bits[pos] {
        var found, next, len, most := PassEntry(hash, b, name, pos, maxLen, maxSlots, heads);
        if found {
          if maxLen > maxSlots { maxSlots := maxLen; }
          return;
        }
        pos, maxLen, maxSlots := next, len, most;
      } else {
        ReportedGap(b.bits, pos, maxLen, maxSlots);
        AtGap(hash, b, heads, pos, name);
        maxLen := if pos == 0 then 1 else if !b.bits[pos - 1] then maxLen + 1 else maxLen;
        pos := pos + 1;
      }
    }
    PastAll(heads, pos, name);
    ReportedDone(b.bits, pos, maxLen, maxSlots);
    if maxLen > maxSlots { maxSlots := maxLen; }
  }

  /** room_for_filename: the first run of free slots that is long enough. */
  method RoomForFilename(b: Block, slots: nat) returns (p: nat)
    requires b.Sized() && slots >= 1
    ensures p <= NR_DENTRY_IN_BLOCK
    ensures p < NR_DENTRY_IN_BLOCK ==> RoomAt(b.bits, p, slots) && forall q: nat :: q < p ==> !RoomAt(b.bits, q, slots)
    ensures p == NR_DENTRY_IN_BLOCK ==> forall q: nat :: !RoomAt(b.bits, q, slots)
  {
    var bitStart: nat := 0;
    while true
      invariant bitStart < NR_DENTRY_IN_BLOCK
      invariant forall q: nat :: q < bitStart ==> !RoomAt(b.bits, q, slots)
      decreases NR_DENTRY_IN_BLOCK - bitStart
    {
      var zeroStart := Bitmap.NextZero(b.bits, bitStart);
      forall q: nat | bitStart <= q < zeroStart
        ensures !RoomAt(b.bits, q, slots)
      {
        assert b.bits[q];
      }
      if zeroStart >= NR_DENTRY_IN_BLOCK { return NR_DENTRY_IN_BLOCK; }
      var zeroEnd := Bitmap.NextOne(b.bits, zeroStart);
      if zeroEnd - zeroStart >= slots { return zeroStart; }
      forall q: nat | zeroStart <= q < zeroEnd + 1
        ensures !RoomAt(b.bits, q, slots)
      {
        if q + slots <= NR_DENTRY_IN_BLOCK { assert zeroEnd < NR_DENTRY_IN_BLOCK && b.bits[zeroEnd]; }
      }
      bitStart := zeroEnd + 1;
      if zeroEnd + 1 >= NR_DENTRY_IN_BLOCK { return NR_DENTRY_IN_BLOCK; }
    }
  }

  // ------------------------------------------------------- the blocks of a directory

  /** Where an entry is. */
  datatype Loc = Loc(block: nat, pos: nat)

  /** The names in one block. */
  ghost function In(index: map<Name, Loc>, b: nat): map<Name, nat> {
    map n | n in index && index[n].block == b :: index[n].pos
  }

  /** The blocks hold exactly the indexed names. */
  ghost predicate Holds(hash: Name -> nat, blocks: map<nat, Block>, index: map<Name, Loc>) {
    && (forall b :: b in blocks ==> BlockIs(hash, blocks[b], In(index, b)))
    && forall n :: n in index ==> index[n].block in blocks
  }

  /** The name is in its bucket on one of the levels below depth. */
  ghost predicate Placed(b: nat, hash: nat, dirLevel: nat, depth: nat) {
    exists level: nat :: level < depth && InBucket(b, level, dirLevel, hash)
  }

  ghost predicate AllPlaced(hash: Name -> nat, index: map<Name, Loc>, dirLevel: nat, depth: nat) {
    forall n :: n in index ==> Placed(index[n].block, hash(n), dirLevel, depth)
  }

  lemma HoldsEntry(hash: Name -> nat, blocks: map<nat, Block>, index: map<Name, Loc>, n: Name)
    requires Holds(hash, blocks, index) && n in index
    ensures blocks[index[n].block].EntryAt(index[n].pos, n, hash(n))
  {
    assert n in In(index, index[n].block);
  }

  /** The inode number in an entry. */
  ghost function InoAt(blocks: map<nat, Block>, loc: Loc): nat {
    if loc.block in blocks && loc.pos < |blocks[loc.block].dents| then blocks[loc.block].dents[loc.pos].ino else 0
  }

  /** The map from names to inodes that the blocks stand for. */
  ghost function Lookup(blocks: map<nat, Block>, index: map<Name, Loc>): map<Name, nat> {
    map n | n in index :: InoAt(blocks, index[n])
  }

  /** A new block holds no name. */
  lemma HoldsGrown(hash: Name -> nat, blocks: map<nat, Block>, index: map<Name, Loc>, b: nat)
    requires Holds(hash, blocks, index) && b !in blocks
    ensures Holds(hash, blocks[b := ZeroBlock()], index)
  {
    assert In(index, b) == map[];
  }

  /** One block is replaced, and only its names change. */
  lemma HoldsUpdated(hash: Name -> nat, blocks: map<nat, Block>, index: map<Name, Loc>, b: nat, new': Block, index': map<Name, Loc>)
    requires Holds(hash, blocks, index) && b in blocks && BlockIs(hash, new', In(index', b))
    requires forall c :: c in blocks && c != b ==> In(index', c) == In(index, c)
    requires forall n :: n in index' ==> index'[n].block in blocks
    ensures Holds(hash, blocks[b := new'], index')
  {
  }

  lemma InMore(index: map<Name, Loc>, name: Name, loc: Loc)
    requires name !in index
    ensures In(index[name := loc], loc.block) == In(index, loc.block)[name := loc.pos]
    ensures forall c :: c != loc.block ==> In(index[name := loc], c) == In(index, c)
  {
  }

  lemma InLess(index: map<Name, Loc>, name: Name)
    requires name in index
    ensures In(index - {name}, index[name].block) == In(index, index[name].block) - {name}
    ensures forall c :: c != index[name].block ==> In(index - {name}, c) == In(index, c)
  {
  }

  lemma GrownSame(hash: Name -> nat, blocks: map<nat, Block>, index: map<Name, Loc>, b: nat)
    requires Holds(hash, blocks, index) && b !in blocks
    ensures Holds(hash, blocks[b := ZeroBlock()], index)
    ensures Lookup(blocks[b := ZeroBlock()], index) == Lookup(blocks, index)
  {
    HoldsGrown(hash, blocks, index, b);
  }

  /** The block of a name with another inode number in its entry. */
  function Relinked(b: Block, pos: nat, ino: nat): Block
    requires pos < |b.dents|
  {
    b.(dents := b.dents[pos := b.dents[pos].(ino := ino)])
  }

  /** A new inode number does not move anything. */
  lemma SetLinkIs(hash: Name -> nat, b: Block, heads: map<Name, nat>, name: Name, ino: nat)
    requires BlockIs(hash, b, heads) && name in heads && heads[name] < |b.dents|
    ensures BlockIs(hash, Relinked(b, heads[name], ino), heads)
  {
    var c := Relinked(b, heads[name], ino);
    forall n | n in heads
      ensures c.EntryAt(heads[n], n, hash(n))
    {
      assert b.EntryAt(heads[n], n, hash(n));
      EntryUnchanged(b, c, heads[n], n, hash(n));
    }
  }

  /** No two names have the same place. */
  lemma OthersElsewhere(hash: Name -> nat, blocks: map<nat, Block>, index: map<Name, Loc>, name: Name)
    requires Holds(hash, blocks, index) && name in index
    ensures forall n :: n in index && n != name ==> index[n] != index[name]
  {
    forall n | n in index && n != name
      ensures index[n] != index[name]
    {
      if index[n].block == index[name].block {
        var heads := In(index, index[name].block);
        HoldsEntry(hash, blocks, index, n);
        HoldsEntry(hash, blocks, index, name);
        assert Apart(heads, n, name);
      }
    }
  }

  lemma LinkHolds(hash: Name -> nat, blocks: map<nat, Block>, index: map<Name, Loc>, name: Name, ino: nat)
    requires Holds(hash, blocks, index) && name in index && index[name].pos < |blocks[index[name].block].dents|
    ensures Holds(hash, blocks[index[name].block := Relinked(blocks[index[name].block], index[name].pos, ino)], index)
  {
    var b := index[name].block;
    assert name in In(index, b);
    SetLinkIs(hash, blocks[b], In(index, b), name, ino);
    HoldsUpdated(hash, blocks, index, b, Relinked(blocks[b], index[name].pos, ino), index);
  }

  lemma LinkLookup(blocks: map<nat, Block>, index: map<Name, Loc>, name: Name, ino: nat)
    requires name in index && index[name].block in blocks && index[name].pos < |blocks[index[name].block].dents|
    requires forall n :: n in index && n != name ==> index[n] != index[name]
    ensures Lookup(blocks[index[name].block := Relinked(blocks[index[name].block], index[name].pos, ino)], index)
            == Lookup(blocks, index)[name := ino]
  {
  }

  /** One more name, in free slots of a block. */
  lemma InsertedHolds(hash: Name -> nat, blocks: map<nat, Block>, index: map<Name, Loc>, b: nat, p: nat, name: Name, ino: nat)
    requires Holds(hash, blocks, index) && b in blocks && name !in index && 1 <= |name|
    requires RoomAt(blocks[b].bits, p, Slots(|name|)) && blocks[b].Sized()
    ensures Holds(hash, blocks[b := WithEntry(blocks[b], p, name, hash(name), ino)], index[name := Loc(b, p)])
    ensures forall n :: n in index ==> index[n] != Loc(b, p)
  {
    assert name !in In(index, b);
    InsertIs(hash, blocks[b], In(index, b), p, name, ino);
    InMore(index, name, Loc(b, p));
    HoldsUpdated(hash, blocks, index, b, WithEntry(blocks[b], p, name, hash(name), ino), index[name := Loc(b, p)]);
    forall n | n in index
      ensures index[n] != Loc(b, p)
    {
      HoldsEntry(hash, blocks, index, n);
      if index[n].block == b { FreeIsApart(blocks[b], index[n].pos, n, hash(n), p, name); }
    }
  }

  lemma InsertedLookup(blocks: map<nat, Block>, index: map<Name, Loc>, b: nat, p: nat, name: Name, h: nat, ino: nat)
    requires b in blocks && blocks[b].Sized() && name !in index && 1 <= |name| && p + Slots(|name|) <= NR_DENTRY_IN_BLOCK
    requires forall n :: n in index ==> index[n] != Loc(b, p)
    ensures Lookup(blocks[b := WithEntry(blocks[b], p, name, h, ino)], index[name := Loc(b, p)]) == Lookup(blocks, index)[name := ino]
  {
  }

  /** One name less. */
  lemma ErasedHolds(hash: Name -> nat, blocks: map<nat, Block>, index: map<Name, Loc>, name: Name)
    requires Holds(hash, blocks, index) && name in index
    ensures blocks[index[name].block].EntryAt(index[name].pos, name, hash(name))
    ensures Holds(hash, blocks[index[name].block := Cleared(blocks[index[name].block], index[name].pos, Slots(|name|))], index - {name})
  {
    var b := index[name].block;
    assert name in In(index, b);
    EraseIs(hash, blocks[b], In(index, b), name);
    InLess(index, name);
    HoldsUpdated(hash, blocks, index, b, Cleared(blocks[b], index[name].pos, Slots(|name|)), index - {name});
  }

  lemma ErasedLookup(blocks: map<nat, Block>, index: map<Name, Loc>, b: nat, p: nat, n: nat, name: Name)
    requires b in blocks && p + n <= |blocks[b].bits|
    ensures Lookup(blocks[b := Cleared(blocks[b], p, n)], index - {name}) == Lookup(blocks, index) - {name}
  {
  }

  /** A block without a set bit holds no name. */
  lemma EmptyBlock(hash: Name -> nat, blocks: map<nat, Block>, index: map<Name, Loc>, b: nat)
    requires Holds(hash, blocks, index) && b in blocks && Bitmap.NextOne(blocks[b].bits, 0) == NR_DENTRY_IN_BLOCK
    ensures Holds(hash, blocks - {b}, index) && Lookup(blocks - {b}, index) == Lookup(blocks, index)
    ensures forall n :: n in index ==> index[n].block != b
  {
    forall n | n in index
      ensures index[n].block != b
    {
      HoldsEntry(hash, blocks, index, n);
      assert blocks[index[n].block].bits[index[n].pos];
    }
  }

  /** A bit of a block is set exactly if some name is in it. */
  lemma SomeNameIn(hash: Name -> nat, blocks: map<nat, Block>, index: map<Name, Loc>, b: nat)
    requires Holds(hash, blocks, index) && b in blocks
    ensures |blocks[b].bits| == NR_DENTRY_IN_BLOCK
    ensures Bitmap.NextOne(blocks[b].bits, 0) < NR_DENTRY_IN_BLOCK <==> exists n :: n in index && index[n].block == b
  {
    var k := Bitmap.NextOne(blocks[b].bits, 0);
    if k < NR_DENTRY_IN_BLOCK {
      assert Covered(In(index, b), k);
      var n :| n in In(index, b);
      assert n in index && index[n].block == b;
    }
    if n :| n in index && index[n].block == b {
      HoldsEntry(hash, blocks, index, n);
      assert blocks[b].bits[index[n].pos];
    }
  }

  /** A block that holds no name has room for any. */
  lemma EmptyHasRoom(hash: Name -> nat, b: Block, slots: nat)
    requires BlockIs(hash, b, map[]) && slots <= NR_DENTRY_IN_BLOCK
    ensures RoomAt(b.bits, 0, slots)
  {
    forall k: nat | k < slots
      ensures !b.bits[k]
    {
      assert !Covered(map[], k);
    }
  }

  /** The buckets of a level that is not used yet are empty. */
  lemma NextLevelEmpty(hash: Name -> nat, index: map<Name, Loc>, dirLevel: nat, depth: nat, b: nat, h: nat)
    requires AllPlaced(hash, index, dirLevel, depth) && depth <= 31 && InBucket(b, depth, dirLevel, h)
    ensures In(index, b) == map[]
  {
    forall n | n in index
      ensures index[n].block != b
    {
      var level: nat :| level < depth && InBucket(index[n].block, level, dirLevel, hash(n));
      LevelsApart(index[n].block, level, hash(n), depth, h, dirLevel);
    }
  }

  lemma NextLevelFull(hash: Name -> nat, index: map<Name, Loc>, dirLevel: nat, depth: nat, level: nat, b: nat, h: nat)
    requires AllPlaced(hash, index, dirLevel, depth) && b == BlockIndex(level, dirLevel, h) && In(index, b) != map[]
    ensures depth <= 31 ==> level != depth
  {
    if depth <= 31 && level == depth { NextLevelEmpty(hash, index, dirLevel, depth, b, h); }
  }

  /** The new name is placed on its level, and deeper directories keep their names where they are. */
  lemma PlacedMore(hash: Name -> nat, index: map<Name, Loc>, dirLevel: nat, depth: nat, depth': nat, level: nat, name: Name, loc: Loc)
    requires AllPlaced(hash, index, dirLevel, depth) && depth <= depth' && level < depth' && InBucket(loc.block, level, dirLevel, hash(name))
    ensures AllPlaced(hash, index[name := loc], dirLevel, depth')
  {
    forall n | n in index[name := loc]
      ensures Placed(index[name := loc][n].block, hash(n), dirLevel, depth')
    {
      if n != name {
        var l: nat :| l < depth && InBucket(index[n].block, l, dirLevel, hash(n));
        assert l < depth' && InBucket(index[n].block, l, dirLevel, hash(n));
      }
    }
  }

  lemma PlacedLess(hash: Name -> nat, index: map<Name, Loc>, dirLevel: nat, depth: nat, name: Name)
    requires AllPlaced(hash, index, dirLevel, depth)
    ensures AllPlaced(hash, index - {name}, dirLevel, depth)
  {
  }

  // ------------------------------------------------------- what a look-up reports

  /** The longest run reported for the blocks of a bucket that are there, from first up to end. */
  function MostSeen(blocks: map<nat, Block>, first: nat, end: nat): nat
    decreases end
  {
    if end <= first then 0
    else if end - 1 in blocks then Reported(blocks[end - 1].bits, 0, 0, MostSeen(blocks, first, end - 1))
    else MostSeen(blocks, first, end - 1)
  }

  /** A block was missing, or a long enough run had been reported when one had been looked through. */
  ghost predicate RoomSeen(blocks: map<nat, Block>, first: nat, end: nat, slots: nat) {
    exists c: nat :: first <= c < end && (if c in blocks then MostSeen(blocks, first, c + 1) >= slots else true)
  }

  ghost predicate LevelRoom(blocks: map<nat, Block>, level: nat, dirLevel: nat, hash: nat, slots: nat) {
    var first := BlockIndex(level, dirLevel, hash);
    RoomSeen(blocks, first, first + BucketBlocks(level), slots)
  }

  lemma RoomSeenMore(blocks: map<nat, Block>, first: nat, end: nat, slots: nat)
    requires first <= end
    ensures RoomSeen(blocks, first, end + 1, slots)
       <==> RoomSeen(blocks, first, end, slots) || (end in blocks ==> MostSeen(blocks, first, end + 1) >= slots)
  {
    if end in blocks ==> MostSeen(blocks, first, end + 1) >= slots { assert first <= end < end + 1; }
  }

  /** The hint after levels below n have been searched in vain: the first one with room, unless there was a hint for this hash value. */
  ghost predicate HintAfter(blocks: map<nat, Block>, dirLevel: nat, hash: nat, slots: nat, n: nat, chash: nat, clevel: nat, chash': nat, clevel': nat) {
    if chash != hash && exists l: nat :: l < n && LevelRoom(blocks, l, dirLevel, hash, slots) then
      && chash' == hash && clevel' < n && LevelRoom(blocks, clevel', dirLevel, hash, slots)
      && forall l: nat :: l < clevel' ==> !LevelRoom(blocks, l, dirLevel, hash, slots)
    else chash' == chash && clevel' == clevel
  }

  lemma HintStep(blocks: map<nat, Block>, dirLevel: nat, hash: nat, slots: nat, n: nat, chash: nat, clevel: nat,
                 chash': nat, clevel': nat, chash'': nat, clevel'': nat)
    requires HintAfter(blocks, dirLevel, hash, slots, n, chash, clevel, chash', clevel')
    requires if chash' != hash && LevelRoom(blocks, n, dirLevel, hash, slots) then chash'' == hash && clevel'' == n
             else chash'' == chash' && clevel'' == clevel'
    ensures HintAfter(blocks, dirLevel, hash, slots, n + 1, chash, clevel, chash'', clevel'')
  {
    hide LevelRoom;
  }

  // ------------------------------------------------------- what an insertion comes across

  ghost predicate InTree(blocks: map<nat, Block>, cap: nat) { forall b :: b in blocks ==> b < cap }

  /** The block is there and has no room. */
  ghost predicate Full(blocks: map<nat, Block>, b: nat, slots: nat) {
    b in blocks && forall p: nat :: !RoomAt(blocks[b].bits, p, slots)
  }

  /** All blocks that an insertion visits before block b of this level are full. */
  ghost predicate Passed(blocks: map<nat, Block>, dirLevel: nat, hash: nat, slots: nat, level0: nat, level: nat, b: nat) {
    && (forall l: nat, c: nat :: level0 <= l < level && InBucket(c, l, dirLevel, hash) ==> Full(blocks, c, slots))
    && forall c: nat :: c < b && InBucket(c, level, dirLevel, hash) ==> Full(blocks, c, slots)
  }

  /** The first block that is not full and that an insertion comes to, from level0 on, lies beyond the tree. */
  ghost predicate Blocked(blocks: map<nat, Block>, dirLevel: nat, hash: nat, slots: nat, level0: nat, cap: nat) {
    exists level: nat, b: nat ::
      level0 <= level && b >= cap && InBucket(b, level, dirLevel, hash) && Passed(blocks, dirLevel, hash, slots, level0, level, b)
  }

  /** No run before slot p of the block was long enough; a block that was not there is used from its start. */
  ghost predicate FirstRoom(blocks: map<nat, Block>, b: nat, p: nat, slots: nat) {
    if b in blocks then forall q: nat :: q < p ==> !RoomAt(blocks[b].bits, q, slots) else p == 0
  }

  ghost predicate SameBut(x: map<nat, Block>, y: map<nat, Block>, block: nat) {
    forall b :: b != block ==> (b in x <==> b in y) && (b in x ==> x[b] == y[b])
  }

  /** A new entry is at the first room on the way from level0 on; a directory gets a level more exactly if it is there. */
  ghost predicate AddedAt(blocks: map<nat, Block>, dirLevel: nat, hash: nat, slots: nat, level0: nat, depth: nat, loc: Loc, depth': nat) {
    && FirstRoom(blocks, loc.block, loc.pos, slots)
    && exists level: nat ::
         && level0 <= level <= depth && InBucket(loc.block, level, dirLevel, hash)
         && Passed(blocks, dirLevel, hash, slots, level0, level, loc.block) && depth' == if level == depth then depth + 1 else depth
  }

  /** The search ends at the first block that is not full, so it is not blocked if this one is in the tree. */
  lemma NotBlocked(blocks: map<nat, Block>, dirLevel: nat, hash: nat, slots: nat, level0: nat, cap: nat, level: nat, b: nat)
    requires level0 <= level && b < cap && InBucket(b, level, dirLevel, hash) && Passed(blocks, dirLevel, hash, slots, level0, level, b)
    requires !Full(blocks, b, slots) && InTree(blocks, cap)
    ensures !Blocked(blocks, dirLevel, hash, slots, level0, cap)
  {
  }

  lemma HoldsBlock(hash: Name -> nat, blocks: map<nat, Block>, index: map<Name, Loc>, b: nat)
    requires Holds(hash, blocks, index) && b in blocks
    ensures blocks[b].Sized()
  {
  }

  /** A full block holds a name, and is not a new one. */
  lemma FullBlock(hash: Name -> nat, blocks: map<nat, Block>, index: map<Name, Loc>, b: nat, slots: nat)
    requires Holds(hash, blocks, index) && b in blocks && slots <= NR_DENTRY_IN_BLOCK
    ensures Full(blocks, b, slots) ==> In(index, b) != map[] && blocks[b] != ZeroBlock()
  {
    if In(index, b) == map[] { EmptyHasRoom(hash, blocks[b], slots); }
    if blocks[b] == ZeroBlock() { assert RoomAt(blocks[b].bits, 0, slots); }
  }

  /** The bucket is full, so the search goes on at the next level. */
  lemma PassedBucket(blocks: map<nat, Block>, dirLevel: nat, hash: nat, slots: nat, level0: nat, level: nat, b: nat, next: nat)
    requires b == BlockIndex(level, dirLevel, hash) + BucketBlocks(level) && next == BlockIndex(level + 1, dirLevel, hash)
    requires Passed(blocks, dirLevel, hash, slots, level0, level, b)
    ensures Passed(blocks, dirLevel, hash, slots, level0, level + 1, next)
  {
  }

  /** Whether a lookup of a name that is not there comes to a block beyond the tree: one of the last level. */
  predicate LookupStops(dirLevel: nat, depth: nat, hash: nat, cap: nat)
    requires depth > 0
  {
    BlockIndex(depth - 1, dirLevel, hash) + BucketBlocks(depth - 1) > cap
  }

  /** The BUG() of get_node_path, which get_dnode_of_data runs into for an index beyond the tree. */
  method NodePathStops(sh: Addressing.Shape, index: nat) returns (bug: bool)
    requires sh.Valid()
    ensures bug <==> index >= sh.Capacity()
  {
    var offset, noffset := new nat[4], new nat[4];
    var level, _ := Addressing.GetNodePath(sh, index, offset, noffset);
    bug := level < 0;
  }

  /** What __f2fs_add_link comes to. */
  datatype Outcome = Added | NoSpace | Bug

  /** "." and ".." */
  const DOT: Name := [46]
  const DOTDOT: Name := [46, 46]

  lemma DotRoom(ino: nat)
    ensures ZeroBlock().Sized() && RoomAt(ZeroBlock().bits, 0, Slots(|DOT|)) && 0 + Slots(|DOT|) <= NR_DENTRY_IN_BLOCK
    ensures var b := WithEntry(ZeroBlock(), 0, DOT, 0, ino); b.Sized() && RoomAt(b.bits, 1, Slots(|DOTDOT|))
  {
    assert Slots(1) == 1 == Slots(2);
  }

  /** Both belong into block 0 of the first level. */
  lemma DotsPlaced(hash: Name -> nat, dirLevel: nat)
    requires hash(DOT) == 0 == hash(DOTDOT)
    ensures AllPlaced(hash, map[DOT := Loc(0, 0)][DOTDOT := Loc(0, 1)], dirLevel, 1)
  {
    assert BucketOf(0, dirLevel, 0) == 0;
    assert InBucket(0, 0, dirLevel, 0);
    assert Placed(0, 0, dirLevel, 1);
  }

  class Directory {
    const hash: Name -> nat
    const dirLevel: nat
    /** The shape of the directory's node tree, and how many blocks it addresses. */
    const sh: Addressing.Shape
    const cap: nat
    var blocks: map<nat, Block>
    /** i_size in pages, i_current_depth, and the hint chash, clevel. */
    var pages: nat
    var depth: nat
    var chash: nat
    var clevel: nat
    ghost var index: map<Name, Loc>

    ghost predicate Valid()
      reads this
    {
      Sound() && AllPlaced(hash, index, dirLevel, depth)
    }

    /** All of it but where the names are; the last level starts inside the node tree. */
    ghost predicate Sound()
      reads this
    {
      && Tree() && Holds(hash, blocks, index) && InTree(blocks, cap)
      && clevel < depth && LevelStart(depth - 1, dirLevel) < cap && (pages == 0 ==> index == map[])
    }

    ghost predicate Tree() { sh.Valid() && cap == sh.Capacity() && TreeSize(cap) }

    /** The map from names to inodes. */
    ghost function Inodes(): map<Name, nat>
      reads `blocks, `index
    {
      Lookup(blocks, index)
    }

    /** A new directory. */
    constructor (hash: Name -> nat, dirLevel: nat, sh: Addressing.Shape)
      requires sh.Valid() && TreeSize(sh.Capacity())
      ensures Valid() && this.hash == hash && this.dirLevel == dirLevel && this.sh == sh
      ensures Inodes() == map[] && depth == 1 && blocks == map[] && index == map[] && chash == clevel == 0
    {
      this.hash, this.dirLevel, this.sh, cap := hash, dirLevel, sh, sh.Capacity();
      blocks, pages, depth, chash, clevel, index := map[], 0, 1, 0, 0, map[];
    }

    /** One round of the loop of find_in_level. */
    method ScanBlock(bidx: nat, name: Name, maxSlots0: nat, room0: bool) returns (found: bool, pos: nat, maxSlots: nat, room: bool, bug: bool)
      requires Tree() && Holds(hash, blocks, index) && InTree(blocks, cap) && |name| >= 1
      ensures found == (name in index && index[name].block == bidx)
      ensures found ==> Loc(bidx, pos) == index[name]
      ensures bug == (!found && bidx >= cap)
      ensures !found && !bug ==> maxSlots == if bidx in blocks then Reported(blocks[bidx].bits, 0, 0, maxSlots0) else maxSlots0
      ensures !found && !bug ==> room == (room0 || (bidx in blocks ==> maxSlots >= Slots(|name|)))
    {
      found, pos, maxSlots, room, bug := false, 0, maxSlots0, room0, false;
      if name in index { HoldsEntry(hash, blocks, index, name); }
      if bidx in blocks {
        pos, maxSlots := FindInBlock(hash, blocks[bidx], name, maxSlots, In(index, bidx));
        if pos < NR_DENTRY_IN_BLOCK { return true, pos, maxSlots, room, false; }
        assert name !in In(index, bidx);
        if maxSlots >= Slots(|name|) { room := true; }
      } else {
        bug := NodePathStops(sh, bidx);
        if bug { return; }
        room := true;
      }
    }

    /** The loop of find_in_level over the blocks from bidx to endBlock. */
    method ScanBlocks(start: nat, endBlock: nat, name: Name) returns (found: bool, loc: Loc, room: bool, bug: bool)
      requires Tree() && Holds(hash, blocks, index) && InTree(blocks, cap) && |name| >= 1 && start <= endBlock
      ensures found == (name in index && start <= index[name].block < endBlock)
      ensures found ==> loc == index[name]
      ensures bug == (!found && start < endBlock && endBlock > cap)
      ensures !found && !bug ==> room == RoomSeen(blocks, start, endBlock, Slots(|name|))
    {
      var s, maxSlots, bidx := Slots(|name|), 0, start;
      found, loc, room, bug := false, Loc(0, 0), false, false;
      assert !RoomSeen(blocks, start, start, s);
      assert name in index ==> index[name].block < cap by { if name in index { HoldsEntry(hash, blocks, index, name); } }
      hide RoomSeen, InTree, Holds, Reported;
      while bidx < endBlock
        invariant start <= bidx <= endBlock && (bidx > start ==> bidx <= cap)
        invariant name in index ==> !(start <= index[name].block < bidx)
        invariant maxSlots == MostSeen(blocks, start, bidx) && room == RoomSeen(blocks, start, bidx, s)
      {
        RoomSeenMore(blocks, start, bidx, s);
        var pos;
        found, pos, maxSlots, room, bug := ScanBlock(bidx, name, maxSlots, room);
        if found { return found, Loc(bidx, pos), room, bug; }
        if bug { return; }
        bidx := bidx + 1;
      }
    }

    /** The part of find_in_level before the hint. */
    method FindInBucket(level: nat, name: Name) returns (found: bool, loc: Loc, room: bool, bug: bool)
      requires Tree() && Holds(hash, blocks, index) && InTree(blocks, cap) && LevelStart(level, dirLevel) < cap && |name| >= 1
      ensures found == (name in index && InBucket(index[name].block, level, dirLevel, hash(name)))
      ensures found ==> loc == index[name]
      ensures bug == (!found && BlockIndex(level, dirLevel, hash(name)) + BucketBlocks(level) > cap)
      ensures !found && !bug ==> room == LevelRoom(blocks, level, dirLevel, hash(name), Slots(|name|))
    {
      hide Holds, InTree, RoomSeen;
      var nameHash := hash(name);
      WindowFits(level, dirLevel, nameHash, cap);
      hide Tree, LevelStart, Buckets, BucketOf, BucketStart, BucketBlocks, Low32;
      var first := DirBlockIndex(level, dirLevel, BucketOf(level, dirLevel, nameHash));
      var bidx := Low32(first);
      var endBlock := Low32(bidx + BucketBlocks(level));
      found, loc, room, bug := ScanBlocks(bidx, endBlock, name);
    }

    /** find_in_level. */
    method FindInLevel(level: nat, name: Name) returns (found: bool, loc: Loc, bug: bool)
      requires Tree() && Holds(hash, blocks, index) && InTree(blocks, cap) && LevelStart(level, dirLevel) < cap && |name| >= 1
      modifies `chash, `clevel
      ensures found == (name in index && InBucket(index[name].block, level, dirLevel, hash(name)))
      ensures found ==> loc == index[name]
      ensures bug == (!found && BlockIndex(level, dirLevel, hash(name)) + BucketBlocks(level) > cap)
      ensures if !found && !bug && old(chash) != hash(name) && LevelRoom(blocks, level, dirLevel, hash(name), Slots(|name|))
              then chash == hash(name) && clevel == level
              else chash == old(chash) && clevel == old(clevel)
    {
      hide *;
      var room;
      found, loc, room, bug := FindInBucket(level, name);
      if !bug && !found && room && chash != hash(name) {
        chash, clevel := hash(name), level;
      }
    }

    /**
      f2fs_find_entry. A name that is there is always found; the look-up of another
      stops the system exactly if its bucket of the last level is not all in the tree.
     */
    method FindEntry(name: Name) returns (r: Option<Loc>, bug: bool)
      requires Valid() && |name| >= 1
      modifies `chash, `clevel
      ensures Sound()
      ensures r == if name in index then Some(index[name]) else None
      ensures bug == (name !in index && pages > 0 && LookupStops(dirLevel, depth, hash(name), cap))
      ensures old(chash) == hash(name) ==> chash == old(chash) && clevel == old(clevel)
      ensures r.Some? ==>
                exists l: nat :: l < depth && InBucket(index[name].block, l, dirLevel, hash(name))
                  && HintAfter(blocks, dirLevel, hash(name), Slots(|name|), l, old(chash), old(clevel), chash, clevel)
      ensures r.None? && !bug && pages > 0 ==>
                && chash == hash(name)
                && if old(chash) == hash(name) || exists l: nat :: l < depth && LevelRoom(blocks, l, dirLevel, hash(name), Slots(|name|))
                   then HintAfter(blocks, dirLevel, hash(name), Slots(|name|), depth, old(chash), old(clevel), chash, clevel)
                   else clevel == depth - 1
    {
      hide Holds, InTree, LevelStart, BlockIndex, InBucket, HintAfter, LevelRoom;
      if pages == 0 { return None, false; }
      ghost var placed: nat := 0;
      if name in index { placed :| placed < depth && InBucket(index[name].block, placed, dirLevel, hash(name)); }
      r, bug := FindFrom(name, placed);
    }

    /** The level loop of f2fs_find_entry; placed is the level of the name if it is there. */
    method FindFrom(name: Name, ghost placed: nat) returns (r: Option<Loc>, bug: bool)
      requires Sound() && |name| >= 1 && pages > 0
      requires name in index ==> placed < depth && InBucket(index[name].block, placed, dirLevel, hash(name))
      modifies `chash, `clevel
      ensures Sound()
      ensures r == if name in index then Some(index[name]) else None
      ensures bug == (name !in index && LookupStops(dirLevel, depth, hash(name), cap))
      ensures r.Some? ==> HintAfter(blocks, dirLevel, hash(name), Slots(|name|), placed, old(chash), old(clevel), chash, clevel)
      ensures old(chash) == hash(name) ==> chash == old(chash) && clevel == old(clevel)
      ensures r.None? && !bug ==>
                && chash == hash(name)
                && if old(chash) == hash(name) || exists l: nat :: l < depth && LevelRoom(blocks, l, dirLevel, hash(name), Slots(|name|))
                   then HintAfter(blocks, dirLevel, hash(name), Slots(|name|), depth, old(chash), old(clevel), chash, clevel)
                   else clevel == depth - 1
    {
      hide Holds, InTree, LevelStart, BlockIndex, InBucket, LevelRoom;
      var nameHash := hash(name);
      for level: nat := 0 to depth
        invariant clevel < depth && (name in index ==> level <= placed)
        invariant level > 0 ==> BlockIndex(level - 1, dirLevel, nameHash) + BucketBlocks(level - 1) <= cap
        invariant HintAfter(blocks, dirLevel, nameHash, Slots(|name|), level, old(chash), old(clevel), chash, clevel)
      {
        if name in index && level < placed { EarlierBucket(index[name].block, level, placed, dirLevel, depth, nameHash, cap); }
        LowerStart(level, depth - 1, dirLevel);
        if level < depth - 1 { BucketBefore(level, depth - 1, dirLevel, nameHash, cap); }
        ghost var was, at := chash, clevel;
        var found, loc, stops := FindInLevel(level, name);
        if stops { return None, true; }
        if found { return Some(loc), false; }
        HintStep(blocks, dirLevel, nameHash, Slots(|name|), level, old(chash), old(clevel), was, at, chash, clevel);
      }
      if chash != nameHash {
        chash, clevel := nameHash, depth - 1;
      }
      return None, false;
    }

    /** f2fs_inode_by_name: what the map from names to inodes says; 0 if there is no such name. */
    method InodeByName(name: Name) returns (ino: nat, bug: bool)
      requires Valid() && |name| >= 1
      modifies `chash, `clevel
      ensures Sound() && Inodes() == old(Inodes())
      ensures ino == if name in Inodes() then Inodes()[name] else 0
      ensures bug == (name !in Inodes() && pages > 0 && LookupStops(dirLevel, depth, hash(name), cap))
    {
      var r;
      r, bug := FindEntry(name);
      ino := 0;
      if r.Some? {
        HoldsEntry(hash, blocks, index, name);
        ino := blocks[r.value.block].dents[r.value.pos].ino;
      }
    }

    /** f2fs_set_link, on an entry that was found. */
    method SetLink(loc: Loc, ino: nat, ghost name: Name)
      requires Valid() && name in index && loc == index[name]
      modifies `blocks
      ensures Valid() && Inodes() == old(Inodes())[name := ino]
    {
      hide Holds, InTree, AllPlaced;
      Relink(loc, ino, name);
    }

    method Relink(loc: Loc, ino: nat, ghost name: Name)
      requires Holds(hash, blocks, index) && InTree(blocks, cap) && name in index && loc == index[name]
      modifies `blocks
      ensures Holds(hash, blocks, index) && InTree(blocks, cap) && Inodes() == old(Inodes())[name := ino]
    {
      HoldsEntry(hash, blocks, index, name);
      OthersElsewhere(hash, blocks, index, name);
      LinkHolds(hash, blocks, index, name, ino);
      LinkLookup(blocks, index, name, ino);
      var b := blocks[loc.block];
      blocks := blocks[loc.block := b.(dents := b.dents[loc.pos := b.dents[loc.pos].(ino := ino)])];
    }

    /** get_new_data_page: the block is made if it is not there. */
    method GetNewDataPage(block: nat) returns (bug: bool)
      requires Tree() && Holds(hash, blocks, index) && InTree(blocks, cap)
      modifies `blocks, `pages
      ensures bug == (block >= cap) && InTree(blocks, cap) && pages >= old(pages)
      ensures Holds(hash, blocks, index) && Inodes() == old(Inodes())
      ensures blocks == if bug || block in old(blocks) then old(blocks) else old(blocks)[block := ZeroBlock()]
      ensures !bug ==> pages > 0
    {
      bug := NodePathStops(sh, block);
      if bug { return; }
      if block !in blocks {
        GrownSame(hash, blocks, index, block);
        blocks := blocks[block := ZeroBlock()];
      }
      if pages < block + 1 { pages := block + 1; }
    }

    /** One round of the block loop of __f2fs_add_link: free slots in this block. */
    method TryBlock(block: nat, slots: nat) returns (p: nat, bug: bool)
      requires Tree() && Holds(hash, blocks, index) && InTree(blocks, cap) && 1 <= slots <= NR_DENTRY_IN_BLOCK
      modifies `blocks, `pages
      ensures bug == (block >= cap) && InTree(blocks, cap) && pages >= old(pages)
      ensures Holds(hash, blocks, index) && Inodes() == old(Inodes())
      ensures bug ==> blocks == old(blocks)
      ensures !bug ==> pages > 0 && p <= NR_DENTRY_IN_BLOCK && block in blocks && blocks[block].Sized()
      ensures !bug && p < NR_DENTRY_IN_BLOCK ==> RoomAt(blocks[block].bits, p, slots) && !Full(old(blocks), block, slots)
      ensures !bug && p < NR_DENTRY_IN_BLOCK ==> FirstRoom(old(blocks), block, p, slots) && SameBut(old(blocks), blocks, block)
      ensures !bug && p == NR_DENTRY_IN_BLOCK ==> blocks == old(blocks) && Full(blocks, block, slots) && In(index, block) != map[]
    {
      p := 0;
      bug := GetNewDataPage(block);
      if bug { return; }
      HoldsBlock(hash, blocks, index, block);
      p := RoomForFilename(blocks[block], slots);
      assert RoomAt(ZeroBlock().bits, 0, slots);
      FullBlock(hash, blocks, index, block, slots);
    }

    /** The block loop of __f2fs_add_link. */
    method SearchBucket(bidx: nat, nblock: nat, slots: nat) returns (found: bool, block: nat, p: nat, bug: bool)
      requires Tree() && Holds(hash, blocks, index) && InTree(blocks, cap) && 1 <= slots <= NR_DENTRY_IN_BLOCK && nblock > 0
      modifies `blocks, `pages
      ensures Holds(hash, blocks, index) && Inodes() == old(Inodes()) && InTree(blocks, cap) && pages >= old(pages)
      ensures bidx <= block && forall c: nat :: bidx <= c < block ==> Full(old(blocks), c, slots)
      ensures found ==> !bug && block < bidx + nblock && block < cap && !Full(old(blocks), block, slots) && pages > 0
      ensures found ==> block in blocks && blocks[block].Sized() && RoomAt(blocks[block].bits, p, slots)
      ensures found ==> FirstRoom(old(blocks), block, p, slots) && SameBut(old(blocks), blocks, block)
      ensures bug ==> block < bidx + nblock && block >= cap && blocks == old(blocks)
      ensures !found && !bug ==> blocks == old(blocks) && block == bidx + nblock && In(index, bidx) != map[]
    {
      hide Holds, InTree, FirstRoom, SameBut;
      found, block, p, bug := false, bidx, 0, false;
      while block < bidx + nblock
        invariant bidx <= block <= bidx + nblock && (block > bidx ==> In(index, bidx) != map[])
        invariant blocks == old(blocks) && pages >= old(pages)
        invariant forall c: nat :: bidx <= c < block ==> Full(blocks, c, slots)
      {
        p, bug := TryBlock(block, slots);
        if bug { return; }
        if p < NR_DENTRY_IN_BLOCK { return true, block, p, false; }
        block := block + 1;
      }
    }

    /** The bit loops of __f2fs_add_link and f2fs_delete_entry. */
    method SetBits(bits0: seq<bool>, p: nat, n: nat) returns (bits: seq<bool>)
      requires p + n <= |bits0|
      ensures bits == Filled(bits0, p, n, true)
    {
      bits := bits0;
      for i: nat := 0 to n
        invariant bits == Filled(bits0, p, i, true)
      {
        bits := bits[p + i := true];
      }
    }

    method ClearBits(bits0: seq<bool>, p: nat, n: nat) returns (bits: seq<bool>)
      requires p + n <= |bits0|
      ensures bits == Filled(bits0, p, n, false)
    {
      bits := bits0;
      for i: nat := 0 to n
        invariant bits == Filled(bits0, p, i, false)
      {
        bits := bits[p + i := false];
      }
    }

    /** The part of __f2fs_add_link behind the label add_dentry. */
    method PutEntry(block: nat, p: nat, name: Name, ino: nat)
      requires Holds(hash, blocks, index) && InTree(blocks, cap) && block in blocks && blocks[block].Sized() && 1 <= |name|
      requires name !in index && RoomAt(blocks[block].bits, p, Slots(|name|))
      modifies `blocks, `index
      ensures index == old(index)[name := Loc(block, p)] && InTree(blocks, cap)
      ensures Holds(hash, blocks, index) && Inodes() == old(Inodes())[name := ino]
      ensures block in old(blocks) && blocks == old(blocks)[block := WithEntry(old(blocks)[block], p, name, hash(name), ino)]
    {
      InsertedHolds(hash, blocks, index, block, p, name, ino);
      InsertedLookup(blocks, index, block, p, name, hash(name), ino);
      var b := blocks[block];
      var bits := SetBits(b.bits, p, Slots(|name|));
      blocks := blocks[block := Block(bits, b.dents[p := Dentry(hash(name), ino, |name|)], NameStored(b.names, p, name))];
      index := index[name := Loc(block, p)];
    }

    /** The level loop of __f2fs_add_link: where there is room for the name. */
    method FindSpace(level0: nat, dentryHash: nat, slots: nat)
      returns (r: Outcome, level: nat, currentDepth: nat, block: nat, p: nat)
      requires Tree() && Holds(hash, blocks, index) && InTree(blocks, cap) && AllPlaced(hash, index, dirLevel, depth)
      requires level0 < depth <= 31 && 1 <= slots <= NR_DENTRY_IN_BLOCK
      modifies `blocks, `pages
      ensures Holds(hash, blocks, index) && Inodes() == old(Inodes()) && InTree(blocks, cap) && pages >= old(pages)
      ensures r != NoSpace && (r.Bug? <==> Blocked(old(blocks), dirLevel, dentryHash, slots, level0, cap))
      ensures r.Bug? ==> blocks == old(blocks)
      ensures r.Added? ==> block < cap && block in blocks && blocks[block].Sized() && RoomAt(blocks[block].bits, p, slots) && pages > 0
      ensures r.Added? ==> level <= depth && InBucket(block, level, dirLevel, dentryHash)
      ensures r.Added? ==> currentDepth == if level == depth then depth + 1 else depth
      ensures r.Added? ==>
                && level0 <= level && Passed(old(blocks), dirLevel, dentryHash, slots, level0, level, block)
                && FirstRoom(old(blocks), block, p, slots) && SameBut(old(blocks), blocks, block)
    {
      hide Holds, InTree, FirstRoom, SameBut, AllPlaced, BucketStart, LevelStart, Buckets;
      r, level, currentDepth, block, p := NoSpace, level0, depth, 0, 0;
      ghost var b0 := blocks;
      while true
        invariant blocks == b0 && pages >= old(pages)
        invariant level0 <= level <= depth && currentDepth == depth
        invariant Passed(b0, dirLevel, dentryHash, slots, level0, level, BlockIndex(level, dirLevel, dentryHash))
        decreases depth - level
      {
        if currentDepth == MAX_DIR_HASH_DEPTH { return; }
        if level == currentDepth { currentDepth := currentDepth + 1; }
        var bidx := DirBlockIndex(level, dirLevel, BucketOf(level, dirLevel, dentryHash));
        var found, bug;
        found, block, p, bug := SearchBucket(bidx, BucketBlocks(level), slots);
        assert Passed(b0, dirLevel, dentryHash, slots, level0, level, block);
        if bug { return Bug, level, currentDepth, block, p; }
        if found {
          NotBlocked(b0, dirLevel, dentryHash, slots, level0, cap, level, block);
          return Added, level, currentDepth, block, p;
        }
        NextLevelFull(hash, index, dirLevel, depth, level, bidx, dentryHash);
        PassedBucket(b0, dirLevel, dentryHash, slots, level0, level, block, BlockIndex(level + 1, dirLevel, dentryHash));
        level := level + 1;
      }
    }

    /**
      __f2fs_add_link for a name that is not there. It adds the name and at most one
      level, or stops the system, which it does exactly if the first block it comes to
      that is not full lies beyond the node tree; it never runs out of levels.
     */
    method AddLink(name: Name, ino: nat) returns (r: Outcome)
      requires Valid() && name !in index && 1 <= |name| <= F2FS_NAME_LEN
      modifies `blocks, `pages, `depth, `chash, `index
      ensures Valid() && old(depth) <= depth <= old(depth) + 1
      ensures r != NoSpace
      ensures r.Bug? <==> Blocked(old(blocks), dirLevel, hash(name), Slots(|name|), if old(chash) == hash(name) then clevel else 0, cap)
      ensures Inodes() == if r.Added? then old(Inodes())[name := ino] else old(Inodes())
      ensures r.Added? ==> name in index && index == old(index)[name := index[name]]
      ensures r.Added? ==>
                AddedAt(old(blocks), dirLevel, hash(name), Slots(|name|), if old(chash) == hash(name) then clevel else 0,
                        old(depth), index[name], depth)
      ensures r.Added? ==> SameBut(old(blocks), blocks, index[name].block)
      ensures chash == if old(chash) == hash(name) then 0 else old(chash)
    {
      hide Holds, InTree, AllPlaced, Blocked, InBucket, BlockIndex, BucketStart, LevelStart, Lookup, FirstRoom, Passed;
      var slots, dentryHash, level := Slots(|name|), hash(name), 0;
      LevelInTree(depth - 1, dirLevel, cap);
      if chash == dentryHash {
        level := clevel;
        chash := 0;
      }
      var l, currentDepth, block, p;
      r, l, currentDepth, block, p := FindSpace(level, dentryHash, slots);
      if !r.Added? { return; }
      LastLevelHeld(block, l, dirLevel, depth, currentDepth, dentryHash, cap);
      PlacedMore(hash, index, dirLevel, depth, currentDepth, l, name, Loc(block, p));
      PutEntry(block, p, name, ino);
      depth := currentDepth;
    }

    /** make_empty_dir: block 0 of a new directory holds "." and "..", whose hash value is 0. */
    method MakeEmptyDir(ino: nat, parent: nat)
      requires Valid() && blocks == map[] && index == map[] && Inodes() == map[] && depth == 1 && hash(DOT) == 0 == hash(DOTDOT)
      modifies `blocks, `pages, `index
      ensures Valid() && pages > 0 && Inodes() == map[DOT := ino, DOTDOT := parent]
      ensures index == map[DOT := Loc(0, 0), DOTDOT := Loc(0, 1)]
    {
      hide Holds, InTree, AllPlaced, LevelStart, WithEntry, ZeroBlock, RoomAt, Lookup, Slots;
      DotsPlaced(hash, dirLevel);
      DotRoom(ino);
      var _ := GetNewDataPage(0);
      PutEntry(0, 0, DOT, ino);
      PutEntry(0, 1, DOTDOT, parent);
    }

    /** f2fs_delete_entry, on an entry that was found. */
    method DeleteEntry(loc: Loc, ghost name: Name)
      requires Valid() && name in index && loc == index[name]
      modifies `blocks, `index
      ensures Valid() && index == old(index) - {name}
      ensures Inodes() == old(Inodes()) - {name}
      ensures loc.block in blocks <==> exists n :: n in index && index[n].block == loc.block
      ensures forall b :: b != loc.block ==> (b in blocks <==> b in old(blocks)) && (b in blocks ==> blocks[b] == old(blocks)[b])
    {
      hide Holds, InTree, AllPlaced;
      PlacedLess(hash, index, dirLevel, depth, name);
      RemoveEntry(loc, name);
    }

    method RemoveEntry(loc: Loc, ghost name: Name)
      requires Holds(hash, blocks, index) && InTree(blocks, cap) && name in index && loc == index[name]
      modifies `blocks, `index
      ensures Holds(hash, blocks, index) && InTree(blocks, cap) && index == old(index) - {name}
      ensures Inodes() == old(Inodes()) - {name}
      ensures loc.block in blocks <==> exists n :: n in index && index[n].block == loc.block
      ensures forall b :: b != loc.block ==> (b in blocks <==> b in old(blocks)) && (b in blocks ==> blocks[b] == old(blocks)[b])
    {
      hide Holds, InTree, Lookup;
      ClearEntry(loc, name);
      DropIfEmpty(loc.block);
    }

    /** The bits of an entry are cleared. */
    method ClearEntry(loc: Loc, ghost name: Name)
      requires Holds(hash, blocks, index) && InTree(blocks, cap) && name in index && loc == index[name]
      modifies `blocks, `index
      ensures Holds(hash, blocks, index) && InTree(blocks, cap) && index == old(index) - {name}
      ensures Inodes() == old(Inodes()) - {name}
      ensures loc.block in blocks && loc.block in old(blocks) && blocks == old(blocks)[loc.block := blocks[loc.block]]
    {
      ErasedHolds(hash, blocks, index, name);
      ErasedLookup(blocks, index, loc.block, loc.pos, Slots(|name|), name);
      var b := blocks[loc.block];
      var bits := ClearBits(b.bits, loc.pos, Slots(b.dents[loc.pos].len));
      blocks := blocks[loc.block := b.(bits := bits)];
      index := index - {name};
    }

    /** The end of f2fs_delete_entry: a block without an entry is cut out of the file. */
    method DropIfEmpty(b: nat)
      requires Holds(hash, blocks, index) && InTree(blocks, cap) && b in blocks
      modifies `blocks
      ensures Holds(hash, blocks, index) && InTree(blocks, cap) && Inodes() == old(Inodes())
      ensures b in blocks <==> exists n :: n in index && index[n].block == b
      ensures blocks == old(blocks) || blocks == old(blocks) - {b}
    {
      SomeNameIn(hash, blocks, index, b);
      if Bitmap.NextOne(blocks[b].bits, 0) == NR_DENTRY_IN_BLOCK {
        EmptyBlock(hash, blocks, index, b);
        blocks := blocks - {b};
      }
    }
  }

  /** A block of a bucket on a higher level is in the tree, so the buckets on the way to it are. */
  lemma EarlierBucket(b: nat, level: nat, placed: nat, dirLevel: nat, depth: nat, hash: nat, cap: nat)
    requires TreeSize(cap) && level < placed < depth && LevelStart(depth - 1, dirLevel) < cap && InBucket(b, placed, dirLevel, hash)
    ensures BlockIndex(level, dirLevel, hash) + BucketBlocks(level) <= cap
    ensures !InBucket(b, level, dirLevel, hash)
  {
    LowerStart(placed, depth - 1, dirLevel);
    BucketBefore(level, placed, dirLevel, hash, cap);
  }

  /** A new last level starts inside the tree, since the block that was found is in it. */
  lemma LastLevelHeld(b: nat, level: nat, dirLevel: nat, depth: nat, depth': nat, hash: nat, cap: nat)
    requires depth > 0 && b < cap && InBucket(b, level, dirLevel, hash) && LevelStart(depth - 1, dirLevel) < cap
    requires level <= depth && depth' == if level == depth then depth + 1 else depth
    ensures LevelStart(depth' - 1, dirLevel) < cap && level < depth'
  {
    if level == depth { BucketInLevel(b, level, dirLevel, hash); }
  }

  /** While the next level is all in the tree, an insertion is not blocked, whatever the hint. */
  lemma FitsNotBlocked(hash: Name -> nat, blocks: map<nat, Block>, index: map<Name, Loc>, dirLevel: nat, depth: nat, h: nat, slots: nat,
                       level0: nat, cap: nat)
    requires Holds(hash, blocks, index) && AllPlaced(hash, index, dirLevel, depth) && TreeSize(cap)
    requires Fits(depth, dirLevel, cap) && level0 < depth && slots <= NR_DENTRY_IN_BLOCK
    ensures !Blocked(blocks, dirLevel, h, slots, level0, cap)
  {
    LevelInTree(depth, dirLevel, cap);
    if Blocked(blocks, dirLevel, h, slots, level0, cap) {
      var level: nat, b: nat :|
        level0 <= level && b >= cap && InBucket(b, level, dirLevel, h) && Passed(blocks, dirLevel, h, slots, level0, level, b);
      if level <= depth {
        LowerFits(level, depth, dirLevel, cap);
        FittingBucket(b, level, dirLevel, h, cap);
      } else {
        var c := BlockIndex(depth, dirLevel, h);
        assert InBucket(c, depth, dirLevel, h);
        NextLevelEmpty(hash, index, dirLevel, depth, c, h);
        FullBlock(hash, blocks, index, c, slots);
      }
    }
  }

  /** A directory of at most 27 levels without extra ones takes every name. */
  lemma ShallowNeverBlocked(dir: Directory, name: Name, level0: nat)
    requires dir.Valid() && RealTree(dir.sh) && dir.dirLevel == 0 && dir.depth <= 27
    requires level0 < dir.depth && 1 <= |name| <= F2FS_NAME_LEN
    ensures !Blocked(dir.blocks, 0, dir.hash(name), Slots(|name|), level0, dir.cap)
  {
    DepthLimit(dir.depth, dir.sh);
    FitsNotBlocked(dir.hash, dir.blocks, dir.index, 0, dir.depth, dir.hash(name), Slots(|name|), level0, dir.cap);
  }

  /** With 30 extra levels any directory stops the system at the first name of the upper half of the hash values. */
  lemma FirstNameBlocked(sh: Addressing.Shape, blocks: map<nat, Block>, hash: nat, slots: nat)
    requires RealTree(sh) && hash % MAX_DIR_BUCKETS >= (sh.Capacity() + 1) / 2
    ensures Blocked(blocks, 30, hash, slots, 0, sh.Capacity())
    ensures LookupStops(30, 1, hash, sh.Capacity())
  {
    FirstLevelCrosses(sh, hash);
    var b := BlockIndex(0, 30, hash);
    assert InBucket(b, 0, 30, hash) && Passed(blocks, 30, hash, slots, 0, 0, b);
  }

  /** A new directory with 30 extra levels, and such a name added to it. */
  method FirstNameStops(hash: Name -> nat, sh: Addressing.Shape, ino: nat, parent: nat, name: Name, child: nat)
    returns (dir: Directory, r: Outcome)
    requires RealTree(sh) && hash(DOT) == 0 == hash(DOTDOT) && 1 <= |name| <= F2FS_NAME_LEN
    requires hash(name) % MAX_DIR_BUCKETS >= (sh.Capacity() + 1) / 2
    ensures r == Bug && dir.Inodes() == map[DOT := ino, DOTDOT := parent]
  {
    RealCapacity(sh);
    assert sh.Valid();
    hide Blocked, RealTree, LevelStart, Lookup, Holds, InTree, AllPlaced;
    dir := new Directory(hash, 30, sh);
    dir.MakeEmptyDir(ino, parent);
    FirstNameBlocked(sh, dir.blocks, hash(name), Slots(|name|));
    assert name != DOT && name != DOTDOT;
    r := dir.AddLink(name, child);
  }
}
