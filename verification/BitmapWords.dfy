/**
  The concrete bitmaps of segment.c and f2fs.h: bytes whose bit 0 is the most
  significant one, searched as an array of 64-bit little-endian words. The byte
  operations and the word-at-a-time search are proved equal to the abstract view.
 */
module BitmapWords {
  import opened Bitmap

  // ---------------------------------------------------------------- bytes

  /** A bit index as the 8-bit number the masks are computed from. */
  function Ix(i: nat): bv8
    requires i <= 64
  {
    if i == 0 then 0 else Ix(i - 1) + 1
  }

  lemma {:induction false} IxValue(i: nat)
    requires i <= 64
    ensures Ix(i) as nat == i
  {
    if i != 0 {
      IxValue(i - 1);
      Successor(Ix(i - 1));
    }
  }

  lemma Successor(b: bv8)
    requires b as nat < 64
    ensures (b + 1) as nat == b as nat + 1
  {
  }

  lemma SameOrder(a: bv8, b: bv8)
    ensures a < b <==> a as nat < b as nat
  {
  }

  lemma IxOrder(i: nat, j: nat)
    requires i <= 64 && j <= 64
    ensures Ix(i) < Ix(j) <==> i < j
    ensures Ix(i) == Ix(j) <==> i == j
  {
    IxValue(i);
    IxValue(j);
    SameOrder(Ix(i), Ix(j));
  }

  lemma IxBelow(i: nat)
    requires i < 64
    ensures Ix(i) < 64
    ensures i < 8 ==> Ix(i) < 8
  {
    IxValue(i);
    SameOrder(Ix(i), 64);
    SameOrder(Ix(i), 8);
  }

  lemma IxOf(n: bv8)
    requires n < 64
    ensures n as nat < 64 && Ix(n as nat) == n
  {
    SameOrder(n, 64);
    IxValue(n as nat);
    SameValue(Ix(n as nat), n);
  }

  lemma SameValue(a: bv8, b: bv8)
    requires a as nat == b as nat
    ensures a == b
  {
  }

  /** Mask of bit nr inside its byte: bit 0 is the most significant. */
  function ByteMask(nr: bv8): bv8 { 1 << (7 - (nr & 7)) }

  predicate TestByte(b: bv8, nr: bv8) { b & ByteMask(nr) != 0 }

  ghost function ByteBits(b: bv8): (s: seq<bool>)
    ensures |s| == 8
  {
    seq(8, i requires 0 <= i < 8 => TestByte(b, Ix(i)))
  }

  /** The bit sequence a byte buffer stands for. */
  ghost function BitsOfBytes(a: seq<bv8>): (s: seq<bool>)
    ensures |s| == 8 * |a|
  {
    seq(8 * |a|, i requires 0 <= i < 8 * |a| => ByteBits(a[i / 8])[i % 8])
  }

  lemma MaskEffect(b: bv8, j: bv8, k: bv8)
    requires j < 8 && k < 8
    ensures TestByte(b | ByteMask(j), k) == (k == j || TestByte(b, k))
    ensures TestByte(b & !ByteMask(j), k) == (k != j && TestByte(b, k))
  {
  }

  function MaskedByte(b: bv8, j: bv8, val: bool): bv8 {
    if val then b | ByteMask(j) else b & !ByteMask(j)
  }

  lemma MaskedByteBit(b: bv8, j: bv8, val: bool, k: bv8)
    requires j < 8 && k < 8
    ensures TestByte(MaskedByte(b, j, val), k) == if k == j then val else TestByte(b, k)
  {
    MaskEffect(b, j, k);
  }

  lemma SameBit(p: bool, q: bool, val: bool, j: nat, k: nat)
    requires j < 8 && k < 8 && p == if Ix(k) == Ix(j) then val else q
    ensures p == if k == j then val else q
  {
    IxOrder(j, k);
  }

  lemma MaskedByteBits(b: bv8, j: nat, val: bool)
    requires j < 8
    ensures ByteBits(MaskedByte(b, Ix(j), val)) == ByteBits(b)[j := val]
  {
    IxBelow(j);
    var c := MaskedByte(b, Ix(j), val);
    forall k | 0 <= k < 8 ensures ByteBits(c)[k] == ByteBits(b)[j := val][k] {
      IxBelow(k);
      MaskedByteBit(b, Ix(j), val, Ix(k));
      SameBit(ByteBits(c)[k], ByteBits(b)[k], val, j, k);
    }
  }

  /** Writing one masked byte changes exactly one bit of the buffer. */
  lemma ByteWrite(a: seq<bv8>, nr: nat, b: bv8, val: bool)
    requires nr < 8 * |a| && ByteBits(b) == ByteBits(a[nr / 8])[nr % 8 := val]
    ensures BitsOfBytes(a[nr / 8 := b]) == BitsOfBytes(a)[nr := val]
  {
  }

  method TestBit(nr: nat, addr: array<bv8>) returns (ret: bool)
    requires nr < 8 * addr.Length
    ensures ret == BitsOfBytes(addr[..])[nr]
  {
    ret := TestByte(addr[nr / 8], Ix(nr % 8));
  }

  method SetBit(nr: nat, addr: array<bv8>) returns (ret: bool)
    requires nr < 8 * addr.Length
    modifies addr
    ensures ret == old(BitsOfBytes(addr[..]))[nr]
    ensures BitsOfBytes(addr[..]) == old(BitsOfBytes(addr[..]))[nr := true]
  {
    ret := TestByte(addr[nr / 8], Ix(nr % 8));
    ghost var before := addr[..];
    MaskedByteBits(addr[nr / 8], nr % 8, true);
    addr[nr / 8] := MaskedByte(addr[nr / 8], Ix(nr % 8), true);
    ByteWrite(before, nr, addr[nr / 8], true);
    assert addr[..] == before[nr / 8 := addr[nr / 8]];
  }

  method ClearBit(nr: nat, addr: array<bv8>) returns (ret: bool)
    requires nr < 8 * addr.Length
    modifies addr
    ensures ret == old(BitsOfBytes(addr[..]))[nr]
    ensures BitsOfBytes(addr[..]) == old(BitsOfBytes(addr[..]))[nr := false]
  {
    ret := TestByte(addr[nr / 8], Ix(nr % 8));
    ghost var before := addr[..];
    MaskedByteBits(addr[nr / 8], nr % 8, false);
    addr[nr / 8] := MaskedByte(addr[nr / 8], Ix(nr % 8), false);
    ByteWrite(before, nr, addr[nr / 8], false);
    assert addr[..] == before[nr / 8 := addr[nr / 8]];
  }

  // ---------------------------------------------------------------- words

  const ALL_ONES: bv64 := 0xffff_ffff_ffff_ffff

  /** Bit nr (0..63) of a little-endian word: byte nr / 8, tested with that byte's mask. */
  predicate WordBit(w: bv64, nr: bv8) { (w >> ShiftOf(nr)) & 1 != 0 }

  /** Where bit nr sits when the word is read as one number. */
  function ShiftOf(nr: bv8): bv8 { (nr & 0x38) | (7 - (nr & 7)) }

  /** WordBit is the byte test of the bitmap code, applied to byte nr / 8 of the word. */
  lemma WordBitIsByteTest(w: bv64, nr: bv8)
    requires nr < 64
    ensures WordBit(w, nr) == ((w >> (nr & 0x38)) & 0xff & (1 << (7 - (nr & 7))) != 0)
  {
  }

  ghost function WordBits(w: bv64): (s: seq<bool>)
    ensures |s| == 64
  {
    seq(64, i requires 0 <= i < 64 => WordBit(w, Ix(i)))
  }

  ghost function BitsOfWords(ws: seq<bv64>, size: nat): (s: seq<bool>)
    requires size <= 64 * |ws|
    ensures |s| == size
  {
    seq(size, i requires 0 <= i < size => WordBits(ws[i / 64])[i % 64])
  }

  /** The steps of __reverse_ffs that move the first non-zero byte to the bottom. */
  method FirstByte(word0: bv64) returns (num: bv8, word: bv64)
    requires word0 != 0
    ensures num < 64 && num & 7 == 0 && word == word0 >> num && word & 0xff != 0
    ensures num > 0 ==> word0 << (64 - num) == 0
  {
    num, word := 0, word0;
    if word & 0xffff_ffff == 0 { num, word := num + 32, word >> 32; }
    if word & 0xffff == 0 { num, word := num + 16, word >> 16; }
    if word & 0xff == 0 { num, word := num + 8, word >> 8; }
  }

  /** The steps that find the first set bit of that byte, most significant first. */
  function FirstBit(word: bv64): bv8 {
    var (n, w) := if word & 0xf0 == 0 then (4, word) else (0, word >> 4);
    var (n, w) := if w & 0xc == 0 then (n + 2, w) else (n, w >> 2);
    if w & 0x2 == 0 then n + 1 else n
  }

  lemma FirstBitFound(w: bv64)
    requires w & 0xff != 0
    ensures FirstBit(w) < 8
    ensures (w >> (7 - FirstBit(w))) & 1 == 1
    ensures (w & 0xff) >> (8 - FirstBit(w)) == 0
  {
  }

  lemma LowBitsClear(w: bv64, n: bv8, p: bv8)
    requires p < n < 64 && w << (64 - n) == 0
    ensures (w >> p) & 1 == 0
  {
  }

  lemma HighBitsOfByteClear(w: bv64, n: bv8, b: bv8, p: bv8)
    requires n < 64 && n & 7 == 0 && b < 8 && b > p
    requires ((w >> n) & 0xff) >> (8 - b) == 0
    ensures (w >> (n + (7 - p))) & 1 == 0
  {
    assert ((w >> n) >> (7 - p)) & 1 == 0;
    assert (w >> n) >> (7 - p) == w >> (n + (7 - p));
  }

  lemma BelowFirstByte(n: bv8, j: bv8)
    requires j < n < 64 && n & 7 == 0
    ensures ShiftOf(j) < n
  {
  }

  lemma InsideFirstByte(n: bv8, j: bv8)
    requires n <= j < n + 8 <= 64 && n & 7 == 0
    ensures ShiftOf(j) == n + (7 - (j - n)) && j - n < 8
  {
  }

  lemma ShiftTwice(w: bv64, n: bv8, m: bv8)
    requires n < 64 && n & 7 == 0 && m < 8
    ensures (w >> n) >> m == w >> (n + m)
  {
    if n == 0 {
    } else if n == 8 {
    } else if n == 16 {
    } else if n == 24 {
    } else if n == 32 {
    } else if n == 40 {
    } else if n == 48 {
    } else {
      assert n == 56;
    }
  }

  lemma FoundBit(w: bv64, n: bv8, b: bv8)
    requires n < 64 && n & 7 == 0 && b < 8 && ((w >> n) >> (7 - b)) & 1 == 1
    ensures n + b < 64 && WordBit(w, n + b)
  {
    ByteRange(n, b);
    InsideFirstByte(n, n + b);
    ShiftTwice(w, n, 7 - b);
  }

  lemma ByteRange(n: bv8, b: bv8)
    requires n < 64 && n & 7 == 0 && b < 8
    ensures n <= n + b < n + 8 <= 64 && n + (7 - b) < 64
  {
  }

  /** __reverse_ffs: the least set bit, in the order of the bitmap. */
  method ReverseFfs(word: bv64) returns (num: bv8)
    requires word != 0
    ensures num < 64 && WordBit(word, num)
    ensures forall j: bv8 :: j < num ==> !WordBit(word, j)
  {
    var w;
    num, w := FirstByte(word);
    LeastInByte(word, num, w);
    num := num + FirstBit(w);
  }

  lemma LeastInByte(w: bv64, n: bv8, v: bv64)
    requires n < 64 && n & 7 == 0 && v == w >> n && v & 0xff != 0 && (n > 0 ==> w << (64 - n) == 0)
    ensures n + FirstBit(v) < 64 && WordBit(w, n + FirstBit(v))
    ensures forall j: bv8 :: j < n + FirstBit(v) ==> !WordBit(w, j)
  {
    var b := FirstBit(v);
    FirstBitFound(v);
    FoundBit(w, n, b);
    forall j: bv8 | j < n + b ensures !WordBit(w, j) { BelowFound(w, n, b, j); }
  }

  lemma BelowFound(w: bv64, n: bv8, b: bv8, j: bv8)
    requires n < 64 && n & 7 == 0 && (n > 0 ==> w << (64 - n) == 0)
    requires b < 8 && ((w >> n) & 0xff) >> (8 - b) == 0 && j < n + b
    ensures !WordBit(w, j)
  {
    if j < n {
      BelowFirstByte(n, j);
      LowBitsClear(w, n, ShiftOf(j));
    } else {
      InsideFirstByte(n, j);
      HighBitsOfByteClear(w, n, b, j - n);
    }
  }

  function StartMask(offset: bv8): bv64
    requires offset < 64
  {
    var quot := (offset >> 3) << 3;
    var rest := offset & 7;
    var mask := !(ALL_ONES << quot);
    var submask: bv8 := !((0xff << rest) >> rest);
    mask + ((submask as bv64) << quot)
  }

  lemma StartMaskBit(offset: bv8, j: bv8)
    requires offset < 64 && j < 64
    ensures WordBit(StartMask(offset), j) == (j < offset)
  {
  }

  lemma OrBit(a: bv64, b: bv64, j: bv8)
    requires j < 64
    ensures WordBit(a | b, j) == (WordBit(a, j) || WordBit(b, j))
  {
  }

  /** The tail mask goes by the place of a bit in the word, which is reversed within each byte. */
  lemma TailMaskHides(w: bv64, size: bv8, j: bv8)
    requires size < 64 && j < 64
    ensures WordBit(w | (ALL_ONES << size), j) == (ShiftOf(j) >= size || WordBit(w, j))
  {
  }

  /** ShiftOf on numbers. */
  function Reversed(i: nat): nat { i / 8 * 8 + (7 - i % 8) }

  lemma {:induction false} IxSum(a: nat, b: nat)
    requires a + b <= 64
    ensures Ix(a + b) == Ix(a) + Ix(b)
  {
    if b > 0 { IxSum(a, b - 1); }
  }

  lemma {:induction false} IxBytes(q: nat)
    requires q <= 8
    ensures Ix(8 * q) == 8 * Ix(q)
  {
    if q > 0 {
      IxBytes(q - 1);
      IxSum(8 * (q - 1), 8);
      assert Ix(8) == 8;
      Distributes(Ix(q - 1));
    }
  }

  lemma Distributes(b: bv8)
    ensures 8 * b + 8 == 8 * (b + 1)
  {
  }

  lemma ShiftOfParts(q: bv8, r: bv8)
    requires q < 8 && r < 8
    ensures ShiftOf(8 * q + r) == 8 * q + (7 - r)
  {
  }

  lemma ShiftOfIx(i: nat)
    requires i < 64
    ensures Reversed(i) < 64 && ShiftOf(Ix(i)) == Ix(Reversed(i))
  {
    var q, r := i / 8, i % 8;
    assert i == 8 * q + r && Reversed(i) == 8 * q + (7 - r) && Ix(7) == 7;
    hide Ix, ShiftOf, Reversed;
    IxBytes(q);
    IxSum(8 * q, r);
    IxSum(8 * q, 7 - r);
    IxSum(7 - r, r);
    IxBelow(q);
    IxBelow(r);
    ShiftOfParts(Ix(q), Ix(r));
  }

  lemma NotBit(w: bv64, j: bv8)
    requires j < 64
    ensures WordBit(!w, j) == !WordBit(w, j)
  {
  }

  lemma NotWordBits(w: bv64)
    ensures forall i :: 0 <= i < 64 ==> WordBits(!w)[i] == !WordBits(w)[i]
  {
    forall i | 0 <= i < 64 ensures WordBits(!w)[i] == !WordBits(w)[i] {
      IxBelow(i);
      NotBit(w, Ix(i));
    }
  }

  lemma LeastAsIndex(w: bv64, num: bv8)
    requires num < 64 && WordBit(w, num)
    requires forall j: bv8 :: j < num ==> !WordBit(w, j)
    ensures num as nat < 64 && num as nat == NextOne(WordBits(w), 0)
  {
    IxOf(num);
    assert WordBits(w)[num as nat];
    forall i | 0 <= i < num as nat ensures !WordBits(w)[i] { IxOrder(i, num as nat); }
    NextOneIs(WordBits(w), 0, num as nat);
  }

  /** __reverse_ffz on a word that is not all ones. */
  method ReverseFfz(word: bv64) returns (r: nat)
    requires !word != 0
    ensures r < 64 && r == NextZero(WordBits(word), 0)
  {
    var num := ReverseFfs(!word);
    LeastAsIndex(!word, num);
    NotWordBits(word);
    r := num as nat;
    NextZeroIs(WordBits(word), 0, r);
  }

  lemma AllOnesBit(j: bv8)
    requires j < 64
    ensures WordBit(ALL_ONES, j)
  {
  }

  lemma AllOnes()
    ensures forall i :: 0 <= i < 64 ==> WordBits(ALL_ONES)[i]
  {
    forall i | 0 <= i < 64 ensures WordBits(ALL_ONES)[i] {
      IxBelow(i);
      AllOnesBit(Ix(i));
    }
  }

  lemma StartMaskBitAt(w: bv64, offset: bv8, j: bv8)
    requires offset < 64 && j < 64
    ensures WordBit(w | StartMask(offset), j) == (j < offset || WordBit(w, j))
  {
    StartMaskBit(offset, j);
    OrBit(w, StartMask(offset), j);
  }

  /** Or-ing the start mask makes the bits before an unaligned start look set. */
  method MaskStart(word: bv64, offset: nat) returns (tmp: bv64)
    requires offset < 64
    ensures forall i :: 0 <= i < 64 ==> WordBits(tmp)[i] == (i < offset || WordBits(word)[i])
  {
    IxBelow(offset);
    tmp := MaskedWord(word, Ix(offset));
    forall i | 0 <= i < 64 ensures WordBits(tmp)[i] == (i < offset || WordBits(word)[i]) {
      IxBelow(i);
      HiddenBefore(WordBits(tmp)[i], WordBits(word)[i], offset, i);
    }
  }

  lemma HiddenBefore(p: bool, q: bool, offset: nat, i: nat)
    requires i < 64 && offset < 64 && p == (Ix(i) < Ix(offset) || q)
    ensures p == (i < offset || q)
  {
    IxOrder(i, offset);
  }

  method MaskedWord(word: bv64, offset: bv8) returns (tmp: bv64)
    requires offset < 64
    ensures forall j: bv8 :: j < 64 ==> WordBit(tmp, j) == (j < offset || WordBit(word, j))
  {
    tmp := word | StartMask(offset);
    forall j: bv8 | j < 64 ensures WordBit(tmp, j) == (j < offset || WordBit(word, j)) {
      StartMaskBitAt(word, offset, j);
    }
  }

  /** Or-ing the tail mask makes the bits look set whose place in the word is size or beyond. */
  method MaskTail(word: bv64, size: nat) returns (tmp: bv64)
    requires size < 64
    ensures forall i :: 0 <= i < 64 ==> WordBits(tmp)[i] == (Reversed(i) >= size || WordBits(word)[i])
  {
    IxBelow(size);
    tmp := MaskedTail(word, Ix(size));
    forall i | 0 <= i < 64 ensures WordBits(tmp)[i] == (Reversed(i) >= size || WordBits(word)[i]) {
      IxBelow(i);
      ShiftOfIx(i);
      IxOrder(Reversed(i), size);
    }
  }

  method MaskedTail(word: bv64, size: bv8) returns (tmp: bv64)
    requires size < 64
    ensures forall j: bv8 :: j < 64 ==> WordBit(tmp, j) == (ShiftOf(j) >= size || WordBit(word, j))
  {
    tmp := word | (ALL_ONES << size);
    forall j: bv8 | j < 64 ensures WordBit(tmp, j) == (ShiftOf(j) >= size || WordBit(word, j)) {
      TailMaskHides(word, size, j);
    }
  }

  /** The test for a clear bit followed by __reverse_ffz; 64 when every bit is set. */
  method FirstZero(word: bv64) returns (r: nat)
    ensures r == NextZero(WordBits(word), 0)
  {
    if !word != 0 {
      r := ReverseFfz(word);
    } else {
      assert word == ALL_ONES;
      AllOnes();
      r := 64;
      NextZeroIs(WordBits(word), 0, 64);
    }
  }

  /** The bits the search goes by: those of the whole words, and of a last word those the tail mask leaves. */
  ghost function Shown(ws: seq<bv64>, size: nat): (s: seq<bool>)
    requires size <= 64 * |ws|
    ensures |s| == (size + 63) / 64 * 64
  {
    seq((size + 63) / 64 * 64, i requires 0 <= i < (size + 63) / 64 * 64 =>
      (i / 64 == size / 64 && Reversed(i % 64) >= size % 64) || WordBits(ws[i / 64])[i % 64])
  }

  /** What __find_rev_next_zero_bit answers: the first bit that shows clear, or else the size. */
  ghost function Search(ws: seq<bv64>, size: nat, offset: nat): nat
    requires size <= 64 * |ws|
  {
    if offset >= size then size
    else
      var z := NextZero(Shown(ws, size), offset);
      if z < |Shown(ws, size)| then z else size
  }

  /** Word p of the buffer shows bits 64 * p onwards. */
  lemma WordShown(addr: seq<bv64>, size: nat, p: nat)
    requires size <= 64 * |addr| && 64 * p < size
    ensures 64 * p + 64 <= |Shown(addr, size)|
    ensures forall i :: 0 <= i < 64 ==>
              Shown(addr, size)[64 * p + i] == ((p == size / 64 && Reversed(i) >= size % 64) || WordBits(addr[p])[i])
  {
    forall i | 0 <= i < 64
      ensures Shown(addr, size)[64 * p + i] == ((p == size / 64 && Reversed(i) >= size % 64) || WordBits(addr[p])[i])
    {
      assert (64 * p + i) / 64 == p && (64 * p + i) % 64 == i;
    }
  }

  /** One word of the search: w shows bits[base..base + 64], hidden before start. */
  lemma FoundInWord(bits: seq<bool>, start: nat, base: nat, w: seq<bool>)
    requires |w| == 64 && base <= start < base + 64 <= |bits|
    requires forall i :: 0 <= i < 64 ==> w[i] == (i < start - base || bits[base + i])
    ensures var z := NextZero(w, 0);
            NextZero(bits, start) == if z < 64 then base + z else NextZero(bits, base + 64)
  {
    var z := NextZero(w, 0);
    forall i | start <= i < base + z ensures bits[i] { assert w[i - base]; }
    NextZeroIs(bits, start, if z < 64 then base + z else NextZero(bits, base + 64));
  }

  method MaskedStart(word: bv64, offset: nat) returns (tmp: bv64)
    requires offset < 64
    ensures forall i :: 0 <= i < 64 ==> WordBits(tmp)[i] == (i < offset || WordBits(word)[i])
  {
    if offset != 0 { tmp := MaskStart(word, offset); } else { tmp := word; }
  }

  /** One full word of the search: mask the bits before start, then look for a clear one. */
  method ScanWord(addr: seq<bv64>, size: nat, start: nat, p: nat) returns (z: nat)
    requires size <= 64 * |addr| && 64 * p <= start < 64 * p + 64 <= size
    ensures z <= 64
    ensures NextZero(Shown(addr, size), start) == if z < 64 then 64 * p + z else NextZero(Shown(addr, size), 64 * p + 64)
  {
    hide Shown, WordBits, WordBit, Reversed;
    var tmp := MaskedStart(addr[p], start % 64);
    z := FirstZero(tmp);
    WordShown(addr, size, p);
    FoundInWord(Shown(addr, size), start, 64 * p, WordBits(tmp));
  }

  /** The code from label found_first: fewer than 64 bits are left in the last word. */
  method ScanLast(addr: seq<bv64>, size: nat, start: nat, p: nat) returns (r: nat)
    requires size <= 64 * |addr| && 64 * p <= start < size < 64 * p + 64
    ensures r == Search(addr, size, start)
  {
    hide Shown, WordBits, WordBit, Reversed;
    var left := size - 64 * p;
    var tmp := MaskedStart(addr[p], start % 64);
    var tail := MaskTail(tmp, left);
    var z := FirstZero(tail);
    WordShown(addr, size, p);
    FoundInWord(Shown(addr, size), start, 64 * p, WordBits(tail));
    r := if z == 64 then size else 64 * p + z;
  }

  /** __find_rev_next_zero_bit, a word at a time. */
  method FindRevNextZeroBit(addr: seq<bv64>, size: nat, offset: nat) returns (r: nat)
    requires size <= 64 * |addr|
    ensures r == Search(addr, size, offset)
    ensures size % 8 == 0 ==> r == NextZero(BitsOfWords(addr, size), offset)
  {
    hide Shown, WordBits, WordBit, BitsOfWords, NextZero;
    if size % 8 == 0 { SearchOfBytes(addr, size, offset); }
    if offset >= size { return size; }
    var p, start := offset / 64, offset;
    while 64 * p + 64 <= size
      invariant start <= size && (start < size ==> 64 * p <= start < 64 * p + 64)
      invariant start == size ==> 64 * p == size
      invariant NextZero(Shown(addr, size), offset) == NextZero(Shown(addr, size), start)
    {
      var z := ScanWord(addr, size, start, p);
      if z < 64 { return 64 * p + z; }
      p := p + 1;
      start := 64 * p;
    }
    if start == size { return size; }
    r := ScanLast(addr, size, start, p);
  }

  // ---------------------------------------------------------------- sizes that end on a byte, and others

  lemma ReversedBelow(i: nat, s: nat)
    requires s % 8 == 0
    ensures Reversed(i) < s <==> i < s
  {
    var x, y, b := i / 8, i % 8, s / 8;
    assert i == 8 * x + y && s == 8 * b && Reversed(i) == 8 * x + (7 - y);
    if x < b { assert 8 * x + 8 <= 8 * b; } else { assert 8 * x >= 8 * b; }
  }

  lemma TailKeepsBefore(size: nat, q: nat)
    requires size % 8 == 0 && q < (size + 63) / 64 * 64
    ensures (q / 64 == size / 64 ==> Reversed(q % 64) < size % 64) <==> q < size
  {
    var m, s, a, i := size / 64, size % 64, q / 64, q % 64;
    WholeBytes(size);
    ReversedBelow(i, s);
    hide Reversed;
    assert size == 64 * m + s && q == 64 * a + i;
    assert (size + 63) / 64 <= m + 1;
    assert a < m + 1;
    if a < m { assert 64 * a + 64 <= 64 * m; }
  }

  lemma WholeBytes(size: nat)
    requires size % 8 == 0
    ensures size % 64 % 8 == 0
  {
  }

  /** Whole bytes: the tail mask hides what is behind the size and nothing else. */
  lemma SearchOfBytes(ws: seq<bv64>, size: nat, offset: nat)
    requires size <= 64 * |ws| && size % 8 == 0
    ensures Search(ws, size, offset) == NextZero(BitsOfWords(ws, size), offset)
  {
    hide WordBits, WordBit, Reversed;
    forall i | 0 <= i < |Shown(ws, size)|
      ensures Shown(ws, size)[i] == (i >= size || BitsOfWords(ws, size)[i])
    {
      TailKeepsBefore(size, i);
    }
    hide Shown, BitsOfWords;
    if offset < size { NextZeroIs(BitsOfWords(ws, size), offset, Search(ws, size, offset)); }
  }

  /** Otherwise the first bit of the last, partial byte is hidden, and bits behind the size are not. */
  lemma SearchOfBits(words: nat, size: nat)
    requires size <= 64 * words && size % 8 != 0
    ensures var ws, offset := seq(words, _ => 0 as bv64), size / 8 * 8;
            NextZero(BitsOfWords(ws, size), offset) == offset < Search(ws, size, offset)
  {
    var ws, offset := seq(words, _ => 0 as bv64), size / 8 * 8;
    NoBit(offset % 64);
    hide WordBits, WordBit;
    assert !BitsOfWords(ws, size)[offset];
    assert offset / 64 == size / 64 && Reversed(offset % 64) >= size % 64;
    assert Shown(ws, size)[offset];
  }

  lemma NoBit(i: nat)
    requires i < 64
    ensures !WordBits(0)[i]
  {
    NoBitAt(Ix(i));
  }

  lemma NoBitAt(j: bv8)
    ensures !WordBit(0, j)
  {
  }

  /** __find_rev_next_zero_bit is right, on every buffer and from every offset, exactly for the sizes that end on a byte. */
  lemma RightForWholeBytes(words: nat, size: nat)
    requires size <= 64 * words
    ensures size % 8 == 0 <==> forall ws: seq<bv64>, offset: nat :: |ws| == words ==>
              Search(ws, size, offset) == NextZero(BitsOfWords(ws, size), offset)
  {
    if size % 8 == 0 {
      forall ws: seq<bv64>, offset: nat | |ws| == words
        ensures Search(ws, size, offset) == NextZero(BitsOfWords(ws, size), offset)
      {
        SearchOfBytes(ws, size, offset);
      }
    } else {
      SearchOfBits(words, size);
    }
  }

  // ---------------------------------------------------------------- the search for set bits

  /** The mask for an unaligned start: what is left of one byte. */
  function ByteRest(offset: bv8): bv64
    requires offset < 64
  {
    var quot := (offset >> 3) << 3;
    var rest := offset & 7;
    var mask := ALL_ONES << quot;
    var submask: bv8 := (0xff << rest) >> rest;
    mask & ((submask as bv64) << quot)
  }

  lemma ByteRestBit(offset: bv8, j: bv8)
    requires offset < 64 && j < 64
    ensures WordBit(ByteRest(offset), j) == (j >= offset && j & 0x38 == offset & 0x38)
  {
  }

  lemma AndBit(a: bv64, b: bv64, j: bv8)
    requires j < 64
    ensures WordBit(a & b, j) == (WordBit(a, j) && WordBit(b, j))
  {
  }

  lemma TailMaskKeeps(w: bv64, size: bv8, j: bv8)
    requires 0 < size < 64 && j < 64
    ensures WordBit(w & (ALL_ONES >> (64 - size)), j) == (ShiftOf(j) < size && WordBit(w, j))
  {
  }

  lemma SameByteParts(q: bv8, r: bv8, q': bv8, r': bv8)
    requires q < 8 && r < 8 && q' < 8 && r' < 8
    ensures (8 * q + r) & 0x38 == (8 * q' + r') & 0x38 <==> q == q'
  {
  }

  lemma SameByte(i: nat, j: nat)
    requires i < 64 && j < 64
    ensures Ix(i) & 0x38 == Ix(j) & 0x38 <==> i / 8 == j / 8
  {
    IxBytes(i / 8);
    IxBytes(j / 8);
    IxSum(8 * (i / 8), i % 8);
    IxSum(8 * (j / 8), j % 8);
    IxBelow(i / 8);
    IxBelow(j / 8);
    IxBelow(i % 8);
    IxBelow(j % 8);
    IxOrder(i / 8, j / 8);
    SameByteParts(Ix(i / 8), Ix(i % 8), Ix(j / 8), Ix(j % 8));
  }

  /** What the start mask leaves of a word. */
  method KeepRest(word: bv64, offset: nat) returns (tmp: bv64)
    requires offset < 64
    ensures forall i :: 0 <= i < 64 ==> WordBits(tmp)[i] == (offset <= i && i / 8 == offset / 8 && WordBits(word)[i])
  {
    IxBelow(offset);
    tmp := RestOfByte(word, Ix(offset));
    forall i | 0 <= i < 64
      ensures WordBits(tmp)[i] == (offset <= i && i / 8 == offset / 8 && WordBits(word)[i])
    {
      IxBelow(i);
      IxOrder(i, offset);
      SameByte(i, offset);
      KeptBit(WordBits(tmp)[i], WordBits(word)[i], offset, i);
    }
  }

  lemma KeptBit(p: bool, q: bool, offset: nat, i: nat)
    requires i < 64 && offset < 64 && p == (Ix(i) >= Ix(offset) && Ix(i) & 0x38 == Ix(offset) & 0x38 && q)
    requires Ix(i) < Ix(offset) <==> i < offset
    requires Ix(i) & 0x38 == Ix(offset) & 0x38 <==> i / 8 == offset / 8
    ensures p == (offset <= i && i / 8 == offset / 8 && q)
  {
  }

  method RestOfByte(word: bv64, offset: bv8) returns (tmp: bv64)
    requires offset < 64
    ensures forall j: bv8 :: j < 64 ==> WordBit(tmp, j) == (j >= offset && j & 0x38 == offset & 0x38 && WordBit(word, j))
  {
    tmp := word & ByteRest(offset);
    forall j: bv8 | j < 64
      ensures WordBit(tmp, j) == (j >= offset && j & 0x38 == offset & 0x38 && WordBit(word, j))
    {
      AndBit(word, ByteRest(offset), j);
      ByteRestBit(offset, j);
    }
  }

  /** And-ing the tail mask makes the bits look clear whose place in the word is size or beyond. */
  method KeepHead(word: bv64, size: nat) returns (tmp: bv64)
    requires 0 < size < 64
    ensures forall i :: 0 <= i < 64 ==> WordBits(tmp)[i] == (Reversed(i) < size && WordBits(word)[i])
  {
    IxBelow(size);
    IxOrder(0, size);
    tmp := KeptHead(word, Ix(size));
    forall i | 0 <= i < 64 ensures WordBits(tmp)[i] == (Reversed(i) < size && WordBits(word)[i]) {
      IxBelow(i);
      ShiftOfIx(i);
      IxOrder(Reversed(i), size);
    }
  }

  method KeptHead(word: bv64, size: bv8) returns (tmp: bv64)
    requires 0 < size < 64
    ensures forall j: bv8 :: j < 64 ==> WordBit(tmp, j) == (ShiftOf(j) < size && WordBit(word, j))
  {
    tmp := word & (ALL_ONES >> (64 - size));
    forall j: bv8 | j < 64 ensures WordBit(tmp, j) == (ShiftOf(j) < size && WordBit(word, j)) {
      TailMaskKeeps(word, size, j);
    }
  }

  /** The test for a set bit followed by __reverse_ffs; 64 when every bit is clear. */
  method FirstOne(word: bv64) returns (r: nat)
    ensures r == NextOne(WordBits(word), 0)
  {
    if word != 0 {
      var num := ReverseFfs(word);
      LeastAsIndex(word, num);
      r := num as nat;
      NextOneIs(WordBits(word), 0, r);
    } else {
      forall i | 0 <= i < 64 ensures !WordBits(word)[i] { NoBit(i); }
      r := 64;
      NextOneIs(WordBits(word), 0, 64);
    }
  }

  /** Whether the masks of a search from offset leave bit q: in an unaligned first word only the rest of one byte. */
  predicate Left(size: nat, offset: nat, q: nat) {
    && (q / 64 == offset / 64 && offset % 64 != 0 ==> offset <= q && q / 8 == offset / 8)
    && (q / 64 == size / 64 ==> Reversed(q % 64) < size % 64)
  }

  ghost function ShownSet(ws: seq<bv64>, size: nat, offset: nat): (s: seq<bool>)
    requires size <= 64 * |ws|
    ensures |s| == (size + 63) / 64 * 64
  {
    seq((size + 63) / 64 * 64, q requires 0 <= q < (size + 63) / 64 * 64 => Left(size, offset, q) && WordBits(ws[q / 64])[q % 64])
  }

  /** What __find_rev_next_bit answers. */
  ghost function SearchSet(ws: seq<bv64>, size: nat, offset: nat): nat
    requires size <= 64 * |ws|
  {
    if offset >= size then size
    else
      var z := NextOne(ShownSet(ws, size, offset), offset / 64 * 64);
      if z < |ShownSet(ws, size, offset)| then z else size
  }

  lemma WordShownSet(addr: seq<bv64>, size: nat, offset: nat, p: nat)
    requires size <= 64 * |addr| && 64 * p < size
    ensures 64 * p + 64 <= |ShownSet(addr, size, offset)|
    ensures forall i :: 0 <= i < 64 ==>
              ShownSet(addr, size, offset)[64 * p + i]
              == ((p == offset / 64 && offset % 64 != 0 ==> offset % 64 <= i && i / 8 == offset % 64 / 8)
                  && (p == size / 64 ==> Reversed(i) < size % 64) && WordBits(addr[p])[i])
  {
    forall i | 0 <= i < 64
      ensures ShownSet(addr, size, offset)[64 * p + i]
              == ((p == offset / 64 && offset % 64 != 0 ==> offset % 64 <= i && i / 8 == offset % 64 / 8)
                  && (p == size / 64 ==> Reversed(i) < size % 64) && WordBits(addr[p])[i])
    {
      assert (64 * p + i) / 64 == p && (64 * p + i) % 64 == i;
      if p == offset / 64 { SameByteInWord(p, i, offset); }
    }
  }

  lemma SameByteInWord(p: nat, i: nat, offset: nat)
    requires i < 64 && p == offset / 64
    ensures (64 * p + i) / 8 == offset / 8 <==> i / 8 == offset % 64 / 8
    ensures offset <= 64 * p + i <==> offset % 64 <= i
  {
    assert (64 * p + i) / 8 == 8 * p + i / 8;
    assert offset == 64 * p + offset % 64;
    assert offset / 8 == 8 * p + offset % 64 / 8;
  }

  /** One word of the search: w shows bits[base..base + 64]. */
  lemma FoundOneInWord(bits: seq<bool>, base: nat, w: seq<bool>)
    requires |w| == 64 && base + 64 <= |bits|
    requires forall i :: 0 <= i < 64 ==> bits[base + i] == w[i]
    ensures var z := NextOne(w, 0);
            NextOne(bits, base) == if z < 64 then base + z else NextOne(bits, base + 64)
  {
    var z := NextOne(w, 0);
    forall i | base <= i < base + z ensures !bits[i] { assert !w[i - base]; }
    NextOneIs(bits, base, if z < 64 then base + z else NextOne(bits, base + 64));
  }

  /** A word of the buffer, without what the start mask hides if the search starts in it. */
  method FirstWord(addr: seq<bv64>, offset: nat, p: nat) returns (tmp: bv64)
    requires p < |addr|
    ensures forall i :: 0 <= i < 64 ==>
              WordBits(tmp)[i]
              == ((p == offset / 64 && offset % 64 != 0 ==> offset % 64 <= i && i / 8 == offset % 64 / 8) && WordBits(addr[p])[i])
  {
    hide WordBits, WordBit;
    if p == offset / 64 && offset % 64 != 0 { tmp := KeepRest(addr[p], offset % 64); } else { tmp := addr[p]; }
  }

  method ScanWordSet(addr: seq<bv64>, size: nat, offset: nat, p: nat) returns (z: nat)
    requires size <= 64 * |addr| && 64 * p + 64 <= size
    ensures z <= 64
    ensures NextOne(ShownSet(addr, size, offset), 64 * p)
         == if z < 64 then 64 * p + z else NextOne(ShownSet(addr, size, offset), 64 * p + 64)
  {
    hide ShownSet, WordBits, WordBit, Reversed;
    var tmp := FirstWord(addr, offset, p);
    z := FirstOne(tmp);
    WordShownSet(addr, size, offset, p);
    FoundOneInWord(ShownSet(addr, size, offset), 64 * p, WordBits(tmp));
  }

  /** The code from label found_first. */
  method ScanLastSet(addr: seq<bv64>, size: nat, offset: nat, p: nat) returns (r: nat)
    requires size <= 64 * |addr| && 64 * p < size < 64 * p + 64
    ensures var z := NextOne(ShownSet(addr, size, offset), 64 * p);
            r == if z < |ShownSet(addr, size, offset)| then z else size
  {
    hide ShownSet, WordBits, WordBit, Reversed;
    var tmp := FirstWord(addr, offset, p);
    var tail := KeepHead(tmp, size - 64 * p);
    var z := FirstOne(tail);
    WordShownSet(addr, size, offset, p);
    FoundOneInWord(ShownSet(addr, size, offset), 64 * p, WordBits(tail));
    r := if z == 64 then size else 64 * p + z;
  }

  /** __find_rev_next_bit, a word at a time. */
  method FindRevNextBit(addr: seq<bv64>, size: nat, offset: nat) returns (r: nat)
    requires size <= 64 * |addr|
    ensures r == SearchSet(addr, size, offset)
  {
    hide ShownSet, WordBits, WordBit;
    if offset >= size { return size; }
    var p := offset / 64;
    while 64 * p + 64 <= size
      invariant offset / 64 <= p && 64 * p <= size
      invariant NextOne(ShownSet(addr, size, offset), offset / 64 * 64) == NextOne(ShownSet(addr, size, offset), 64 * p)
    {
      var z := ScanWordSet(addr, size, offset, p);
      if z < 64 { return 64 * p + z; }
      p := p + 1;
    }
    if 64 * p == size { return size; }
    r := ScanLastSet(addr, size, offset, p);
  }

  /** No bit of the buffer lies in the word of an unaligned start behind its byte. */
  predicate NothingBehindByte(size: nat, offset: nat) {
    offset % 64 == 0 || (offset / 8 + 1) * 8 >= size || (offset / 8 + 1) % 8 == 0
  }

  lemma SameByteKept(size: nat, offset: nat, q: nat)
    requires NothingBehindByte(size, offset) && offset <= q < size && q / 64 == offset / 64 && offset % 64 != 0
    ensures q / 8 == offset / 8
  {
    var b := offset / 8;
    assert q / 8 >= b;
    if (b + 1) % 8 == 0 {
      assert b / 8 == offset / 64 && q / 8 / 8 == q / 64;
    }
  }

  lemma LeftIs(size: nat, offset: nat, q: nat)
    requires size % 8 == 0 && offset < size && NothingBehindByte(size, offset) && q < (size + 63) / 64 * 64
    requires q >= offset / 64 * 64
    ensures Left(size, offset, q) <==> offset <= q < size
  {
    TailKeepsBefore(size, q);
    if offset <= q < size && q / 64 == offset / 64 && offset % 64 != 0 { SameByteKept(size, offset, q); }
    hide Reversed, NothingBehindByte;
  }

  lemma SearchSetOfBytes(ws: seq<bv64>, size: nat, offset: nat)
    requires size <= 64 * |ws| && size % 8 == 0 && NothingBehindByte(size, offset)
    ensures SearchSet(ws, size, offset) == NextOne(BitsOfWords(ws, size), offset)
  {
    if offset < size {
      var shown, bits := ShownSet(ws, size, offset), BitsOfWords(ws, size);
      forall q | offset / 64 * 64 <= q < |shown|
        ensures shown[q] == (offset <= q < size && bits[q])
      {
        LeftIs(size, offset, q);
      }
      hide ShownSet, BitsOfWords;
      NextOneIs(bits, offset, SearchSet(ws, size, offset));
    }
  }

  lemma OneBitAt(j: bv8, k: bv8)
    requires j < 64 && k < 64
    ensures WordBit(1 << ShiftOf(j), k) == (j == k)
  {
  }

  lemma OneBit(j: nat) returns (w: bv64)
    requires j < 64
    ensures forall k :: 0 <= k < 64 ==> WordBits(w)[k] == (k == j)
  {
    IxBelow(j);
    w := 1 << ShiftOf(Ix(j));
    forall k | 0 <= k < 64 ensures WordBits(w)[k] == (k == j) {
      IxBelow(k);
      IxOrder(j, k);
      OneBitAt(Ix(j), Ix(k));
    }
  }

  lemma BufferWithBit(words: nat, word: nat, bit: nat) returns (ws: seq<bv64>)
    requires bit < 64
    ensures |ws| == words
    ensures forall p, k :: 0 <= p < words && 0 <= k < 64 ==> WordBits(ws[p])[k] == (p == word && k == bit)
  {
    var w := OneBit(bit);
    forall k | 0 <= k < 64 ensures !WordBits(0)[k] { NoBit(k); }
    hide WordBits, WordBit;
    ws := seq(words, p => if p == word then w else 0);
  }

  /** A buffer in which only bit q is set. */
  lemma OnlyBit(words: nat, q: nat, size: nat, offset: nat) returns (ws: seq<bv64>)
    requires q < 64 * words && size <= 64 * words
    ensures |ws| == words
    ensures forall i :: 0 <= i < size ==> BitsOfWords(ws, size)[i] == (i == q)
    ensures forall i :: 0 <= i < |ShownSet(ws, size, offset)| ==>
              ShownSet(ws, size, offset)[i] == (i == q && Left(size, offset, q))
  {
    hide WordBits, WordBit, Left;
    ws := BufferWithBit(words, q / 64, q % 64);
    forall i | 0 <= i < size ensures BitsOfWords(ws, size)[i] == (i == q) { SamePlace(i, q); }
    forall i | 0 <= i < |ShownSet(ws, size, offset)|
      ensures ShownSet(ws, size, offset)[i] == (i == q && Left(size, offset, q))
    {
      SamePlace(i, q);
    }
  }

  lemma SamePlace(i: nat, q: nat)
    ensures i == q <==> i / 64 == q / 64 && i % 64 == q % 64
  {
  }

  /** A number in words, bytes and bits. */
  lemma Parts(x: nat)
    ensures x == 64 * (x / 64) + x % 64 && x / 8 == 8 * (x / 64) + x % 64 / 8 && x % 8 == x % 64 % 8
    ensures x % 64 == 8 * (x % 64 / 8) + x % 8 && Reversed(x % 64) == 8 * (x % 64 / 8) + (7 - x % 8)
  {
    assert x / 8 == 8 * (x / 64) + x % 64 / 8;
  }

  /** In a last byte of seven bits, a search that starts behind its first bit sees the others, and the one behind the size. */
  lemma LeftPartial(size: nat, offset: nat, q: nat)
    requires size % 8 == 7 && offset % 8 != 0 && offset / 8 == size / 8 && offset < size
    requires offset / 64 * 64 <= q < (size + 63) / 64 * 64
    ensures Left(size, offset, q) <==> offset <= q <= size
  {
    Parts(size);
    Parts(offset);
    Parts(q);
    SameByteSame(size, offset);
    LastWord(size);
    InWord(offset / 64, q);
    hide Reversed;
    if offset <= q <= size { BetweenInByte(offset, size, q); }
  }

  lemma SameByteSame(x: nat, y: nat)
    requires x / 8 == y / 8
    ensures x / 64 == y / 64 && x % 64 / 8 == y % 64 / 8
  {
    assert x / 64 == x / 8 / 8 && y / 64 == y / 8 / 8;
    Parts(x);
    Parts(y);
  }

  lemma BetweenInByte(x: nat, y: nat, q: nat)
    requires x <= q <= y && x / 8 == y / 8
    ensures q / 8 == x / 8
  {
  }

  lemma LastWord(size: nat)
    requires size % 8 != 0
    ensures (size + 63) / 64 == size / 64 + 1
  {
    assert size % 64 != 0 by { Parts(size); }
  }

  lemma InWord(m: nat, q: nat)
    requires m * 64 <= q < (m + 1) * 64
    ensures q / 64 == m
  {
  }

  lemma SearchSetPartial(ws: seq<bv64>, size: nat, offset: nat)
    requires size <= 64 * |ws| && size % 8 == 7 && offset % 8 != 0 && offset / 8 == size / 8 && offset < size
    ensures SearchSet(ws, size, offset) == NextOne(BitsOfWords(ws, size), offset)
  {
    var shown, bits := ShownSet(ws, size, offset), BitsOfWords(ws, size);
    hide WordBits, WordBit, Left;
    forall q | offset / 64 * 64 <= q < |shown|
      ensures q < size ==> shown[q] == (offset <= q && bits[q])
      ensures q > size ==> !shown[q]
    {
      LeftPartial(size, offset, q);
    }
    hide ShownSet, BitsOfWords;
    NextOneIs(bits, offset, SearchSet(ws, size, offset));
  }

  /** The offsets from which the masks let all bits of the buffer through, and none behind it that would be answered. */
  predicate SeesAll(size: nat, offset: nat) {
    if size % 8 == 0 then NothingBehindByte(size, offset)
    else size % 8 == 7 && offset % 8 != 0 && offset / 8 == size / 8
  }

  /** From the others one bit is missed, or one behind the size is found. */
  function OddBit(size: nat, offset: nat): nat {
    if size % 8 == 0 then (offset / 8 + 1) * 8
    else if offset <= size / 8 * 8 then size / 8 * 8
    else size / 8 * 8 + 7
  }

  lemma OddBehind(size: nat, offset: nat)
    requires offset < size && size % 8 == 0 && !NothingBehindByte(size, offset)
    ensures var q := (offset / 8 + 1) * 8; offset < q < size && q / 64 == offset / 64 && !Left(size, offset, q)
  {
    var q := (offset / 8 + 1) * 8;
    assert q / 8 == offset / 8 + 1;
    assert q / 64 == q / 8 / 8 && offset / 64 == offset / 8 / 8;
    hide Reversed;
  }

  lemma OddFirst(size: nat)
    requires size % 8 != 0
    ensures var q := size / 8 * 8; q < size && q / 64 == size / 64 && Reversed(q % 64) >= size % 64
  {
    var q := size / 8 * 8;
    assert q / 8 == size / 8 && q % 8 == 0;
    SameByteSame(q, size);
    Parts(q);
    Parts(size);
    hide Reversed;
  }

  lemma OddLast(size: nat, offset: nat)
    requires offset < size && size % 8 != 0 && offset / 8 == size / 8
    ensures var q := size / 8 * 8 + 7; offset <= q && q / 64 == offset / 64 == size / 64 && q / 8 == offset / 8
    ensures var q := size / 8 * 8 + 7; Reversed(q % 64) < size % 64
  {
    var q := size / 8 * 8 + 7;
    assert q / 8 == size / 8 && q % 8 == 7;
    SameByteSame(q, size);
    SameByteSame(q, offset);
    Parts(q);
    Parts(size);
    Parts(offset);
    hide Reversed;
  }

  lemma OddBitIs(size: nat, offset: nat)
    requires offset < size && !SeesAll(size, offset)
    ensures var q := OddBit(size, offset);
            && offset <= q < (size + 63) / 64 * 64 && q != size
            && (q < size <==> !Left(size, offset, q))
  {
    if size % 8 == 0 {
      OddBehind(size, offset);
    } else {
      LastWord(size);
      OddFirst(size);
      if offset > size / 8 * 8 {
        BetweenInByte(size / 8 * 8, size, offset);
        OddLast(size, offset);
      }
    }
    hide Reversed, NothingBehindByte;
  }

  /** With that bit alone in the buffer the answer is wrong. */
  lemma SearchSetMisses(words: nat, size: nat, offset: nat) returns (ws: seq<bv64>)
    requires size <= 64 * words && offset < size && !SeesAll(size, offset)
    ensures |ws| == words && SearchSet(ws, size, offset) != NextOne(BitsOfWords(ws, size), offset)
  {
    var q := OddBit(size, offset);
    OddBitIs(size, offset);
    hide SeesAll, Left, OddBit;
    assert (size + 63) / 64 <= words;
    ws := OnlyBit(words, q, size, offset);
    hide BitsOfWords, ShownSet;
    NextOneIs(BitsOfWords(ws, size), offset, if q < size then q else size);
    NextOneIs(ShownSet(ws, size, offset), offset / 64 * 64, if q < size then |ShownSet(ws, size, offset)| else q);
  }

  /** For every size, __find_rev_next_bit is right on every buffer exactly from such offsets. */
  lemma RightIfAllSeen(words: nat, size: nat, offset: nat)
    requires size <= 64 * words
    ensures offset >= size || SeesAll(size, offset) <==>
              forall ws: seq<bv64> :: |ws| == words ==> SearchSet(ws, size, offset) == NextOne(BitsOfWords(ws, size), offset)
  {
    if offset >= size || SeesAll(size, offset) {
      forall ws: seq<bv64> | |ws| == words
        ensures SearchSet(ws, size, offset) == NextOne(BitsOfWords(ws, size), offset)
      {
        if offset < size {
          if size % 8 == 0 { SearchSetOfBytes(ws, size, offset); } else { SearchSetPartial(ws, size, offset); }
        }
      }
    } else {
      var ws := SearchSetMisses(words, size, offset);
    }
  }
}
