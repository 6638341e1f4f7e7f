/**
  The node tree of a file as arithmetic: which node and slot hold a page index,
  how node offsets number the tree, and how to come back from a node offset to a
  page index.
 */
module Addressing {

  /** ADDRS_PER_INODE, ADDRS_PER_BLOCK and NIDS_PER_BLOCK. */
  datatype Shape = Shape(perInode: nat, perBlock: nat, nids: nat)
  {
    predicate Valid() { perInode > 0 && perBlock > 0 && nids > 0 }

    /** Pages below an indirect node, and below the double indirect node. */
    function IndSpan(): nat { perBlock * nids }

    function DindSpan(): nat { IndSpan() * nids }

    /** Number of page indices the tree can address. */
    function Capacity(): nat { perInode + 2 * perBlock + 2 * IndSpan() + DindSpan() }
  }

  /** A place in the tree: the inode, its direct and indirect children, and what hangs below those. */
  datatype Pos =
    | Root
    | Dir(i: nat)
    | Ind(j: nat)
    | IndLeaf(j: nat, k: nat)
    | Dind
    | DindInd(k: nat)
    | DindLeaf(k: nat, l: nat)

  predicate PosOk(sh: Shape, p: Pos) {
    match p
    case Root => true
    case Dir(i) => i < 2
    case Ind(j) => j < 2
    case IndLeaf(j, k) => j < 2 && k < sh.nids
    case Dind => true
    case DindInd(k) => k < sh.nids
    case DindLeaf(k, l) => k < sh.nids && l < sh.nids
  }

  predicate IsLeaf(p: Pos) { p.Root? || p.Dir? || p.IndLeaf? || p.DindLeaf? }

  function Depth(p: Pos): (d: nat)
    ensures d <= 3
  {
    match p
    case Root => 0
    case Dir(_) => 1
    case Ind(_) => 1
    case IndLeaf(_, _) => 2
    case Dind => 1
    case DindInd(_) => 2
    case DindLeaf(_, _) => 3
  }

  /** The number of node ids a node at p holds. */
  function Fanout(sh: Shape, p: Pos): nat {
    if p.Root? then 5 else if IsLeaf(p) then 0 else sh.nids
  }

  /** The place the i-th node id of a node at p refers to. */
  function Child(sh: Shape, p: Pos, i: nat): Pos
    requires i < Fanout(sh, p)
  {
    match p
    case Root => if i < 2 then Dir(i) else if i < 4 then Ind(i - 2) else Dind
    case Ind(j) => IndLeaf(j, i)
    case Dind => DindInd(i)
    case DindInd(k) => DindLeaf(k, i)
  }

  function Parent(p: Pos): Pos
    requires !p.Root?
  {
    match p
    case Dir(_) => Root
    case Ind(_) => Root
    case IndLeaf(j, _) => Ind(j)
    case Dind => Root
    case DindInd(_) => Dind
    case DindLeaf(k, _) => DindInd(k)
  }

  function SlotOf(p: Pos): nat
    requires !p.Root?
  {
    match p
    case Dir(i) => i
    case Ind(j) => 2 + j
    case IndLeaf(_, k) => k
    case Dind => 4
    case DindInd(k) => k
    case DindLeaf(_, l) => l
  }

  lemma ChildParent(sh: Shape, p: Pos, i: nat)
    requires i < Fanout(sh, p)
    ensures Parent(Child(sh, p, i)) == p && SlotOf(Child(sh, p, i)) == i
    ensures PosOk(sh, p) ==> PosOk(sh, Child(sh, p, i))
  {
  }

  lemma ParentChild(sh: Shape, p: Pos)
    requires PosOk(sh, p) && !p.Root?
    ensures PosOk(sh, Parent(p)) && SlotOf(p) < Fanout(sh, Parent(p)) && Child(sh, Parent(p), SlotOf(p)) == p
  {
  }

  /** The ancestor of p at depth d. */
  function Ancestor(p: Pos, d: nat): (a: Pos)
    requires d <= Depth(p)
    ensures Depth(a) == d
    decreases Depth(p)
  {
    if d == Depth(p) then p else Ancestor(Parent(p), d)
  }

  /** First page index at or below p. */
  function Start(sh: Shape, p: Pos): nat {
    var ind := sh.perInode + 2 * sh.perBlock;
    match p
    case Root => 0
    case Dir(i) => sh.perInode + i * sh.perBlock
    case Ind(j) => ind + j * sh.IndSpan()
    case IndLeaf(j, k) => ind + j * sh.IndSpan() + k * sh.perBlock
    case Dind => ind + 2 * sh.IndSpan()
    case DindInd(k) => ind + 2 * sh.IndSpan() + k * sh.IndSpan()
    case DindLeaf(k, l) => ind + 2 * sh.IndSpan() + k * sh.IndSpan() + l * sh.perBlock
  }

  /** Data slots of a leaf. */
  function Slots(sh: Shape, p: Pos): nat {
    if p.Root? then sh.perInode else if IsLeaf(p) then sh.perBlock else 0
  }

  /** The node offset the footer of the node at p carries. */
  function NodeOfs(sh: Shape, p: Pos): nat {
    match p
    case Root => 0
    case Dir(i) => 1 + i
    case Ind(j) => 3 + j * (sh.nids + 1)
    case IndLeaf(j, k) => 4 + j * (sh.nids + 1) + k
    case Dind => 5 + 2 * sh.nids
    case DindInd(k) => 6 + 2 * sh.nids + k * (sh.nids + 1)
    case DindLeaf(k, l) => 7 + 2 * sh.nids + k * (sh.nids + 1) + l
  }

  // ------------------------------------------------------- arithmetic

  lemma {:induction false} MulMono(n: nat, a: nat, b: nat)
    ensures a < b ==> a * n + n <= b * n
    ensures a <= b ==> a * n <= b * n
    decreases b
  {
    if a < b {
      MulMono(n, a, b - 1);
      assert b * n == (b - 1) * n + n;
    }
  }

  /** Division and remainder are what multiplication undoes. */
  lemma DivIs(x: nat, d: nat, q: nat, r: nat)
    requires r < d && x == q * d + r
    ensures x / d == q && x % d == r
  {
    var q', r' := x / d, x % d;
    assert x == q' * d + r';
    MulMono(d, q, q');
    MulMono(d, q', q);
  }

  lemma DivBound(x: nat, d: nat, n: nat)
    requires d > 0 && x < d * n
    ensures x / d < n && x == (x / d) * d + x % d
  {
    MulMono(d, n, x / d);
    assert d * n == n * d;
  }

  // ------------------------------------------------------- from index to leaf

  lemma SpansPositive(sh: Shape)
    requires sh.Valid()
    ensures sh.IndSpan() >= sh.perBlock > 0
  {
    MulMono(sh.perBlock, 1, sh.nids);
  }

  /** The leaf that holds the slot of a page index. */
  function LeafAt(sh: Shape, index: nat): Pos
    requires sh.Valid() && index < sh.Capacity()
  {
    var ind := sh.perInode + 2 * sh.perBlock;
    var dind := ind + 2 * sh.IndSpan();
    if index < sh.perInode then Root
    else if index < ind then Dir((index - sh.perInode) / sh.perBlock)
    else
      assert sh.IndSpan() > 0 by { SpansPositive(sh); }
      if index < dind then
        var b := (index - ind) % sh.IndSpan();
        IndLeaf((index - ind) / sh.IndSpan(), b / sh.perBlock)
      else
        var b := (index - dind) % sh.IndSpan();
        DindLeaf((index - dind) / sh.IndSpan(), b / sh.perBlock)
  }

  /** An index lies in a block of perBlock pages below one of n indirect nodes. */
  lemma SplitIndex(sh: Shape, b: nat, n: nat)
    requires sh.Valid() && b < n * sh.IndSpan()
    ensures sh.IndSpan() > 0 && b / sh.IndSpan() < n && (b % sh.IndSpan()) / sh.perBlock < sh.nids
    ensures var r := b % sh.IndSpan();
            b == (b / sh.IndSpan()) * sh.IndSpan() + (r / sh.perBlock) * sh.perBlock + r % sh.perBlock
  {
    SpansPositive(sh);
    assert n * sh.IndSpan() == sh.IndSpan() * n;
    DivBound(b, sh.IndSpan(), n);
    DivBound(b % sh.IndSpan(), sh.perBlock, sh.nids);
  }

  lemma LeafHolds(sh: Shape, index: nat)
    requires sh.Valid() && index < sh.Capacity()
    ensures var p := LeafAt(sh, index);
            PosOk(sh, p) && IsLeaf(p) && Start(sh, p) <= index < Start(sh, p) + Slots(sh, p)
  {
    var ind := sh.perInode + 2 * sh.perBlock;
    var dind := ind + 2 * sh.IndSpan();
    SpansPositive(sh);
    if sh.perInode <= index < ind {
      DivBound(index - sh.perInode, sh.perBlock, 2);
    } else if ind <= index < dind {
      SplitIndex(sh, index - ind, 2);
    } else if dind <= index {
      assert sh.DindSpan() == sh.nids * sh.IndSpan();
      SplitIndex(sh, index - dind, sh.nids);
    }
  }

  lemma DivIs2(x: nat, sh: Shape, q: nat, k: nat, s: nat)
    requires sh.Valid() && k < sh.nids && s < sh.perBlock
    requires x == q * sh.IndSpan() + k * sh.perBlock + s
    ensures sh.IndSpan() > 0 && x / sh.IndSpan() == q && (x % sh.IndSpan()) / sh.perBlock == k
    ensures k * sh.perBlock + s < sh.IndSpan()
  {
    SpansPositive(sh);
    MulMono(sh.perBlock, k, sh.nids);
    assert sh.nids * sh.perBlock == sh.IndSpan();
    DivIs(x, sh.IndSpan(), q, k * sh.perBlock + s);
    DivIs(k * sh.perBlock + s, sh.perBlock, k, s);
  }

  /** Leaves share no index: the leaf at any index of p is p. */
  lemma LeafIsUnique(sh: Shape, p: Pos, s: nat)
    requires sh.Valid() && PosOk(sh, p) && IsLeaf(p) && s < Slots(sh, p)
    ensures Start(sh, p) + s < sh.Capacity() && LeafAt(sh, Start(sh, p) + s) == p
  {
    match p
    case Root =>
    case Dir(i) => DirIsUnique(sh, i, s);
    case IndLeaf(j, k) => IndLeafIsUnique(sh, j, k, s);
    case DindLeaf(k, l) => DindLeafIsUnique(sh, k, l, s);
  }

  lemma DirIsUnique(sh: Shape, i: nat, s: nat)
    requires sh.Valid() && i < 2 && s < sh.perBlock
    ensures Start(sh, Dir(i)) + s < sh.Capacity() && LeafAt(sh, Start(sh, Dir(i)) + s) == Dir(i)
  {
    DivIs(i * sh.perBlock + s, sh.perBlock, i, s);
    assert i * sh.perBlock == if i == 0 then 0 else sh.perBlock;
  }

  lemma IndLeafIsUnique(sh: Shape, j: nat, k: nat, s: nat)
    requires sh.Valid() && j < 2 && k < sh.nids && s < sh.perBlock
    ensures Start(sh, IndLeaf(j, k)) + s < sh.Capacity() && LeafAt(sh, Start(sh, IndLeaf(j, k)) + s) == IndLeaf(j, k)
  {
    var x := j * sh.IndSpan() + k * sh.perBlock + s;
    DivIs2(x, sh, j, k, s);
    MulMono(sh.IndSpan(), j, 2);
    assert x < 2 * sh.IndSpan();
  }

  lemma BelowDind(sh: Shape, k: nat, r: nat)
    requires k < sh.nids && r < sh.IndSpan()
    ensures k * sh.IndSpan() + r < sh.DindSpan()
  {
    MulMono(sh.IndSpan(), k, sh.nids);
    assert sh.DindSpan() == sh.nids * sh.IndSpan();
  }

  lemma DindLeafIsUnique(sh: Shape, k: nat, l: nat, s: nat)
    requires sh.Valid() && k < sh.nids && l < sh.nids && s < sh.perBlock
    ensures Start(sh, DindLeaf(k, l)) + s < sh.Capacity() && LeafAt(sh, Start(sh, DindLeaf(k, l)) + s) == DindLeaf(k, l)
  {
    var x := k * sh.IndSpan() + l * sh.perBlock + s;
    DivIs2(x, sh, k, l, s);
    BelowDind(sh, k, l * sh.perBlock + s);
    assert Start(sh, DindLeaf(k, l)) + s - (sh.perInode + 2 * sh.perBlock + 2 * sh.IndSpan()) == x;
  }

  // ------------------------------------------------------- node offsets

  /** The place a node offset stands for. */
  function PosAt(sh: Shape, ofs: nat): Pos {
    var n := sh.nids + 1;
    if ofs == 0 then Root
    else if ofs < 3 then Dir(ofs - 1)
    else if ofs == 3 then Ind(0)
    else if ofs < 4 + sh.nids then IndLeaf(0, ofs - 4)
    else if ofs == 4 + sh.nids then Ind(1)
    else if ofs < 5 + 2 * sh.nids then IndLeaf(1, ofs - 5 - sh.nids)
    else if ofs == 5 + 2 * sh.nids then Dind
    else
      var b := ofs - 6 - 2 * sh.nids;
      if b % n == 0 then DindInd(b / n) else DindLeaf(b / n, b % n - 1)
  }

  lemma NodeOfsInverts(sh: Shape, p: Pos)
    requires PosOk(sh, p)
    ensures PosAt(sh, NodeOfs(sh, p)) == p
  {
    var n := sh.nids + 1;
    if p.Ind? {
      assert p.j * n == if p.j == 0 then 0 else n;
    } else if p.IndLeaf? {
      assert p.j * n == if p.j == 0 then 0 else n;
    } else if p.DindInd? {
      DivIs(p.k * n, n, p.k, 0);
    } else if p.DindLeaf? {
      DivIs(p.k * n + p.l + 1, n, p.k, p.l + 1);
    }
  }

  /** No two places of the tree carry the same node offset. */
  lemma NodeOfsInjective(sh: Shape, p: Pos, q: Pos)
    requires PosOk(sh, p) && PosOk(sh, q) && NodeOfs(sh, p) == NodeOfs(sh, q)
    ensures p == q
  {
    NodeOfsInverts(sh, p);
    NodeOfsInverts(sh, q);
  }

  /** IS_DNODE, for node offsets below the one that marks an xattr node. */
  predicate IsDnode(sh: Shape, nodeOfs: nat) {
    if nodeOfs == 3 || nodeOfs == 4 + sh.nids || nodeOfs == 5 + 2 * sh.nids then false
    else if nodeOfs >= 6 + 2 * sh.nids then (nodeOfs - (6 + 2 * sh.nids)) % (sh.nids + 1) != 0
    else true
  }

  /** IS_DNODE tells the nodes that hold data addresses from those that hold node ids. */
  lemma DnodesAreLeaves(sh: Shape, p: Pos)
    requires PosOk(sh, p)
    ensures IsDnode(sh, NodeOfs(sh, p)) <==> IsLeaf(p)
  {
    match p
    case DindInd(k) => DivIs(k * (sh.nids + 1), sh.nids + 1, k, 0);
    case DindLeaf(k, l) => DivIs(k * (sh.nids + 1) + l + 1, sh.nids + 1, k, l + 1);
    case _ =>
  }

  /** Direct nodes counted in index order. */
  function Rank(sh: Shape, p: Pos): nat {
    match p
    case Dir(i) => i
    case IndLeaf(j, k) => 2 + j * sh.nids + k
    case DindLeaf(k, l) => 2 + 2 * sh.nids + k * sh.nids + l
    case _ => 0
  }

  /** Direct nodes follow the inode's slots one after the other. */
  lemma LeafMultiple(sh: Shape, p: Pos)
    requires PosOk(sh, p) && IsLeaf(p) && !p.Root?
    ensures Start(sh, p) == sh.perInode + Rank(sh, p) * sh.perBlock
  {
    if p.IndLeaf? { RankProduct(sh.perBlock, sh.nids, 2, p.j, p.k); }
    if p.DindLeaf? {
      RankProduct(sh.perBlock, sh.nids, 2 + 2 * sh.nids, p.k, p.l);
      assert (2 + 2 * sh.nids) * sh.perBlock == 2 * sh.perBlock + 2 * (sh.perBlock * sh.nids);
    }
  }

  lemma RankProduct(a: nat, n: nat, c: nat, k: nat, l: nat)
    ensures (c + k * n + l) * a == c * a + k * (a * n) + l * a
  {
    assert (k * n) * a == k * (a * n);
  }

  /** start_bidx_of_node. */
  function StartBidxOfNode(sh: Shape, nodeOfs: nat): int {
    var indirectBlks := 2 * sh.nids + 4;
    if nodeOfs == 0 then 0
    else
      var bidx :=
        if nodeOfs <= 2 then nodeOfs - 1
        else if nodeOfs <= indirectBlks then nodeOfs - 2 - (nodeOfs - 4) / (sh.nids + 1)
        else nodeOfs - 5 - (nodeOfs - indirectBlks - 3) / (sh.nids + 1);
      bidx * sh.perBlock + sh.perInode
  }

  /** Garbage collection finds from a node's offset the first page index the node holds. */
  lemma StartBidxInverts(sh: Shape, p: Pos)
    requires PosOk(sh, p) && IsLeaf(p)
    ensures StartBidxOfNode(sh, NodeOfs(sh, p)) == Start(sh, p)
  {
    if p.IndLeaf? {
      BidxOfIndLeaf(sh, p.j, p.k);
    } else if p.DindLeaf? {
      BidxOfDindLeaf(sh, p.k, p.l);
    }
    if !p.Root? { LeafMultiple(sh, p); }
  }

  lemma BidxOfIndLeaf(sh: Shape, j: nat, k: nat)
    requires j < 2 && k < sh.nids
    ensures StartBidxOfNode(sh, NodeOfs(sh, IndLeaf(j, k))) == sh.perInode + Rank(sh, IndLeaf(j, k)) * sh.perBlock
  {
    var n := sh.nids + 1;
    DivIs(j * n + k, n, j, k);
    assert j * n == j * sh.nids + j;
  }

  lemma BidxOfDindLeaf(sh: Shape, k: nat, l: nat)
    requires k < sh.nids && l < sh.nids
    ensures StartBidxOfNode(sh, NodeOfs(sh, DindLeaf(k, l))) == sh.perInode + Rank(sh, DindLeaf(k, l)) * sh.perBlock
  {
    var n := sh.nids + 1;
    DivIs(k * n + l, n, k, l);
    assert k * n == k * sh.nids + k;
  }

  /** PGOFS_OF_NEXT_DNODE. */
  function PgofsOfNextDnode(sh: Shape, pgofs: nat): nat
    requires sh.Valid()
  {
    if pgofs < sh.perInode then sh.perInode
    else (pgofs - sh.perInode + sh.perBlock) / sh.perBlock * sh.perBlock + sh.perInode
  }

  /** It is the first index beyond the leaf that holds pgofs. */
  lemma NextDnodeFollows(sh: Shape, pgofs: nat)
    requires sh.Valid() && pgofs < sh.Capacity()
    ensures var p := LeafAt(sh, pgofs); PgofsOfNextDnode(sh, pgofs) == Start(sh, p) + Slots(sh, p)
  {
    LeafHolds(sh, pgofs);
    var p := LeafAt(sh, pgofs);
    if !p.Root? {
      LeafMultiple(sh, p);
      NextMultiple(sh.perBlock, Rank(sh, p), pgofs - Start(sh, p));
    }
  }

  lemma NextMultiple(a: nat, q: nat, s: nat)
    requires s < a
    ensures (q * a + s + a) / a * a == q * a + a
  {
    DivIs(q * a + s + a, a, q + 1, s);
  }

  // ------------------------------------------------------- file size

  /** Slots of an inode, and those an inline xattr area takes away. */
  const DEF_ADDRS_PER_INODE: nat := 923
  const INLINE_XATTR_ADDRS: nat := 50

  /** max_file_size, in blocks. */
  method MaxFileBlocks(sh: Shape) returns (result: nat)
    ensures result == sh.(perInode := DEF_ADDRS_PER_INODE - INLINE_XATTR_ADDRS).Capacity()
    ensures sh.perInode >= DEF_ADDRS_PER_INODE - INLINE_XATTR_ADDRS ==> result <= sh.Capacity()
  {
    result := DEF_ADDRS_PER_INODE - INLINE_XATTR_ADDRS;
    var leafCount := sh.perBlock;
    result := result + leafCount * 2;
    leafCount := leafCount * sh.nids;
    result := result + leafCount * 2;
    leafCount := leafCount * sh.nids;
    result := result + leafCount;
  }

  // ------------------------------------------------------- get_node_path

  const NODE_DIR1_BLOCK: nat := 924
  const NODE_DIR2_BLOCK: nat := 925
  const NODE_IND1_BLOCK: nat := 926
  const NODE_IND2_BLOCK: nat := 927
  const NODE_DIND_BLOCK: nat := 928

  /** offset and noffset describe the way from the inode to slot s of leaf p. */
  ghost predicate IsPath(sh: Shape, p: Pos, s: nat, offset: seq<nat>, noffset: seq<nat>) {
    && |offset| >= Depth(p) + 1 && |noffset| >= Depth(p) + 1
    && (forall d: nat :: d <= Depth(p) ==> noffset[d] == NodeOfs(sh, Ancestor(p, d)))
    && (forall d: nat :: d < Depth(p) ==>
          offset[d] == SlotOf(Ancestor(p, d + 1)) + if d == 0 then NODE_DIR1_BLOCK else 0)
    && offset[Depth(p)] == s
  }

  /** The path to a leaf below the first indirect level, from the offsets get_node_path computes. */
  lemma PathBelowInd(sh: Shape, j: nat, k: nat, s: nat, offset: seq<nat>, noffset: seq<nat>)
    requires j < 2 && k < sh.nids && |offset| == 4 == |noffset|
    requires offset[0] == NODE_IND1_BLOCK + j && offset[1] == k && offset[2] == s
    requires noffset[0] == 0 && noffset[1] == (if j == 0 then 3 else 4 + sh.nids)
    requires noffset[2] == (if j == 0 then 4 else 5 + sh.nids) + k
    ensures IsPath(sh, IndLeaf(j, k), s, offset, noffset)
  {
    var p := IndLeaf(j, k);
    assert Ancestor(Root, 0) == Root && Ancestor(Ind(j), 1) == Ind(j) && Ancestor(Ind(j), 0) == Ancestor(Root, 0);
    assert Ancestor(p, 2) == p && Ancestor(p, 1) == Ancestor(Ind(j), 1) && Ancestor(p, 0) == Ancestor(Ind(j), 0);
    assert j * (sh.nids + 1) == if j == 0 then 0 else sh.nids + 1;
  }

  lemma PathBelowDind(sh: Shape, k: nat, l: nat, s: nat, offset: seq<nat>, noffset: seq<nat>)
    requires k < sh.nids && l < sh.nids && |offset| == 4 == |noffset|
    requires offset[0] == NODE_DIND_BLOCK && offset[1] == k && offset[2] == l && offset[3] == s
    requires noffset[0] == 0 && noffset[1] == 5 + sh.nids * 2
    requires noffset[2] == 6 + sh.nids * 2 + k * (sh.nids + 1)
    requires noffset[3] == 7 + sh.nids * 2 + k * (sh.nids + 1) + l
    ensures IsPath(sh, DindLeaf(k, l), s, offset, noffset)
  {
    var p := DindLeaf(k, l);
    assert Ancestor(Root, 0) == Root && Ancestor(Dind, 1) == Dind && Ancestor(Dind, 0) == Ancestor(Root, 0);
    assert Ancestor(DindInd(k), 2) == DindInd(k);
    assert Ancestor(DindInd(k), 1) == Ancestor(Dind, 1) && Ancestor(DindInd(k), 0) == Ancestor(Dind, 0);
    assert Ancestor(p, 3) == p && Ancestor(p, 2) == Ancestor(DindInd(k), 2);
    assert Ancestor(p, 1) == Ancestor(DindInd(k), 1) && Ancestor(p, 0) == Ancestor(DindInd(k), 0);
  }

  lemma PathToDir(sh: Shape, i: nat, s: nat, offset: seq<nat>, noffset: seq<nat>)
    requires i < 2 && |offset| == 4 == |noffset|
    requires offset[0] == NODE_DIR1_BLOCK + i && offset[1] == s && noffset[0] == 0 && noffset[1] == 1 + i
    ensures IsPath(sh, Dir(i), s, offset, noffset)
  {
    assert Ancestor(Dir(i), 1) == Dir(i) && Ancestor(Dir(i), 0) == Ancestor(Root, 0) == Root;
  }

  /** Where an index below the double indirect node lies. */
  lemma DindDivision(sh: Shape, b: nat) returns (k: nat, l: nat, s: nat)
    requires sh.Valid() && b < sh.DindSpan()
    ensures k < sh.nids && l < sh.nids && s < sh.perBlock && b == k * sh.IndSpan() + l * sh.perBlock + s
    ensures sh.IndSpan() > 0 && b / sh.IndSpan() == k
  {
    DindSpanIs(sh);
    k, l, s := Split(sh, b, sh.nids);
  }

  lemma DindSpanIs(sh: Shape)
    ensures sh.DindSpan() == sh.nids * sh.IndSpan()
  {
  }

  lemma Split(sh: Shape, b: nat, n: nat) returns (q: nat, k: nat, s: nat)
    requires sh.Valid() && b < n * sh.IndSpan()
    ensures q < n && k < sh.nids && s < sh.perBlock && b == q * sh.IndSpan() + k * sh.perBlock + s
    ensures sh.IndSpan() > 0 && b / sh.IndSpan() == q
  {
    SplitIndex(sh, b, n);
    var r := b % sh.IndSpan();
    q, k, s := b / sh.IndSpan(), r / sh.perBlock, r % sh.perBlock;
  }

  /** Dividing in one step, or level by level. */
  lemma TwoLevels(a: nat, n: nat, k: nat, l: nat, s: nat)
    requires l < n && s < a
    ensures var b := k * (a * n) + l * a + s; (b / a) % n == l && b % a == s
  {
    RankProduct(a, n, 0, k, l);
    DivIs(k * (a * n) + l * a + s, a, k * n + l, s);
    DivIs(k * n + l, n, k, l);
  }

  lemma IndDivision(sh: Shape, b: nat)
    requires sh.Valid() && b < sh.IndSpan()
    ensures b / sh.perBlock < sh.nids && b == b / sh.perBlock * sh.perBlock + b % sh.perBlock
  {
    DivBound(b, sh.perBlock, sh.nids);
  }

  /**
    get_node_path: the way to the slot of a page index. A negative level stands for
    the BUG() the source runs into beyond the last index of the tree.
   */
  method GetNodePath(sh: Shape, index: nat, offset: array<nat>, noffset: array<nat>) returns (level: int, ghost p: Pos)
    requires sh.Valid() && offset.Length == 4 == noffset.Length && offset != noffset
    modifies offset, noffset
    ensures level >= 0 <==> index < sh.Capacity()
    ensures level >= 0 ==>
              && p == LeafAt(sh, index) && level == Depth(p)
              && IsPath(sh, p, index - Start(sh, p), offset[..], noffset[..])
  {
    var directBlks, dptrsPerBlk := sh.perBlock, sh.nids;
    var indirectBlks := sh.perBlock * sh.nids;
    var dindirectBlks := indirectBlks * sh.nids;
    var block := index;
    p := Root;
    noffset[0] := 0;
    if block < sh.perInode {
      offset[0] := block;
      return 0, Root;
    }
    block := block - sh.perInode;
    if block < directBlks {
      offset[0], noffset[1], offset[1] := NODE_DIR1_BLOCK, 1, block;
      PathToDir(sh, 0, block, offset[..], noffset[..]);
      LeafIsUnique(sh, Dir(0), block);
      return 1, Dir(0);
    }
    block := block - directBlks;
    if block < directBlks {
      offset[0], noffset[1], offset[1] := NODE_DIR2_BLOCK, 2, block;
      PathToDir(sh, 1, block, offset[..], noffset[..]);
      LeafIsUnique(sh, Dir(1), block);
      return 1, Dir(1);
    }
    block := block - directBlks;
    if block < indirectBlks {
      IndDivision(sh, block);
      offset[0], noffset[1] := NODE_IND1_BLOCK, 3;
      offset[1] := block / directBlks;
      noffset[2] := 4 + offset[1];
      offset[2] := block % directBlks;
      PathBelowInd(sh, 0, block / directBlks, block % directBlks, offset[..], noffset[..]);
      LeafIsUnique(sh, IndLeaf(0, block / directBlks), block % directBlks);
      return 2, IndLeaf(0, block / directBlks);
    }
    block := block - indirectBlks;
    if block < indirectBlks {
      IndDivision(sh, block);
      offset[0], noffset[1] := NODE_IND2_BLOCK, 4 + dptrsPerBlk;
      offset[1] := block / directBlks;
      noffset[2] := 5 + dptrsPerBlk + offset[1];
      offset[2] := block % directBlks;
      PathBelowInd(sh, 1, block / directBlks, block % directBlks, offset[..], noffset[..]);
      LeafIsUnique(sh, IndLeaf(1, block / directBlks), block % directBlks);
      return 2, IndLeaf(1, block / directBlks);
    }
    block := block - indirectBlks;
    if block < dindirectBlks {
      level, p := DindPath(sh, block, offset, noffset);
      return;
    }
    return -1, Root;
  }

  /** The double indirect case of get_node_path. */
  method DindPath(sh: Shape, block: nat, offset: array<nat>, noffset: array<nat>) returns (level: int, ghost p: Pos)
    requires sh.Valid() && offset.Length == 4 == noffset.Length && offset != noffset && noffset[0] == 0
    requires block < sh.DindSpan()
    modifies offset, noffset
    ensures var index := Start(sh, Dind) + block;
            && index < sh.Capacity() && p == LeafAt(sh, index) && level == 3 == Depth(p)
            && IsPath(sh, p, index - Start(sh, p), offset[..], noffset[..])
  {
    var directBlks, dptrsPerBlk := sh.perBlock, sh.nids;
    var indirectBlks := sh.perBlock * sh.nids;
    ghost var k, l, s := DindDivision(sh, block);
    TwoLevels(directBlks, dptrsPerBlk, k, l, s);
    offset[0], noffset[1] := NODE_DIND_BLOCK, 5 + dptrsPerBlk * 2;
    offset[1] := block / indirectBlks;
    noffset[2] := 6 + dptrsPerBlk * 2 + offset[1] * (dptrsPerBlk + 1);
    offset[2] := (block / directBlks) % dptrsPerBlk;
    noffset[3] := 7 + dptrsPerBlk * 2 + offset[1] * (dptrsPerBlk + 1) + offset[2];
    offset[3] := block % directBlks;
    p := DindLeaf(k, l);
    PathBelowDind(sh, k, l, s, offset[..], noffset[..]);
    LeafIsUnique(sh, p, s);
    level := 3;
  }
}
