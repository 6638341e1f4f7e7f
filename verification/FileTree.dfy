/**
  The node tree of a file as stored: nodes found by node id, each holding data
  addresses or the ids of its children. Lookup, and truncation as node.c and
  file.c do it in place, proved to cut the tree exactly.
 */
module FileTree {
  import opened Addressing

  /** NULL_ADDR: a slot that holds no block. */
  const NULL_ADDR: nat := 0
  /** NEW_ADDR: reserved, but not written yet. */
  const NEW_ADDR: nat := 0xFFFF_FFFF

  /** A node; pos is the place in the tree that its footer records. */
  datatype Node = Node(pos: Pos, addrs: seq<nat>, nids: seq<nat>)

  predicate NodeOk(sh: Shape, n: Node) {
    PosOk(sh, n.pos) && |n.addrs| == Slots(sh, n.pos) && |n.nids| == Fanout(sh, n.pos)
  }

  ghost predicate NodesOk(sh: Shape, nodes: map<nat, Node>) {
    forall n :: n in nodes ==> NodeOk(sh, nodes[n])
  }

  /** Every node id in a node leads to the node it should. */
  ghost predicate Linked(sh: Shape, nodes: map<nat, Node>, n: nat, i: nat)
    requires NodesOk(sh, nodes) && n in nodes && i < |nodes[n].nids|
  {
    var c := nodes[n].nids[i];
    c != 0 ==> c in nodes && nodes[c].pos == Child(sh, nodes[n].pos, i)
  }

  /** A node other than the inode is where its parent says. */
  ghost predicate Owned(sh: Shape, nodes: map<nat, Node>, n: nat)
    requires NodesOk(sh, nodes) && n in nodes
  {
    var p := nodes[n].pos;
    !p.Root? && exists m :: m in nodes && nodes[m].pos == Parent(p) && SlotOf(p) < |nodes[m].nids| && nodes[m].nids[SlotOf(p)] == n
  }

  /** No pointer dangles, no node is lost, no two nodes stand in one place. */
  ghost predicate TreeOk(sh: Shape, ino: nat, nodes: map<nat, Node>) {
    && sh.Valid() && NodesOk(sh, nodes)
    && ino != 0 && 0 !in nodes && ino in nodes && nodes[ino].pos == Root
    && (forall n, i: nat :: n in nodes && i < |nodes[n].nids| ==> Linked(sh, nodes, n, i))
    && (forall m, n :: m in nodes && n in nodes && nodes[m].pos == nodes[n].pos ==> m == n)
    && (forall n {:trigger Owned(sh, nodes, n)} :: n in nodes && n != ino ==> Owned(sh, nodes, n))
  }

  // ------------------------------------------------------- lookup

  /** The id of the node at p, following node ids from the inode; 0 when there is none. */
  function Find(ino: nat, nodes: map<nat, Node>, p: Pos): nat
    decreases Depth(p)
  {
    if p.Root? then ino
    else
      var m := Find(ino, nodes, Parent(p));
      if m in nodes && SlotOf(p) < |nodes[m].nids| then nodes[m].nids[SlotOf(p)] else 0
  }

  lemma {:induction false} FindIs(sh: Shape, ino: nat, nodes: map<nat, Node>, p: Pos)
    requires TreeOk(sh, ino, nodes) && PosOk(sh, p)
    ensures var n := Find(ino, nodes, p); n != 0 ==> n in nodes && nodes[n].pos == p
    decreases Depth(p)
  {
    if !p.Root? {
      ParentChild(sh, p);
      FindIs(sh, ino, nodes, Parent(p));
      var m := Find(ino, nodes, Parent(p));
      if m in nodes { assert Linked(sh, nodes, m, SlotOf(p)); }
    }
  }

  lemma {:induction false} FindFinds(sh: Shape, ino: nat, nodes: map<nat, Node>, n: nat)
    requires TreeOk(sh, ino, nodes) && n in nodes
    ensures Find(ino, nodes, nodes[n].pos) == n
    decreases Depth(nodes[n].pos)
  {
    var p := nodes[n].pos;
    if n != ino {
      assert Owned(sh, nodes, n);
      var m :| m in nodes && nodes[m].pos == Parent(p) && SlotOf(p) < |nodes[m].nids| && nodes[m].nids[SlotOf(p)] == n;
      FindFinds(sh, ino, nodes, m);
    }
  }

  /** The block address of a page index: that of its slot, NULL_ADDR when a node on the way is missing. */
  function Lookup(sh: Shape, ino: nat, nodes: map<nat, Node>, index: nat): nat
    requires sh.Valid() && index < sh.Capacity()
  {
    var p := LeafAt(sh, index);
    var n := Find(ino, nodes, p);
    if n in nodes && Start(sh, p) <= index < Start(sh, p) + |nodes[n].addrs|
    then nodes[n].addrs[index - Start(sh, p)] else NULL_ADDR
  }

  // ------------------------------------------------------- sets of places

  /** q is p or lies below it. */
  predicate IsUnder(q: Pos, p: Pos) {
    || q == p
    || p.Root?
    || (p.Ind? && q.IndLeaf? && q.j == p.j)
    || (p.Dind? && (q.DindInd? || q.DindLeaf?))
    || (p.DindInd? && q.DindLeaf? && q.k == p.k)
  }

  /** Through which child of p one gets to q. */
  function Branch(q: Pos, p: Pos): nat {
    match q
    case Root => 0
    case Dir(i) => i
    case Ind(j) => 2 + j
    case IndLeaf(j, k) => if p.Root? then 2 + j else k
    case Dind => 4
    case DindInd(k) => if p.Root? then 4 else k
    case DindLeaf(k, l) => if p.Root? then 4 else if p.Dind? then k else l
  }

  ghost function Under(p: Pos): iset<Pos> { iset q: Pos | IsUnder(q, p) }

  /** What lies below p through its children from lo up to hi. */
  ghost function Below(p: Pos, lo: nat, hi: nat): iset<Pos> {
    iset q: Pos | q != p && IsUnder(q, p) && lo <= Branch(q, p) < hi
  }

  lemma BelowStep(sh: Shape, p: Pos, lo: nat, i: nat)
    requires PosOk(sh, p) && lo <= i < Fanout(sh, p)
    ensures forall q :: PosOk(sh, q) ==> (q in Below(p, lo, i + 1) <==> q in Below(p, lo, i) || q in Under(Child(sh, p, i)))
  {
  }

  /** Everything below q is in x when q is. */
  ghost predicate Closed(sh: Shape, x: iset<Pos>) {
    Root !in x && forall q :: PosOk(sh, q) && !q.Root? && Parent(q) in x ==> q in x
  }

  // ------------------------------------------------------- removing places from a tree

  ghost predicate NidsTrimmed(sh: Shape, pos: Pos, a: seq<nat>, b: seq<nat>, z: iset<Pos>)
    requires |a| == Fanout(sh, pos)
  {
    |b| == |a| && forall i: nat :: i < |a| ==> b[i] == if Child(sh, pos, i) in z then 0 else a[i]
  }

  /** b is a without the nodes at places in x, and with the node ids that lead to places in z cleared. */
  ghost predicate Trimmed(sh: Shape, a: map<nat, Node>, b: map<nat, Node>, x: iset<Pos>, z: iset<Pos>) {
    && NodesOk(sh, a)
    && (forall n :: n in b <==> n in a && a[n].pos !in x)
    && forall n :: n in b ==>
         b[n].pos == a[n].pos && b[n].addrs == a[n].addrs && NidsTrimmed(sh, a[n].pos, a[n].nids, b[n].nids, z)
  }

  lemma TrimmedOwned(sh: Shape, ino: nat, a: map<nat, Node>, b: map<nat, Node>, x: iset<Pos>, n: nat)
    requires TreeOk(sh, ino, a) && Trimmed(sh, a, b, x, x) && Closed(sh, x) && NodesOk(sh, b)
    requires n in b && n != ino
    ensures Owned(sh, b, n)
  {
    var p := a[n].pos;
    assert Owned(sh, a, n);
    var m :| m in a && a[m].pos == Parent(p) && SlotOf(p) < |a[m].nids| && a[m].nids[SlotOf(p)] == n;
    ParentChild(sh, p);
    assert m in b;
  }

  /** Removing a set of places closed downwards leaves a tree. */
  lemma TrimmedOk(sh: Shape, ino: nat, a: map<nat, Node>, b: map<nat, Node>, x: iset<Pos>)
    requires TreeOk(sh, ino, a) && Trimmed(sh, a, b, x, x) && Closed(sh, x)
    ensures TreeOk(sh, ino, b)
  {
    assert NodesOk(sh, b);
    forall n, i: nat | n in b && i < |b[n].nids| ensures Linked(sh, b, n, i) {
      assert Linked(sh, a, n, i);
    }
    forall n | n in b && n != ino ensures Owned(sh, b, n) {
      TrimmedOwned(sh, ino, a, b, x, n);
    }
  }

  lemma TrimmedTwice(sh: Shape, a: map<nat, Node>, b: map<nat, Node>, c: map<nat, Node>, x: iset<Pos>, y: iset<Pos>, w: iset<Pos>)
    requires Trimmed(sh, a, b, x, x) && Trimmed(sh, b, c, y, y)
    requires forall q :: PosOk(sh, q) ==> (q in w <==> q in x || q in y)
    ensures Trimmed(sh, a, c, w, w)
  {
    forall n | n in c ensures NidsTrimmed(sh, a[n].pos, a[n].nids, c[n].nids, w) {
      forall i: nat | i < |a[n].nids| ensures c[n].nids[i] == if Child(sh, a[n].pos, i) in w then 0 else a[n].nids[i] {
        ChildParent(sh, a[n].pos, i);
      }
    }
  }

  // ------------------------------------------------------- accounting

  /** Slots that hold a block. */
  function Used(addrs: seq<nat>): nat {
    if addrs == [] then 0 else Used(addrs[..|addrs| - 1]) + if addrs[|addrs| - 1] == NULL_ADDR then 0 else 1
  }

  function Cost(n: Node): nat { 1 + Used(n.addrs) }

  /** Blocks taken by the nodes with ids below k: each node and each data block it holds. */
  function Charge(nodes: map<nat, Node>, k: nat): nat {
    if k == 0 then 0 else Charge(nodes, k - 1) + if k - 1 in nodes then Cost(nodes[k - 1]) else 0
  }

  /** The slots of nodes with ids below k that hold something. */
  function UsedSlots(nodes: map<nat, Node>, k: nat): set<(nat, int)> {
    set n, i | n in nodes && n < k && 0 <= i < |nodes[n].addrs| && nodes[n].addrs[i] != NULL_ADDR :: (n, i)
  }

  function NodesBelow(nodes: map<nat, Node>, k: nat): set<nat> { set n | n in nodes && n < k }

  lemma {:induction false} UsedIs(n: nat, addrs: seq<nat>)
    ensures Used(addrs) == |set i | 0 <= i < |addrs| && addrs[i] != NULL_ADDR :: (n, i)|
  {
    var last := |addrs| - 1;
    if addrs != [] {
      UsedIs(n, addrs[..last]);
      var a := set i | 0 <= i < last && addrs[..last][i] != NULL_ADDR :: (n, i);
      var b := set i | 0 <= i < |addrs| && addrs[i] != NULL_ADDR :: (n, i);
      assert b == if addrs[last] != NULL_ADDR then a + {(n, last)} else a;
    }
  }

  /** The charge is what i_blocks counts: the nodes, and the slots that hold something. */
  lemma {:induction false} ChargeIs(nodes: map<nat, Node>, k: nat)
    ensures Charge(nodes, k) == |NodesBelow(nodes, k)| + |UsedSlots(nodes, k)|
  {
    if k > 0 {
      var n: nat := k - 1;
      ChargeIs(nodes, n);
      if n in nodes {
        UsedIs(n, nodes[n].addrs);
        var own := set i | 0 <= i < |nodes[n].addrs| && nodes[n].addrs[i] != NULL_ADDR :: (n, i);
        assert NodesBelow(nodes, k) == NodesBelow(nodes, n) + {n};
        assert UsedSlots(nodes, k) == UsedSlots(nodes, n) + own && UsedSlots(nodes, n) !! own;
      } else {
        assert NodesBelow(nodes, k) == NodesBelow(nodes, n) && UsedSlots(nodes, k) == UsedSlots(nodes, n);
      }
    } else {
      assert NodesBelow(nodes, k) == {} && UsedSlots(nodes, k) == {};
    }
  }

  lemma {:induction false} UsedUpdate(addrs: seq<nat>, i: nat, v: nat)
    requires i < |addrs|
    ensures Used(addrs[i := v]) == Used(addrs) - (if addrs[i] == NULL_ADDR then 0 else 1) + if v == NULL_ADDR then 0 else 1
  {
    var last := |addrs| - 1;
    if i == last {
      assert addrs[i := v][..last] == addrs[..last];
    } else {
      assert addrs[i := v][..last] == addrs[..last][i := v];
      UsedUpdate(addrs[..last], i, v);
    }
  }

  lemma {:induction false} UsedNone(addrs: seq<nat>)
    requires forall i :: 0 <= i < |addrs| ==> addrs[i] == NULL_ADDR
    ensures Used(addrs) == 0
  {
    if addrs != [] { UsedNone(addrs[..|addrs| - 1]); }
  }

  lemma {:induction false} UsedZero(addrs: seq<nat>)
    requires Used(addrs) == 0
    ensures forall i :: 0 <= i < |addrs| ==> addrs[i] == NULL_ADDR
  {
    if addrs != [] {
      UsedZero(addrs[..|addrs| - 1]);
      assert forall i :: 0 <= i < |addrs| - 1 ==> addrs[i] == addrs[..|addrs| - 1][i];
    }
  }

  lemma {:induction false} ChargeUpdate(nodes: map<nat, Node>, nid: nat, n: Node, k: nat)
    requires nid in nodes
    ensures Charge(nodes[nid := n], k) == Charge(nodes, k) + if nid < k then Cost(n) - Cost(nodes[nid]) else 0
  {
    if k > 0 { ChargeUpdate(nodes, nid, n, k - 1); }
  }

  lemma {:induction false} ChargeRemove(nodes: map<nat, Node>, nid: nat, k: nat)
    requires nid in nodes
    ensures Charge(nodes - {nid}, k) == Charge(nodes, k) - if nid < k then Cost(nodes[nid]) else 0
  {
    if k > 0 { ChargeRemove(nodes, nid, k - 1); }
  }

  // ------------------------------------------------------- one node less

  /** Clearing the one pointer to a removed node restores the tree without that node and what was below it. */
  lemma Unlinked(sh: Shape, ino: nat, a: map<nat, Node>, b: map<nat, Node>, c: map<nat, Node>,
                 x: iset<Pos>, y: iset<Pos>, m: nat, i: nat)
    requires TreeOk(sh, ino, a) && m in a && i < |a[m].nids| && Trimmed(sh, a, b, x, y) && m in b
    requires var p := Child(sh, a[m].pos, i); forall q :: PosOk(sh, q) ==> (q in x <==> q in y || q == p)
    requires c == b[m := b[m].(nids := b[m].nids[i := 0])]
    ensures Trimmed(sh, a, c, x, x)
  {
    var p := Child(sh, a[m].pos, i);
    forall n | n in c ensures NidsTrimmed(sh, a[n].pos, a[n].nids, c[n].nids, x) {
      if n == m {
        UnlinkedNids(sh, a[m].pos, a[m].nids, b[m].nids, x, y, i);
      } else {
        NotUnlinkedNids(sh, a[n].pos, a[n].nids, b[n].nids, x, y, a[m].pos, i);
      }
    }
  }

  lemma UnlinkedNids(sh: Shape, pos: Pos, a: seq<nat>, b: seq<nat>, x: iset<Pos>, y: iset<Pos>, i: nat)
    requires PosOk(sh, pos) && |a| == Fanout(sh, pos) && i < |a| && NidsTrimmed(sh, pos, a, b, y)
    requires forall q :: PosOk(sh, q) ==> (q in x <==> q in y || q == Child(sh, pos, i))
    ensures NidsTrimmed(sh, pos, a, b[i := 0], x)
  {
    forall j: nat | j < |a| ensures b[i := 0][j] == if Child(sh, pos, j) in x then 0 else a[j] {
      ChildParent(sh, pos, j);
      ChildParent(sh, pos, i);
    }
  }

  lemma NotUnlinkedNids(sh: Shape, pos: Pos, a: seq<nat>, b: seq<nat>, x: iset<Pos>, y: iset<Pos>, other: Pos, i: nat)
    requires PosOk(sh, pos) && |a| == Fanout(sh, pos) && NidsTrimmed(sh, pos, a, b, y)
    requires pos != other && i < Fanout(sh, other)
    requires forall q :: PosOk(sh, q) ==> (q in x <==> q in y || q == Child(sh, other, i))
    ensures NidsTrimmed(sh, pos, a, b, x)
  {
    forall j: nat | j < |a| ensures b[j] == if Child(sh, pos, j) in x then 0 else a[j] {
      ChildParent(sh, pos, j);
      ChildParent(sh, other, i);
    }
  }

  /** Below a pointer that is 0 there is no node. */
  lemma {:induction false} NobodyUnder(sh: Shape, ino: nat, nodes: map<nat, Node>, m: nat, i: nat, n: nat)
    requires TreeOk(sh, ino, nodes) && m in nodes && i < |nodes[m].nids| && nodes[m].nids[i] == 0 && n in nodes
    ensures !IsUnder(nodes[n].pos, Child(sh, nodes[m].pos, i))
    decreases Depth(nodes[n].pos)
  {
    var p, c := nodes[n].pos, Child(sh, nodes[m].pos, i);
    ChildParent(sh, nodes[m].pos, i);
    if IsUnder(p, c) {
      assert Owned(sh, nodes, n);
      var o :| o in nodes && nodes[o].pos == Parent(p) && SlotOf(p) < |nodes[o].nids| && nodes[o].nids[SlotOf(p)] == n;
      if p != c { NobodyUnder(sh, ino, nodes, m, i, o); }
    }
  }

  lemma NothingToTrim(sh: Shape, ino: nat, nodes: map<nat, Node>, m: nat, i: nat)
    requires TreeOk(sh, ino, nodes) && m in nodes && i < |nodes[m].nids| && nodes[m].nids[i] == 0
    ensures var x := Under(Child(sh, nodes[m].pos, i)); Trimmed(sh, nodes, nodes, x, x)
  {
    var x := Under(Child(sh, nodes[m].pos, i));
    forall n | n in nodes ensures nodes[n].pos !in x { NobodyUnder(sh, ino, nodes, m, i, n); }
    forall n | n in nodes ensures NidsTrimmed(sh, nodes[n].pos, nodes[n].nids, nodes[n].nids, x) {
      forall j: nat | j < |nodes[n].nids| && Child(sh, nodes[n].pos, j) in x ensures nodes[n].nids[j] == 0 {
        assert Linked(sh, nodes, n, j);
      }
    }
  }

  /** The node at p goes, on top of x. */
  lemma TopRemoved(sh: Shape, ino: nat, a: map<nat, Node>, b: map<nat, Node>, c: map<nat, Node>,
                   x: iset<Pos>, y: iset<Pos>, n: nat)
    requires TreeOk(sh, ino, a) && Trimmed(sh, a, b, x, x) && n in b && c == b - {n}
    requires forall q :: PosOk(sh, q) ==> (q in y <==> q in x || q == a[n].pos)
    ensures Trimmed(sh, a, c, y, x)
  {
  }

  ghost predicate IsIndirect(p: Pos) { p.Ind? || p.Dind? || p.DindInd? }

  lemma UnderClosed(sh: Shape, p: Pos)
    requires PosOk(sh, p) && !p.Root?
    ensures Closed(sh, Under(p))
  {
  }

  /** One more child subtree is gone. */
  lemma ChildRemoved(sh: Shape, a: map<nat, Node>, b: map<nat, Node>, c: map<nat, Node>, p: Pos, lo: nat, i: nat)
    requires PosOk(sh, p) && lo <= i < Fanout(sh, p) && Trimmed(sh, a, b, Below(p, lo, i), Below(p, lo, i))
    requires var x := Under(Child(sh, p, i)); Trimmed(sh, b, c, x, x)
    ensures Trimmed(sh, a, c, Below(p, lo, i + 1), Below(p, lo, i + 1))
  {
    BelowStep(sh, p, lo, i);
    TrimmedTwice(sh, a, b, c, Below(p, lo, i), Under(Child(sh, p, i)), Below(p, lo, i + 1));
  }

  /** A subtree below the node m is gone; the rest is a tree that still has m. */
  lemma SubtreeRemoved(sh: Shape, ino: nat, a: map<nat, Node>, c: map<nat, Node>, m: nat, i: nat)
    requires TreeOk(sh, ino, a) && m in a && i < Fanout(sh, a[m].pos)
    requires var x := Under(Child(sh, a[m].pos, i)); Trimmed(sh, a, c, x, x)
    ensures TreeOk(sh, ino, c) && m in c && c[m].pos == a[m].pos
  {
    ChildParent(sh, a[m].pos, i);
    UnderClosed(sh, Child(sh, a[m].pos, i));
    TrimmedOk(sh, ino, a, c, Under(Child(sh, a[m].pos, i)));
  }

  lemma NothingRemoved(sh: Shape, ino: nat, a: map<nat, Node>, p: Pos, lo: nat)
    requires TreeOk(sh, ino, a)
    ensures Trimmed(sh, a, a, Below(p, lo, lo), Below(p, lo, lo))
  {
  }

  /** A leaf is removed and its pointer cleared. */
  lemma LeafRemoved(sh: Shape, ino: nat, a: map<nat, Node>, c: map<nat, Node>, m: nat, i: nat)
    requires TreeOk(sh, ino, a) && m in a && i < |a[m].nids| && a[m].nids[i] != 0 && a[m].nids[i] != m
    requires var p := Child(sh, a[m].pos, i); IsLeaf(p) && !p.Root?
    requires c == (a - {a[m].nids[i]})[m := a[m].(nids := a[m].nids[i := 0])]
    ensures var x := Under(Child(sh, a[m].pos, i)); Trimmed(sh, a, c, x, x)
  {
    var p, n := Child(sh, a[m].pos, i), a[m].nids[i];
    assert Linked(sh, a, m, i);
    LeafGone(sh, ino, a, n);
    Unlinked(sh, ino, a, a - {n}, c, Under(p), iset{}, m, i);
  }

  lemma LeafGone(sh: Shape, ino: nat, a: map<nat, Node>, n: nat)
    requires TreeOk(sh, ino, a) && n in a && IsLeaf(a[n].pos) && !a[n].pos.Root?
    ensures Trimmed(sh, a, a - {n}, Under(a[n].pos), iset{})
  {
  }

  /** Following one more node id. */
  lemma FindChild(sh: Shape, ino: nat, nodes: map<nat, Node>, m: nat, i: nat)
    requires TreeOk(sh, ino, nodes) && m in nodes && i < Fanout(sh, nodes[m].pos)
    ensures |nodes[m].nids| == Fanout(sh, nodes[m].pos) && Find(ino, nodes, Child(sh, nodes[m].pos, i)) == nodes[m].nids[i]
    ensures nodes[m].nids[i] != 0 ==>
              nodes[m].nids[i] in nodes && nodes[nodes[m].nids[i]].pos == Child(sh, nodes[m].pos, i)
    ensures nodes[m].nids[i] == 0 ==> forall c: Pos :: !c.Root? && Parent(c) == Child(sh, nodes[m].pos, i) ==> Find(ino, nodes, c) == 0
  {
    assert NodeOk(sh, nodes[m]) && Linked(sh, nodes, m, i);
    ChildParent(sh, nodes[m].pos, i);
    FindFinds(sh, ino, nodes, m);
  }

  /** What truncate_nodes removes: the children from ofs on, and the node itself when nothing is left. */
  ghost function Doomed(sh: Shape, p: Pos, ofs: nat): iset<Pos> {
    if ofs == 0 then Under(p) else Below(p, ofs, Fanout(sh, p))
  }

  lemma DoomedClosed(sh: Shape, p: Pos, ofs: nat)
    requires PosOk(sh, p) && !p.Root?
    ensures Closed(sh, Doomed(sh, p, ofs))
  {
  }

  /** Removing a child node with all below it, and then the pointer to it. */
  lemma NodeUnlinked(sh: Shape, ino: nat, a: map<nat, Node>, b: map<nat, Node>, c: map<nat, Node>, m: nat, i: nat)
    requires TreeOk(sh, ino, a) && m in a && i < |a[m].nids| && m in b
    requires var p := Child(sh, a[m].pos, i); Trimmed(sh, a, b, Under(p), Below(p, 0, Fanout(sh, p)))
    requires c == b[m := b[m].(nids := b[m].nids[i := 0])]
    ensures var x := Under(Child(sh, a[m].pos, i)); Trimmed(sh, a, c, x, x)
  {
    var p := Child(sh, a[m].pos, i);
    ChildParent(sh, a[m].pos, i);
    UnderSplit(sh, p);
    Unlinked(sh, ino, a, b, c, Under(p), Below(p, 0, Fanout(sh, p)), m, i);
  }

  lemma UnderSplit(sh: Shape, p: Pos)
    requires PosOk(sh, p) && !p.Root?
    ensures forall q :: PosOk(sh, q) ==> (q in Under(p) <==> q in Below(p, 0, Fanout(sh, p)) || q == p)
  {
  }

  /** The rest is still a tree after a node's subtree, or the end of it, is gone. */
  lemma DoomedRemoved(sh: Shape, ino: nat, a: map<nat, Node>, c: map<nat, Node>, p: Pos, ofs: nat)
    requires TreeOk(sh, ino, a) && PosOk(sh, p) && !p.Root?
    requires Trimmed(sh, a, c, Doomed(sh, p, ofs), Doomed(sh, p, ofs))
    ensures TreeOk(sh, ino, c) && ino in c && c[ino].pos == Root
  {
    DoomedClosed(sh, p, ofs);
    TrimmedOk(sh, ino, a, c, Doomed(sh, p, ofs));
  }

  lemma EndOfNothing(sh: Shape, ino: nat, nodes: map<nat, Node>, i: nat, ofs: nat)
    requires TreeOk(sh, ino, nodes) && i < |nodes[ino].nids| && nodes[ino].nids[i] == 0
    ensures var x := Doomed(sh, Child(sh, Root, i), ofs); Trimmed(sh, nodes, nodes, x, x)
  {
    NothingToTrim(sh, ino, nodes, ino, i);
    LessOfNothing(sh, nodes, Under(Child(sh, Root, i)), Doomed(sh, Child(sh, Root, i), ofs));
  }

  lemma LessOfNothing(sh: Shape, nodes: map<nat, Node>, x: iset<Pos>, y: iset<Pos>)
    requires Trimmed(sh, nodes, nodes, x, x) && forall q :: q in y ==> q in x
    ensures Trimmed(sh, nodes, nodes, y, y)
  {
    forall n | n in nodes ensures NidsTrimmed(sh, nodes[n].pos, nodes[n].nids, nodes[n].nids, y) {
      assert NidsTrimmed(sh, nodes[n].pos, nodes[n].nids, nodes[n].nids, x);
    }
  }

  // ------------------------------------------------------- where a truncation cuts

  /** The topmost missing node on the way to p, or p itself. */
  function CutPos(ino: nat, nodes: map<nat, Node>, p: Pos): (c: Pos)
    ensures p.Root? == c.Root?
    decreases Depth(p)
  {
    if Depth(p) <= 1 then p
    else
      var c := CutPos(ino, nodes, Parent(p));
      if Find(ino, nodes, c) == 0 then c else p
  }

  lemma {:induction false} MissingUnder(sh: Shape, ino: nat, nodes: map<nat, Node>, c: Pos, n: nat)
    requires TreeOk(sh, ino, nodes) && n in nodes && PosOk(sh, c) && Find(ino, nodes, c) == 0
    ensures !IsUnder(nodes[n].pos, c)
    decreases Depth(nodes[n].pos)
  {
    var p := nodes[n].pos;
    FindFinds(sh, ino, nodes, n);
    if n != ino {
      assert Owned(sh, nodes, n);
      var o :| o in nodes && nodes[o].pos == Parent(p) && SlotOf(p) < |nodes[o].nids| && nodes[o].nids[SlotOf(p)] == n;
      MissingUnder(sh, ino, nodes, c, o);
    }
  }

  /** Places in index order: first the child of the inode, then the one below, then the last. */
  function Key2(p: Pos): nat {
    match p
    case IndLeaf(_, k) => k
    case DindInd(k) => k
    case DindLeaf(k, _) => k
    case _ => 0
  }

  function Key3(p: Pos): nat { if p.DindLeaf? then p.l else 0 }

  predicate Before(p: Pos, q: Pos) {
    || Branch(p, Root) < Branch(q, Root)
    || (Branch(p, Root) == Branch(q, Root) && (Key2(p) < Key2(q) || (Key2(p) == Key2(q) && Key3(p) < Key3(q))))
  }

  lemma StartIsOrdered(sh: Shape, p: Pos, q: Pos)
    requires sh.Valid() && PosOk(sh, p) && PosOk(sh, q) && !p.Root? && !q.Root?
    ensures Before(p, q) <==> Start(sh, p) < Start(sh, q)
  {
    StartIsMonotone(sh, p, q);
    StartIsMonotone(sh, q, p);
  }

  /** Start as a function of the keys: a base for the inode's child, and strides below it. */
  function Base(sh: Shape, slot: nat): nat {
    if slot < 2 then sh.perInode + slot * sh.perBlock else sh.perInode + 2 * sh.perBlock + (slot - 2) * sh.IndSpan()
  }

  function Stride(sh: Shape, slot: nat): nat { if slot < 4 then sh.perBlock else sh.IndSpan() }

  lemma StartFromKeys(sh: Shape, p: Pos)
    requires PosOk(sh, p) && !p.Root?
    ensures Start(sh, p) == Base(sh, Branch(p, Root)) + Key2(p) * Stride(sh, Branch(p, Root)) + Key3(p) * sh.perBlock
    ensures Branch(p, Root) < 5 && Key2(p) < sh.nids + 1 && Key3(p) < sh.nids + 1
  {
  }

  lemma OrderFromKeys(x: nat, y: nat, b: nat, s: nat, a: nat, k: nat, l: nat, k': nat, l': nat)
    requires x == b + k * s + l * a && y == b + k' * s + l' * a && a > 0 && l * a < s
    ensures k < k' || (k == k' && l < l') ==> x < y
    ensures k == k' && l == l' ==> x == y
  {
    MulMono(s, k, k');
    MulMono(a, l, l');
    assert l' * a >= 0;
  }

  lemma SameBranchOrder(sh: Shape, p: Pos, q: Pos)
    requires sh.Valid() && PosOk(sh, p) && PosOk(sh, q) && !p.Root? && !q.Root? && Branch(p, Root) == Branch(q, Root)
    ensures Before(p, q) ==> Start(sh, p) < Start(sh, q)
    ensures !Before(p, q) && !Before(q, p) ==> Start(sh, p) == Start(sh, q)
  {
    StartFromKeys(sh, p);
    StartFromKeys(sh, q);
    Key3Fits(sh, p);
    OrderFromKeys(Start(sh, p), Start(sh, q), Base(sh, Branch(p, Root)), Stride(sh, Branch(p, Root)), sh.perBlock,
                  Key2(p), Key3(p), Key2(q), Key3(q));
  }

  lemma StartIsMonotone(sh: Shape, p: Pos, q: Pos)
    requires sh.Valid() && PosOk(sh, p) && PosOk(sh, q) && !p.Root? && !q.Root?
    ensures Before(p, q) ==> Start(sh, p) < Start(sh, q)
    ensures !Before(p, q) && !Before(q, p) ==> Start(sh, p) == Start(sh, q)
  {
    if Branch(p, Root) == Branch(q, Root) {
      SameBranchOrder(sh, p, q);
    } else if Before(p, q) {
      StartFromKeys(sh, q);
      EndsBefore(sh, p, Branch(q, Root));
      AtLeast(Start(sh, q), Base(sh, Branch(q, Root)), Key2(q), Stride(sh, Branch(q, Root)), Key3(q), sh.perBlock);
    }
  }

  lemma AtLeast(x: nat, b: nat, k: nat, s: nat, l: nat, a: nat)
    requires x == b + k * s + l * a
    ensures x >= b
  {
  }

  lemma Key3Fits(sh: Shape, p: Pos)
    requires sh.Valid() && PosOk(sh, p) && !p.Root?
    ensures Key3(p) * sh.perBlock < Stride(sh, Branch(p, Root))
  {
    if p.DindLeaf? {
      MulMono(sh.perBlock, p.l, sh.nids);
      assert sh.nids * sh.perBlock == sh.IndSpan();
    } else {
      SpansPositive(sh);
    }
  }

  lemma EndsBefore(sh: Shape, p: Pos, slot: nat)
    requires sh.Valid() && PosOk(sh, p) && !p.Root? && Branch(p, Root) < slot < 5
    ensures Start(sh, p) < Base(sh, slot)
  {
    StartFromKeys(sh, p);
    SpansPositive(sh);
    if p.IndLeaf? {
      MulMono(sh.perBlock, p.k, sh.nids);
      assert sh.nids * sh.perBlock == sh.IndSpan();
    }
  }

  // ------------------------------------------------------- truncation in place

  /** All places from slot s1 of the inode up to slot s; in slot s1 only what goes from child o1 on. */
  ghost function RootDoomed(sh: Shape, s1: nat, o1: nat, s: nat): iset<Pos>
    requires s1 < 5
  {
    iset q: Pos | !q.Root? && s1 <= Branch(q, Root) < s
                  && (Branch(q, Root) == s1 ==> q in Doomed(sh, Child(sh, Root, s1), o1))
  }

  lemma RootDoomedStep(sh: Shape, s1: nat, o1: nat, s: nat)
    requires s1 <= s < 5
    ensures forall q :: PosOk(sh, q) ==>
              (q in RootDoomed(sh, s1, o1, s + 1) <==>
                 q in RootDoomed(sh, s1, o1, s) || q in Doomed(sh, Child(sh, Root, s), if s == s1 then o1 else 0))
  {
  }

  /** One more slot of the inode is done. */
  lemma SlotRemoved(sh: Shape, a: map<nat, Node>, b: map<nat, Node>, c: map<nat, Node>, s1: nat, o1: nat, s: nat)
    requires s1 <= s < 5 && Trimmed(sh, a, b, RootDoomed(sh, s1, o1, s), RootDoomed(sh, s1, o1, s))
    requires var x := Doomed(sh, Child(sh, Root, s), if s == s1 then o1 else 0); Trimmed(sh, b, c, x, x)
    ensures Trimmed(sh, a, c, RootDoomed(sh, s1, o1, s + 1), RootDoomed(sh, s1, o1, s + 1))
  {
    RootDoomedStep(sh, s1, o1, s);
    TrimmedTwice(sh, a, b, c, RootDoomed(sh, s1, o1, s), Doomed(sh, Child(sh, Root, s), if s == s1 then o1 else 0),
                 RootDoomed(sh, s1, o1, s + 1));
  }

  lemma NothingDoomed(sh: Shape, a: map<nat, Node>, s1: nat, o1: nat)
    requires NodesOk(sh, a) && s1 < 5
    ensures Trimmed(sh, a, a, RootDoomed(sh, s1, o1, s1), RootDoomed(sh, s1, o1, s1))
  {
  }

  /** What truncate_partial_nodes removes on the way to leaf. */
  ghost function PartlyRemoved(sh: Shape, leaf: Pos): iset<Pos>
    requires !leaf.Root?
  {
    if leaf.Dir? || SlotOf(leaf) == 0 then iset{} else Below(Parent(leaf), SlotOf(leaf), sh.nids)
  }

  /** Where the loop of truncate_inode_blocks starts: a slot of the inode. past says that truncate_partial_nodes found its node. */
  function RestSlot(leaf: Pos, past: bool): nat {
    match leaf
    case Dir(i) => i
    case IndLeaf(j, k) => if k != 0 && past then 3 + j else 2 + j
    case DindLeaf(_, _) => 4
    case _ => 0
  }

  /** And a child of that slot. */
  function RestOfs(leaf: Pos, past: bool, s: nat): nat {
    match leaf
    case Dir(_) => s
    case IndLeaf(j, k) => if k != 0 && past then 0 else k
    case DindLeaf(k, l) => if l != 0 && past then k + 1 else k
    case _ => 0
  }

  /** What truncate_inode_blocks removes when the path leads to slot s of leaf. */
  ghost function Removed(sh: Shape, leaf: Pos, past: bool, s: nat): iset<Pos>
    requires PosOk(sh, leaf) && !leaf.Root?
  {
    PartlyRemoved(sh, leaf) + RootDoomed(sh, RestSlot(leaf, past), RestOfs(leaf, past, s), 5)
  }

  /** The offsets of get_node_path for slot s of leaf. */
  ghost predicate PathOf(leaf: Pos, s: nat, ofs: seq<nat>) {
    && |ofs| == 4
    && match leaf
       case Dir(i) => ofs[0] == NODE_DIR1_BLOCK + i && ofs[1] == s
       case IndLeaf(j, k) => ofs[0] == NODE_IND1_BLOCK + j && ofs[1] == k && ofs[2] == s
       case DindLeaf(k, l) => ofs[0] == NODE_DIND_BLOCK && ofs[1] == k && ofs[2] == l && ofs[3] == s
       case _ => ofs[0] == s
  }

  lemma PathParts(sh: Shape, leaf: Pos, s: nat, ofs: seq<nat>)
    requires PosOk(sh, leaf) && IsLeaf(leaf) && !leaf.Root? && PathOf(leaf, s, ofs)
    ensures Depth(leaf) >= 2 ==>
              ofs[Depth(leaf) - 1] == SlotOf(leaf) && IsPartial(Parent(leaf), ofs[0], ofs[1], Depth(leaf))
    ensures Depth(leaf) < 2 || SlotOf(leaf) == 0 ==>
              forall past :: ofs[0] == NODE_DIR1_BLOCK + RestSlot(leaf, past) && ofs[1] == RestOfs(leaf, past, s)
  {
  }

  lemma PastParts(leaf: Pos, s: nat, ofs: seq<nat>, past: bool)
    requires IsLeaf(leaf) && Depth(leaf) >= 2 && SlotOf(leaf) != 0 && PathOf(leaf, s, ofs)
    ensures var ofs' := PastPartial(ofs, Depth(leaf), past);
            ofs'[0] == NODE_DIR1_BLOCK + RestSlot(leaf, past) && ofs'[1] == RestOfs(leaf, past, s)
  {
  }

  lemma PathOfLeaf(sh: Shape, leaf: Pos, s: nat, ofs: seq<nat>, nofs: seq<nat>)
    requires IsLeaf(leaf) && |ofs| == 4 && IsPath(sh, leaf, s, ofs, nofs)
    ensures PathOf(leaf, s, ofs)
  {
    match leaf
    case Root => assert Ancestor(leaf, 0) == Root;
    case Dir(i) => assert Ancestor(leaf, 1) == leaf;
    case IndLeaf(j, k) =>
      assert Ancestor(leaf, 2) == leaf && Ancestor(Ind(j), 1) == Ind(j) && Ancestor(leaf, 1) == Ancestor(Ind(j), 1);
    case DindLeaf(k, l) =>
      assert Ancestor(Dind, 1) == Dind && Ancestor(DindInd(k), 2) == DindInd(k);
      assert Ancestor(DindInd(k), 1) == Ancestor(Dind, 1);
      assert Ancestor(leaf, 3) == leaf && Ancestor(leaf, 2) == Ancestor(DindInd(k), 2);
      assert Ancestor(leaf, 1) == Ancestor(DindInd(k), 1);
  }

  lemma RemovedFromDir(sh: Shape, i: nat, s: nat, q: Pos, past: bool)
    requires i < 2 && PosOk(sh, q) && !q.Root? && (s > 0 ==> !IsUnder(q, Dir(i)))
    ensures q in Removed(sh, Dir(i), past, s) <==> !Before(q, Dir(i))
  {
  }

  lemma RemovedFromInd(sh: Shape, j: nat, k: nat, s: nat, q: Pos, c: Pos, past: bool)
    requires j < 2 && k < sh.nids && PosOk(sh, q) && !q.Root?
    requires c == if past then IndLeaf(j, k) else Ind(j)
    requires !past ==> !IsUnder(q, Ind(j))
    ensures q in Removed(sh, IndLeaf(j, k), past, s) <==> !Before(q, c)
  {
  }

  lemma RemovedFromDind(sh: Shape, k: nat, l: nat, s: nat, q: Pos, c: Pos, past: bool)
    requires k < sh.nids && l < sh.nids && PosOk(sh, q) && !q.Root?
    requires if past then c == DindLeaf(k, l) else (c == Dind || c == DindInd(k)) && !IsUnder(q, c)
    ensures q in Removed(sh, DindLeaf(k, l), past, s) <==> !Before(q, c)
  {
  }

  lemma RemovedByKind(sh: Shape, leaf: Pos, s: nat, q: Pos, c: Pos, past: bool)
    requires PosOk(sh, leaf) && IsLeaf(leaf) && !leaf.Root? && PosOk(sh, q) && !q.Root? && IsUnder(leaf, c)
    requires if past then c == leaf else (c == leaf ==> leaf.Dir?) && !c.Root? && PosOk(sh, c)
    requires !past && c != leaf ==> !IsUnder(q, c)
    requires leaf.Dir? && s > 0 ==> !IsUnder(q, leaf)
    ensures q in Removed(sh, leaf, past, s) <==> !Before(q, c)
  {
    match leaf
    case Dir(i) => RemovedFromDir(sh, i, s, q, past);
    case IndLeaf(j, k) => RemovedFromInd(sh, j, k, s, q, c, past);
    case DindLeaf(k, l) => RemovedFromDind(sh, k, l, s, q, c, past);
  }

  lemma RemovedBeforeCut(sh: Shape, ino: nat, a: map<nat, Node>, leaf: Pos, s: nat, n: nat, c: Pos, past: bool)
    requires TreeOk(sh, ino, a) && PosOk(sh, leaf) && IsLeaf(leaf) && !leaf.Root? && n in a && n != ino
    requires s > 0 && leaf.Dir? ==> Find(ino, a, leaf) == 0
    requires c == CutPos(ino, a, leaf) && past == (Find(ino, a, Parent(leaf)) != 0)
    ensures PosOk(sh, c) && !c.Root? && PosOk(sh, a[n].pos) && !a[n].pos.Root?
    ensures a[n].pos in Removed(sh, leaf, past, s) <==> !Before(a[n].pos, c)
  {
    assert NodeOk(sh, a[n]) && Owned(sh, a, n);
    CutPosIs(sh, ino, a, leaf);
    if Find(ino, a, c) == 0 { MissingUnder(sh, ino, a, c, n); }
    RemovedByKind(sh, leaf, s, a[n].pos, c, past);
  }

  /** Of the nodes there are, exactly those that start at the cut or after it are removed. */
  lemma RemovedFromCut(sh: Shape, ino: nat, a: map<nat, Node>, leaf: Pos, s: nat, n: nat)
    requires TreeOk(sh, ino, a) && PosOk(sh, leaf) && IsLeaf(leaf) && !leaf.Root? && n in a && n != ino
    requires s > 0 && leaf.Dir? ==> Find(ino, a, leaf) == 0
    ensures a[n].pos in Removed(sh, leaf, Find(ino, a, Parent(leaf)) != 0, s)
       <==> Start(sh, a[n].pos) >= Start(sh, CutPos(ino, a, leaf))
  {
    var c := CutPos(ino, a, leaf);
    RemovedBeforeCut(sh, ino, a, leaf, s, n, c, Find(ino, a, Parent(leaf)) != 0);
    StartIsOrdered(sh, a[n].pos, c);
  }

  /** The cut is the leaf itself if its parent is there; otherwise it is a missing place above it. */
  lemma CutPosIs(sh: Shape, ino: nat, a: map<nat, Node>, leaf: Pos)
    requires TreeOk(sh, ino, a) && PosOk(sh, leaf) && IsLeaf(leaf) && !leaf.Root?
    ensures var c := CutPos(ino, a, leaf);
            && PosOk(sh, c) && IsUnder(leaf, c)
            && (Find(ino, a, Parent(leaf)) != 0 ==> c == leaf)
            && (Find(ino, a, Parent(leaf)) == 0 ==> Find(ino, a, c) == 0 && c != leaf)
  {
    var p := Parent(leaf);
    ParentChild(sh, leaf);
    if leaf.IndLeaf? {
      assert CutPos(ino, a, p) == p;
    } else if leaf.DindLeaf? {
      assert CutPos(ino, a, Dind) == Dind;
      assert Find(ino, a, Dind) == 0 ==> Find(ino, a, p) == 0;
    }
  }

  /** A set of places may be replaced by one that holds the same nodes. */
  lemma TrimmedSame(sh: Shape, ino: nat, a: map<nat, Node>, b: map<nat, Node>, x: iset<Pos>, y: iset<Pos>)
    requires TreeOk(sh, ino, a) && Trimmed(sh, a, b, x, x)
    requires forall n :: n in a ==> (a[n].pos in x <==> a[n].pos in y)
    ensures Trimmed(sh, a, b, y, y)
  {
    forall n | n in b ensures NidsTrimmed(sh, a[n].pos, a[n].nids, b[n].nids, y) {
      forall i: nat | i < |a[n].nids| ensures b[n].nids[i] == if Child(sh, a[n].pos, i) in y then 0 else a[n].nids[i] {
        assert Linked(sh, a, n, i);
      }
    }
  }

  lemma NothingTrimmed(sh: Shape, a: map<nat, Node>)
    requires NodesOk(sh, a)
    ensures Trimmed(sh, a, a, iset{}, iset{})
  {
  }

  /** Both parts of truncate_inode_blocks together cut at the start of the topmost missing place, or of the leaf. */
  lemma CutDone(sh: Shape, ino: nat, a: map<nat, Node>, b: map<nat, Node>, c: map<nat, Node>, leaf: Pos, s: nat)
    requires TreeOk(sh, ino, a) && PosOk(sh, leaf) && IsLeaf(leaf) && !leaf.Root?
    requires s > 0 && leaf.Dir? ==> Find(ino, a, leaf) == 0
    requires Trimmed(sh, a, b, PartlyRemoved(sh, leaf), PartlyRemoved(sh, leaf))
    requires var past := Find(ino, a, Parent(leaf)) != 0;
             var x := RootDoomed(sh, RestSlot(leaf, past), RestOfs(leaf, past, s), 5); Trimmed(sh, b, c, x, x)
    ensures var e := Start(sh, CutPos(ino, a, leaf)); Trimmed(sh, a, c, From(sh, e), From(sh, e))
  {
    var past := Find(ino, a, Parent(leaf)) != 0;
    var e := Start(sh, CutPos(ino, a, leaf));
    TrimmedTwice(sh, a, b, c, PartlyRemoved(sh, leaf), RootDoomed(sh, RestSlot(leaf, past), RestOfs(leaf, past, s), 5),
                 Removed(sh, leaf, past, s));
    forall n | n in a ensures a[n].pos in Removed(sh, leaf, past, s) <==> a[n].pos in From(sh, e) {
      if n != ino { RemovedFromCut(sh, ino, a, leaf, s, n); assert Owned(sh, a, n); }
    }
    TrimmedSame(sh, ino, a, c, Removed(sh, leaf, past, s), From(sh, e));
  }

  /** Places that start at page index e or after it. */
  ghost function From(sh: Shape, e: nat): iset<Pos> {
    iset q: Pos | !q.Root? && Start(sh, q) >= e
  }

  // ------------------------------------------------------- what a truncation means for page indices

  /** Changing data addresses of one node leaves the tree as it is. */
  ghost predicate SameTree(a: map<nat, Node>, b: map<nat, Node>) {
    a.Keys == b.Keys && forall n :: n in a ==> b[n].pos == a[n].pos && b[n].nids == a[n].nids && |b[n].addrs| == |a[n].addrs|
  }

  lemma SameTreeOk(sh: Shape, ino: nat, a: map<nat, Node>, b: map<nat, Node>)
    requires TreeOk(sh, ino, a) && SameTree(a, b)
    ensures TreeOk(sh, ino, b)
  {
    forall n, i: nat | n in b && i < |b[n].nids| ensures Linked(sh, b, n, i) { assert Linked(sh, a, n, i); }
    forall n | n in b && n != ino ensures Owned(sh, b, n) {
      assert Owned(sh, a, n);
      var p := a[n].pos;
      var m :| m in a && a[m].pos == Parent(p) && SlotOf(p) < |a[m].nids| && a[m].nids[SlotOf(p)] == n;
      assert m in b;
    }
  }

  lemma {:induction false} SameTreeFind(ino: nat, a: map<nat, Node>, b: map<nat, Node>, p: Pos)
    requires SameTree(a, b)
    ensures Find(ino, a, p) == Find(ino, b, p)
    decreases Depth(p)
  {
    if !p.Root? { SameTreeFind(ino, a, b, Parent(p)); }
  }

  /** A lookup reads the slot of the node that stands where the index belongs. */
  lemma LookupIs(sh: Shape, ino: nat, nodes: map<nat, Node>, index: nat, n: nat)
    requires TreeOk(sh, ino, nodes) && index < sh.Capacity() && n in nodes && nodes[n].pos == LeafAt(sh, index)
    ensures Start(sh, LeafAt(sh, index)) <= index < Start(sh, LeafAt(sh, index)) + |nodes[n].addrs|
    ensures Lookup(sh, ino, nodes, index) == nodes[n].addrs[index - Start(sh, LeafAt(sh, index))]
  {
    LeafHolds(sh, index);
    FindFinds(sh, ino, nodes, n);
    assert NodeOk(sh, nodes[n]);
  }

  lemma LookupNone(sh: Shape, ino: nat, nodes: map<nat, Node>, index: nat)
    requires TreeOk(sh, ino, nodes) && index < sh.Capacity() && forall n :: n in nodes ==> nodes[n].pos != LeafAt(sh, index)
    ensures Lookup(sh, ino, nodes, index) == NULL_ADDR
  {
    LeafHolds(sh, index);
    FindIs(sh, ino, nodes, LeafAt(sh, index));
  }

  /** Leaves are disjoint ranges: one that reaches beyond an index of another starts after it. */
  lemma LeavesInOrder(sh: Shape, p: Pos, q: Pos, f: nat, i: nat)
    requires sh.Valid() && PosOk(sh, p) && IsLeaf(p) && PosOk(sh, q) && IsLeaf(q) && p != q
    requires Start(sh, p) <= f < Start(sh, p) + Slots(sh, p) && Start(sh, q) <= i < Start(sh, q) + Slots(sh, q) && f <= i
    ensures Start(sh, q) >= Start(sh, p) + Slots(sh, p)
  {
    if Start(sh, q) < Start(sh, p) + Slots(sh, p) {
      if Start(sh, p) <= Start(sh, q) {
        LeafIsUnique(sh, p, Start(sh, q) - Start(sh, p));
        LeafIsUnique(sh, q, 0);
      } else {
        LeafIsUnique(sh, p, f - Start(sh, p));
        LeafIsUnique(sh, q, f - Start(sh, q));
      }
      assert false;
    }
  }

  /** Where the tree is cut when page indices from f on go. */
  function CutAt(sh: Shape, ino: nat, nodes: map<nat, Node>, f: nat): nat
    requires sh.Valid() && f < sh.Capacity()
  {
    Start(sh, CutPos(ino, nodes, LeafAt(sh, f)))
  }

  lemma CutPosStart(sh: Shape, ino: nat, nodes: map<nat, Node>, leaf: Pos)
    requires TreeOk(sh, ino, nodes) && PosOk(sh, leaf) && IsLeaf(leaf) && !leaf.Root?
    ensures Start(sh, CutPos(ino, nodes, leaf)) <= Start(sh, leaf)
  {
    CutPosIs(sh, ino, nodes, leaf);
    NotAfterAncestor(sh, leaf, CutPos(ino, nodes, leaf));
  }

  lemma NotAfterAncestor(sh: Shape, q: Pos, c: Pos)
    requires sh.Valid() && PosOk(sh, q) && PosOk(sh, c) && !q.Root? && !c.Root? && IsUnder(q, c)
    ensures Start(sh, c) <= Start(sh, q)
  {
    StartIsOrdered(sh, q, c);
  }

  lemma BeyondMissing(sh: Shape, q: Pos, c: Pos, leaf: Pos)
    requires PosOk(sh, q) && PosOk(sh, c) && PosOk(sh, leaf) && IsLeaf(q) && IsLeaf(leaf)
    requires !q.Root? && !c.Root? && !leaf.Root? && IsUnder(leaf, c) && !IsUnder(q, c) && !Before(q, c)
    ensures Before(leaf, q)
  {
  }

  /** A leaf that exists and does not start before the cut lies beyond f. */
  lemma RemovedLeafIsBeyond(sh: Shape, ino: nat, nodes: map<nat, Node>, f: nat, n: nat)
    requires TreeOk(sh, ino, nodes) && sh.perInode <= f < sh.Capacity()
    requires Find(ino, nodes, LeafAt(sh, f)) != 0 ==> f == Start(sh, LeafAt(sh, f))
    requires n in nodes && n != ino && IsLeaf(nodes[n].pos) && Start(sh, nodes[n].pos) >= CutAt(sh, ino, nodes, f)
    ensures Start(sh, nodes[n].pos) >= f
  {
    var q, leaf := nodes[n].pos, LeafAt(sh, f);
    var c := CutPos(ino, nodes, leaf);
    LeafHolds(sh, f);
    assert NodeOk(sh, nodes[n]) && Owned(sh, nodes, n);
    CutPosIs(sh, ino, nodes, leaf);
    StartIsOrdered(sh, q, c);
    FindFinds(sh, ino, nodes, n);
    if q != leaf {
      if c != leaf {
        MissingUnder(sh, ino, nodes, c, n);
        BeyondMissing(sh, q, c, leaf);
        StartIsOrdered(sh, leaf, q);
      }
      LeavesInOrder(sh, leaf, q, Start(sh, leaf), Start(sh, q));
    }
  }

  lemma FromClosed(sh: Shape, e: nat)
    requires sh.Valid()
    ensures Closed(sh, From(sh, e))
  {
    forall q | PosOk(sh, q) && !q.Root? && Parent(q) in From(sh, e) ensures q in From(sh, e) {
      ParentChild(sh, q);
      NotAfterAncestor(sh, q, Parent(q));
    }
  }

  lemma NextLeafStart(sh: Shape, p: Pos)
    requires sh.Valid() && PosOk(sh, p) && IsLeaf(p) && Start(sh, p) + Slots(sh, p) < sh.Capacity()
    ensures Start(sh, LeafAt(sh, Start(sh, p) + Slots(sh, p))) == Start(sh, p) + Slots(sh, p)
  {
    var end := Start(sh, p) + Slots(sh, p);
    LeafHolds(sh, end);
    LeavesInOrder(sh, p, LeafAt(sh, end), Start(sh, p), end);
  }

  function CutAddrs(addrs: seq<nat>, k: nat): (r: seq<nat>)
    ensures |r| == |addrs|
  {
    seq(|addrs|, i requires 0 <= i < |addrs| => if i < k then addrs[i] else NULL_ADDR)
  }

  /** Whether truncate_blocks clears the end of the leaf that holds index f, and where it goes on. */
  predicate ClearsPart(sh: Shape, ino: nat, nodes: map<nat, Node>, f: nat)
    requires sh.Valid() && f < sh.Capacity()
  {
    var leaf := LeafAt(sh, f);
    Find(ino, nodes, leaf) in nodes && (f != Start(sh, leaf) || leaf.Root?)
  }

  function GoesOnAt(sh: Shape, ino: nat, nodes: map<nat, Node>, f: nat): nat
    requires sh.Valid() && f < sh.Capacity()
  {
    var leaf := LeafAt(sh, f);
    if ClearsPart(sh, ino, nodes, f) then Start(sh, leaf) + Slots(sh, leaf) else f
  }

  function PartCleared(sh: Shape, ino: nat, nodes: map<nat, Node>, f: nat): map<nat, Node>
    requires sh.Valid() && f < sh.Capacity() && Start(sh, LeafAt(sh, f)) <= f
  {
    var leaf := LeafAt(sh, f);
    var n := Find(ino, nodes, leaf);
    if ClearsPart(sh, ino, nodes, f) then nodes[n := nodes[n].(addrs := CutAddrs(nodes[n].addrs, f - Start(sh, leaf)))] else nodes
  }

  lemma GoesOnAtLeafStart(sh: Shape, ino: nat, nodes: map<nat, Node>, f: nat)
    requires TreeOk(sh, ino, nodes) && f < sh.Capacity() && GoesOnAt(sh, ino, nodes, f) < sh.Capacity()
    ensures var f' := GoesOnAt(sh, ino, nodes, f);
            && sh.perInode <= f'
            && (Find(ino, nodes, LeafAt(sh, f')) != 0 ==> f' == Start(sh, LeafAt(sh, f')))
  {
    var leaf := LeafAt(sh, f);
    LeafHolds(sh, f);
    FindIs(sh, ino, nodes, leaf);
    if ClearsPart(sh, ino, nodes, f) {
      NextLeafStart(sh, leaf);
      if !leaf.Root? { LeafMultiple(sh, leaf); }
    } else {
      assert Find(ino, nodes, Root) == ino;
    }
  }

  /** The tree after truncate_blocks, given the tree before: c is PartCleared(a) without what starts at the cut or later. */
  ghost predicate Truncated(sh: Shape, ino: nat, a: map<nat, Node>, c: map<nat, Node>, f: nat)
    requires sh.Valid() && f < sh.Capacity() && Start(sh, LeafAt(sh, f)) <= f
  {
    var b, f' := PartCleared(sh, ino, a, f), GoesOnAt(sh, ino, a, f);
    f' < sh.Capacity() && var e := CutAt(sh, ino, b, f'); Trimmed(sh, b, c, From(sh, e), From(sh, e))
  }

  lemma PartClearedTree(sh: Shape, ino: nat, a: map<nat, Node>, f: nat)
    requires TreeOk(sh, ino, a) && f < sh.Capacity()
    ensures Start(sh, LeafAt(sh, f)) <= f
    ensures var b := PartCleared(sh, ino, a, f); SameTree(a, b) && TreeOk(sh, ino, b)
  {
    LeafHolds(sh, f);
    SameTreeOk(sh, ino, a, PartCleared(sh, ino, a, f));
  }

  /** A node that is left and holds index i at or beyond f is the one whose end was cleared. */
  lemma KeptLeafIsCut(sh: Shape, ino: nat, a: map<nat, Node>, b: map<nat, Node>, f: nat, n: nat, i: nat)
    requires TreeOk(sh, ino, a) && f <= i < sh.Capacity() && GoesOnAt(sh, ino, a, f) < sh.Capacity()
    requires TreeOk(sh, ino, b) && SameTree(a, b)
    requires n in a && a[n].pos == LeafAt(sh, i)
    requires n == ino || Start(sh, a[n].pos) < CutAt(sh, ino, b, GoesOnAt(sh, ino, a, f))
    ensures ClearsPart(sh, ino, a, f) && Find(ino, a, LeafAt(sh, f)) == n
  {
    var q, leaf, f' := a[n].pos, LeafAt(sh, f), GoesOnAt(sh, ino, a, f);
    LeafHolds(sh, i);
    LeafHolds(sh, f);
    LeafHolds(sh, f');
    FindFinds(sh, ino, a, n);
    GoesOnAtLeafStart(sh, ino, a, f);
    CutPosStart(sh, ino, b, LeafAt(sh, f'));
    SameTreeFind(ino, a, b, leaf);
    if q != leaf {
      LeavesInOrder(sh, leaf, q, f, i);
    } else if !ClearsPart(sh, ino, a, f) {
      CutAtLeaf(sh, ino, b, f);
    }
  }

  /** The cut is at f when the leaf there exists. */
  lemma CutAtLeaf(sh: Shape, ino: nat, nodes: map<nat, Node>, f: nat)
    requires TreeOk(sh, ino, nodes) && f < sh.Capacity()
    requires var leaf := LeafAt(sh, f); !leaf.Root? && Find(ino, nodes, leaf) != 0
    ensures CutAt(sh, ino, nodes, f) == Start(sh, LeafAt(sh, f))
  {
    LeafHolds(sh, f);
    var leaf := LeafAt(sh, f);
    CutPosIs(sh, ino, nodes, leaf);
    FindIs(sh, ino, nodes, leaf);
    assert Owned(sh, nodes, Find(ino, nodes, leaf));
  }

  lemma TruncatedTree(sh: Shape, ino: nat, a: map<nat, Node>, c: map<nat, Node>, f: nat)
    requires TreeOk(sh, ino, a) && f < sh.Capacity() && Start(sh, LeafAt(sh, f)) <= f && Truncated(sh, ino, a, c, f)
    ensures TreeOk(sh, ino, c)
  {
    var b := PartCleared(sh, ino, a, f);
    PartClearedTree(sh, ino, a, f);
    var e := CutAt(sh, ino, b, GoesOnAt(sh, ino, a, f));
    FromClosed(sh, e);
    TrimmedOk(sh, ino, b, c, From(sh, e));
  }

  lemma RemovedIndex(sh: Shape, ino: nat, a: map<nat, Node>, c: map<nat, Node>, f: nat, i: nat, n: nat)
    requires TreeOk(sh, ino, a) && f < sh.Capacity() && Start(sh, LeafAt(sh, f)) <= f && Truncated(sh, ino, a, c, f)
    requires i < sh.Capacity() && n in a && a[n].pos == LeafAt(sh, i) && n !in c
    ensures i >= f
  {
    var b, f' := PartCleared(sh, ino, a, f), GoesOnAt(sh, ino, a, f);
    PartClearedTree(sh, ino, a, f);
    GoesOnAtLeafStart(sh, ino, a, f);
    SameTreeFind(ino, a, b, LeafAt(sh, f'));
    LeafHolds(sh, i);
    LeafHolds(sh, f);
    RemovedLeafIsBeyond(sh, ino, b, f', n);
  }

  lemma ClearedAddrs(sh: Shape, ino: nat, a: map<nat, Node>, f: nat, n: nat)
    requires TreeOk(sh, ino, a) && f < sh.Capacity() && Start(sh, LeafAt(sh, f)) <= f && n in a
    ensures n in PartCleared(sh, ino, a, f)
    ensures var addrs, leaf := PartCleared(sh, ino, a, f)[n].addrs, LeafAt(sh, f);
            if ClearsPart(sh, ino, a, f) && a[n].pos == leaf then addrs == CutAddrs(a[n].addrs, f - Start(sh, leaf))
            else addrs == a[n].addrs
  {
    FindFinds(sh, ino, a, n);
    LeafHolds(sh, f);
    FindIs(sh, ino, a, LeafAt(sh, f));
  }

  lemma KeptPlace(sh: Shape, ino: nat, a: map<nat, Node>, c: map<nat, Node>, f: nat, i: nat, n: nat)
    requires TreeOk(sh, ino, a) && f <= i < sh.Capacity() && Start(sh, LeafAt(sh, f)) <= f && Truncated(sh, ino, a, c, f)
    requires n in a && a[n].pos == LeafAt(sh, i) && n in c
    ensures ClearsPart(sh, ino, a, f) && a[n].pos == LeafAt(sh, f)
  {
    var b := PartCleared(sh, ino, a, f);
    PartClearedTree(sh, ino, a, f);
    KeptLeafIsCut(sh, ino, a, b, f, n, i);
    LeafHolds(sh, f);
    FindIs(sh, ino, a, LeafAt(sh, f));
  }

  /** A node that is left stands where it did, and holds what it did but for what is cut off. */
  lemma KeptNode(sh: Shape, ino: nat, a: map<nat, Node>, c: map<nat, Node>, f: nat, n: nat)
    requires TreeOk(sh, ino, a) && f < sh.Capacity() && Start(sh, LeafAt(sh, f)) <= f && Truncated(sh, ino, a, c, f)
    requires n in a && n in c
    ensures c[n].pos == a[n].pos
    ensures var leaf := LeafAt(sh, f);
            c[n].addrs == if ClearsPart(sh, ino, a, f) && a[n].pos == leaf then CutAddrs(a[n].addrs, f - Start(sh, leaf)) else a[n].addrs
  {
    ClearedAddrs(sh, ino, a, f, n);
    var b := PartCleared(sh, ino, a, f);
    assert c[n].pos == b[n].pos && c[n].addrs == b[n].addrs;
  }

  lemma KeptAddr(sh: Shape, ino: nat, a: map<nat, Node>, c: map<nat, Node>, f: nat, i: nat, n: nat)
    requires TreeOk(sh, ino, a) && f < sh.Capacity() && Start(sh, LeafAt(sh, f)) <= f && Truncated(sh, ino, a, c, f)
    requires i < sh.Capacity() && n in a && a[n].pos == LeafAt(sh, i) && n in c
    ensures var k := i - Start(sh, LeafAt(sh, i));
            0 <= k < |a[n].addrs| == |c[n].addrs| && c[n].addrs[k] == if i < f then a[n].addrs[k] else NULL_ADDR
  {
    LookupIs(sh, ino, a, i, n);
    KeptNode(sh, ino, a, c, f, n);
    if f <= i { KeptPlace(sh, ino, a, c, f, i, n); }
  }

  lemma KeptIndex(sh: Shape, ino: nat, a: map<nat, Node>, c: map<nat, Node>, f: nat, i: nat, n: nat)
    requires TreeOk(sh, ino, a) && f < sh.Capacity() && Start(sh, LeafAt(sh, f)) <= f && Truncated(sh, ino, a, c, f)
    requires i < sh.Capacity() && n in a && a[n].pos == LeafAt(sh, i) && n in c && TreeOk(sh, ino, c)
    ensures Lookup(sh, ino, c, i) == if i < f then Lookup(sh, ino, a, i) else NULL_ADDR
  {
    KeptAddr(sh, ino, a, c, f, i, n);
    KeptNode(sh, ino, a, c, f, n);
    LookupIs(sh, ino, a, i, n);
    LookupIs(sh, ino, c, i, n);
  }

  /** Truncation is exact: below f every page index maps as before, from f on none maps to anything. */
  lemma TruncationIsExact(sh: Shape, ino: nat, a: map<nat, Node>, c: map<nat, Node>, f: nat, i: nat)
    requires TreeOk(sh, ino, a) && f < sh.Capacity() && Start(sh, LeafAt(sh, f)) <= f && Truncated(sh, ino, a, c, f)
    requires i < sh.Capacity()
    ensures TreeOk(sh, ino, c)
    ensures Lookup(sh, ino, c, i) == if i < f then Lookup(sh, ino, a, i) else NULL_ADDR
  {
    TruncatedTree(sh, ino, a, c, f);
    LeafHolds(sh, i);
    var n := Find(ino, a, LeafAt(sh, i));
    FindIs(sh, ino, a, LeafAt(sh, i));
    if n == 0 {
      forall m | m in a ensures a[m].pos != LeafAt(sh, i) { FindFinds(sh, ino, a, m); }
      LookupNone(sh, ino, a, i);
      LookupNone(sh, ino, c, i);
    } else if n in c {
      KeptIndex(sh, ino, a, c, f, i, n);
    } else {
      RemovedIndex(sh, ino, a, c, f, i, n);
      LookupNone(sh, ino, c, i);
    }
  }

  /** p is the indirect node on the path given by get_node_path's offsets. */
  ghost predicate IsPartial(p: Pos, ofs0: nat, ofs1: nat, depth: nat) {
    if depth == 2 then NODE_IND1_BLOCK <= ofs0 <= NODE_IND2_BLOCK && p == Ind(ofs0 - NODE_IND1_BLOCK)
    else depth == 3 && ofs0 == NODE_DIND_BLOCK && p == DindInd(ofs1)
  }

  /** The offsets moved past that node, if it was there. */
  function PastPartial(offset: seq<nat>, depth: nat, present: bool): seq<nat>
    requires |offset| == 4 && (depth == 2 || depth == 3)
  {
    if present then offset[depth - 2 := offset[depth - 2] + 1][depth - 1 := 0] else offset
  }

  // ------------------------------------------------------- blocks given back

  /**
    A call of invalidate_blocks: for a data slot, together with the call of
    update_extent_cache for its page, or for a node.
   */
  datatype Call = DataCall(nid: nat, i: nat, fofs: int, addr: nat) | NodeCall(nid: nat, addr: nat)

  /** Nodes go, and slots of those that stay are cleared. */
  ghost predicate Cut(a: map<nat, Node>, c: map<nat, Node>) {
    && (forall n :: n in c ==> n in a && c[n].pos == a[n].pos && |c[n].addrs| == |a[n].addrs|)
    && forall n, i: nat :: n in c && i < |c[n].addrs| ==> c[n].addrs[i] == a[n].addrs[i] || c[n].addrs[i] == NULL_ADDR
  }

  /** Slot i of node n no longer holds what it did. */
  ghost predicate Loses(a: map<nat, Node>, c: map<nat, Node>, n: nat, i: nat) {
    && n in a && i < |a[n].addrs| && a[n].addrs[i] != NULL_ADDR
    && (n in c ==> i < |c[n].addrs| && c[n].addrs[i] == NULL_ADDR)
  }

  /** The call is due for what c has lost of a, and carries the page and the address of the slot, or the address of the node. */
  ghost predicate Due(sh: Shape, a: map<nat, Node>, at: map<nat, nat>, c: map<nat, Node>, k: Call) {
    match k
    case DataCall(n, i, fofs, addr) =>
      Loses(a, c, n, i) && fofs == Start(sh, a[n].pos) + i && addr == a[n].addrs[i]
    case NodeCall(n, addr) => n in a && n !in c && n in at && addr == at[n]
  }

  /** What the node address table answers: removed nodes have no address. */
  ghost predicate AddrsCut(a: map<nat, Node>, at: map<nat, nat>, c: map<nat, Node>, ct: map<nat, nat>) {
    && ct.Keys == at.Keys && (forall n :: n in a ==> n in at)
    && (forall n :: n in at ==> ct[n] == if n in a && n !in c then NULL_ADDR else at[n])
    && forall n :: n in c ==> n in ct && ct[n] != NULL_ADDR
  }

  /** Since the tree was a, exactly the calls that are due have been made, none of them twice. */
  ghost predicate Called(sh: Shape, a: map<nat, Node>, at: map<nat, nat>, c: map<nat, Node>, ct: map<nat, nat>, calls: seq<Call>) {
    && sh.Valid() && NodesOk(sh, a) && Cut(a, c) && AddrsCut(a, at, c, ct)
    && (forall j, k :: 0 <= j < k < |calls| ==> calls[j] != calls[k])
    && forall k :: k in calls <==> Due(sh, a, at, c, k)
  }

  lemma CalledAtFirst(sh: Shape, a: map<nat, Node>, at: map<nat, nat>)
    requires sh.Valid() && NodesOk(sh, a) && forall n :: n in a ==> n in at && at[n] != NULL_ADDR
    ensures Called(sh, a, at, a, at, [])
  {
  }

  lemma CalledForSlot(sh: Shape, a: map<nat, Node>, at: map<nat, nat>, c: map<nat, Node>, ct: map<nat, nat>, calls: seq<Call>,
                      n: nat, i: nat, d: map<nat, Node>, k: Call)
    requires Called(sh, a, at, c, ct, calls) && n in c && i < |c[n].addrs| && c[n].addrs[i] != NULL_ADDR
    requires d == c[n := c[n].(addrs := c[n].addrs[i := NULL_ADDR])]
    requires n in a && k == DataCall(n, i, Start(sh, a[n].pos) + i, c[n].addrs[i])
    ensures Called(sh, a, at, d, ct, calls + [k])
  {
    assert !Due(sh, a, at, c, k) && Due(sh, a, at, d, k);
    forall x ensures x in calls + [k] <==> Due(sh, a, at, d, x) {
      assert x in calls <==> Due(sh, a, at, c, x);
      if x.DataCall? && x.nid == n && x.i == i && Due(sh, a, at, d, x) { assert x == k; }
    }
    assert Cut(a, d);
    assert AddrsCut(a, at, d, ct);
  }

  lemma CalledForNode(sh: Shape, a: map<nat, Node>, at: map<nat, nat>, c: map<nat, Node>, ct: map<nat, nat>, calls: seq<Call>, n: nat, k: Call)
    requires Called(sh, a, at, c, ct, calls) && n in c && forall i :: 0 <= i < |c[n].addrs| ==> c[n].addrs[i] == NULL_ADDR
    requires n in ct && k == NodeCall(n, ct[n])
    ensures Called(sh, a, at, c - {n}, ct[n := NULL_ADDR], calls + [k])
  {
    var d := c - {n};
    assert !Due(sh, a, at, c, k) && Due(sh, a, at, d, k);
    forall x ensures x in calls + [k] <==> Due(sh, a, at, d, x) {
      assert x in calls <==> Due(sh, a, at, c, x);
      if x.NodeCall? && x.nid == n && Due(sh, a, at, d, x) { assert x == k; }
    }
    assert Cut(a, d);
    assert AddrsCut(a, at, d, ct[n := NULL_ADDR]);
  }

  lemma CalledForNid(sh: Shape, a: map<nat, Node>, at: map<nat, nat>, c: map<nat, Node>, ct: map<nat, nat>, calls: seq<Call>,
                     n: nat, d: map<nat, Node>)
    requires Called(sh, a, at, c, ct, calls) && n in c && n in d && d == c[n := c[n].(nids := d[n].nids)]
    ensures Called(sh, a, at, d, ct, calls)
  {
    forall x ensures Due(sh, a, at, d, x) <==> Due(sh, a, at, c, x) { }
    assert Cut(a, d);
    assert AddrsCut(a, at, d, ct);
  }

  // ------------------------------------------------------- nodes added

  /** new_node_page and set_nid: an empty node c below slot i of node m. */
  function Grown(sh: Shape, nodes: map<nat, Node>, m: nat, i: nat, c: nat): map<nat, Node>
    requires m in nodes && i < |nodes[m].nids| && i < Fanout(sh, nodes[m].pos)
  {
    var p := Child(sh, nodes[m].pos, i);
    nodes[m := nodes[m].(nids := nodes[m].nids[i := c])]
         [c := Node(p, seq(Slots(sh, p), _ => NULL_ADDR), seq(Fanout(sh, p), _ => 0))]
  }

  lemma GrownCharge(sh: Shape, a: map<nat, Node>, m: nat, i: nat, c: nat, k: nat)
    requires m in a && i < |a[m].nids| && i < Fanout(sh, a[m].pos) && c !in a && c < k
    ensures var b := Grown(sh, a, m, i, c); Charge(b, k) == Charge(a, k) + 1 && |b| == |a| + 1
  {
    var b: map<nat, Node> := Grown(sh, a, m, i, c);
    var a1: map<nat, Node> := a[m := a[m].(nids := a[m].nids[i := c])];
    ChargeUpdate(a, m, a1[m], k);
    ChargeRemove(b, c, k);
    UsedNone(b[c].addrs);
    assert b - {c} == a1;
    assert a1.Keys == a.Keys && b.Keys == a.Keys + {c};
    assert |a1| == |a1.Keys| && |b| == |b.Keys| && |a| == |a.Keys|;
  }

  /** A slot that is free, and an id that is. */
  ghost predicate CanGrow(sh: Shape, ino: nat, a: map<nat, Node>, m: nat, i: nat, c: nat) {
    TreeOk(sh, ino, a) && m in a && i < |a[m].nids| && i < Fanout(sh, a[m].pos) && a[m].nids[i] == 0 && c !in a && c != 0
  }

  lemma GrownLinks(sh: Shape, ino: nat, a: map<nat, Node>, m: nat, i: nat, c: nat)
    requires CanGrow(sh, ino, a, m, i, c)
    ensures var b := Grown(sh, a, m, i, c);
            && NodesOk(sh, b) && (forall n, j: nat :: n in b && j < |b[n].nids| ==> Linked(sh, b, n, j))
            && forall n :: n in b && n != ino ==> Owned(sh, b, n)
  {
    var b := Grown(sh, a, m, i, c);
    ChildParent(sh, a[m].pos, i);
    forall n | n in b ensures NodeOk(sh, b[n]) { if n != c { assert NodeOk(sh, a[n]); } }
    forall n, j: nat | n in b && j < |b[n].nids| ensures Linked(sh, b, n, j) {
      if n != c { assert Linked(sh, a, n, j); }
    }
    forall n | n in b && n != ino ensures Owned(sh, b, n) {
      if n == c {
        assert b[m].pos == Parent(b[c].pos) && b[m].nids[i] == c;
      } else {
        assert Owned(sh, a, n);
        var o :| o in a && a[o].pos == Parent(a[n].pos) && SlotOf(a[n].pos) < |a[o].nids| && a[o].nids[SlotOf(a[n].pos)] == n;
        assert b[o].pos == Parent(b[n].pos) && b[o].nids[SlotOf(b[n].pos)] == n;
      }
    }
  }

  lemma GrownPlaces(sh: Shape, ino: nat, a: map<nat, Node>, m: nat, i: nat, c: nat)
    requires CanGrow(sh, ino, a, m, i, c)
    ensures var b, p := Grown(sh, a, m, i, c), Child(sh, a[m].pos, i);
            && PosOk(sh, p) && !p.Root? && (forall n :: n in b <==> n in a || n == c) && b[c].pos == p
            && (forall n :: n in a ==> b[n].pos == a[n].pos && b[n].addrs == a[n].addrs && a[n].pos != p)
            && (forall k: nat :: k < |b[c].addrs| ==> b[c].addrs[k] == NULL_ADDR)
            && forall k: nat :: k < |b[c].nids| ==> b[c].nids[k] == 0
  {
    assert NodeOk(sh, a[m]);
    ChildParent(sh, a[m].pos, i);
    forall n | n in a ensures a[n].pos != Child(sh, a[m].pos, i) { NobodyUnder(sh, ino, a, m, i, n); }
    hide TreeOk, Child, PosOk;
  }

  /** The tree with the new node is one. */
  lemma GrownOk(sh: Shape, ino: nat, a: map<nat, Node>, m: nat, i: nat, c: nat)
    requires CanGrow(sh, ino, a, m, i, c)
    ensures TreeOk(sh, ino, Grown(sh, a, m, i, c))
  {
    GrownLinks(sh, ino, a, m, i, c);
    GrownPlaces(sh, ino, a, m, i, c);
    hide Owned, Linked, NodesOk, Grown, Child;
  }

  /** It finds the new node, and the others as before. */
  lemma GrownFind(sh: Shape, ino: nat, a: map<nat, Node>, m: nat, i: nat, c: nat, q: Pos)
    requires CanGrow(sh, ino, a, m, i, c) && PosOk(sh, q)
    ensures Find(ino, Grown(sh, a, m, i, c), q) == if q == Child(sh, a[m].pos, i) then c else Find(ino, a, q)
  {
    var b: map<nat, Node> := Grown(sh, a, m, i, c);
    var n, k := Find(ino, a, q), Find(ino, b, q);
    GrownOk(sh, ino, a, m, i, c);
    GrownPlaces(sh, ino, a, m, i, c);
    assert c != 0 && 0 !in a;
    hide TreeOk, Find, Grown, Child;
    FindIs(sh, ino, a, q);
    FindIs(sh, ino, b, q);
    FindFinds(sh, ino, b, c);
    if n != 0 { FindFinds(sh, ino, b, n); }
    if k != 0 && k != c { FindFinds(sh, ino, a, k); }
  }

  /** Nodes were added that hold nothing yet; pages are mapped as they were. */
  ghost predicate Grew(sh: Shape, ino: nat, a: map<nat, Node>, at: map<nat, nat>, c: map<nat, Node>, ct: map<nat, nat>) {
    && TreeOk(sh, ino, a) && TreeOk(sh, ino, c)
    && (forall n :: n in a ==> n in c && c[n].pos == a[n].pos && c[n].addrs == a[n].addrs)
    && (forall n, i: nat :: n in c && n !in a && i < |c[n].addrs| ==> c[n].addrs[i] == NULL_ADDR)
    && (forall n :: n in at && (n in a || n !in c) ==> n in ct && ct[n] == at[n])
    && (forall n :: n in c && n !in a ==> n in ct && ct[n] == NEW_ADDR)
    && forall j: nat :: j < sh.Capacity() ==> Lookup(sh, ino, c, j) == Lookup(sh, ino, a, j)
  }

  lemma GrownLookup(sh: Shape, ino: nat, a: map<nat, Node>, m: nat, i: nat, c: nat, j: nat)
    requires CanGrow(sh, ino, a, m, i, c) && j < sh.Capacity()
    ensures sh.Valid() && Lookup(sh, ino, Grown(sh, a, m, i, c), j) == Lookup(sh, ino, a, j)
  {
    var q := LeafAt(sh, j);
    LeafHolds(sh, j);
    GrownFind(sh, ino, a, m, i, c, q);
    GrownPlaces(sh, ino, a, m, i, c);
    FindIs(sh, ino, a, q);
    hide TreeOk, Find, Grown, Child, LeafAt, Start;
  }

  lemma GrownGrew(sh: Shape, ino: nat, a: map<nat, Node>, at: map<nat, nat>, m: nat, i: nat, c: nat)
    requires CanGrow(sh, ino, a, m, i, c)
    ensures Grew(sh, ino, a, at, Grown(sh, a, m, i, c), at[c := NEW_ADDR])
  {
    GrownOk(sh, ino, a, m, i, c);
    GrownPlaces(sh, ino, a, m, i, c);
    var b: map<nat, Node> := Grown(sh, a, m, i, c);
    forall j: nat | j < sh.Capacity() ensures Lookup(sh, ino, b, j) == Lookup(sh, ino, a, j) {
      GrownLookup(sh, ino, a, m, i, c, j);
    }
    hide TreeOk, Lookup, Grown;
  }

  lemma GrewTwice(sh: Shape, ino: nat, a: map<nat, Node>, at: map<nat, nat>, b: map<nat, Node>, bt: map<nat, nat>,
                  c: map<nat, Node>, ct: map<nat, nat>)
    requires Grew(sh, ino, a, at, b, bt) && Grew(sh, ino, b, bt, c, ct)
    ensures Grew(sh, ino, a, at, c, ct)
  {
    hide TreeOk, Lookup;
  }

  lemma GrewNothing(sh: Shape, ino: nat, a: map<nat, Node>, at: map<nat, nat>)
    requires TreeOk(sh, ino, a)
    ensures Grew(sh, ino, a, at, a, at)
  {
  }

  /** The nodes that are missing on the way to p. */
  ghost function Missing(ino: nat, nodes: map<nat, Node>, p: Pos): nat
    decreases Depth(p)
  {
    if p.Root? || Find(ino, nodes, p) != 0 then 0 else 1 + Missing(ino, nodes, Parent(p))
  }

  lemma {:induction false} MissingFrom(ino: nat, nodes: map<nat, Node>, p: Pos, d: nat)
    requires d < Depth(p) && Find(ino, nodes, Ancestor(p, d)) != 0 && Find(ino, nodes, Ancestor(p, d + 1)) == 0 && 0 !in nodes
    ensures Missing(ino, nodes, p) == Depth(p) - d
    decreases Depth(p)
  {
    MissingAbove(ino, nodes, p, d + 1);
    if d + 1 < Depth(p) {
      MissingFrom(ino, nodes, Parent(p), d);
    } else {
      assert Ancestor(p, d) == Ancestor(Parent(p), d) == Parent(p);
    }
  }

  /** The ids alloc_nid hands out: free, that is in no tree. */
  ghost predicate AllFree(nodes: map<nat, Node>, free: seq<nat>, maxNid: nat) {
    && (forall j, k :: 0 <= j < k < |free| ==> free[j] != free[k])
    && forall c :: c in free ==> c != 0 && c < maxNid && c !in nodes
  }

  /** On the way to a leaf, at depth i: the nodes above are there, as many as used were added, and those end in nid. */
  ghost predicate Growth(sh: Shape, ino: nat, n0: map<nat, Node>, nodes: map<nat, Node>, free: seq<nat>, used: nat, room: nat,
                         leaf: Pos, nid: nat, i: nat)
  {
    && used <= |free| && used <= room && i <= Depth(leaf) && TreeOk(sh, ino, n0)
    && PosOk(sh, Ancestor(leaf, i)) && nid != 0 && nid == Find(ino, nodes, Ancestor(leaf, i))
    && (forall n :: n in nodes <==> n in n0 || n in free[..used])
    && if used == 0 then nodes == n0
       else Missing(ino, n0, leaf) == used + Depth(leaf) - i && nid in nodes && forall k: nat :: k < |nodes[nid].nids| ==> nodes[nid].nids[k] == 0
  }

  lemma GrowthNeeds(sh: Shape, ino: nat, n0: map<nat, Node>, nodes: map<nat, Node>, free: seq<nat>, used: nat, room: nat,
                    leaf: Pos, nid: nat, i: nat)
    requires Growth(sh, ino, n0, nodes, free, used, room, leaf, nid, i) && i < Depth(leaf)
    requires Find(ino, nodes, Ancestor(leaf, i + 1)) == 0
    ensures Missing(ino, n0, leaf) == used + Depth(leaf) - i
  {
    if used == 0 { MissingFrom(ino, n0, leaf, i); }
  }

  lemma GrowthCan(sh: Shape, ino: nat, n0: map<nat, Node>, nodes: map<nat, Node>, free: seq<nat>, used: nat, room: nat,
                  leaf: Pos, nid: nat, i: nat, slot: nat, c: nat, maxNid: nat)
    requires Growth(sh, ino, n0, nodes, free, used, room, leaf, nid, i) && i < Depth(leaf) && TreeOk(sh, ino, nodes)
    requires used < |free| && c == free[used] && AllFree(n0, free, maxNid)
    requires slot < Fanout(sh, Ancestor(leaf, i)) && Child(sh, Ancestor(leaf, i), slot) == Ancestor(leaf, i + 1)
    requires Find(ino, nodes, Ancestor(leaf, i + 1)) == 0
    ensures CanGrow(sh, ino, nodes, nid, slot, c) && nodes[nid].pos == Ancestor(leaf, i) && c < maxNid
  {
    FindIs(sh, ino, nodes, Ancestor(leaf, i));
    FindChild(sh, ino, nodes, nid, slot);
    assert NodeOk(sh, nodes[nid]);
    assert c !in free[..used];
  }

  lemma GrowthStep(sh: Shape, ino: nat, n0: map<nat, Node>, a: map<nat, Node>, free: seq<nat>, used: nat, room: nat,
                   leaf: Pos, nid: nat, i: nat, slot: nat, c: nat)
    requires Growth(sh, ino, n0, a, free, used, room, leaf, nid, i) && i < Depth(leaf) && PosOk(sh, Ancestor(leaf, i + 1))
    requires CanGrow(sh, ino, a, nid, slot, c) && a[nid].pos == Ancestor(leaf, i) && Find(ino, a, Ancestor(leaf, i + 1)) == 0
    requires Child(sh, a[nid].pos, slot) == Ancestor(leaf, i + 1) && used < |free| && used < room && c == free[used]
    ensures Growth(sh, ino, n0, Grown(sh, a, nid, slot, c), free, used + 1, room, leaf, c, i + 1)
  {
    hide TreeOk, Find, Grown, Missing, Ancestor, Child;
    GrowthNeeds(sh, ino, n0, a, free, used, room, leaf, nid, i);
    GrownPlaces(sh, ino, a, nid, slot, c);
    GrownFind(sh, ino, a, nid, slot, c, Ancestor(leaf, i + 1));
    assert free[..used + 1] == free[..used] + [c];
  }

  lemma GrowthEnds(sh: Shape, ino: nat, n0: map<nat, Node>, nodes: map<nat, Node>, free: seq<nat>, used: nat, room: nat, leaf: Pos, nid: nat)
    requires Growth(sh, ino, n0, nodes, free, used, room, leaf, nid, Depth(leaf))
    ensures nid == Find(ino, nodes, leaf) && nid != 0 && Missing(ino, n0, leaf) == used
    ensures used <= |free| && used <= room && forall n :: n in nodes ==> n in n0 || n in free
  {
    assert Ancestor(leaf, Depth(leaf)) == leaf;
  }

  lemma GrowthGoesOn(sh: Shape, ino: nat, n0: map<nat, Node>, nodes: map<nat, Node>, free: seq<nat>, used: nat, room: nat,
                     leaf: Pos, nid: nat, i: nat, child: nat)
    requires Growth(sh, ino, n0, nodes, free, used, room, leaf, nid, i) && i < Depth(leaf) && TreeOk(sh, ino, nodes)
    requires PosOk(sh, leaf) && child == Find(ino, nodes, Ancestor(leaf, i + 1)) && child != 0
    ensures Growth(sh, ino, n0, nodes, free, used, room, leaf, child, i + 1)
  {
    AncestorStep(sh, leaf, i);
    FindIs(sh, ino, nodes, Ancestor(leaf, i));
    FindChild(sh, ino, nodes, nid, SlotOf(Ancestor(leaf, i + 1)));
  }

  class FileNodes {
    const sh: Shape
    const ino: nat
    const maxNid: nat
    var nodes: map<nat, Node>
    /** the addresses of the nodes, as the node address table answers them */
    var nodeAddr: map<nat, nat>
    /** i_blocks, and the totals of the file system */
    var iBlocks: int
    var validBlocks: int
    var validNodes: int
    /** what the counters hold besides this tree */
    ghost const otherIBlocks: int
    ghost const otherBlocks: int
    ghost const otherNodes: int
    /** the tree and the addresses when truncate_blocks began, and the calls made since */
    ghost var origin: map<nat, Node>
    ghost var originAddr: map<nat, nat>
    ghost var calls: seq<Call>

    /** i_blocks counts at least the blocks of the tree, and every node has an address or at least NEW_ADDR. */
    constructor (s: Shape, i: nat, m: nat, ns: map<nat, Node>, at: map<nat, nat>, ib: int, vb: int, vn: int)
      requires s.Valid() && NodesOk(s, ns) && ib >= Charge(ns, m) && forall n :: n in ns ==> n in at && at[n] != NULL_ADDR
      ensures sh == s && ino == i && maxNid == m && nodes == ns && iBlocks == ib && validBlocks == vb && validNodes == vn
      ensures nodeAddr == at && Accounted()
    {
      sh, ino, maxNid, nodes, nodeAddr, iBlocks, validBlocks, validNodes := s, i, m, ns, at, ib, vb, vn;
      origin, originAddr, calls := ns, at, [];
      otherIBlocks := ib - Charge(ns, m);
      otherBlocks := vb - Charge(ns, m);
      otherNodes := vn - |ns|;
      new;
      CalledAtFirst(s, ns, at);
    }

    /** The counters move with what the tree holds, and blocks are given back as they should. */
    ghost predicate Accounted()
      reads this
    {
      && iBlocks == otherIBlocks + Charge(nodes, maxNid) && otherIBlocks >= 0
      && validBlocks == otherBlocks + Charge(nodes, maxNid)
      && validNodes == otherNodes + |nodes|
      && Called(sh, origin, originAddr, nodes, nodeAddr, calls)
    }

    ghost predicate Valid()
      reads this
    {
      TreeOk(sh, ino, nodes) && Accounted() && forall n :: n in nodes ==> n < maxNid
    }

    /** truncate_data_blocks_range: frees count slots from ofs on. */
    method TruncateDataBlocksRange(nid: nat, ofs: nat, count: nat) returns (nrFree: nat)
      requires Accounted() && nid in nodes && nid < maxNid && ofs + count <= |nodes[nid].addrs|
      modifies `nodes, `nodeAddr, `iBlocks, `validBlocks, `validNodes, `calls
      ensures Accounted()
      ensures nid in old(nodes) && nodes.Keys == old(nodes).Keys
      ensures nodes[nid] == old(nodes)[nid].(addrs := nodes[nid].addrs) && |nodes[nid].addrs| == |old(nodes)[nid].addrs|
      ensures forall i :: 0 <= i < |nodes[nid].addrs| ==>
                nodes[nid].addrs[i] == if ofs <= i < ofs + count then NULL_ADDR else old(nodes)[nid].addrs[i]
      ensures nodes == old(nodes)[nid := nodes[nid]]
      ensures nrFree == Used(old(nodes)[nid].addrs) - Used(nodes[nid].addrs)
    {
      hide Called, StartBidxOfNode, NodeOfs;
      nrFree := 0;
      ghost var n0 := nodes[nid];
      for i: nat := ofs to ofs + count
        invariant nid in nodes && nodes == old(nodes)[nid := nodes[nid]]
        invariant nodes[nid] == n0.(addrs := nodes[nid].addrs) && |nodes[nid].addrs| == |n0.addrs|
        invariant forall j :: 0 <= j < |n0.addrs| ==> nodes[nid].addrs[j] == if ofs <= j < i then NULL_ADDR else n0.addrs[j]
        invariant nrFree == Used(n0.addrs) - Used(nodes[nid].addrs)
        invariant Called(sh, origin, originAddr, nodes, nodeAddr, calls)
        modifies this`nodes, this`calls
      {
        var blkaddr := nodes[nid].addrs[i];
        if blkaddr == NULL_ADDR { continue; }
        var fofs := StartBidxOfNode(sh, NodeOfs(sh, nodes[nid].pos)) + i;
        GiveBackSlot(nid, i, fofs);
        UsedUpdate(nodes[nid].addrs, i, NULL_ADDR);
        calls := calls + [DataCall(nid, i, fofs, blkaddr)];
        nodes := nodes[nid := nodes[nid].(addrs := nodes[nid].addrs[i := NULL_ADDR])];
        nrFree := nrFree + 1;
      }
      ChargeUpdate(old(nodes), nid, nodes[nid], maxNid);
      assert nodes.Keys == old(nodes).Keys;
      assert |nodes| == |nodes.Keys|;
      if nrFree > 0 {
        iBlocks := iBlocks - nrFree;
        validBlocks := validBlocks - nrFree;
      }
    }

    /** The calls for slot i of a node. */
    lemma GiveBackSlot(nid: nat, i: nat, fofs: int)
      requires Called(sh, origin, originAddr, nodes, nodeAddr, calls) && nid in nodes && i < |nodes[nid].addrs|
      requires nodes[nid].addrs[i] != NULL_ADDR && fofs == StartBidxOfNode(sh, NodeOfs(sh, nodes[nid].pos)) + i
      ensures Called(sh, origin, originAddr, nodes[nid := nodes[nid].(addrs := nodes[nid].addrs[i := NULL_ADDR])], nodeAddr,
                     calls + [DataCall(nid, i, fofs, nodes[nid].addrs[i])])
    {
      assert NodeOk(sh, origin[nid]);
      StartBidxInverts(sh, nodes[nid].pos);
      CalledForSlot(sh, origin, originAddr, nodes, nodeAddr, calls, nid, i,
                    nodes[nid := nodes[nid].(addrs := nodes[nid].addrs[i := NULL_ADDR])], DataCall(nid, i, fofs, nodes[nid].addrs[i]));
    }

    /** The call for a node that holds no data any more. */
    lemma GiveBackNode(nid: nat)
      requires Accounted() && nid in nodes && nid < maxNid && Used(nodes[nid].addrs) == 0
      ensures iBlocks > 0 && Charge(nodes - {nid}, maxNid) == Charge(nodes, maxNid) - 1 && |nodes - {nid}| == |nodes| - 1
      ensures nid in nodeAddr
      ensures Called(sh, origin, originAddr, nodes - {nid}, nodeAddr[nid := NULL_ADDR], calls + [NodeCall(nid, nodeAddr[nid])])
    {
      ChargeRemove(nodes, nid, maxNid);
      UsedZero(nodes[nid].addrs);
      CalledForNode(sh, origin, originAddr, nodes, nodeAddr, calls, nid, NodeCall(nid, nodeAddr[nid]));
      hide Called, Used;
      assert nodes.Keys == (nodes - {nid}).Keys + {nid};
    }

    /** truncate_node: the node's block and id are given back. It has one, since i_blocks is not 0. */
    method TruncateNode(nid: nat)
      requires Accounted() && nid in nodes && nid < maxNid && Used(nodes[nid].addrs) == 0
      modifies `nodes, `nodeAddr, `iBlocks, `validBlocks, `validNodes, `calls
      ensures Accounted() && nodes == old(nodes) - {nid} && nid in old(nodeAddr) && nodeAddr == old(nodeAddr)[nid := NULL_ADDR]
    {
      hide Called, Charge, Used;
      GiveBackNode(nid);
      if iBlocks != 0 {
        calls := calls + [NodeCall(nid, nodeAddr[nid])];
        validNodes := validNodes - 1;
        validBlocks := validBlocks - 1;
        iBlocks := iBlocks - 1;
        nodeAddr := nodeAddr[nid := NULL_ADDR];
        nodes := nodes - {nid};
      }
    }

    /** truncate_dnode: a missing direct node counts as freed. */
    method TruncateDnode(nid: nat) returns (ret: nat)
      requires Accounted() && (nid in nodes ==> nid < maxNid)
      modifies `nodes, `nodeAddr, `iBlocks, `validBlocks, `validNodes, `calls
      ensures Accounted() && nodes == old(nodes) - {nid} && ret == 1
    {
      hide Called;
      ret := 1;
      if nid !in nodes { return; }
      var _ := TruncateDataBlocksRange(nid, 0, |nodes[nid].addrs|);
      UsedNone(nodes[nid].addrs);
      TruncateNode(nid);
    }

    /** set_nid with 0. */
    method ClearNid(nid: nat, i: nat)
      requires Accounted() && nid in nodes && nid < maxNid && i < |nodes[nid].nids|
      modifies this`nodes
      ensures Accounted() && nid in old(nodes)
      ensures nodes == old(nodes)[nid := old(nodes)[nid].(nids := old(nodes)[nid].nids[i := 0])]
    {
      ChargeUpdate(nodes, nid, nodes[nid].(nids := nodes[nid].nids[i := 0]), maxNid);
      CalledForNid(sh, origin, originAddr, nodes, nodeAddr, calls, nid, nodes[nid := nodes[nid].(nids := nodes[nid].nids[i := 0])]);
      assert nodes.Keys == nodes[nid := nodes[nid].(nids := nodes[nid].nids[i := 0])].Keys;
      nodes := nodes[nid := nodes[nid].(nids := nodes[nid].nids[i := 0])];
    }

    /** One round of the loops that free direct nodes. */
    method FreeDirectNode(nid: nat, i: nat)
      requires Valid() && nid in nodes && i < |nodes[nid].nids| && (nodes[nid].pos.Ind? || nodes[nid].pos.DindInd?)
      modifies `nodes, `nodeAddr, `iBlocks, `validBlocks, `validNodes, `calls
      ensures Valid() && nid in nodes && nid in old(nodes) && nodes[nid].pos == old(nodes)[nid].pos
      ensures i < Fanout(sh, old(nodes)[nid].pos)
      ensures var x := Under(Child(sh, old(nodes)[nid].pos, i)); Trimmed(sh, old(nodes), nodes, x, x)
    {
      hide Accounted, Called;
      var childNid := nodes[nid].nids[i];
      assert Linked(sh, nodes, nid, i);
      if childNid == 0 {
        NothingToTrim(sh, ino, nodes, nid, i);
      } else {
        var _ := TruncateDnode(childNid);
        ClearNid(nid, i);
        LeafRemoved(sh, ino, old(nodes), nodes, nid, i);
      }
      SubtreeRemoved(sh, ino, old(nodes), nodes, nid, i);
    }

    method FreeDirectNodes(nid: nat, ofs: nat)
      requires Valid() && nid in nodes && (nodes[nid].pos.Ind? || nodes[nid].pos.DindInd?) && ofs <= sh.nids
      modifies `nodes, `nodeAddr, `iBlocks, `validBlocks, `validNodes, `calls
      ensures Valid() && nid in nodes && nid in old(nodes) && nodes[nid].pos == old(nodes[nid].pos)
      ensures Trimmed(sh, old(nodes), nodes, Below(nodes[nid].pos, ofs, sh.nids), Below(nodes[nid].pos, ofs, sh.nids))
    {
      hide Accounted, Called;
      ghost var n0, p := nodes, nodes[nid].pos;
      NothingRemoved(sh, ino, n0, p, ofs);
      for i: nat := ofs to sh.nids
        invariant Valid() && nid in nodes && nodes[nid].pos == p
        invariant Trimmed(sh, n0, nodes, Below(p, ofs, i), Below(p, ofs, i))
      {
        ghost var before := nodes;
        assert NodeOk(sh, before[nid]);
        FreeDirectNode(nid, i);
        ChildRemoved(sh, n0, before, nodes, p, ofs, i);
      }
    }

    /** The end of truncate_nodes: an indirect node that lost all children goes too. */
    method FinishNode(nid: nat, ofs: nat, ghost n0: map<nat, Node>)
      requires Valid() && nid in nodes && nid != ino && TreeOk(sh, ino, n0) && nid in n0 && n0[nid].pos == nodes[nid].pos
      requires IsIndirect(nodes[nid].pos)
      requires var x := Below(n0[nid].pos, ofs, sh.nids); Trimmed(sh, n0, nodes, x, x)
      modifies `nodes, `nodeAddr, `iBlocks, `validBlocks, `validNodes, `calls
      ensures Accounted() && (forall n :: n in nodes ==> n < maxNid)
      ensures Trimmed(sh, n0, nodes, Doomed(sh, n0[nid].pos, ofs), Below(n0[nid].pos, ofs, sh.nids))
    {
      hide Accounted, Called;
      assert NodeOk(sh, nodes[nid]);
      if ofs == 0 {
        ghost var b, p := nodes, nodes[nid].pos;
        UsedNone(nodes[nid].addrs);
        TruncateNode(nid);
        UnderSplit(sh, p);
        TopRemoved(sh, ino, n0, b, nodes, Below(p, 0, sh.nids), Under(p), nid);
      }
    }

    /** truncate_nodes on an indirect node (depth 2) or the double indirect node (depth 3). */
    method TruncateNodes(nid: nat, nofs: nat, ofs: nat, depth: nat) returns (ret: nat)
      requires Valid() && ofs <= sh.nids && nid != ino
      requires nid == 0 || (nid in nodes && IsIndirect(nodes[nid].pos) && depth == (if nodes[nid].pos.Dind? then 3 else 2))
      modifies `nodes, `nodeAddr, `iBlocks, `validBlocks, `validNodes, `calls
      ensures Accounted() && (forall n :: n in nodes ==> n < maxNid)
      ensures nid == 0 ==> nodes == old(nodes)
      ensures nid != 0 ==>
                && nid in old(nodes)
                && var p := old(nodes)[nid].pos; Trimmed(sh, old(nodes), nodes, Doomed(sh, p, ofs), Below(p, ofs, sh.nids))
      ensures nid == 0 || (depth == 2 && ofs == 0) ==> ret == sh.nids + 1
      decreases depth, 2
    {
      hide Accounted, Called;
      if nid == 0 { return sh.nids + 1; }
      ghost var n0, p := nodes, nodes[nid].pos;
      var freed: nat := 0;
      if depth < 3 {
        FreeDirectNodes(nid, ofs);
        freed := sh.nids - ofs;
      } else {
        freed := FreeIndirectNodes(nid, nofs, ofs);
      }
      FinishNode(nid, ofs, n0);
      ret := if ofs == 0 then freed + 1 else freed;
    }

    /** The node offset of child i of the double indirect node at nofs. */
    function ChildNofs(nofs: nat, i: nat): nat { nofs + i * (sh.nids + 1) + 1 }

    /** The loop of truncate_nodes over the children of the double indirect node. */
    method FreeIndirectNodes(nid: nat, nofs: nat, ofs: nat) returns (childNofs: nat)
      requires Valid() && ofs <= sh.nids && nid in nodes && nodes[nid].pos.Dind?
      modifies `nodes, `nodeAddr, `iBlocks, `validBlocks, `validNodes, `calls
      ensures Valid() && nid in nodes && nid in old(nodes) && nodes[nid].pos == old(nodes)[nid].pos
      ensures var x := Below(old(nodes)[nid].pos, ofs, sh.nids); Trimmed(sh, old(nodes), nodes, x, x)
      decreases 3, 0
    {
      hide Accounted, Called;
      ghost var n0, p := nodes, nodes[nid].pos;
      childNofs := ChildNofs(nofs, ofs);
      NothingRemoved(sh, ino, n0, p, ofs);
      for i: nat := ofs to sh.nids
        invariant Valid() && nid in nodes && nodes[nid].pos == p
        invariant Trimmed(sh, n0, nodes, Below(p, ofs, i), Below(p, ofs, i))
      {
        ghost var before := nodes;
        assert NodeOk(sh, before[nid]);
        hide Trimmed, TreeOk, Below, Under;
        FreeIndirectNode(nid, childNofs, i);
        childNofs := childNofs + sh.nids + 1;
        ChildRemoved(sh, n0, before, nodes, p, ofs, i);
      }
    }

    method FreeIndirectNode(nid: nat, childNofs: nat, i: nat)
      requires Valid() && nid in nodes && nodes[nid].pos.Dind? && i < |nodes[nid].nids|
      modifies `nodes, `nodeAddr, `iBlocks, `validBlocks, `validNodes, `calls
      ensures Valid() && nid in nodes && nid in old(nodes) && nodes[nid].pos == old(nodes)[nid].pos
      ensures i < Fanout(sh, old(nodes)[nid].pos)
      ensures var x := Under(Child(sh, old(nodes)[nid].pos, i)); Trimmed(sh, old(nodes), nodes, x, x)
      decreases 2, 3
    {
      hide Accounted, Called;
      ghost var n0 := nodes;
      var childNid := nodes[nid].nids[i];
      assert Linked(sh, nodes, nid, i);
      if childNid == 0 {
        NothingToTrim(sh, ino, nodes, nid, i);
      } else {
        var ret := TruncateNodes(childNid, childNofs, 0, 2);
        if ret == sh.nids + 1 {
          ghost var b := nodes;
          ClearNid(nid, i);
          NodeUnlinked(sh, ino, n0, b, nodes, nid, i);
        }
      }
      SubtreeRemoved(sh, ino, n0, nodes, nid, i);
    }

    /** A round of the loop of truncate_inode_blocks on a direct node of the inode. */
    method TruncateDirectSlot(i: nat, ofs: nat) returns (err: nat)
      requires Valid() && i < 2 && (ofs > 0 ==> nodes[ino].nids[i] == 0)
      modifies `nodes, `nodeAddr, `iBlocks, `validBlocks, `validNodes, `calls
      ensures Valid()
      ensures var x := Doomed(sh, Dir(i), ofs); Trimmed(sh, old(nodes), nodes, x, x)
    {
      hide Accounted, Called;
      ghost var n0 := nodes;
      assert Child(sh, Root, i) == Dir(i) && (ofs == 0 ==> Doomed(sh, Dir(i), ofs) == Under(Dir(i)));
      assert NodeOk(sh, nodes[ino]) && Linked(sh, nodes, ino, i);
      var nid := nodes[ino].nids[i];
      err := TruncateDnode(nid);
      if nid == 0 {
        assert nodes == n0;
        EndOfNothing(sh, ino, nodes, i, ofs);
      }
      if ofs == 0 && nodes[ino].nids[i] != 0 {
        ClearNid(ino, i);
        LeafRemoved(sh, ino, n0, nodes, ino, i);
      }
      DoomedRemoved(sh, ino, n0, nodes, Dir(i), ofs);
    }

    /** A round of the loop of truncate_inode_blocks on an indirect node of the inode, from its child ofs on. */
    method TruncateIndirectSlot(i: nat, nofs: nat, ofs: nat) returns (err: nat)
      requires Valid() && 2 <= i < 5 && ofs <= sh.nids
      modifies `nodes, `nodeAddr, `iBlocks, `validBlocks, `validNodes, `calls
      ensures Valid()
      ensures var x := Doomed(sh, Child(sh, Root, i), ofs); Trimmed(sh, old(nodes), nodes, x, x)
    {
      hide Accounted, Called;
      ghost var n0, c := nodes, Child(sh, Root, i);
      assert NodeOk(sh, nodes[ino]) && Linked(sh, nodes, ino, i);
      var nid := nodes[ino].nids[i];
      err := TruncateNodes(nid, nofs, ofs, if i < 4 then 2 else 3);
      if nid == 0 {
        EndOfNothing(sh, ino, nodes, i, ofs);
      } else {
        SlotKept(sh, ino, n0, nodes, i, ofs);
      }
      if ofs == 0 && nodes[ino].nids[i] != 0 {
        ghost var b := nodes;
        ClearNid(ino, i);
        NodeUnlinked(sh, ino, n0, b, nodes, ino, i);
      }
      DoomedRemoved(sh, ino, n0, nodes, c, ofs);
    }

    /**
      truncate_partial_nodes: frees the direct nodes of the partly cut indirect
      node from offset[depth - 1] on, and moves the offsets past it.
     */
    method TruncatePartialNodes(offset: seq<nat>, depth: nat, ghost p: Pos) returns (offset': seq<nat>, err: int)
      requires Valid() && |offset| == 4 && offset[1] < sh.nids && IsPartial(p, offset[0], offset[1], depth)
      requires 0 < offset[depth - 1] < sh.nids
      modifies `nodes, `nodeAddr, `iBlocks, `validBlocks, `validNodes, `calls
      ensures Valid() && (err == 0 || err == -2)
      ensures offset' == PastPartial(offset, depth, Find(ino, old(nodes), p) != 0)
      ensures Trimmed(sh, old(nodes), nodes, Below(p, offset[depth - 1], sh.nids), Below(p, offset[depth - 1], sh.nids))
    {
      var present;
      present, err := FreePartial(offset[0], offset[1], offset[depth - 1], depth, p);
      offset' := PastPartial(offset, depth, present);
    }

    method FreePartial(ofs0: nat, ofs1: nat, ofs: nat, depth: nat, ghost p: Pos) returns (present: bool, err: int)
      requires Valid() && ofs1 < sh.nids && ofs < sh.nids && IsPartial(p, ofs0, ofs1, depth)
      modifies `nodes, `nodeAddr, `iBlocks, `validBlocks, `validNodes, `calls
      ensures Valid() && (err == 0 || err == -2) && present == (Find(ino, old(nodes), p) != 0)
      ensures Trimmed(sh, old(nodes), nodes, Below(p, ofs, sh.nids), Below(p, ofs, sh.nids))
    {
      hide Accounted, Called;
      var nid;
      if depth == 2 { nid, err := PartialInd(ofs0, p); } else { nid, err := PartialDindInd(ofs1, p); }
      present := nid != 0;
      if present {
        FreeDirectNodes(nid, ofs);
      } else {
        LessOfNothing(sh, nodes, Under(p), Below(p, ofs, sh.nids));
      }
    }

    /** The way of truncate_partial_nodes to an indirect node. */
    method PartialInd(ofs0: nat, ghost p: Pos) returns (nid: nat, err: int)
      requires Valid() && IsPartial(p, ofs0, 0, 2)
      ensures nid == Find(ino, nodes, p) && err == 0
      ensures nid == 0 ==> Trimmed(sh, nodes, nodes, Under(p), Under(p))
      ensures nid != 0 ==> nid in nodes && nodes[nid].pos == p
    {
      assert NodeOk(sh, nodes[ino]);
      var slot := ofs0 - NODE_DIR1_BLOCK;
      assert Linked(sh, nodes, ino, slot);
      nid, err := nodes[ino].nids[slot], 0;
      assert Find(ino, nodes, Root) == ino;
      if nid == 0 { NothingToTrim(sh, ino, nodes, ino, slot); }
    }

    /** The way of truncate_partial_nodes to an indirect node below the double indirect one. */
    method PartialDindInd(ofs1: nat, ghost p: Pos) returns (nid: nat, err: int)
      requires Valid() && ofs1 < sh.nids && p == DindInd(ofs1)
      ensures nid == Find(ino, nodes, p) && (err == 0 || (nid == 0 && err == -2))
      ensures nid == 0 ==> Trimmed(sh, nodes, nodes, Under(p), Under(p))
      ensures nid != 0 ==> nid in nodes && nodes[nid].pos == p
    {
      var slot := NODE_DIND_BLOCK - NODE_DIR1_BLOCK;
      ghost var c := Child(sh, Root, slot);
      FindChild(sh, ino, nodes, ino, slot);
      nid, err := nodes[ino].nids[slot], 0;
      if nid == 0 {
        NothingToTrim(sh, ino, nodes, ino, slot);
        LessOfNothing(sh, nodes, Under(Dind), Under(p));
      } else {
        FindChild(sh, ino, nodes, nid, ofs1);
        ghost var dind := nid;
        nid := nodes[nid].nids[ofs1];
        if nid == 0 {
          NothingToTrim(sh, ino, nodes, dind, ofs1);
          err := -2;
        }
      }
    }

    method TruncateSlot(i: nat, nofs: nat, ofs: nat) returns (err: nat)
      requires Valid() && i < 5 && (if i < 2 then ofs > 0 ==> nodes[ino].nids[i] == 0 else ofs <= sh.nids)
      modifies `nodes, `nodeAddr, `iBlocks, `validBlocks, `validNodes, `calls
      ensures Valid()
      ensures var x := Doomed(sh, Child(sh, Root, i), ofs); Trimmed(sh, old(nodes), nodes, x, x)
    {
      if i < 2 { err := TruncateDirectSlot(i, ofs); } else { err := TruncateIndirectSlot(i, nofs, ofs); }
    }

    method TruncateNext(s1: nat, o1: nat, s: nat, nofs: nat, ghost n0: map<nat, Node>) returns (err: nat)
      requires Valid() && s1 <= s < 5 && Trimmed(sh, n0, nodes, RootDoomed(sh, s1, o1, s), RootDoomed(sh, s1, o1, s))
      requires s == s1 ==> if s1 < 2 then o1 > 0 ==> nodes[ino].nids[s1] == 0 else o1 <= sh.nids
      modifies `nodes, `nodeAddr, `iBlocks, `validBlocks, `validNodes, `calls
      ensures Valid() && Trimmed(sh, n0, nodes, RootDoomed(sh, s1, o1, s + 1), RootDoomed(sh, s1, o1, s + 1))
    {
      hide Accounted, Called;
      ghost var before := nodes;
      err := TruncateSlot(s, nofs, if s == s1 then o1 else 0);
      SlotRemoved(sh, n0, before, nodes, s1, o1, s);
    }

    /** The loop of truncate_inode_blocks, from child o1 of the inode's slot s1 on. */
    method TruncateRest(s1: nat, o1: nat, nofs0: nat) returns (err: nat)
      requires Valid() && s1 < 5 && (if s1 < 2 then o1 > 0 ==> nodes[ino].nids[s1] == 0 else o1 <= sh.nids)
      modifies `nodes, `nodeAddr, `iBlocks, `validBlocks, `validNodes, `calls
      ensures Valid()
      ensures Trimmed(sh, old(nodes), nodes, RootDoomed(sh, s1, o1, 5), RootDoomed(sh, s1, o1, 5))
    {
      hide Accounted, Called;
      ghost var n0 := nodes;
      var s: nat, nofs: nat, cont := s1, nofs0, true;
      NothingDoomed(sh, n0, s1, o1);
      err := 0;
      while cont
        invariant Valid() && s1 <= s <= 5 && cont == (s < 5)
        invariant s == s1 ==> nodes == n0
        invariant Trimmed(sh, n0, nodes, RootDoomed(sh, s1, o1, s), RootDoomed(sh, s1, o1, s))
        decreases 5 - s
      {
        err := TruncateNext(s1, o1, s, nofs, n0);
        if s == 4 { cont := false; }
        s := s + 1;
        nofs := nofs + err;
      }
      assert RootDoomed(sh, s1, o1, s) == RootDoomed(sh, s1, o1, 5);
    }

    /** The part of truncate_inode_blocks before the loop. */
    method TruncatePartly(ofs: seq<nat>, level: nat, ghost leaf: Pos, ghost s: nat) returns (ofs': seq<nat>)
      requires Valid() && PosOk(sh, leaf) && IsLeaf(leaf) && !leaf.Root? && PathOf(leaf, s, ofs) && level == Depth(leaf)
      modifies `nodes, `nodeAddr, `iBlocks, `validBlocks, `validNodes, `calls
      ensures Valid() && |ofs'| == 4
      ensures var past := Find(ino, old(nodes), Parent(leaf)) != 0;
              ofs'[0] == NODE_DIR1_BLOCK + RestSlot(leaf, past) && ofs'[1] == RestOfs(leaf, past, s)
      ensures Trimmed(sh, old(nodes), nodes, PartlyRemoved(sh, leaf), PartlyRemoved(sh, leaf))
      ensures leaf.Dir? ==> nodes == old(nodes)
    {
      hide Accounted, Called;
      PathParts(sh, leaf, s, ofs);
      if level < 2 || ofs[level - 1] == 0 {
        NothingTrimmed(sh, nodes);
        return ofs;
      }
      ghost var p, n0 := Parent(leaf), nodes;
      assert PartlyRemoved(sh, leaf) == Below(p, ofs[level - 1], sh.nids);
      var err;
      ofs', err := TruncatePartialNodes(ofs, level, p);
      PastParts(leaf, s, ofs, Find(ino, n0, p) != 0);
    }

    /**
      truncate_inode_blocks: removes what lies at page index from or beyond it. bug
      stands for the BUG() of get_node_path. When the leaf at from exists, the
      caller has taken care that from is its first index.
     */
    method TruncateInodeBlocks(from: nat) returns (bug: bool, err: int)
      requires Valid() && sh.perInode <= from
      requires from < sh.Capacity() ==>
                 var leaf := LeafAt(sh, from); Find(ino, nodes, leaf) != 0 ==> from == Start(sh, leaf)
      modifies `nodes, `nodeAddr, `iBlocks, `validBlocks, `validNodes, `calls
      ensures bug <==> from >= sh.Capacity()
      ensures !bug ==> Valid() && err == 0
      ensures !bug ==> var e := Start(sh, CutPos(ino, old(nodes), LeafAt(sh, from)));
                       Trimmed(sh, old(nodes), nodes, From(sh, e), From(sh, e))
    {
      hide Accounted, Called;
      ghost var n0 := nodes;
      var offset, noffset := new nat[4], new nat[4];
      var level;
      ghost var leaf;
      level, leaf := GetNodePath(sh, from, offset, noffset);
      if level < 0 { return true, 0; }
      ghost var s := from - Start(sh, leaf);
      LeafHolds(sh, from);
      PathOfLeaf(sh, leaf, s, offset[..], noffset[..]);
      var ofs := TruncatePartly(offset[..], level, leaf, s);
      ghost var n1 := nodes;
      var nofs := if level == 3 then 5 + 2 * sh.nids else noffset[1];
      var _ := TruncateRest(ofs[0] - NODE_DIR1_BLOCK, ofs[1], nofs);
      CutDone(sh, ino, n0, n1, nodes, leaf, s);
      bug, err := false, 0;
    }

    // ----------------------------------------------------- lookup in place

    /** get_dnode_of_data without allocation: -2 (ENOENT) when a node on the way is missing. */
    method GetDnodeOfData(index: nat) returns (bug: bool, err: int, nid: nat, ofsInNode: nat)
      requires TreeOk(sh, ino, nodes)
      ensures bug <==> index >= sh.Capacity()
      ensures !bug ==>
                var leaf := LeafAt(sh, index);
                && (err == 0 || err == -2)
                && (err == 0 <==> Find(ino, nodes, leaf) != 0)
                && (err == 0 ==> nid == Find(ino, nodes, leaf) && nid in nodes && nodes[nid].pos == leaf)
                && (err == 0 ==> ofsInNode == index - Start(sh, leaf) && ofsInNode < |nodes[nid].addrs|)
      ensures !bug ==> Lookup(sh, ino, nodes, index) == if err == 0 then nodes[nid].addrs[ofsInNode] else NULL_ADDR
    {
      var offset, noffset := new nat[4], new nat[4];
      var level;
      ghost var leaf;
      level, leaf := GetNodePath(sh, index, offset, noffset);
      bug, err, nid, ofsInNode := level < 0, 0, ino, 0;
      if bug { return; }
      LeafHolds(sh, index);
      nid := FollowPath(offset[..], level, leaf, index - Start(sh, leaf), noffset[..]);
      FindIs(sh, ino, nodes, leaf);
      if nid == 0 { return false, -2, 0, 0; }
      assert NodeOk(sh, nodes[nid]);
      ofsInNode := offset[level];
    }

    /** The loop of get_dnode_of_data; 0 when a node is missing. */
    method FollowPath(offset: seq<nat>, level: nat, ghost leaf: Pos, ghost s: nat, ghost noffset: seq<nat>) returns (nid: nat)
      requires TreeOk(sh, ino, nodes) && PosOk(sh, leaf) && level == Depth(leaf) && IsPath(sh, leaf, s, offset, noffset)
      ensures nid == Find(ino, nodes, leaf)
    {
      AncestorAtRoot(leaf);
      nid := ino;
      for i: nat := 0 to level
        invariant nid != 0 && nid == Find(ino, nodes, Ancestor(leaf, i)) && PosOk(sh, Ancestor(leaf, i))
      {
        AncestorStep(sh, leaf, i);
        nid := NextNode(nid, if i == 0 then offset[i] - NODE_DIR1_BLOCK else offset[i], Ancestor(leaf, i));
        if nid == 0 {
          MissingAbove(ino, nodes, leaf, i + 1);
          return;
        }
      }
    }

    /** get_nid: the child of a node on the path. */
    method NextNode(nid: nat, slot: nat, ghost p: Pos) returns (child: nat)
      requires TreeOk(sh, ino, nodes) && PosOk(sh, p) && nid != 0 && nid == Find(ino, nodes, p) && slot < Fanout(sh, p)
      ensures child == Find(ino, nodes, Child(sh, p, slot))
    {
      FindIs(sh, ino, nodes, p);
      FindChild(sh, ino, nodes, nid, slot);
      child := nodes[nid].nids[slot];
    }

    // ----------------------------------------------------- look-up with allocation

    /** new_node_page and set_nid for a node that is missing; from here on the calls are noted anew. */
    method AddNode(nid: nat, slot: nat, c: nat)
      requires Valid() && CanGrow(sh, ino, nodes, nid, slot, c) && c < maxNid
      modifies this
      ensures Valid() && CanGrow(sh, ino, old(nodes), nid, slot, c)
      ensures nodes == Grown(sh, old(nodes), nid, slot, c) && nodeAddr == old(nodeAddr)[c := NEW_ADDR]
    {
      hide TreeOk, Called, Charge, Grown;
      GrownCosts(nid, slot, c);
      iBlocks := iBlocks + 1;
      validBlocks := validBlocks + 1;
      validNodes := validNodes + 1;
      nodeAddr := nodeAddr[c := NEW_ADDR];
      GrowNodes(nid, slot, c);
      origin, originAddr, calls := nodes, nodeAddr, [];
    }

    /**
      get_dnode_of_data with ALLOC_NODE: missing nodes on the way are added. free are
      the ids alloc_nid hands out, and room is how many nodes inc_valid_node_count
      grants; -28 (ENOSPC) when either is not enough, with the nodes added so far.
     */
    method AllocDnodeOfData(index: nat, free: seq<nat>, room: nat) returns (bug: bool, err: int, nid: nat, ofsInNode: nat)
      requires Valid() && AllFree(nodes, free, maxNid)
      modifies this
      ensures Valid() && Grew(sh, ino, old(nodes), old(nodeAddr), nodes, nodeAddr)
      ensures forall n :: n in nodes ==> n in old(nodes) || n in free
      ensures bug <==> index >= sh.Capacity()
      ensures !bug ==>
                var leaf := LeafAt(sh, index);
                && (err == 0 || err == -28)
                && (err == 0 <==> Missing(ino, old(nodes), leaf) <= |free| && Missing(ino, old(nodes), leaf) <= room)
                && (err == 0 ==> nid == Find(ino, nodes, leaf) && nid in nodes && nodes[nid].pos == leaf)
                && (err == 0 ==> ofsInNode == index - Start(sh, leaf) && ofsInNode < |nodes[nid].addrs|)
    {
      hide Accounted;
      GrewNothing(sh, ino, nodes, nodeAddr);
      ghost var n0, at0 := nodes, nodeAddr;
      var offset, noffset := new nat[4], new nat[4];
      var level;
      ghost var leaf;
      level, leaf := GetNodePath(sh, index, offset, noffset);
      bug, err, nid, ofsInNode := level < 0, 0, ino, 0;
      if bug { return; }
      LeafHolds(sh, index);
      AncestorAtRoot(leaf);
      assert free[..0] == [];
      assert Growing(n0, at0, free, 0, room, leaf, ino, 0);
      hide Grew, Missing, AllFree, Growing;
      err, nid := GrowPath(offset[..], level, leaf, index - Start(sh, leaf), noffset[..], free, room);
      if err != 0 { return; }
      FindIs(sh, ino, nodes, leaf);
      assert NodeOk(sh, nodes[nid]);
      ofsInNode := offset[level];
    }

    /** The state of the loop of get_dnode_of_data, with allocation, at depth i. */
    ghost predicate Growing(n0: map<nat, Node>, at0: map<nat, nat>, free: seq<nat>, used: nat, room: nat, leaf: Pos, nid: nat, i: nat)
      reads this
    {
      && Valid() && Grew(sh, ino, n0, at0, nodes, nodeAddr) && AllFree(n0, free, maxNid) && PosOk(sh, leaf)
      && Growth(sh, ino, n0, nodes, free, used, room, leaf, nid, i)
    }

    /** That loop. */
    method GrowPath(offset: seq<nat>, level: nat, ghost leaf: Pos, ghost s: nat, ghost noffset: seq<nat>, free: seq<nat>, room: nat)
      returns (err: int, nid: nat)
      requires Growing(nodes, nodeAddr, free, 0, room, leaf, ino, 0)
      requires level == Depth(leaf) && IsPath(sh, leaf, s, offset, noffset)
      modifies this
      ensures Valid() && Grew(sh, ino, old(nodes), old(nodeAddr), nodes, nodeAddr)
      ensures forall n :: n in nodes ==> n in old(nodes) || n in free
      ensures err == 0 || err == -28
      ensures err == 0 <==> Missing(ino, old(nodes), leaf) <= |free| && Missing(ino, old(nodes), leaf) <= room
      ensures err == 0 ==> nid == Find(ino, nodes, leaf) && nid != 0
    {
      hide Growing, Valid, Grew, Missing, Find, Growth;
      ghost var n0, at0 := nodes, nodeAddr;
      nid := ino;
      var used: nat := 0;
      for i: nat := 0 to level
        invariant Growing(n0, at0, free, used, room, leaf, nid, i)
      {
        var slot := if i == 0 then offset[i] - NODE_DIR1_BLOCK else offset[i];
        var ok;
        ok, nid, used := NextOrNew(nid, slot, free, used, room, n0, at0, leaf, i);
        if !ok { return -28, nid; }
      }
      err := 0;
      GrowingEnds(n0, at0, free, used, room, leaf, nid);
    }

    lemma GrowingEnds(n0: map<nat, Node>, at0: map<nat, nat>, free: seq<nat>, used: nat, room: nat, leaf: Pos, nid: nat)
      requires Growing(n0, at0, free, used, room, leaf, nid, Depth(leaf))
      ensures Valid() && Grew(sh, ino, n0, at0, nodes, nodeAddr)
      ensures nid == Find(ino, nodes, leaf) && nid != 0 && Missing(ino, n0, leaf) == used
      ensures used <= |free| && used <= room && forall n :: n in nodes ==> n in n0 || n in free
    {
      GrowthEnds(sh, ino, n0, nodes, free, used, room, leaf, nid);
    }

    /** A round of the loop: the next node, added if it is missing. */
    method NextOrNew(nid: nat, slot: nat, free: seq<nat>, used: nat, room: nat, ghost n0: map<nat, Node>, ghost at0: map<nat, nat>,
                     ghost leaf: Pos, ghost i: nat)
      returns (ok: bool, child: nat, used': nat)
      requires Growing(n0, at0, free, used, room, leaf, nid, i) && i < Depth(leaf) && slot == SlotOf(Ancestor(leaf, i + 1))
      modifies this
      ensures if ok then Growing(n0, at0, free, used', room, leaf, child, i + 1)
              else Valid() && Grew(sh, ino, n0, at0, nodes, nodeAddr) && (forall n :: n in nodes ==> n in n0 || n in free)
                   && (Missing(ino, n0, leaf) > |free| || Missing(ino, n0, leaf) > room)
    {
      AncestorStep(sh, leaf, i);
      hide Accounted, Grew, TreeOk, Find, Missing;
      ok, used' := true, used;
      child := NextNode(nid, slot, Ancestor(leaf, i));
      if child != 0 {
        GrowthGoesOn(sh, ino, n0, nodes, free, used, room, leaf, nid, i, child);
        return;
      }
      GrowthNeeds(sh, ino, n0, nodes, free, used, room, leaf, nid, i);
      if used == |free| || used == room { return false, 0, used; }
      child := free[used];
      GrowStep(nid, slot, child, n0, at0, free, used, room, leaf, i);
      used' := used + 1;
    }

    /** One node of that loop is added. */
    method GrowStep(nid: nat, slot: nat, c: nat, ghost n0: map<nat, Node>, ghost at0: map<nat, nat>, ghost free: seq<nat>, ghost used: nat,
                    ghost room: nat, ghost leaf: Pos, ghost i: nat)
      requires Valid() && Grew(sh, ino, n0, at0, nodes, nodeAddr) && Growth(sh, ino, n0, nodes, free, used, room, leaf, nid, i)
      requires i < Depth(leaf) && PosOk(sh, leaf) && used < |free| && used < room && c == free[used] && AllFree(n0, free, maxNid)
      requires Find(ino, nodes, Ancestor(leaf, i + 1)) == 0
      requires slot < Fanout(sh, Ancestor(leaf, i)) && Child(sh, Ancestor(leaf, i), slot) == Ancestor(leaf, i + 1)
      modifies this
      ensures Valid() && Grew(sh, ino, n0, at0, nodes, nodeAddr) && Growth(sh, ino, n0, nodes, free, used + 1, room, leaf, c, i + 1)
    {
      ghost var a, at := nodes, nodeAddr;
      GrowthCan(sh, ino, n0, a, free, used, room, leaf, nid, i, slot, c, maxNid);
      hide Accounted, Grew, Growth, TreeOk;
      AddNode(nid, slot, c);
      GrownGrew(sh, ino, a, at, nid, slot, c);
      GrewTwice(sh, ino, n0, at0, a, at, nodes, nodeAddr);
      GrowthStep(sh, ino, n0, a, free, used, room, leaf, nid, i, slot, c);
    }

    lemma GrownCosts(nid: nat, slot: nat, c: nat)
      requires Valid() && CanGrow(sh, ino, nodes, nid, slot, c) && c < maxNid
      ensures var b, at := Grown(sh, nodes, nid, slot, c), nodeAddr[c := NEW_ADDR];
              && Charge(b, maxNid) == Charge(nodes, maxNid) + 1 && |b| == |nodes| + 1
              && TreeOk(sh, ino, b) && Called(sh, b, at, b, at, []) && forall n :: n in b ==> n < maxNid
    {
      var b: map<nat, Node>, at: map<nat, nat> := Grown(sh, nodes, nid, slot, c), nodeAddr[c := NEW_ADDR];
      GrownOk(sh, ino, nodes, nid, slot, c);
      GrownPlaces(sh, ino, nodes, nid, slot, c);
      assert AddrsCut(origin, originAddr, nodes, nodeAddr);
      GrownCharge(sh, nodes, nid, slot, c, maxNid);
      hide Grown, CanGrow, Charge, Called, Child;
      CalledAtFirst(sh, b, at);
    }

    method GrowNodes(nid: nat, slot: nat, c: nat)
      requires nid in nodes && slot < |nodes[nid].nids| && slot < Fanout(sh, nodes[nid].pos)
      modifies `nodes
      ensures nid in old(nodes) && slot < |old(nodes)[nid].nids| && slot < Fanout(sh, old(nodes)[nid].pos)
      ensures nodes == Grown(sh, old(nodes), nid, slot, c)
    {
      var p := Child(sh, nodes[nid].pos, slot);
      nodes := nodes[nid := nodes[nid].(nids := nodes[nid].nids[slot := c])]
                    [c := Node(p, seq(Slots(sh, p), _ => NULL_ADDR), seq(Fanout(sh, p), _ => 0))];
    }

    // ----------------------------------------------------- truncate_blocks

    /**
      truncate_blocks for a file without inline data: from is a size in bytes. bug
      stands for the BUG() that get_node_path runs into at the end of the tree.
     */
    method TruncateBlocks(from: nat, blocksize: nat) returns (bug: bool, err: int)
      requires Valid() && blocksize > 0
      modifies this
      ensures var f := (from + blocksize - 1) / blocksize;
              && (bug <==> f >= sh.Capacity() || GoesOnAt(sh, ino, old(nodes), f) >= sh.Capacity())
              && (!bug ==> err == 0 && Valid() && Start(sh, LeafAt(sh, f)) <= f && Truncated(sh, ino, old(nodes), nodes, f))
      ensures !bug ==>
                && old(iBlocks) - iBlocks == Charge(old(nodes), maxNid) - Charge(nodes, maxNid)
                && old(validBlocks) - validBlocks == Charge(old(nodes), maxNid) - Charge(nodes, maxNid)
                && old(validNodes) - validNodes == |old(nodes)| - |nodes|
      ensures !bug ==> Called(sh, old(nodes), old(nodeAddr), nodes, nodeAddr, calls)
    {
      NoteCalls();
      hide Called, TreeOk, Truncated;
      bug, err := TruncateFrom((from + blocksize - 1) / blocksize);
    }

    /** From here on the calls are noted. */
    ghost method NoteCalls()
      requires Valid()
      modifies `origin, `originAddr, `calls
      ensures Valid() && origin == nodes && originAddr == nodeAddr
    {
      CalledAtFirst(sh, nodes, nodeAddr);
      hide Called, TreeOk;
      origin, originAddr, calls := nodes, nodeAddr, [];
    }

    /** truncate_blocks from page index f on. */
    method TruncateFrom(f: nat) returns (bug: bool, err: int)
      requires Valid()
      modifies `nodes, `nodeAddr, `iBlocks, `validBlocks, `validNodes, `calls
      ensures bug <==> f >= sh.Capacity() || GoesOnAt(sh, ino, old(nodes), f) >= sh.Capacity()
      ensures !bug ==> err == 0 && Valid() && Start(sh, LeafAt(sh, f)) <= f && Truncated(sh, ino, old(nodes), nodes, f)
    {
      hide Accounted, Called;
      ghost var n0 := nodes;
      var nid, ofs;
      bug, err, nid, ofs := GetDnodeOfData(f);
      if bug { return; }
      var next := TruncateLeaf(f, err, nid, ofs);
      if next < sh.Capacity() { GoesOnAtLeafStart(sh, ino, n0, f); }
      if next < sh.Capacity() { SameTreeFind(ino, n0, nodes, LeafAt(sh, next)); }
      GoesOnBeyondInode(sh, ino, n0, f);
      bug, err := TruncateInodeBlocks(next);
    }

    /** The part of truncate_blocks before free_next: clears the end of the leaf at f, if it exists. */
    method TruncateLeaf(f: nat, err: int, nid: nat, ofs: nat) returns (next: nat)
      requires Valid() && f < sh.Capacity() && (err == 0 <==> Find(ino, nodes, LeafAt(sh, f)) != 0)
      requires err == 0 ==> nid == Find(ino, nodes, LeafAt(sh, f)) && nid in nodes && nodes[nid].pos == LeafAt(sh, f)
      requires err == 0 ==> ofs == f - Start(sh, LeafAt(sh, f)) && ofs < |nodes[nid].addrs|
      modifies `nodes, `nodeAddr, `iBlocks, `validBlocks, `validNodes, `calls
      ensures Valid() && Start(sh, LeafAt(sh, f)) <= f
      ensures nodes == PartCleared(sh, ino, old(nodes), f) && next == GoesOnAt(sh, ino, old(nodes), f)
      ensures SameTree(old(nodes), nodes)
    {
      hide Accounted, Called;
      PartClearedTree(sh, ino, nodes, f);
      next := f;
      if err == 0 {
        assert NodeOk(sh, nodes[nid]);
        var count: nat := |nodes[nid].addrs| - ofs;
        if ofs != 0 || nodes[nid].pos.Root? {
          ClearTail(nid, ofs, count);
          next := f + count;
        }
      }
    }

    /** The call of truncate_data_blocks_range in truncate_blocks. */
    method ClearTail(nid: nat, ofs: nat, count: nat)
      requires Valid() && nid in nodes && ofs + count == |nodes[nid].addrs|
      modifies `nodes, `nodeAddr, `iBlocks, `validBlocks, `validNodes, `calls
      ensures nid in old(nodes) && nodes == old(nodes)[nid := old(nodes)[nid].(addrs := CutAddrs(old(nodes)[nid].addrs, ofs))]
      ensures Valid()
    {
      hide Accounted, Called;
      ghost var n0 := nodes;
      var _ := TruncateDataBlocksRange(nid, ofs, count);
      assert nodes[nid].addrs == CutAddrs(n0[nid].addrs, ofs);
      SameTreeOk(sh, ino, n0, nodes);
    }
  }

  lemma AncestorAtRoot(p: Pos)
    ensures Ancestor(p, 0) == Root
    decreases Depth(p)
  {
    if !p.Root? { AncestorAtRoot(Parent(p)); }
  }

  lemma {:induction false} AncestorStep(sh: Shape, p: Pos, d: nat)
    requires PosOk(sh, p) && d < Depth(p)
    ensures var a := Ancestor(p, d + 1);
            && !a.Root? && PosOk(sh, a) && Parent(a) == Ancestor(p, d) && SlotOf(a) < Fanout(sh, Parent(a))
            && Child(sh, Parent(a), SlotOf(a)) == a
    decreases Depth(p)
  {
    ParentChild(sh, p);
    if d + 1 < Depth(p) {
      AncestorStep(sh, Parent(p), d);
    } else {
      assert Ancestor(p, d) == Ancestor(Parent(p), d) == Parent(p);
    }
  }

  lemma {:induction false} MissingAbove(ino: nat, nodes: map<nat, Node>, p: Pos, d: nat)
    requires d <= Depth(p) && Find(ino, nodes, Ancestor(p, d)) == 0 && 0 !in nodes
    ensures Find(ino, nodes, p) == 0
    decreases Depth(p)
  {
    if d < Depth(p) { MissingAbove(ino, nodes, Parent(p), d); }
  }

  lemma GoesOnBeyondInode(sh: Shape, ino: nat, nodes: map<nat, Node>, f: nat)
    requires TreeOk(sh, ino, nodes) && f < sh.Capacity()
    ensures sh.perInode <= GoesOnAt(sh, ino, nodes, f)
  {
    LeafHolds(sh, f);
    var leaf := LeafAt(sh, f);
    if !leaf.Root? { LeafMultiple(sh, leaf); }
  }

  /** The leaf that ends where the tree ends. */
  function LastLeaf(sh: Shape): Pos
    requires sh.Valid()
  {
    DindLeaf(sh.nids - 1, sh.nids - 1)
  }

  lemma LastLeafEnds(sh: Shape)
    requires sh.Valid()
    ensures PosOk(sh, LastLeaf(sh)) && Start(sh, LastLeaf(sh)) + sh.perBlock == sh.Capacity()
  {
    var n, s := sh.nids, sh.IndSpan();
    assert (n - 1) * s == sh.DindSpan() - s;
    assert (n - 1) * sh.perBlock == s - sh.perBlock;
  }

  /** When truncate_blocks stops the system: the cut lies inside the last leaf of the tree, and the file has that leaf. */
  lemma StopsInLastLeaf(sh: Shape, ino: nat, nodes: map<nat, Node>, f: nat)
    requires TreeOk(sh, ino, nodes) && f < sh.Capacity()
    ensures GoesOnAt(sh, ino, nodes, f) >= sh.Capacity()
            <==> Start(sh, LastLeaf(sh)) < f && Find(ino, nodes, LastLeaf(sh)) != 0
  {
    var leaf, last := LeafAt(sh, f), LastLeaf(sh);
    LeafHolds(sh, f);
    LastLeafEnds(sh);
    FindIs(sh, ino, nodes, leaf);
    if Start(sh, last) <= f {
      LeafIsUnique(sh, last, f - Start(sh, last));
    } else {
      LeavesInOrder(sh, leaf, last, f, Start(sh, last));
    }
  }

  /** A file with one block, the last that such a small tree can address. */
  function EndOfTree(): map<nat, Node> {
    map[1 := Node(Root, [0], [0, 0, 0, 0, 2]), 2 := Node(Dind, [], [3]), 3 := Node(DindInd(0), [], [4]),
        4 := Node(DindLeaf(0, 0), [0, 9], [])]
  }

  lemma EndOfTreeLinks(n: nat)
    requires n in EndOfTree()
    ensures NodeOk(Shape(1, 2, 1), EndOfTree()[n]) && (EndOfTree()[n].pos == Root <==> n == 1)
    ensures forall m :: m in EndOfTree() && EndOfTree()[m].pos == EndOfTree()[n].pos ==> m == n
    ensures n < 4 ==> var p, k := EndOfTree()[n], |EndOfTree()[n].nids| - 1;
                      && k >= 0 && p.nids[k] == n + 1 && n + 1 in EndOfTree() && (forall i: nat :: i < k ==> p.nids[i] == 0)
                      && EndOfTree()[n + 1].pos == Child(Shape(1, 2, 1), p.pos, k)
    ensures n == 4 ==> EndOfTree()[n].nids == []
  {
  }

  lemma EndOfTreeNodes()
    ensures var sh, nodes := Shape(1, 2, 1), EndOfTree();
            && NodesOk(sh, nodes) && (forall n :: n in nodes <==> 1 <= n <= 4)
            && forall n :: n in nodes && n != 1 ==> Owned(sh, nodes, n)
  {
    var sh, nodes := Shape(1, 2, 1), EndOfTree();
    assert forall n :: n in nodes <==> 1 <= n <= 4;
    hide EndOfTree;
    forall n | n in nodes ensures NodeOk(sh, nodes[n]) { EndOfTreeLinks(n); }
    forall n | n in nodes && n != 1 ensures Owned(sh, nodes, n) {
      EndOfTreeLinks(n - 1);
      EndOfTreeLinks(n);
      ChildParent(sh, nodes[n - 1].pos, |nodes[n - 1].nids| - 1);
    }
  }

  lemma EndOfTreeOk()
    ensures TreeOk(Shape(1, 2, 1), 1, EndOfTree())
  {
    var sh, nodes := Shape(1, 2, 1), EndOfTree();
    EndOfTreeNodes();
    EndOfTreeLinks(1);
    hide EndOfTree, Owned, NodeOk;
    forall m, n | m in nodes && n in nodes && nodes[m].pos == nodes[n].pos ensures m == n { EndOfTreeLinks(n); }
    forall n, i: nat | n in nodes && i < |nodes[n].nids| ensures Linked(sh, nodes, n, i) { EndOfTreeLinks(n); }
    hide Linked;
  }

  /** Cutting that block off stops the system. */
  lemma StopsAtEndOfTree()
    ensures var sh := Shape(1, 2, 1);
            && TreeOk(sh, 1, EndOfTree()) && sh.Capacity() == 11
            && Lookup(sh, 1, EndOfTree(), 10) == 9 && GoesOnAt(sh, 1, EndOfTree(), 10) == 11
  {
    var sh, nodes := Shape(1, 2, 1), EndOfTree();
    EndOfTreeOk();
    LeafIsUnique(sh, LastLeaf(sh), 1);
    FindFinds(sh, 1, nodes, 4);
    hide TreeOk, Find, LeafAt;
  }

  /** The inode and its pointers stay while a child's subtree goes. */
  lemma SlotKept(sh: Shape, ino: nat, a: map<nat, Node>, b: map<nat, Node>, i: nat, ofs: nat)
    requires TreeOk(sh, ino, a) && 2 <= i < 5
    requires var p := Child(sh, Root, i); Trimmed(sh, a, b, Doomed(sh, p, ofs), Below(p, ofs, sh.nids))
    ensures ino in b && b[ino].pos == Root && b[ino].nids == a[ino].nids && |a[ino].nids| == 5
  {
    assert NodeOk(sh, a[ino]);
  }
}
