/**
  Roll-forward after a crash: two passes over the chain of node blocks written
  since the last checkpoint. The first finds which inodes were fsynced and up to
  which block, the second replays exactly those blocks.
 */
module Recovery {

  /** What recovery looks at in a node block: its footer and fsync marks. */
  datatype NodePage = NodePage(nid: nat, ino: nat, cpVer: nat, next: nat, fsync: bool, dent: bool)
  {
    predicate IsInode() { nid == ino }
  }

  /** The device: node blocks of the main area, and the version of the last checkpoint. */
  datatype Device = Device(pages: map<nat, NodePage>, cpVer: nat, mainStart: nat, mainEnd: nat)
  {
    /** The walk goes on through blocks of the main area that carry the checkpoint's version. */
    predicate OnChain(a: nat) { mainStart <= a < mainEnd && a in pages && pages[a].cpVer == cpVer }

    ghost predicate Readable() { mainStart > 0 && forall a: nat :: mainStart <= a < mainEnd ==> a in pages }
  }

  ghost predicate On(d: Device, chain: seq<nat>) {
    forall i {:trigger chain[i]} :: 0 <= i < |chain| ==> d.OnChain(chain[i])
  }

  /** The blocks the walk from start visits, each once. */
  ghost predicate IsChain(d: Device, start: nat, chain: seq<nat>) {
    && On(d, chain)
    && (forall i, j :: 0 <= i < j < |chain| ==> chain[i] != chain[j])
    && (forall i :: 0 <= i < |chain| - 1 ==> chain[i + 1] == d.pages[chain[i]].next)
    && (if chain == [] then !d.OnChain(start) else chain[0] == start && !d.OnChain(d.pages[chain[|chain| - 1]].next))
  }

  // ------------------------------------------------------- what should be replayed

  /** Kinds of fsync-marked blocks: any, inode blocks, inode blocks with a dentry mark. */
  datatype Kind = AnyNode | InodeBlock | DentryBlock

  predicate Marked(p: NodePage, ino: nat, k: Kind) {
    && p.fsync && p.ino == ino
    && (k == AnyNode || p.IsInode()) && (k == DentryBlock ==> p.dent)
  }

  /** The last of the first n blocks that is marked for ino, or -1. */
  ghost function Last(d: Device, chain: seq<nat>, n: nat, ino: nat, k: Kind): int
    requires n <= |chain| && On(d, chain)
  {
    if n == 0 then -1
    else if Marked(d.pages[chain[n - 1]], ino, k) then n - 1
    else Last(d, chain, n - 1, ino, k)
  }

  lemma {:induction false} LastIs(d: Device, chain: seq<nat>, n: nat, ino: nat, k: Kind)
    requires n <= |chain| && On(d, chain)
    ensures var l := Last(d, chain, n, ino, k);
            && -1 <= l < n && (l >= 0 ==> Marked(d.pages[chain[l]], ino, k))
            && forall i :: l < i < n ==> !Marked(d.pages[chain[i]], ino, k)
  {
    if n > 0 { LastIs(d, chain, n - 1, ino, k); }
  }

  /**
    An inode is recovered if some block of it was fsynced and it can be read: it
    was there at the checkpoint, or its inode block was fsynced with a dentry mark.
   */
  ghost predicate Recovered(d: Device, chain: seq<nat>, n: nat, there: set<nat>, ino: nat)
    requires n <= |chain| && On(d, chain)
  {
    (ino in there && Last(d, chain, n, ino, AnyNode) >= 0) || Last(d, chain, n, ino, DentryBlock) >= 0
  }

  /**
    recover_inode_page refuses the block at i: it would bring back an inode that the
    checkpoint has, and no block before it has put this inode on the list.
   */
  ghost predicate Refused(d: Device, chain: seq<nat>, there: set<nat>, i: nat)
    requires i < |chain| && On(d, chain)
  {
    var p := d.pages[chain[i]];
    Marked(p, p.ino, DentryBlock) && p.ino in there && Last(d, chain, i, p.ino, AnyNode) < 0
  }

  const EINVAL: int := 22

  /** What is done with a block: its data replayed, and the inode or its dentry too. */
  datatype Replay = Replay(addr: nat, inode: bool, dentry: bool)

  /** The block at i belongs to a recovered inode and does not come after its last fsync. */
  ghost predicate Replayed(d: Device, chain: seq<nat>, there: set<nat>, i: nat)
    requires i < |chain| && On(d, chain)
  {
    var ino := d.pages[chain[i]].ino;
    Recovered(d, chain, |chain|, there, ino) && i <= Last(d, chain, |chain|, ino, AnyNode)
  }

  /** All replays, in chain order. */
  ghost function Replays(d: Device, chain: seq<nat>, there: set<nat>, n: nat): seq<Replay>
    requires n <= |chain| && On(d, chain)
  {
    if n == 0 then []
    else
      var i := n - 1;
      var ino := d.pages[chain[i]].ino;
      Replays(d, chain, there, i)
        + if Replayed(d, chain, there, i)
          then [Replay(chain[i], i == Last(d, chain, |chain|, ino, InodeBlock), i == Last(d, chain, |chain|, ino, DentryBlock))]
          else []
  }

  /** An fsync-marked block of the inode at i or behind it. */
  ghost predicate FsyncedFrom(d: Device, chain: seq<nat>, i: nat, ino: nat)
    requires On(d, chain)
  {
    exists j :: i <= j < |chain| && d.pages[chain[j]].fsync && d.pages[chain[j]].ino == ino
  }

  /**
    A block is replayed exactly if it, or one of its inode behind it, was fsynced, and
    the inode is there at the checkpoint or was fsynced with a dentry mark.
   */
  lemma ReplayedIs(d: Device, chain: seq<nat>, there: set<nat>, i: nat)
    requires i < |chain| && On(d, chain)
    ensures var ino := d.pages[chain[i]].ino;
            Replayed(d, chain, there, i) <==>
              && FsyncedFrom(d, chain, i, ino)
              && (ino in there || exists k :: 0 <= k < |chain| && var p := d.pages[chain[k]]; p.fsync && p.dent && p.nid == p.ino == ino)
  {
    var ino := d.pages[chain[i]].ino;
    LastIs(d, chain, |chain|, ino, AnyNode);
    LastIs(d, chain, |chain|, ino, DentryBlock);
  }

  /** The first block of an inode that the checkpoint has makes recovery fail if it is one that brings inodes back. */
  lemma RefusedIsFirst(d: Device, chain: seq<nat>, there: set<nat>, i: nat)
    requires i < |chain| && On(d, chain)
    ensures var p := d.pages[chain[i]];
            Refused(d, chain, there, i) <==>
              && p.fsync && p.dent && p.nid == p.ino && p.ino in there
              && forall j :: 0 <= j < i ==> !(d.pages[chain[j]].fsync && d.pages[chain[j]].ino == p.ino)
  {
    LastIs(d, chain, i, d.pages[chain[i]].ino, AnyNode);
  }

  /** The last fsynced block of the inode that is an inode block, with a dentry mark if dent. */
  ghost predicate LastInode(d: Device, chain: seq<nat>, i: nat, dent: bool)
    requires i < |chain| && On(d, chain)
  {
    var p := d.pages[chain[i]];
    && p.fsync && p.nid == p.ino && (dent ==> p.dent)
    && forall j :: i < j < |chain| ==>
         var q := d.pages[chain[j]]; !(q.fsync && q.nid == q.ino == p.ino && (dent ==> q.dent))
  }

  /** The replays are those of these blocks, in the order of the chain, with the inode and the dentry at the last blocks marked for them. */
  lemma {:induction false} ReplaysAre(d: Device, chain: seq<nat>, there: set<nat>, n: nat) returns (at: seq<nat>)
    requires n <= |chain| && On(d, chain)
    ensures var r := Replays(d, chain, there, n);
            && |at| == |r| && (forall a, b :: 0 <= a < b < |at| ==> at[a] < at[b])
            && (forall i: nat :: i in at <==> i < n && Replayed(d, chain, there, i))
            && forall a :: 0 <= a < |r| ==>
                 at[a] < n && r[a] == Replay(chain[at[a]], LastInode(d, chain, at[a], false), LastInode(d, chain, at[a], true))
  {
    at := [];
    if n > 0 {
      at := ReplaysAre(d, chain, there, n - 1);
      if Replayed(d, chain, there, n - 1) {
        at := at + [n - 1];
        LastIs(d, chain, |chain|, d.pages[chain[n - 1]].ino, InodeBlock);
        LastIs(d, chain, |chain|, d.pages[chain[n - 1]].ino, DentryBlock);
      }
    }
  }

  // ------------------------------------------------------- the list of fsynced inodes

  /** fsync_inode_entry; addresses are 0 while none was seen. */
  datatype FsyncEntry = FsyncEntry(ino: nat, blkaddr: nat, lastInode: nat, lastDentry: nat)

  ghost predicate UniqueInos(l: seq<FsyncEntry>) { forall i, j :: 0 <= i < j < |l| ==> l[i].ino != l[j].ino }

  ghost function AddrAt(chain: seq<nat>, i: int): nat
    requires -1 <= i < |chain|
  {
    if i < 0 then 0 else chain[i]
  }

  /** The entry records the last marked blocks among the first n. */
  ghost predicate EntryOk(d: Device, chain: seq<nat>, n: nat, e: FsyncEntry)
    requires n <= |chain| && On(d, chain)
  {
    LastIs(d, chain, n, e.ino, AnyNode);
    LastIs(d, chain, n, e.ino, InodeBlock);
    LastIs(d, chain, n, e.ino, DentryBlock);
    && e.blkaddr == AddrAt(chain, Last(d, chain, n, e.ino, AnyNode))
    && e.lastInode == AddrAt(chain, Last(d, chain, n, e.ino, InodeBlock))
    && e.lastDentry == AddrAt(chain, Last(d, chain, n, e.ino, DentryBlock))
  }

  ghost predicate Listed(l: seq<FsyncEntry>, ino: nat) { exists i :: 0 <= i < |l| && l[i].ino == ino }

  /** The list after the first n blocks of the first pass. */
  ghost predicate ListOk(d: Device, chain: seq<nat>, n: nat, there: set<nat>, l: seq<FsyncEntry>)
    requires n <= |chain| && On(d, chain)
  {
    && UniqueInos(l)
    && (forall i :: 0 <= i < |l| ==> EntryOk(d, chain, n, l[i]))
    && forall ino: nat :: Listed(l, ino) <==> Recovered(d, chain, n, there, ino)
  }

  /** Inodes that can be read: those of the checkpoint, and those whose inode block was brought back. */
  ghost predicate ThereOk(d: Device, chain: seq<nat>, n: nat, there: set<nat>, now: set<nat>)
    requires n <= |chain| && On(d, chain)
  {
    forall ino: nat :: ino in now <==> ino in there || Last(d, chain, n, ino, DentryBlock) >= 0
  }

  class RollForward {
    const dev: Device
    /** inodes that f2fs_iget finds */
    var there: set<nat>
    var inodeList: seq<FsyncEntry>
    /** what was replayed, oldest first */
    var replayed: seq<Replay>

    constructor (d: Device, inodes: set<nat>)
      ensures dev == d && there == inodes && inodeList == [] && replayed == []
    {
      dev, there, inodeList, replayed := d, inodes, [], [];
    }

    /** get_fsync_inode: the position of the entry of ino, or the length of the list. */
    method GetFsyncInode(ino: nat) returns (k: nat)
      ensures k <= |inodeList| && (k < |inodeList| ==> inodeList[k].ino == ino)
      ensures k == |inodeList| ==> !Listed(inodeList, ino)
    {
      k := 0;
      while k < |inodeList|
        invariant k <= |inodeList| && forall i :: 0 <= i < k ==> inodeList[i].ino != ino
      {
        if inodeList[k].ino == ino { return; }
        k := k + 1;
      }
    }

    /** recover_inode_page: an inode that has a block already is refused. */
    method RecoverInodePage(ino: nat) returns (err: int)
      modifies this`there
      ensures if ino in old(there) then err == -EINVAL && there == old(there) else err == 0 && there == old(there) + {ino}
    {
      if ino in there { return -EINVAL; }
      there := there + {ino};
      return 0;
    }

    /** The body of find_fsync_dnodes for a block that carries an fsync mark. */
    method NoteFsync(blkaddr: nat, ghost chain: seq<nat>, ghost n: nat, ghost was: set<nat>) returns (err: int)
      requires n < |chain| && On(dev, chain) && blkaddr == chain[n]
      requires dev.pages[blkaddr].fsync
      requires ListOk(dev, chain, n, was, inodeList) && ThereOk(dev, chain, n, was, there)
      modifies this`there, this`inodeList
      ensures err == if Refused(dev, chain, was, n) then -EINVAL else 0
      ensures err == 0 ==> ListOk(dev, chain, n + 1, was, inodeList) && ThereOk(dev, chain, n + 1, was, there)
    {
      var page := dev.pages[blkaddr];
      ghost var l0 := inodeList;
      var k := GetFsyncInode(page.ino);
      RefusedIs(dev, chain, n, was, l0, there);
      err := 0;
      if k == |inodeList| {
        if page.IsInode() && page.dent {
          err := RecoverInodePage(page.ino);
          if err != 0 { return; }
        }
        ThereAfter(dev, chain, n, was, l0, there);
        if page.ino !in there {
          NotListed(dev, chain, n, was, l0);
          return;
        }
        inodeList := inodeList + [FsyncEntry(page.ino, 0, 0, 0)];
      } else {
        ThereAfter(dev, chain, n, was, l0, there);
      }
      var e := inodeList[k].(blkaddr := blkaddr);
      if page.IsInode() {
        e := e.(lastInode := blkaddr);
        if page.dent { e := e.(lastDentry := blkaddr); }
      }
      inodeList := inodeList[k := e];
      ListAfter(dev, chain, n, was, l0, inodeList, k);
    }

    /** find_fsync_dnodes: which inodes were fsynced, and the last blocks that say so. */
    method FindFsyncDnodes(start: nat, ghost chain: seq<nat>) returns (err: int)
      requires dev.Readable() && IsChain(dev, start, chain) && inodeList == []
      modifies this`there, this`inodeList
      ensures err == 0 || err == -EINVAL
      ensures err != 0 <==> exists i: nat :: i < |chain| && Refused(dev, chain, old(there), i)
      ensures err == 0 ==> ListOk(dev, chain, |chain|, old(there), inodeList)
    {
      ghost var n: nat, was := 0, there;
      var blkaddr: nat := start;
      err := 0;
      while true
        invariant n <= |chain| && (if n < |chain| then blkaddr == chain[n] else !dev.OnChain(blkaddr))
        invariant err == 0 && forall i: nat :: i < n ==> !Refused(dev, chain, was, i)
        invariant ListOk(dev, chain, n, was, inodeList) && ThereOk(dev, chain, n, was, there)
        decreases |chain| - n
      {
        if blkaddr < dev.mainStart || blkaddr >= dev.mainEnd { return; }
        var page := dev.pages[blkaddr];
        if dev.cpVer != page.cpVer { break; }
        if page.fsync {
          err := NoteFsync(blkaddr, chain, n, was);
          if err != 0 { return; }
        } else {
          NothingMarked(dev, chain, n, was, inodeList, there);
        }
        n := n + 1;
        blkaddr := page.next;
      }
    }

    /** recover_data: replays every block of a listed inode until the inode's last fsync-marked block. */
    method RecoverData(start: nat, ghost chain: seq<nat>, ghost was: set<nat>)
      requires dev.Readable() && IsChain(dev, start, chain) && ListOk(dev, chain, |chain|, was, inodeList) && replayed == []
      modifies this`inodeList, this`replayed
      ensures inodeList == [] && replayed == Replays(dev, chain, was, |chain|)
    {
      ghost var n: nat := 0;
      var blkaddr: nat := start;
      WaitingBegins(dev, chain, was, inodeList);
      while true
        invariant n <= |chain| && (if n < |chain| then blkaddr == chain[n] else !dev.OnChain(blkaddr))
        invariant Waiting(dev, chain, n, was, inodeList) && replayed == Replays(dev, chain, was, n)
        decreases |chain| - n
      {
        if blkaddr < dev.mainStart || blkaddr >= dev.mainEnd { break; }
        var page := dev.pages[blkaddr];
        if dev.cpVer != page.cpVer { break; }
        ghost var l0 := inodeList;
        var k := GetFsyncInode(page.ino);
        ReplayedIsListed(dev, chain, n, was, l0);
        if k < |inodeList| {
          var e := inodeList[k];
          EntryAddrs(dev, chain, n, e);
          replayed := replayed + [Replay(blkaddr, e.lastInode == blkaddr, e.lastDentry == blkaddr)];
          if e.blkaddr == blkaddr {
            inodeList := inodeList[..k] + inodeList[k + 1..];
          }
          WaitingStep(dev, chain, n, was, l0, k, inodeList);
        } else {
          WaitingSkips(dev, chain, n, was, l0);
        }
        n := n + 1;
        blkaddr := page.next;
      }
      WaitingEnds(dev, chain, was, inodeList);
    }

    /**
      recover_fsync_data on a chain without errors of the device: it fails exactly if
      some block is refused, and then replays nothing; otherwise the blocks replayed are
      exactly those of the recovered inodes up to their last fsync, in chain order.
     */
    method RecoverFsyncData(start: nat, ghost chain: seq<nat>) returns (err: int)
      requires dev.Readable() && IsChain(dev, start, chain) && inodeList == [] && replayed == []
      modifies this
      ensures inodeList == [] && (err == 0 || err == -EINVAL)
      ensures err != 0 <==> exists i: nat :: i < |chain| && Refused(dev, chain, old(there), i)
      ensures replayed == if err == 0 then Replays(dev, chain, old(there), |chain|) else []
    {
      err := FindFsyncDnodes(start, chain);
      ghost var was := old(there);
      if err != 0 {
        inodeList := [];
        return;
      }
      if inodeList == [] {
        NothingToReplay(dev, chain, was, |chain|);
        return;
      }
      RecoverData(start, chain, was);
    }
  }

  /** An inode that is not listed and has a block was there at the checkpoint, and none of its blocks was marked yet. */
  lemma RefusedIs(d: Device, chain: seq<nat>, n: nat, was: set<nat>, l: seq<FsyncEntry>, now: set<nat>)
    requires n < |chain| && On(d, chain) && d.pages[chain[n]].fsync
    requires ListOk(d, chain, n, was, l) && ThereOk(d, chain, n, was, now)
    ensures var p := d.pages[chain[n]];
            Refused(d, chain, was, n) <==> !Listed(l, p.ino) && p.IsInode() && p.dent && p.ino in now
  {
    var p := d.pages[chain[n]];
    assert Listed(l, p.ino) <==> Recovered(d, chain, n, was, p.ino);
    if Recovered(d, chain, n, was, p.ino) { RecoveredHasLast(d, chain, n, was, p.ino); }
  }

  /** recover_inode_page has run if it was needed: an inode that is not listed and brought its dentry mark. */
  lemma ThereAfter(d: Device, chain: seq<nat>, n: nat, was: set<nat>, l: seq<FsyncEntry>, now: set<nat>)
    requires n < |chain| && On(d, chain) && d.pages[chain[n]].fsync
    requires ListOk(d, chain, n, was, l)
    requires var p := d.pages[chain[n]];
             if !Listed(l, p.ino) && p.IsInode() && p.dent
             then exists before: set<nat> :: ThereOk(d, chain, n, was, before) && now == before + {p.ino}
             else ThereOk(d, chain, n, was, now)
    ensures ThereOk(d, chain, n + 1, was, now)
  {
    var p := d.pages[chain[n]];
    forall ino: nat ensures ino in now <==> ino in was || Last(d, chain, n + 1, ino, DentryBlock) >= 0 {
      if Listed(l, p.ino) { assert Recovered(d, chain, n, was, p.ino); }
    }
  }

  /** A block of an inode that cannot be read is passed over. */
  lemma NotListed(d: Device, chain: seq<nat>, n: nat, was: set<nat>, l: seq<FsyncEntry>)
    requires n < |chain| && On(d, chain) && d.pages[chain[n]].fsync
    requires ListOk(d, chain, n, was, l) && !Listed(l, d.pages[chain[n]].ino)
    requires d.pages[chain[n]].ino !in was && Last(d, chain, n + 1, d.pages[chain[n]].ino, DentryBlock) < 0
    ensures ListOk(d, chain, n + 1, was, l)
  {
    var p := d.pages[chain[n]];
    forall i | 0 <= i < |l| ensures EntryOk(d, chain, n + 1, l[i]) { assert l[i].ino != p.ino; }
    forall ino: nat ensures Listed(l, ino) <==> Recovered(d, chain, n + 1, was, ino) {
      assert Listed(l, ino) <==> Recovered(d, chain, n, was, ino);
    }
  }

  /** The entry of the block's inode, new or old, now records the block. */
  lemma ListAfter(d: Device, chain: seq<nat>, n: nat, was: set<nat>, l: seq<FsyncEntry>, l': seq<FsyncEntry>, k: nat)
    requires n < |chain| && On(d, chain) && d.pages[chain[n]].fsync
    requires ListOk(d, chain, n, was, l) && k <= |l| && |l'| == (if k == |l| then |l| + 1 else |l|)
    requires forall i :: 0 <= i < |l| && i != k ==> l'[i] == l[i]
    requires var p := d.pages[chain[n]];
             && (if k == |l| then !Listed(l, p.ino) && (p.ino in was || (p.IsInode() && p.dent)) else l[k].ino == p.ino)
             && l'[k] == FsyncEntry(p.ino, chain[n], if p.IsInode() then chain[n] else if k < |l| then l[k].lastInode else 0,
                                    if p.IsInode() && p.dent then chain[n] else if k < |l| then l[k].lastDentry else 0)
    ensures ListOk(d, chain, n + 1, was, l')
  {
    var p := d.pages[chain[n]];
    forall i | 0 <= i < |l'| ensures EntryOk(d, chain, n + 1, l'[i]) {
      if i != k {
        assert EntryOk(d, chain, n, l[i]) && l[i].ino != p.ino;
      } else if k < |l| {
        assert EntryOk(d, chain, n, l[k]);
      } else {
        assert !Recovered(d, chain, n, was, p.ino);
        LastIs(d, chain, n, p.ino, AnyNode);
        LastIs(d, chain, n, p.ino, InodeBlock);
        LastIs(d, chain, n, p.ino, DentryBlock);
      }
    }
    forall ino: nat ensures Listed(l', ino) <==> Recovered(d, chain, n + 1, was, ino) {
      assert Listed(l, ino) <==> Recovered(d, chain, n, was, ino);
      assert l'[k].ino == p.ino;
      if Listed(l, ino) {
        var i :| 0 <= i < |l| && l[i].ino == ino;
        assert l'[i].ino == ino;
      }
    }
  }

  /** A block without an fsync mark changes nothing. */
  lemma NothingMarked(d: Device, chain: seq<nat>, n: nat, was: set<nat>, l: seq<FsyncEntry>, now: set<nat>)
    requires n < |chain| && On(d, chain) && !d.pages[chain[n]].fsync
    requires ListOk(d, chain, n, was, l) && ThereOk(d, chain, n, was, now)
    ensures ListOk(d, chain, n + 1, was, l) && ThereOk(d, chain, n + 1, was, now)
  {
    forall i | 0 <= i < |l| ensures EntryOk(d, chain, n + 1, l[i]) { assert EntryOk(d, chain, n, l[i]); }
    forall ino: nat ensures Listed(l, ino) <==> Recovered(d, chain, n + 1, was, ino) {
      assert Listed(l, ino) <==> Recovered(d, chain, n, was, ino);
    }
  }

  // ------------------------------------------------------- the second pass

  /** Inodes whose last fsync-marked block lies at n or beyond are still listed, and no others. */
  ghost predicate Waiting(d: Device, chain: seq<nat>, n: nat, was: set<nat>, l: seq<FsyncEntry>)
    requires n <= |chain| && On(d, chain)
  {
    && UniqueInos(l)
    && (forall i :: 0 <= i < |l| ==> EntryOk(d, chain, |chain|, l[i]))
    && forall ino: nat :: Listed(l, ino) <==> Recovered(d, chain, |chain|, was, ino) && Last(d, chain, |chain|, ino, AnyNode) >= n
  }

  /** A recovered inode has an fsync-marked block. */
  lemma RecoveredHasLast(d: Device, chain: seq<nat>, n: nat, was: set<nat>, ino: nat)
    requires n <= |chain| && On(d, chain) && Recovered(d, chain, n, was, ino)
    ensures Last(d, chain, n, ino, AnyNode) >= 0
  {
    LastIs(d, chain, n, ino, AnyNode);
    LastIs(d, chain, n, ino, DentryBlock);
  }

  lemma WaitingBegins(d: Device, chain: seq<nat>, was: set<nat>, l: seq<FsyncEntry>)
    requires On(d, chain) && ListOk(d, chain, |chain|, was, l)
    ensures Waiting(d, chain, 0, was, l)
  {
    forall ino: nat ensures Listed(l, ino) <==> Recovered(d, chain, |chain|, was, ino) && Last(d, chain, |chain|, ino, AnyNode) >= 0 {
      assert Listed(l, ino) <==> Recovered(d, chain, |chain|, was, ino);
      if Recovered(d, chain, |chain|, was, ino) { RecoveredHasLast(d, chain, |chain|, was, ino); }
    }
  }

  lemma ReplayedIsListed(d: Device, chain: seq<nat>, n: nat, was: set<nat>, l: seq<FsyncEntry>)
    requires n < |chain| && On(d, chain) && Waiting(d, chain, n, was, l)
    ensures Replayed(d, chain, was, n) <==> Listed(l, d.pages[chain[n]].ino)
  {
    var ino := d.pages[chain[n]].ino;
    assert Listed(l, ino) <==> Recovered(d, chain, |chain|, was, ino) && Last(d, chain, |chain|, ino, AnyNode) >= n;
  }

  /** Addresses stand for positions, since no block is visited twice. */
  lemma EntryAddrs(d: Device, chain: seq<nat>, n: nat, e: FsyncEntry)
    requires d.mainStart > 0 && n < |chain| && On(d, chain) && forall i, j :: 0 <= i < j < |chain| ==> chain[i] != chain[j]
    requires EntryOk(d, chain, |chain|, e)
    ensures (e.blkaddr == chain[n] <==> Last(d, chain, |chain|, e.ino, AnyNode) == n)
    ensures (e.lastInode == chain[n] <==> Last(d, chain, |chain|, e.ino, InodeBlock) == n)
    ensures (e.lastDentry == chain[n] <==> Last(d, chain, |chain|, e.ino, DentryBlock) == n)
  {
    LastIs(d, chain, |chain|, e.ino, AnyNode);
    LastIs(d, chain, |chain|, e.ino, InodeBlock);
    LastIs(d, chain, |chain|, e.ino, DentryBlock);
    assert d.OnChain(chain[n]);
  }

  /** An inode leaves the list with its last fsync-marked block. */
  lemma WaitingStep(d: Device, chain: seq<nat>, n: nat, was: set<nat>, l: seq<FsyncEntry>, k: nat, l': seq<FsyncEntry>)
    requires n < |chain| && On(d, chain) && Waiting(d, chain, n, was, l) && k < |l| && l[k].ino == d.pages[chain[n]].ino
    requires l' == if Last(d, chain, |chain|, l[k].ino, AnyNode) == n then l[..k] + l[k + 1..] else l
    ensures Waiting(d, chain, n + 1, was, l')
  {
    var here := l[k].ino;
    RemovedFrom(l, k, l', here);
    forall ino: nat
      ensures Listed(l', ino) <==> Recovered(d, chain, |chain|, was, ino) && Last(d, chain, |chain|, ino, AnyNode) >= n + 1
    {
      assert Listed(l, ino) <==> Recovered(d, chain, |chain|, was, ino) && Last(d, chain, |chain|, ino, AnyNode) >= n;
      if ino != here { OtherLast(d, chain, n, ino, here); }
      RemovedFrom(l, k, l', ino);
    }
  }

  lemma OtherLast(d: Device, chain: seq<nat>, n: nat, ino: nat, here: nat)
    requires n < |chain| && On(d, chain) && d.pages[chain[n]].ino == here != ino
    ensures Last(d, chain, |chain|, ino, AnyNode) != n
  {
    LastIs(d, chain, |chain|, ino, AnyNode);
  }

  lemma RemovedFrom(l: seq<FsyncEntry>, k: nat, l': seq<FsyncEntry>, ino: nat)
    requires UniqueInos(l) && k < |l|
    ensures l' == l[..k] + l[k + 1..] ==> (Listed(l', ino) <==> Listed(l, ino) && ino != l[k].ino) && UniqueInos(l')
  {
    if l' == l[..k] + l[k + 1..] {
      if Listed(l, ino) && ino != l[k].ino {
        var i :| 0 <= i < |l| && l[i].ino == ino;
        assert l'[if i < k then i else i - 1].ino == ino;
      }
      if Listed(l', ino) {
        var i :| 0 <= i < |l'| && l'[i].ino == ino;
        assert l[if i < k then i else i + 1].ino == ino;
      }
    }
  }

  lemma WaitingSkips(d: Device, chain: seq<nat>, n: nat, was: set<nat>, l: seq<FsyncEntry>)
    requires n < |chain| && On(d, chain) && Waiting(d, chain, n, was, l) && !Listed(l, d.pages[chain[n]].ino)
    ensures Waiting(d, chain, n + 1, was, l)
  {
    forall ino: nat
      ensures Listed(l, ino) <==> Recovered(d, chain, |chain|, was, ino) && Last(d, chain, |chain|, ino, AnyNode) >= n + 1
    {
      assert Listed(l, ino) <==> Recovered(d, chain, |chain|, was, ino) && Last(d, chain, |chain|, ino, AnyNode) >= n;
      LastIs(d, chain, |chain|, ino, AnyNode);
    }
  }

  lemma WaitingEnds(d: Device, chain: seq<nat>, was: set<nat>, l: seq<FsyncEntry>)
    requires On(d, chain) && Waiting(d, chain, |chain|, was, l)
    ensures l == []
  {
    if l != [] {
      assert Listed(l, l[0].ino);
      LastIs(d, chain, |chain|, l[0].ino, AnyNode);
    }
  }

  lemma {:induction false} NothingToReplay(d: Device, chain: seq<nat>, was: set<nat>, n: nat)
    requires n <= |chain| && On(d, chain) && ListOk(d, chain, |chain|, was, [])
    ensures Replays(d, chain, was, n) == []
  {
    if n > 0 {
      NothingToReplay(d, chain, was, n - 1);
      assert !Listed([], d.pages[chain[n - 1]].ino);
    }
  }
}
