/**
  The ownership theorem in terms of the raw disk alone: following valid directory entries from
  inode 2 reaches every block marked in use, and reaches it in exactly one way.
  */
module FsOwnership {
  import opened Wrappers
  import opened Layout
  import opened Paths
  import opened FsTree

  // The roles a block can play for the inode at an address.
  datatype Part = TheInode | TheDirBlock | TheData(index: nat)

  // Follow directory slots from an inode.
  ghost function InodeAt(d: Disk, ino: nat, addr: seq<nat>): Option<nat>
    decreases |addr|
  {
    if addr == [] then Some(ino)
    else if ino < NUM_BLOCKS && IsDir(d[ino]) && Ptr(d[ino], 0) < NUM_BLOCKS && addr[0] < NUM_DIRENT
            && DValid(d[Ptr(d[ino], 0)], addr[0]) then
      InodeAt(d, DIno(d[Ptr(d[ino], 0)], addr[0]), addr[1..])
    else None
  }

  // The block that the pointers on disk name for this address and role, if any.
  ghost function BlockAt(d: Disk, addr: seq<nat>, part: Part): Option<nat>
  {
    match InodeAt(d, 2, addr)
    case None => None
    case Some(i) =>
      match part
      case TheInode => Some(i)
      case TheDirBlock => if i < NUM_BLOCKS && IsDir(d[i]) then Some(Ptr(d[i], 0)) else None
      case TheData(k) =>
        if i < NUM_BLOCKS && !IsDir(d[i]) && 0 <= Size(d[i]) && k < Ceil(Size(d[i])) && k < NUM_PTRS
        then Some(Ptr(d[i], k)) else None
  }

  // The same, read off the ownership tree.
  ghost function BlockIn(n: Node, addr: seq<nat>, part: Part): Option<nat>
  {
    match Get(n, addr)
    case None => None
    case Some(m) =>
      match part
      case TheInode => Some(m.ino)
      case TheDirBlock => if m.Dir? then Some(m.blk) else None
      case TheData(k) => if m.File? && k < |m.blks| then Some(m.blks[k]) else None
  }

  lemma {:induction false} InodeAtTree(d: Disk, n: Node, addr: seq<nat>)
    requires WF(n) && Rep(d, n)
    ensures InodeAt(d, n.ino, addr) == if Get(n, addr).Some? then Some(Get(n, addr).value.ino) else None
    decreases |addr|
  {
    if addr != [] && n.Dir? && addr[0] < |n.kids| && n.kids[addr[0]].Used? {
      InodeAtTree(d, n.kids[addr[0]].node, addr[1..]);
    }
  }

  lemma BlockAtTree(d: Disk, root: Node, addr: seq<nat>, part: Part)
    requires FsInv(d, root)
    ensures BlockAt(d, addr, part) == BlockIn(root, addr, part)
  {
    InodeAtTree(d, root, addr);
    if Get(root, addr).Some? {
      GetParts(d, root, addr);
    }
  }

  lemma {:induction false} BlockInFoot(n: Node, addr: seq<nat>, part: Part)
    requires WF(n) && BlockIn(n, addr, part).Some?
    ensures BlockIn(n, addr, part).value in Foot(n)
  {
    GetParts(ZeroDisk(), n, addr);
    var m := Get(n, addr).value;
    FootInRange(m);
    assert BlockIn(n, addr, part).value in Foot(m);
  }

  // Every owned block has an address and a role.
  lemma {:induction false} FootReached(n: Node, b: nat) returns (addr: seq<nat>, part: Part)
    requires WF(n) && b in Foot(n)
    ensures BlockIn(n, addr, part) == Some(b)
    decreases n
  {
    addr, part := [], TheInode;
    if b != n.ino {
      match n
      case File(ino, blks, _) =>
        var i :| 0 <= i < |blks| && blks[i] == b;
        part := TheData(i);
      case Dir(ino, blk, kids) =>
        if b == blk {
          part := TheDirBlock;
        } else {
          var i :| 0 <= i < |kids| && kids[i].Used? && b in Foot(kids[i].node);
          addr, part := FootReached(kids[i].node, b);
          assert ([i] + addr)[1..] == addr;
          addr := [i] + addr;
        }
    }
  }

  // No block is reached twice.
  lemma {:induction false} BlockInUnique(n: Node, a: seq<nat>, p: Part, a': seq<nat>, p': Part)
    requires WF(n) && BlockIn(n, a, p).Some? && BlockIn(n, a, p) == BlockIn(n, a', p')
    ensures a == a' && p == p'
    decreases |a|
  {
    if a == [] && a' == [] {
      PartUnique(n, p, p');
    } else if a == [] {
      BelowRoot(n, a', p');
    } else if a' == [] {
      BelowRoot(n, a, p);
    } else {
      BelowRoot(n, a, p);
      BelowRoot(n, a', p');
      assert a[0] == a'[0] by { KidFoot(n, a[0]); }
      hide WF, Foot;
      BlockInUnique(n.kids[a[0]].node, a[1..], p, a'[1..], p');
      assert a == [a[0]] + a[1..] && a' == [a'[0]] + a'[1..];
    }
  }

  // A block reached below a directory belongs to the child it is reached through.
  lemma BelowRoot(n: Node, a: seq<nat>, p: Part)
    requires WF(n) && a != [] && BlockIn(n, a, p).Some?
    ensures n.Dir? && a[0] < |n.kids| && n.kids[a[0]].Used? && WF(n.kids[a[0]].node)
    ensures BlockIn(n.kids[a[0]].node, a[1..], p) == BlockIn(n, a, p)
    ensures BlockIn(n, a, p).value in Foot(n.kids[a[0]].node) && BlockIn(n, a, p).value !in {n.ino, n.blk}
  {
    hide Foot, WF;
    KidFoot(n, a[0]);
    BlockInFoot(n.kids[a[0]].node, a[1..], p);
  }

  lemma PartUnique(n: Node, p: Part, p': Part)
    requires WF(n) && BlockIn(n, [], p).Some? && BlockIn(n, [], p) == BlockIn(n, [], p')
    ensures p == p'
  {
  }

  // No leak and no dangling pointer: the blocks from 2 up marked used are those the disk reaches.
  lemma UsedIffReached(d: Disk, root: Node, b: nat)
    requires FsInv(d, root) && 2 <= b < NUM_BLOCKS
    ensures BitTest(d[1], b) <==> exists addr, part :: BlockAt(d, addr, part) == Some(b)
  {
    if BitTest(d[1], b) {
      var addr, part := FootReached(root, b);
      BlockAtTree(d, root, addr, part);
    }
    if addr, part :| BlockAt(d, addr, part) == Some(b) {
      BlockAtTree(d, root, addr, part);
      BlockInFoot(root, addr, part);
    }
  }

  // No sharing: one address and one role for each block reached, and it lies in range.
  lemma ReachedOnce(d: Disk, root: Node, a: seq<nat>, p: Part, a': seq<nat>, p': Part)
    requires FsInv(d, root) && BlockAt(d, a, p).Some? && BlockAt(d, a, p) == BlockAt(d, a', p')
    ensures a == a' && p == p' && 2 <= BlockAt(d, a, p).value < NUM_BLOCKS
  {
    BlockAtTree(d, root, a, p);
    BlockAtTree(d, root, a', p');
    BlockInUnique(root, a, p, a', p');
    BlockInFoot(root, a, p);
    FootInRange(root);
  }

  // The tree is no extra freedom: a disk represents at most one tree below an inode.
  lemma {:induction false} RepUnique(d: Disk, n: Node, m: Node)
    requires WF(n) && WF(m) && Rep(d, n) && Rep(d, m) && n.ino == m.ino
    ensures n == m
    decreases n
  {
    if n.Dir? {
      forall s | 0 <= s < NUM_DIRENT
        ensures n.kids[s] == m.kids[s]
      {
        if n.kids[s].Used? {
          RepUnique(d, n.kids[s].node, m.kids[s].node);
        }
      }
      assert n.kids == m.kids;
    } else {
      assert n.blks == m.blks;
      assert n.data == m.data;
    }
  }
}
