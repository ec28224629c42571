/**
  The two ways a call changes the tree - one directory slot, or one file - and why each keeps the
  global invariant when only the blocks involved change on disk.
  */
module FsUpdate {
  import opened Wrappers
  import opened Layout
  import opened Paths
  import opened FsTree
  import opened FsSpec

  // The slot a namespace call is about to overwrite belongs to a directory of the tree.
  ghost predicate Aimed(root: Node, t: Target)
  {
    t.Ok? && t.dir.Dir? && t.slot < |t.dir.kids| && Get(root, t.addr) == Some(t.dir)
  }

  // The new slot content is a well-formed leaf or subtree under a name not used by a sibling, and
  // owns nothing that anybody else owns.
  ghost predicate Fits(root: Node, t: Target, k: Slot)
    requires Aimed(root, t)
  {
    k.Used? ==>
      && NameOk(k.name) && WF(k.node)
      && (forall i | 0 <= i < |t.dir.kids| && i != t.slot && t.dir.kids[i].Used? :: t.dir.kids[i].name != k.name)
      && Foot(k.node) !! (Foot(root) - SlotFoot(t.dir.kids[t.slot]))
  }

  lemma SlotUpdateTree(root: Node, t: Target, k: Slot)
    requires WF(root) && Aimed(root, t) && Fits(root, t, k)
    ensures WF(t.dir) && Foot(t.dir) <= Foot(root)
    ensures WF(WithSlot(root, t, k))
    ensures SlotFoot(t.dir.kids[t.slot]) <= Foot(t.dir) - {t.dir.ino, t.dir.blk}
    ensures Foot(WithSlot(root, t, k)) == Foot(root) - SlotFoot(t.dir.kids[t.slot]) + SlotFoot(k)
  {
    hide WF, Foot, Rep;
    var dir' := t.dir.(kids := t.dir.kids[t.slot := k]);
    GetParts(ZeroDisk(), root, t.addr);
    SlotOwned(t.dir, t.slot);
    SetSlot(t.dir, t.slot, k);
    PutFoot(root, t.addr, dir');
  }

  lemma SlotOwned(n: Node, s: nat)
    requires WF(n) && n.Dir? && s < |n.kids|
    ensures SlotFoot(n.kids[s]) <= Foot(n) - {n.ino, n.blk} && {n.ino, n.blk} <= Foot(n)
  {
  }

  // Only the blocks of the directory, of the old slot and of the new slot may differ.
  ghost predicate SlotFrame(d: Disk, e: Disk, t: Target, k: Slot)
    requires t.Ok? && t.dir.Dir? && t.slot < |t.dir.kids|
  {
    forall b | 2 <= b < NUM_BLOCKS && b != t.dir.ino && b != t.dir.blk &&
               b !in SlotFoot(t.dir.kids[t.slot]) && b !in SlotFoot(k) :: d[b] == e[b]
  }

  lemma SlotUpdate(d: Disk, e: Disk, root: Node, t: Target, k: Slot)
    requires FsInv(d, root) && Aimed(root, t) && Fits(root, t, k)
    requires k.Used? ==> Rep(e, k.node)
    requires t.dir.ino < NUM_BLOCKS && t.dir.blk < NUM_BLOCKS
    requires DirInode(e[t.dir.ino], t.dir.blk) && DirBlock(e[t.dir.blk], t.dir.kids[t.slot := k])
    requires SlotFrame(d, e, t, k)
    requires BitmapIs(e[1], Claimed(root) - SlotFoot(t.dir.kids[t.slot]) + SlotFoot(k))
    ensures FsInv(e, WithSlot(root, t, k))
  {
    SlotUpdateTree(root, t, k);
    SlotUpdateRep(d, e, root, t, k);
    FootInRange(root);
    ClaimShift(Foot(root), SlotFoot(t.dir.kids[t.slot]), SlotFoot(k));
  }

  lemma ClaimShift(f: set<nat>, x: set<nat>, y: set<nat>)
    requires x <= f && 0 !in f && 1 !in f
    ensures {0, 1} + (f - x + y) == {0, 1} + f - x + y
  {
  }

  lemma SlotUpdateRep(d: Disk, e: Disk, root: Node, t: Target, k: Slot)
    requires WF(root) && Rep(d, root) && root.Dir? && Aimed(root, t) && Fits(root, t, k)
    requires k.Used? ==> Rep(e, k.node)
    requires t.dir.ino < NUM_BLOCKS && t.dir.blk < NUM_BLOCKS
    requires DirInode(e[t.dir.ino], t.dir.blk) && DirBlock(e[t.dir.blk], t.dir.kids[t.slot := k])
    requires SlotFrame(d, e, t, k)
    ensures Rep(e, WithSlot(root, t, k))
    ensures WithSlot(root, t, k).Dir? && WithSlot(root, t, k).ino == root.ino
  {
    var dir' := t.dir.(kids := t.dir.kids[t.slot := k]);
    DirStored(d, e, root, t, k);
    PutIno(root, t.addr, dir');
    OutsideDir(root, t, k);
    PutRep(d, e, root, t.addr, dir');
  }

  lemma OutsideDir(root: Node, t: Target, k: Slot)
    requires WF(root) && Aimed(root, t) && Fits(root, t, k)
    ensures forall b | b in Foot(root) && b !in Foot(t.dir) ::
              b >= 2 && b != t.dir.ino && b != t.dir.blk && b !in SlotFoot(t.dir.kids[t.slot]) && b !in SlotFoot(k)
  {
    SlotUpdateTree(root, t, k);
    FootInRange(root);
  }

  lemma DirStored(d: Disk, e: Disk, root: Node, t: Target, k: Slot)
    requires WF(root) && Rep(d, root) && Aimed(root, t) && Fits(root, t, k)
    requires k.Used? ==> Rep(e, k.node)
    requires t.dir.ino < NUM_BLOCKS && t.dir.blk < NUM_BLOCKS
    requires DirInode(e[t.dir.ino], t.dir.blk) && DirBlock(e[t.dir.blk], t.dir.kids[t.slot := k])
    requires SlotFrame(d, e, t, k)
    ensures Rep(e, t.dir.(kids := t.dir.kids[t.slot := k]))
  {
    var kids' := t.dir.kids[t.slot := k];
    GetParts(d, root, t.addr);
    forall i | 0 <= i < |kids'| && kids'[i].Used?
      ensures Rep(e, kids'[i].node)
    {
      if i != t.slot {
        OthersApart(root, t, k, i);
        Frame(d, e, t.dir.kids[i].node);
      }
    }
  }

  // The other children of the directory own none of the blocks involved.
  lemma OthersApart(root: Node, t: Target, k: Slot, i: nat)
    requires WF(root) && Aimed(root, t) && Fits(root, t, k)
    requires i < |t.dir.kids| && i != t.slot && t.dir.kids[i].Used?
    ensures WF(t.dir.kids[i].node)
    ensures forall b | b in Foot(t.dir.kids[i].node) ::
              b >= 2 && b != t.dir.ino && b != t.dir.blk && b !in SlotFoot(t.dir.kids[t.slot]) && b !in SlotFoot(k)
  {
    GetParts(ZeroDisk(), root, t.addr);
    FootInRange(root);
    assert Foot(t.dir.kids[i].node) <= Foot(t.dir) <= Foot(root);
    assert Foot(t.dir.kids[i].node) !! SlotFoot(t.dir.kids[t.slot]);
  }

  lemma FileUpdateTree(root: Node, a: seq<nat>, m: Node)
    requires WF(root) && Get(root, a).Some? && Get(root, a).value.File? && m.File? && WF(m)
    requires Foot(m) !! (Foot(root) - Foot(Get(root, a).value))
    ensures WF(Put(root, a, m)) && Foot(Put(root, a, m)) == Foot(root) - Foot(Get(root, a).value) + Foot(m)
    ensures Foot(Get(root, a).value) <= Foot(root)
  {
    GetParts(ZeroDisk(), root, a);
    PutFoot(root, a, m);
  }

  lemma FileUpdate(d: Disk, e: Disk, root: Node, a: seq<nat>, m: Node)
    requires FsInv(d, root) && Get(root, a).Some? && Get(root, a).value.File?
    requires m.File? && WF(m) && m.ino == Get(root, a).value.ino && Rep(e, m)
    requires Foot(m) !! (Foot(root) - Foot(Get(root, a).value))
    requires forall b | 2 <= b < NUM_BLOCKS && b !in Foot(Get(root, a).value) && b !in Foot(m) :: d[b] == e[b]
    requires BitmapIs(e[1], Claimed(root) - Foot(Get(root, a).value) + Foot(m))
    ensures FsInv(e, Put(root, a, m))
  {
    if a == [] {
      assert false;
    }
    FileUpdateTree(root, a, m);
    FootInRange(root);
    GetParts(d, root, a);
    FootInRange(Get(root, a).value);
    hide WF, Rep, Foot, BitmapIs;
    PutIno(root, a, m);
    PutRep(d, e, root, a, m);
    ClaimShift(Foot(root), Foot(Get(root, a).value), Foot(m));
  }

  ghost predicate SameRole(x: Block, y: Block)
  {
    IsDir(x) == IsDir(y) && Size(x) == Size(y) && forall i | 0 <= i < NUM_PTRS :: Ptr(x, i) == Ptr(y, i)
  }

  // An inode rewritten in its times or permission bits only.
  lemma TouchUpdate(d: Disk, e: Disk, root: Node, a: seq<nat>)
    requires FsInv(d, root) && Get(root, a).Some?
    requires Get(root, a).value.ino < NUM_BLOCKS
    requires SameRole(d[Get(root, a).value.ino], e[Get(root, a).value.ino])
    requires forall b | 0 <= b < NUM_BLOCKS && b != Get(root, a).value.ino :: d[b] == e[b]
    ensures FsInv(e, root)
  {
    var n := Get(root, a).value;
    GetParts(d, root, a);
    FootInRange(n);
    FootInRange(root);
    Touched(d, e, n);
    hide WF, Rep;
    PutRep(d, e, root, a, n);
    PutSame(root, a);
  }

  lemma Touched(d: Disk, e: Disk, n: Node)
    requires WF(n) && Rep(d, n) && SameRole(d[n.ino], e[n.ino])
    requires forall b | 0 <= b < NUM_BLOCKS && b != n.ino :: d[b] == e[b]
    ensures Rep(e, n)
  {
    match n
    case File(ino, blks, data) =>
      assert FileInode(e[ino], blks, |data|);
      forall i | 0 <= i < |blks|
        ensures d[blks[i]] == e[blks[i]]
      {
      }
    case Dir(ino, blk, kids) =>
      forall s | 0 <= s < |kids| && kids[s].Used?
        ensures Rep(e, kids[s].node)
      {
        Frame(d, e, kids[s].node);
      }
  }

  lemma {:induction false} PutSame(n: Node, a: seq<nat>)
    requires Get(n, a).Some?
    ensures Put(n, a, Get(n, a).value) == n
    decreases |a|
  {
    if a != [] {
      PutSame(n.kids[a[0]].node, a[1..]);
      assert n.kids[a[0] := n.kids[a[0]]] == n.kids;
    }
  }
}
