/**
  The ownership tree: a ghost witness that says which block plays which role.
  A node lists the blocks it owns; WF keeps the lists disjoint; Rep ties them to the raw disk.
  */
module FsTree {
  import opened Wrappers
  import opened Layout
  import opened Paths

  datatype Slot = Free | Used(name: Name, node: Node)

  datatype Node =
    | File(ino: nat, blks: seq<nat>, data: seq<byte>)
    | Dir(ino: nat, blk: nat, kids: seq<Slot>)

  // How many blocks n bytes fill.
  function Ceil(n: nat): nat { (n + BLOCK_SIZE - 1) / BLOCK_SIZE }

  ghost predicate InRange(b: nat) { 2 <= b < NUM_BLOCKS }

  ghost predicate NameOk(n: Name) { IsToken(n) && |n| <= NAME_MAX }

  function Blocks(s: seq<nat>): set<nat> { set b | b in s }

  // The blocks owned by a subtree.
  ghost function Foot(n: Node): set<nat>
  {
    match n
    case File(ino, blks, _) => {ino} + Blocks(blks)
    case Dir(ino, blk, kids) =>
      {ino, blk} + set i, b | 0 <= i < |kids| && kids[i].Used? && b in Foot(kids[i].node) :: b
  }

  ghost predicate Distinct(s: seq<nat>)
  {
    forall i, j | 0 <= i < j < |s| :: s[i] != s[j]
  }

  // Well-shaped, in range, unique names, and no block owned twice.
  ghost predicate WF(n: Node)
  {
    match n
    case File(ino, blks, data) =>
      && |blks| == Ceil(|data|) && |blks| <= NUM_PTRS
      && InRange(ino) && ino !in blks && Distinct(blks)
      && (forall i | 0 <= i < |blks| :: InRange(blks[i]))
    case Dir(ino, blk, kids) =>
      && |kids| == NUM_DIRENT
      && InRange(ino) && InRange(blk) && ino != blk
      && (forall i | 0 <= i < |kids| && kids[i].Used? ::
            && NameOk(kids[i].name) && WF(kids[i].node)
            && ino !in Foot(kids[i].node) && blk !in Foot(kids[i].node))
      && (forall i, j | 0 <= i < j < |kids| && kids[i].Used? && kids[j].Used? ::
            kids[i].name != kids[j].name && Foot(kids[i].node) !! Foot(kids[j].node))
  }

  // The slots of a directory block, read as the C code reads them.
  ghost predicate DirBlock(b: Block, kids: seq<Slot>)
  {
    && |kids| == NUM_DIRENT
    && forall s | 0 <= s < NUM_DIRENT ::
         && DValid(b, s) == kids[s].Used?
         && (kids[s].Used? ==> DIno(b, s) == kids[s].node.ino && DName(b, s) == kids[s].name)
  }

  ghost predicate FileInode(b: Block, blks: seq<nat>, size: nat)
  {
    !IsDir(b) && Size(b) == size && |blks| <= NUM_PTRS && forall i | 0 <= i < |blks| :: Ptr(b, i) == blks[i]
  }

  ghost predicate DirInode(b: Block, blk: nat)
  {
    IsDir(b) && Size(b) == BLOCK_SIZE && Ptr(b, 0) == blk
  }

  // The bytes of a file, block by block.
  ghost predicate FileBytes(d: Disk, blks: seq<nat>, data: seq<byte>)
  {
    && |data| <= BLOCK_SIZE * |blks|
    && (forall i | 0 <= i < |blks| :: blks[i] < NUM_BLOCKS)
    && forall j | 0 <= j < |data| :: data[j] == d[blks[j / BLOCK_SIZE]][j % BLOCK_SIZE]
  }

  // The disk stores this subtree.
  ghost predicate Rep(d: Disk, n: Node)
    decreases n
  {
    match n
    case File(ino, blks, data) =>
      ino < NUM_BLOCKS && FileInode(d[ino], blks, |data|) && FileBytes(d, blks, data)
    case Dir(ino, blk, kids) =>
      && ino < NUM_BLOCKS && blk < NUM_BLOCKS
      && DirInode(d[ino], blk) && DirBlock(d[blk], kids)
      && forall s | 0 <= s < |kids| && kids[s].Used? :: Rep(d, kids[s].node)
  }

  // No block outside s differs.
  ghost predicate OnlyChanges(d: Disk, e: Disk, s: set<nat>)
  {
    forall b | 0 <= b < NUM_BLOCKS && b !in s :: e[b] == d[b]
  }

  ghost function Claimed(root: Node): set<nat> { {0, 1} + Foot(root) }

  ghost predicate BitmapIs(map1: Block, used: set<nat>)
  {
    forall b | 0 <= b < NUM_BLOCKS :: BitTest(map1, b) <==> b in used
  }

  // The global invariant: a represented well-formed tree at inode 2, and a bitmap marking exactly
  // the superblock, the bitmap itself and the blocks the tree owns.
  ghost predicate FsInv(d: Disk, root: Node)
  {
    root.Dir? && root.ino == 2 && WF(root) && Rep(d, root) && BitmapIs(d[1], Claimed(root))
  }

  // ---------- Addresses inside the tree ----------

  function Get(n: Node, addr: seq<nat>): Option<Node>
    decreases |addr|
  {
    if addr == [] then Some(n)
    else if n.Dir? && addr[0] < |n.kids| && n.kids[addr[0]].Used? then Get(n.kids[addr[0]].node, addr[1..])
    else None
  }

  function Put(n: Node, addr: seq<nat>, m: Node): Node
    requires Get(n, addr).Some?
    decreases |addr|
  {
    if addr == [] then m
    else
      var k := n.kids[addr[0]];
      n.(kids := n.kids[addr[0] := k.(node := Put(k.node, addr[1..], m))])
  }

  lemma {:induction false} GetParts(d: Disk, n: Node, addr: seq<nat>)
    requires WF(n) && Get(n, addr).Some?
    ensures WF(Get(n, addr).value) && Foot(Get(n, addr).value) <= Foot(n)
    ensures Rep(d, n) ==> Rep(d, Get(n, addr).value)
    decreases |addr|
  {
    if addr != [] {
      GetParts(d, n.kids[addr[0]].node, addr[1..]);
    }
  }

  lemma {:induction false} FootInRange(n: Node)
    requires WF(n)
    ensures forall b | b in Foot(n) :: InRange(b)
    ensures n.ino in Foot(n)
    decreases n
  {
    if n.Dir? {
      forall i | 0 <= i < |n.kids| && n.kids[i].Used?
        ensures forall b | b in Foot(n.kids[i].node) :: InRange(b)
      {
        FootInRange(n.kids[i].node);
      }
    }
  }

  // What a subtree owns determines what it stores.
  lemma {:induction false} Frame(d: Disk, e: Disk, n: Node)
    requires Rep(d, n) && WF(n) && forall b | b in Foot(n) && b < NUM_BLOCKS :: d[b] == e[b]
    ensures Rep(e, n)
    decreases n
  {
    match n
    case File(ino, blks, data) =>
      forall i | 0 <= i < |blks|
        ensures d[blks[i]] == e[blks[i]]
      {
        assert blks[i] in Foot(n);
      }
    case Dir(ino, blk, kids) =>
      forall s | 0 <= s < |kids| && kids[s].Used?
        ensures Rep(e, kids[s].node)
      {
        Frame(d, e, kids[s].node);
      }
  }

  lemma {:induction false} PutFoot(n: Node, addr: seq<nat>, m: Node)
    requires WF(n) && WF(m) && Get(n, addr).Some?
    requires Foot(m) !! (Foot(n) - Foot(Get(n, addr).value))
    ensures WF(Put(n, addr, m))
    ensures Foot(Put(n, addr, m)) == Foot(n) - Foot(Get(n, addr).value) + Foot(m)
    decreases |addr|
  {
    if addr != [] {
      var s, o := addr[0], Get(n, addr).value;
      var k := n.kids[s];
      KidFoot(n, s);
      hide WF, Foot, Rep;
      GetParts(ZeroDisk(), k.node, addr[1..]);
      Nested(Foot(n), Foot(k.node), Foot(o), Foot(m));
      PutFoot(k.node, addr[1..], m);
      PutKid(n, s, Put(k.node, addr[1..], m));
    }
  }

  lemma Nested(a: set<nat>, k: set<nat>, o: set<nat>, m: set<nat>)
    requires o <= k <= a && m !! (a - o)
    ensures m !! (k - o) && (k - o + m) !! (a - k)
    ensures a - k + (k - o + m) == a - o + m
  {
  }

  // Replacing one child by a subtree that owns nothing of its siblings.
  lemma PutKid(n: Node, s: nat, m: Node)
    requires WF(n) && n.Dir? && s < |n.kids| && n.kids[s].Used? && WF(m)
    requires Foot(m) !! (Foot(n) - Foot(n.kids[s].node))
    ensures WF(n.(kids := n.kids[s := n.kids[s].(node := m)]))
    ensures Foot(n.(kids := n.kids[s := n.kids[s].(node := m)])) == Foot(n) - Foot(n.kids[s].node) + Foot(m)
  {
    SetSlot(n, s, Used(n.kids[s].name, m));
  }

  ghost function SlotFoot(s: Slot): set<nat> { if s.Used? then Foot(s.node) else {} }

  // The general slot update: every namespace operation is one of these.
  lemma SetSlot(n: Node, s: nat, k: Slot)
    requires WF(n) && n.Dir? && s < |n.kids|
    requires k.Used? ==> NameOk(k.name) && WF(k.node)
    requires k.Used? ==> forall i | 0 <= i < |n.kids| && i != s && n.kids[i].Used? :: n.kids[i].name != k.name
    requires SlotFoot(k) !! (Foot(n) - SlotFoot(n.kids[s]))
    ensures WF(n.(kids := n.kids[s := k]))
    ensures Foot(n.(kids := n.kids[s := k])) == Foot(n) - SlotFoot(n.kids[s]) + SlotFoot(k)
  {
    forall i | 0 <= i < |n.kids| && i != s && n.kids[i].Used?
      ensures Foot(n.kids[i].node) <= Foot(n) - SlotFoot(n.kids[s])
    {
    }
    assert {n.ino, n.blk} <= Foot(n) - SlotFoot(n.kids[s]);
    SetSlotFoot(n, s, k);
  }

  lemma SetSlotFoot(n: Node, s: nat, k: Slot)
    requires n.Dir? && s < |n.kids| && {n.ino, n.blk} !! SlotFoot(n.kids[s])
    requires forall i | 0 <= i < |n.kids| && i != s :: SlotFoot(n.kids[i]) !! SlotFoot(n.kids[s])
    ensures Foot(n.(kids := n.kids[s := k])) == Foot(n) - SlotFoot(n.kids[s]) + SlotFoot(k)
  {
    var n' := n.(kids := n.kids[s := k]);
    forall b
      ensures b in Foot(n') <==> b in Foot(n) - SlotFoot(n.kids[s]) + SlotFoot(k)
    {
      InFoot(n, b);
      InFoot(n', b);
      if i :| 0 <= i < |n.kids| && b in SlotFoot(n.kids[i]) {
        assert i != s ==> b in SlotFoot(n'.kids[i]);
      }
      if i :| 0 <= i < |n'.kids| && b in SlotFoot(n'.kids[i]) {
        assert i != s ==> b in SlotFoot(n.kids[i]);
        assert i == s ==> b in SlotFoot(k);
      }
      assert n'.kids[s] == k;
    }
  }

  lemma InFoot(n: Node, b: nat)
    requires n.Dir?
    ensures b in Foot(n) <==> b == n.ino || b == n.blk || exists i :: 0 <= i < |n.kids| && b in SlotFoot(n.kids[i])
  {
    if i :| 0 <= i < |n.kids| && b in SlotFoot(n.kids[i]) {
      assert n.kids[i].Used? && b in Foot(n.kids[i].node);
    }
  }

  // Rewriting one subtree on disk and nothing else leaves the whole tree represented.
  lemma {:induction false} PutRep(d: Disk, e: Disk, n: Node, addr: seq<nat>, m: Node)
    requires WF(n) && Rep(d, n) && Get(n, addr).Some? && Rep(e, m) && m.ino == Get(n, addr).value.ino
    requires forall b | b in Foot(n) && b !in Foot(Get(n, addr).value) && b < NUM_BLOCKS :: d[b] == e[b]
    ensures Rep(e, Put(n, addr, m))
    decreases |addr|
  {
    if addr != [] {
      var s, o := addr[0], Get(n, addr).value;
      var k := n.kids[s];
      GetParts(d, k.node, addr[1..]);
      KidFoot(n, s);
      PutRep(d, e, k.node, addr[1..], m);
      PutIno(k.node, addr[1..], m);
      SiblingsStored(d, e, n, s, Foot(o));
      KidStored(e, n, s, Put(k.node, addr[1..], m));
    }
  }

  lemma KidStored(e: Disk, n: Node, s: nat, m: Node)
    requires n.Dir? && s < |n.kids| && n.kids[s].Used? && m.ino == n.kids[s].node.ino && Rep(e, m)
    requires n.ino < NUM_BLOCKS && n.blk < NUM_BLOCKS && DirInode(e[n.ino], n.blk) && DirBlock(e[n.blk], n.kids)
    requires forall i | 0 <= i < |n.kids| && i != s && n.kids[i].Used? :: Rep(e, n.kids[i].node)
    ensures Rep(e, n.(kids := n.kids[s := n.kids[s].(node := m)]))
  {
    assert DirBlock(e[n.blk], n.kids[s := n.kids[s].(node := m)]);
  }

  lemma KidFoot(n: Node, s: nat)
    requires WF(n) && n.Dir? && s < |n.kids| && n.kids[s].Used?
    ensures WF(n.kids[s].node)
    ensures Foot(n.kids[s].node) <= Foot(n) - {n.ino, n.blk}
    ensures forall i | 0 <= i < |n.kids| && i != s && n.kids[i].Used? :: Foot(n.kids[i].node) !! Foot(n.kids[s].node)
  {
  }

  lemma SiblingsStored(d: Disk, e: Disk, n: Node, s: nat, gone: set<nat>)
    requires WF(n) && Rep(d, n) && n.Dir? && s < |n.kids| && n.kids[s].Used? && gone <= Foot(n.kids[s].node)
    requires forall b | b in Foot(n) && b !in gone && b < NUM_BLOCKS :: d[b] == e[b]
    ensures d[n.ino] == e[n.ino] && d[n.blk] == e[n.blk]
    ensures forall i | 0 <= i < |n.kids| && i != s && n.kids[i].Used? :: Rep(e, n.kids[i].node)
  {
    KidFoot(n, s);
    forall i | 0 <= i < |n.kids| && i != s && n.kids[i].Used?
      ensures Rep(e, n.kids[i].node)
    {
      KidFoot(n, i);
      Frame(d, e, n.kids[i].node);
    }
  }

  lemma PutIno(n: Node, addr: seq<nat>, m: Node)
    requires Get(n, addr).Some? && m.ino == Get(n, addr).value.ino
    ensures Put(n, addr, m).ino == n.ino
    ensures n.Dir? && m.Dir? == Get(n, addr).value.Dir? ==> Put(n, addr, m).Dir?
  {
  }
}
