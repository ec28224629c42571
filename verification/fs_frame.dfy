/**
  What a call writes: the bitmap and blocks that the tree owns before it or after it. Block 0, with
  the image size in it, is never among them, so the free count a user is told moves with the tree.
  */
module FsFrame {
  import opened Layout
  import opened Paths
  import opened FsTree
  import opened FsSpec
  import opened FsStored
  import opened FsNamespace
  import opened FsRefine
  import opened FsRuns

  ghost function Writable(root: Node, after: Node): set<nat> { {1} + Foot(root) + Foot(after) }

  ghost predicate WritesOwn(d: Disk, e: Disk, root: Node, after: Node)
  {
    OnlyChanges(d, e, Writable(root, after))
  }

  lemma Widen(d: Disk, e: Disk, s: set<nat>, t: set<nat>)
    requires OnlyChanges(d, e, s) && s <= t
    ensures OnlyChanges(d, e, t)
  {
  }

  lemma StoredIsGood(d: Disk, root: Node)
    requires FsInv(d, root)
    ensures Good(root)
  {
  }

  // The blocks behind a path belong to the tree.
  lemma FoundOwned(root: Node, names: seq<Name>)
    requires WF(root) && Locate(root, names).At?
    ensures var n := Locate(root, names).node;
      n.ino in Foot(root) && (if n.File? then Blocks(n.blks) <= Foot(root) else n.blk in Foot(root))
  {
    hide Locate, WF;
    GetParts(ZeroDisk(), root, Locate(root, names).addr);
  }

  lemma CreateWrites(d: Disk, e: Disk, root: Node, names: seq<Name>)
    requires Good(root) && PathOk(names)
    requires Create(root, names).0 < 0 ==> e == d
    requires Create(root, names).0 == 0 ==> var t, b := Place(root, names), Alloc(Claimed(root));
      t.Ok? && b.Some? && OnlyChanges(d, e, {1, b.value, t.dir.blk})
    ensures WritesOwn(d, e, root, Create(root, names).1)
  {
    if Create(root, names).0 == 0 {
      FoundOwned(root, Init(names));
      CreateRefines(root, names);
      hide Create, Place, Alloc, Foot, Good, Abs, Insert;
      var t, b := Place(root, names), Alloc(Claimed(root));
      Widen(d, e, {1, b.value, t.dir.blk}, Writable(root, Create(root, names).1));
    }
  }

  lemma MkdirWrites(d: Disk, e: Disk, root: Node, names: seq<Name>)
    requires Good(root) && PathOk(names)
    requires Mkdir(root, names).0 < 0 ==> e == d
    requires Mkdir(root, names).0 == 0 ==> var t, bs := Place(root, names), AllocMany(Claimed(root), 2);
      t.Ok? && bs.Some? && OnlyChanges(d, e, {1, bs.value[0], bs.value[1], t.dir.blk})
    ensures WritesOwn(d, e, root, Mkdir(root, names).1)
  {
    if Mkdir(root, names).0 == 0 {
      FoundOwned(root, Init(names));
      MkdirRefines(root, names);
      hide Mkdir, Place, AllocMany, Foot, Good, Abs, Insert;
      var t, bs := Place(root, names), AllocMany(Claimed(root), 2);
      Widen(d, e, {1, bs.value[0], bs.value[1], t.dir.blk}, Writable(root, Mkdir(root, names).1));
    }
  }

  lemma RemovalWrites(d: Disk, e: Disk, root: Node, names: seq<Name>, after: Node)
    requires Good(root) && Victim(root, names).Ok?
    requires var t := Victim(root, names); OnlyChanges(d, e, {1, t.dir.blk, t.dir.ino})
    ensures WritesOwn(d, e, root, after)
  {
    FoundOwned(root, Init(names));
    hide Victim, Foot;
    var t := Victim(root, names);
    Widen(d, e, {1, t.dir.blk, t.dir.ino}, Writable(root, after));
  }

  lemma UnlinkWrites(d: Disk, e: Disk, root: Node, names: seq<Name>)
    requires Good(root)
    requires Unlink(root, names).0 < 0 ==> e == d
    requires Unlink(root, names).0 == 0 ==> var t := Victim(root, names);
      t.Ok? && OnlyChanges(d, e, {1, t.dir.blk, t.dir.ino})
    ensures WritesOwn(d, e, root, Unlink(root, names).1)
  {
    if Unlink(root, names).0 == 0 {
      RemovalWrites(d, e, root, names, Unlink(root, names).1);
    }
  }

  lemma RmdirWrites(d: Disk, e: Disk, root: Node, names: seq<Name>)
    requires Good(root)
    requires Rmdir(root, names).0 < 0 ==> e == d
    requires Rmdir(root, names).0 == 0 ==> var t := Victim(root, names);
      t.Ok? && OnlyChanges(d, e, {1, t.dir.blk, t.dir.ino})
    ensures WritesOwn(d, e, root, Rmdir(root, names).1)
  {
    if Rmdir(root, names).0 == 0 {
      RemovalWrites(d, e, root, names, Rmdir(root, names).1);
    }
  }

  lemma RenameWrites(d: Disk, e: Disk, root: Node, src: seq<Name>, dst: seq<Name>)
    requires Good(root)
    requires Rename(root, src, dst).0 < 0 ==> e == d
    requires Rename(root, src, dst).0 == 0 ==> var t := Victim(root, src); t.Ok? && OnlyChanges(d, e, {t.dir.blk})
    ensures WritesOwn(d, e, root, Rename(root, src, dst).1)
  {
    if Rename(root, src, dst).0 == 0 {
      var t := Victim(root, src);
      Widen(d, e, {t.dir.blk}, {1, t.dir.blk, t.dir.ino});
      RemovalWrites(d, e, root, src, Rename(root, src, dst).1);
    }
  }

  // chmod, utime and truncate write the inode the path leads to.
  lemma InodeWrites(d: Disk, e: Disk, root: Node, names: seq<Name>, after: Node)
    requires Good(root) && Locate(root, names).At? && OnlyChanges(d, e, {1, Locate(root, names).node.ino})
    ensures WritesOwn(d, e, root, after)
  {
    FoundOwned(root, names);
    hide Locate, Foot;
    Widen(d, e, {1, Locate(root, names).node.ino}, Writable(root, after));
  }

  lemma TouchWrites(d: Disk, e: Disk, root: Node, names: seq<Name>)
    requires Good(root)
    requires d == e || (Locate(root, names).At? && Locate(root, names).node.ino < NUM_BLOCKS
                        && e == d[Locate(root, names).node.ino := e[Locate(root, names).node.ino]])
    ensures WritesOwn(d, e, root, root)
  {
    if d != e {
      InodeWrites(d, e, root, names, root);
    }
  }

  lemma TruncateWrites(d: Disk, e: Disk, root: Node, names: seq<Name>, len: int)
    requires Good(root)
    requires Truncate(root, names, len).0 < 0 ==> e == d
    requires Truncate(root, names, len).0 == 0 ==> OnlyChanges(d, e, {1, Locate(root, names).node.ino})
    ensures WritesOwn(d, e, root, Truncate(root, names, len).1)
  {
    if Truncate(root, names, len).0 == 0 {
      InodeWrites(d, e, root, names, Truncate(root, names, len).1);
    }
  }

  lemma WriteWrites(d: Disk, e: Disk, root: Node, names: seq<Name>, buf: seq<byte>, off: nat)
    requires Good(root) && PathOk(names) && Room(root, names, off, |buf|)
    requires Write(root, names, buf, off).0 < 0 ==> e == d
    requires Write(root, names, buf, off).0 >= 0 ==> var f := Locate(root, names).node;
      OnlyChanges(d, e, {1, f.ino} + Blocks(f.blks)
                        + Blocks(AllocMany(Claimed(root), Missing(f.data, off, |buf|)).value))
    ensures WritesOwn(d, e, root, Write(root, names, buf, off).1)
  {
    if Write(root, names, buf, off).0 >= 0 {
      FoundOwned(root, names);
      WriteRefines(root, names, buf, off);
      hide Locate, Foot, Blocks, Good, Write, AllocMany, Missing, Overlay, Abs, Update;
      var f := Locate(root, names).node;
      var bs := AllocMany(Claimed(root), Missing(f.data, off, |buf|)).value;
      Widen(d, e, {1, f.ino} + Blocks(f.blks) + Blocks(bs), Writable(root, Write(root, names, buf, off).1));
    }
  }

  lemma SuperblockStays(d: Disk, e: Disk, root: Node, after: Node)
    requires WF(root) && WF(after) && WritesOwn(d, e, root, after)
    ensures e[0] == d[0]
  {
    FootInRange(root);
    FootInRange(after);
  }

  // ---------- The reported free count ----------

  // What statfs puts in f_bfree.
  ghost function FreeReported(super: Block, root: Node): nat { U64(U32(Get32(super, 4) - 2) - |Foot(root)|) }

  // It falls by what the run adds to the blocks in use, and follows from what a user sees.
  lemma FreeAfterRun(super: Block, root: Node, ops: seq<Op>)
    requires Good(root) && RunAllowed(root, ops)
    ensures FreeReported(super, Run(root, ops)) == U64(FreeReported(super, root) - TotalGain(root, ops))
    ensures Abs(Run(root, ops)) == Abs(root) ==>
              FreeReported(super, Run(root, ops)) == FreeReported(super, root)
  {
    hide Good, WF, Foot, Run, RunAllowed, TotalGain, Get32, U32, U64, Abs;
    RunKeeps(root, ops);
    WrapTwice(U32(Get32(super, 4) - 2) - |Foot(root)|, TotalGain(root, ops));
    if Abs(Run(root, ops)) == Abs(root) {
      RunRestores(root, ops);
    }
  }

  lemma WrapTwice(x: int, g: int)
    ensures U64(U64(x) - g) == U64(x - g)
  {
    var q := x / WORD64;
    assert x == WORD64 * q + U64(x);
    assert x - g == WORD64 * q + (U64(x) - g);
    SkipWraps(U64(x) - g, q);
  }

  lemma SkipWraps(x: int, q: int)
    ensures (WORD64 * q + x) % WORD64 == x % WORD64
  {
    var p := x / WORD64;
    assert WORD64 * q + x == WORD64 * (q + p) + x % WORD64;
  }
}
