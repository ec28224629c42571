/**
  What the disk looks like after each kind of update, and why the global invariant holds there.
  */
module FsStored {
  import opened Wrappers
  import opened Layout
  import opened Paths
  import opened FsTree
  import opened FsSpec
  import opened FsUpdate
  import opened FsBytes

  // gen-disk.py's empty image: root inode 2 with its directory block 399, nothing else in use.
  ghost predicate FreshImage(d: Disk)
  {
    DirInode(d[2], 399) && DirBlock(d[399], EmptyKids()) && BitmapIs(d[1], {0, 1, 2, 399})
  }

  function FreshRoot(): Node { Dir(2, 399, EmptyKids()) }

  lemma FreshInv(d: Disk)
    requires FreshImage(d)
    ensures FsInv(d, FreshRoot())
  {
    assert Foot(FreshRoot()) == {2, 399};
    assert Claimed(FreshRoot()) == {0, 1, 2, 399};
  }

  // path2inum on a path string.
  ghost function PathWalk(root: Node, path: seq<byte>): (r: Walk)
    ensures r.Fail? ==> r.err < 0
    ensures r.At? ==> Get(root, r.addr) == Some(r.node)
  {
    if path == [] || path[0] != SLASH then Fail(-ENOENT) else Locate(root, Tokens(path))
  }

  // Enough free blocks for a write to allocate what it is missing.
  ghost predicate Room(root: Node, names: seq<Name>, off: nat, len: nat)
  {
    var w := Locate(root, names);
    w.At? && w.node.File? && off <= |w.node.data| && off + len <= MAX_FILE ==>
      AllocMany(Claimed(root), Missing(w.node.data, off, len)).Some?
  }

  // What a lookup result says about the node behind an inode number and its own blocks.
  ghost predicate Stands(d: Disk, root: Node, w: Walk)
  {
    w.At? ==>
      && WF(w.node) && Rep(d, w.node) && Foot(w.node) <= Foot(root) && InRange(w.node.ino) && w.node.ino in Foot(w.node)
      && match w.node
         case File(ino, blks, data) => FileInode(d[ino], blks, |data|) && FileBytes(d, blks, data)
         case Dir(ino, blk, kids) =>
           InRange(blk) && blk in Foot(w.node) && DirInode(d[ino], blk) && DirBlock(d[blk], kids)
  }

  lemma Standing(d: Disk, root: Node, w: Walk)
    requires FsInv(d, root) && (w.At? ==> Get(root, w.addr) == Some(w.node))
    ensures Stands(d, root, w)
  {
    if w.At? {
      GetParts(d, root, w.addr);
      FootInRange(w.node);
    }
  }

  // A leaf whose blocks are all unclaimed fits the slot that Place found.
  lemma LeafFits(root: Node, names: seq<Name>, t: Target, node: Node)
    requires WF(root) && t == Place(root, names) && t.Ok? && |names| <= MAX_DEPTH && NameOk(Last(names))
    requires WF(node) && Foot(node) !! Claimed(root)
    ensures Aimed(root, t) && Fits(root, t, Used(Last(names), node)) && SlotFoot(t.dir.kids[t.slot]) == {}
  {
    hide WF, Foot;
    NewNameFits(root, names, t);
  }

  // The name is new in its directory: otherwise the path would have resolved.
  lemma NewNameFits(root: Node, names: seq<Name>, t: Target)
    requires t == Place(root, names) && t.Ok? && |names| <= MAX_DEPTH
    ensures forall i | 0 <= i < |t.dir.kids| && t.dir.kids[i].Used? :: t.dir.kids[i].name != Last(names)
  {
    var init := Init(names);
    ResolveSnoc(root, init, Last(names));
    assert init + [Last(names)] == names;
    assert Find(t.dir.kids, Last(names), 0).None?;
  }

  // The disk after a new leaf has been written and entered into its directory.
  lemma LeafStored(d: Disk, e: Disk, root: Node, names: seq<Name>, t: Target, node: Node)
    requires FsInv(d, root) && names != [] && |names| <= MAX_DEPTH && NameOk(Last(names))
    requires t == Place(root, names) && t.Ok? && t.slot < NUM_DIRENT && t.dir.Dir? && t.dir.blk < NUM_BLOCKS
    requires WF(node) && Foot(node) !! Claimed(root) && Rep(e, node)
    requires e[t.dir.blk] == SetDirent(d[t.dir.blk], t.slot, node.ino, Last(names))
    requires forall b | 2 <= b < NUM_BLOCKS && b != t.dir.blk && b !in Foot(node) :: d[b] == e[b]
    requires BitmapIs(e[1], Claimed(root) + Foot(node))
    ensures FsInv(e, WithSlot(root, t, Used(Last(names), node)))
  {
    hide Place, Foot, Locate, SetDirent;
    Standing(d, root, At(t.addr, t.dir));
    LeafFits(root, names, t, node);
    hide WF;
    DirBlockSet(d[t.dir.blk], t.dir.kids, t.slot, Last(names), node);
    assert e[t.dir.ino] == d[t.dir.ino];
    hide IsDir, Layout.Size, Layout.Ptr, DirBlock;
    SlotUpdate(d, e, root, t, Used(Last(names), node));
  }

  lemma CreateStored(d: Disk, e: Disk, root: Node, names: seq<Name>, t: Target, b: nat, stamp: Stamp, junk: Block)
    requires FsInv(d, root) && StampOk(stamp) && names != [] && |names| <= MAX_DEPTH && NameOk(Last(names))
    requires t == Place(root, names) && t.Ok? && t.slot < NUM_DIRENT && t.dir.Dir? && t.dir.blk < NUM_BLOCKS
    requires Alloc(Claimed(root)) == Some(b)
    requires e == d[1 := BitPut(d[1], b, true)][b := NewInode(junk, stamp, 32768, 0)]
                   [t.dir.blk := SetDirent(d[t.dir.blk], t.slot, b, Last(names))]
    ensures FsInv(e, FsSpec.Create(root, names).1) && e[b] == NewInode(junk, stamp, 32768, 0)
  {
    hide Place, Foot, Locate, NewInode, SetDirent, BitPut;
    var node := File(b, [], []);
    Standing(d, root, At(t.addr, t.dir));
    OwnFile(b);
    NewInodeFields(junk, stamp, 32768, 0);
    BitmapPut(d[1], Claimed(root), b, true);
    hide WF, IsDir, Layout.Size;
    assert e[b] == NewInode(junk, stamp, 32768, 0);
    LeafStored(d, e, root, names, t, node);
  }

  lemma MkdirStored(d: Disk, e: Disk, root: Node, names: seq<Name>, t: Target, b: nat, c: nat, stamp: Stamp,
      junk: Block)
    requires FsInv(d, root) && StampOk(stamp) && names != [] && |names| <= MAX_DEPTH && NameOk(Last(names))
    requires t == Place(root, names) && t.Ok? && t.slot < NUM_DIRENT && t.dir.Dir? && t.dir.blk < NUM_BLOCKS
    requires AllocMany(Claimed(root), 2) == Some([b, c]) && b < NUM_BLOCKS && c < NUM_BLOCKS
    requires BitmapIs(e[1], Claimed(root) + {b, c})
    requires e == d[1 := e[1]][c := ZeroBlock()][b := SetPtr(NewInode(junk, stamp, 16384, BLOCK_SIZE), 0, c)]
                   [t.dir.blk := SetDirent(d[t.dir.blk], t.slot, b, Last(names))]
    ensures FsInv(e, FsSpec.Mkdir(root, names).1)
    ensures e[b] == SetPtr(NewInode(junk, stamp, 16384, BLOCK_SIZE), 0, c)
  {
    hide Place, Foot, Locate, NewInode, SetDirent, BitPut, BitmapIs, AllocMany;
    var node := Dir(b, c, EmptyKids());
    Standing(d, root, At(t.addr, t.dir));
    assert [b, c][0] == b && [b, c][1] == c;
    OwnDir(b, c);
    assert e[b] == SetPtr(NewInode(junk, stamp, 16384, BLOCK_SIZE), 0, c) && e[c] == ZeroBlock();
    EmptyDirStored(e, b, c, stamp, junk);
    hide WF, IsDir, Layout.Size, Layout.SetPtr, DirBlock, Rep;
    LeafStored(d, e, root, names, t, node);
  }

  lemma OwnDir(b: nat, c: nat)
    requires InRange(b) && InRange(c) && b != c
    ensures WF(Dir(b, c, EmptyKids())) && Foot(Dir(b, c, EmptyKids())) == {b, c}
  {
  }

  lemma EmptyDirStored(e: Disk, b: nat, c: nat, stamp: Stamp, junk: Block)
    requires StampOk(stamp) && b < NUM_BLOCKS && c < NUM_BLOCKS && e[c] == ZeroBlock()
    requires e[b] == SetPtr(NewInode(junk, stamp, 16384, BLOCK_SIZE), 0, c)
    ensures Rep(e, Dir(b, c, EmptyKids()))
  {
    hide NewInode, SetPtr;
    NewInodeFields(junk, stamp, 16384, BLOCK_SIZE);
    SetPtrFrame(NewInode(junk, stamp, 16384, BLOCK_SIZE), 0, c);
    DirBlockZero();
  }

  // Two allocations in terms of one.
  lemma PairOfAllocs(used: set<nat>)
    ensures AllocMany(used, 2) ==
              if Alloc(used).None? || Alloc(used + {Alloc(used).value}).None? then None
              else Some([Alloc(used).value, Alloc(used + {Alloc(used).value}).value])
  {
    hide Alloc;
    AllocNext(used, 0, []);
    assert used + Blocks([]) == used;
    if Alloc(used).Some? {
      var b := Alloc(used).value;
      assert [] + [b] == [b] && Blocks([b]) == {b};
      AllocNext(used, 1, [b]);
      assert forall c: nat :: [b] + [c] == [b, c];
    }
  }

  lemma AllocNext(used: set<nat>, k: nat, bs: seq<nat>)
    requires AllocMany(used, k) == Some(bs)
    ensures AllocMany(used, k + 1) ==
              if Alloc(used + Blocks(bs)).None? then None else Some(bs + [Alloc(used + Blocks(bs)).value])
  {
  }

  lemma OwnFile(b: nat)
    requires InRange(b)
    ensures WF(File(b, [], [])) && Foot(File(b, [], [])) == {b}
  {
  }

  // Resolving one more component is one more directory search.
  lemma {:induction false} ResolveSnoc(n: Node, names: seq<Name>, last: Name)
    ensures var w := Resolve(n, names);
      Resolve(n, names + [last]) ==
        if w.Fail? then w
        else match Resolve(w.node, [last]) case Fail(e) => Fail(e) case At(a, m) => At(w.addr + a, m)
    decreases |names|
  {
    if names == [] {
      assert names + [last] == [last];
    } else {
      assert (names + [last])[1..] == names[1..] + [last];
      if |names[0]| <= NAME_MAX && n.Dir? {
        var s := Find(n.kids, names[0], 0);
        if s.Some? {
          ResolveSnoc(n.kids[s.value].node, names[1..], last);
        }
      }
    }
  }

  // ---------- Removal ----------

  // The child in the slot that Victim found.
  lemma KidStanding(d: Disk, root: Node, t: Target)
    requires FsInv(d, root) && Aimed(root, t) && t.dir.kids[t.slot].Used?
    ensures Stands(d, root, At([], t.dir.kids[t.slot].node))
    ensures NameOk(t.dir.kids[t.slot].name)
  {
    GetParts(d, root, t.addr);
    KidFoot(t.dir, t.slot);
    FootInRange(t.dir.kids[t.slot].node);
  }

  // The disk after unlink or rmdir: the child's blocks free, its slot cleared, the parent touched.
  lemma RemovalStored(d: Disk, e: Disk, root: Node, t: Target, now: nat)
    requires FsInv(d, root) && Aimed(root, t) && t.dir.kids[t.slot].Used? && now < WORD
    requires t.slot < NUM_DIRENT && InRange(t.dir.blk) && InRange(t.dir.ino) && t.dir.blk != t.dir.ino
    requires BitmapIs(e[1], Claimed(root) - Foot(t.dir.kids[t.slot].node))
    requires e == d[1 := e[1]][t.dir.blk := ClearDirent(d[t.dir.blk], t.slot)]
                   [t.dir.ino := SetMtime(d[t.dir.ino], now)]
    ensures FsInv(e, WithSlot(root, t, Free))
  {
    hide Foot, ClearDirent, SetMtime, BitmapIs;
    Standing(d, root, At(t.addr, t.dir));
    hide WF, Rep;
    DirBlockClear(d[t.dir.blk], t.dir.kids, t.slot);
    SetMtimeFrame(d[t.dir.ino], now);
    assert e[t.dir.blk] == ClearDirent(d[t.dir.blk], t.slot) && e[t.dir.ino] == SetMtime(d[t.dir.ino], now);
    assert IsDir(e[t.dir.ino]) == IsDir(d[t.dir.ino]);
    hide DirBlock, Layout.Mode, Layout.Size, Layout.Ptr;
    assert Claimed(root) - SlotFoot(t.dir.kids[t.slot]) + SlotFoot(Free) ==
        Claimed(root) - Foot(t.dir.kids[t.slot].node);
    SlotUpdate(d, e, root, t, Free);
  }

  lemma EmptyDirFoot(n: Node)
    requires n.Dir? && forall i | 0 <= i < |n.kids| :: n.kids[i].Free?
    ensures Foot(n) == {n.ino, n.blk}
  {
  }

  // ---------- Renaming ----------

  lemma RenameFits(root: Node, src: seq<Name>, dst: seq<Name>, t: Target)
    requires WF(root) && t == Victim(root, src) && t.Ok? && t.slot < |t.dir.kids|
    requires |dst| == |src| <= MAX_DEPTH && Init(src) == Init(dst) && Locate(root, dst).Fail? && NameOk(Last(dst))
    ensures Aimed(root, t) && Fits(root, t, t.dir.kids[t.slot].(name := Last(dst)))
  {
    ResolveSnoc(root, Init(dst), Last(dst));
    assert Init(dst) + [Last(dst)] == dst;
    assert Find(t.dir.kids, Last(dst), 0).None?;
    GetParts(ZeroDisk(), root, t.addr);
    KidFoot(t.dir, t.slot);
  }

  lemma RenameStored(d: Disk, e: Disk, root: Node, t: Target, name: Name)
    requires FsInv(d, root) && Aimed(root, t) && t.dir.kids[t.slot].Used? && NameOk(name)
    requires Fits(root, t, t.dir.kids[t.slot].(name := name))
    requires t.slot < NUM_DIRENT && InRange(t.dir.blk) && InRange(t.dir.ino) && t.dir.blk != t.dir.ino
    requires e == d[t.dir.blk := SetDName(d[t.dir.blk], t.slot, name)]
    ensures FsInv(e, WithSlot(root, t, t.dir.kids[t.slot].(name := name)))
  {
    var k := t.dir.kids[t.slot].(name := name);
    hide Foot, SetDName, BitmapIs;
    Standing(d, root, At(t.addr, t.dir));
    KidStanding(d, root, t);
    KidApart(root, t);
    DirBlockRename(d[t.dir.blk], t.dir.kids, t.slot, name);
    Frame(d, e, k.node);
    hide WF, Rep, DirBlock, IsDir, Layout.Size, Layout.Ptr;
    assert Claimed(root) - SlotFoot(t.dir.kids[t.slot]) + SlotFoot(k) == Claimed(root);
    SlotUpdate(d, e, root, t, k);
  }

  lemma KidApart(root: Node, t: Target)
    requires WF(root) && Aimed(root, t) && t.dir.kids[t.slot].Used?
    ensures t.dir.blk !in Foot(t.dir.kids[t.slot].node)
  {
    GetParts(ZeroDisk(), root, t.addr);
  }

  // If the path resolves, its last step found an entry.
  lemma FoundVictim(root: Node, names: seq<Name>)
    requires names != [] && |names| <= MAX_DEPTH && Locate(root, names).At?
    ensures Victim(root, names).Ok?
  {
    ResolveSnoc(root, Init(names), Last(names));
    assert Init(names) + [Last(names)] == names;
  }

  lemma DirApart(n: Node)
    requires WF(n) && n.Dir?
    ensures n.ino != n.blk
  {
  }

  lemma FileShape(n: Node)
    requires WF(n) && n.File?
    ensures |n.blks| == Ceil(|n.data|) && |n.blks| <= NUM_PTRS && Distinct(n.blks) && n.ino !in n.blks
    ensures Foot(n) == {n.ino} + Blocks(n.blks)
    ensures forall i | 0 <= i < |n.blks| :: InRange(n.blks[i])
  {
  }

  // ---------- Truncation ----------

  lemma TruncateStored(d: Disk, e: Disk, root: Node, a: seq<nat>, f: Node)
    requires FsInv(d, root) && Get(root, a) == Some(f) && f.File? && InRange(f.ino)
    requires Stands(d, root, At(a, f))
    requires BitmapIs(e[1], Claimed(root) - Blocks(f.blks))
    requires e == d[1 := e[1]][f.ino := SetSize(d[f.ino], 0)]
    ensures FsInv(e, Put(root, a, File(f.ino, [], [])))
  {
    var m := File(f.ino, [], []);
    hide SetSize, BitmapIs;
    OwnFile(f.ino);
    FileShape(f);
    FootInRange(root);
    SetSizeFrame(d[f.ino], 0);
    assert e[f.ino] == SetSize(d[f.ino], 0);
    assert Claimed(root) - Foot(f) + Foot(m) == Claimed(root) - Blocks(f.blks);
    assert FileInode(e[f.ino], [], 0);
    hide WF, Layout.Mode, Layout.Size, Layout.Ptr;
    FileUpdate(d, e, root, a, m);
  }

  // ---------- Writing ----------

  // A write in progress on file f: bs are the blocks it has added, cur the bytes stored so far.
  ghost predicate Writing(d0: Disk, d: Disk, inode: Block, f: Node, used: set<nat>, bs: seq<nat>, cur: seq<byte>)
  {
    && f.File? && WF(f) && Blocks(f.blks) <= used
    && AllocMany(used, |bs|) == Some(bs)
    && BitmapIs(d[1], used + Blocks(bs))
    && Distinct(f.blks + bs)
    && FileInode(inode, f.blks + bs, |f.data|)
    && FileBytes(d, f.blks + bs, cur)
    && OnlyChanges(d0, d, {1} + Blocks(f.blks) + Blocks(bs))
  }

  lemma WriteStarts(d: Disk, inode: Block, f: Node, used: set<nat>)
    requires f.File? && WF(f) && Blocks(f.blks) <= used && BitmapIs(d[1], used)
    requires FileInode(inode, f.blks, |f.data|) && FileBytes(d, f.blks, f.data)
    ensures Writing(d, d, inode, f, used, [], f.data)
  {
    assert f.blks + [] == f.blks && used + Blocks([]) == used;
  }

  lemma WriteAllocates(d0: Disk, d: Disk, inode: Block, f: Node, used: set<nat>, bs: seq<nat>, cur: seq<byte>, b: nat)
    requires Writing(d0, d, inode, f, used, bs, cur)
    requires Alloc(used + Blocks(bs)) == Some(b) && |f.blks + bs| < NUM_PTRS
    ensures Writing(d0, d[1 := BitPut(d[1], b, true)], SetPtr(inode, |f.blks + bs|, b), f, used, bs + [b], cur)
  {
    hide SetPtr, BitPut, FileInode, FileBytes, Distinct, WF, Alloc, AllocMany, BitmapIs, OnlyChanges, Blocks;
    AllocFresh(used, f.blks, bs, b);
    var e := d[1 := BitPut(d[1], b, true)];
    FileShape(f);
    DistinctSnoc(f.blks + bs, b);
    AllocNext(used, |bs|, bs);
    BitmapPut(d[1], used + Blocks(bs), b, true);
    BlocksSnoc(used, bs, b);
    assert f.blks + (bs + [b]) == f.blks + bs + [b];
    PtrGrows(inode, f.blks + bs, |f.data|, b);
    BytesSurvive(d, e, f.blks + bs, b, cur);
    AllocTouches(d0, d, e, f.blks, bs, b);
  }

  lemma AllocFresh(used: set<nat>, blks: seq<nat>, bs: seq<nat>, b: nat)
    requires Alloc(used + Blocks(bs)) == Some(b) && Blocks(blks) <= used && AllocMany(used, |bs|) == Some(bs)
    ensures b !in blks + bs && 3 <= b < NUM_BLOCKS && b !in used + Blocks(bs) && 1 !in bs
  {
  }

  lemma AllocTouches(d0: Disk, d: Disk, e: Disk, blks: seq<nat>, bs: seq<nat>, b: nat)
    requires OnlyChanges(d0, d, {1} + Blocks(blks) + Blocks(bs)) && e == d[1 := e[1]]
    ensures OnlyChanges(d0, e, {1} + Blocks(blks) + Blocks(bs + [b]))
  {
    assert forall x | x in bs :: x in bs + [b];
  }

  lemma BytesSurvive(d: Disk, e: Disk, blks: seq<nat>, b: nat, cur: seq<byte>)
    requires FileBytes(d, blks, cur) && b < NUM_BLOCKS && e == d[1 := e[1]] && 1 !in blks
    ensures FileBytes(e, blks + [b], cur)
  {
    FileBytesGrow(d, e, blks, [b], cur);
  }

  lemma DistinctSnoc(s: seq<nat>, b: nat)
    requires Distinct(s)
    ensures b !in s ==> Distinct(s + [b])
  {
  }

  // What the code can read off the inode buffer during a write.
  lemma WritingFacts(d0: Disk, d: Disk, inode: Block, f: Node, used: set<nat>, bs: seq<nat>, cur: seq<byte>)
    requires Writing(d0, d, inode, f, used, bs, cur)
    ensures f.File? && |f.blks| == Ceil(|f.data|) && Size(inode) == |f.data| && |f.blks + bs| <= NUM_PTRS
    ensures forall i | 0 <= i < |f.blks + bs| :: Ptr(inode, i) == (f.blks + bs)[i] && InRange(Ptr(inode, i))
    ensures AllocMany(used, |bs|) == Some(bs) && BitmapIs(d[1], used + Blocks(bs))
  {
  }

  lemma BlocksSnoc(used: set<nat>, bs: seq<nat>, b: nat)
    ensures used + Blocks(bs) + {b} == used + Blocks(bs + [b])
  {
  }

  lemma PtrGrows(inode: Block, blks: seq<nat>, size: nat, b: nat)
    requires FileInode(inode, blks, size) && |blks| < NUM_PTRS && b < WORD
    ensures FileInode(SetPtr(inode, |blks|, b), blks + [b], size)
  {
    hide SetPtr;
    SetPtrFrame(inode, |blks|, b);
  }

  lemma WriteChunk(d0: Disk, d: Disk, inode: Block, f: Node, used: set<nat>, bs: seq<nat>, cur: seq<byte>,
                   k: nat, o: nat, chunk: seq<byte>)
    requires Writing(d0, d, inode, f, used, bs, cur) && k < |f.blks + bs|
    requires o + |chunk| <= BLOCK_SIZE && k * BLOCK_SIZE + o <= |cur|
    ensures InRange((f.blks + bs)[k])
    ensures var b := (f.blks + bs)[k];
      Writing(d0, d[b := Splice(d[b], o, chunk)], inode, f, used, bs, Overlay(cur, chunk, k * BLOCK_SIZE + o))
  {
    FileShape(f);
    hide WF, BitmapIs, FileInode, Overlay, Splice;
    OverlayBlock(d, f.blks + bs, cur, k, o, chunk);
  }

  // The file that a finished write leaves behind.
  lemma WriteStored(d: Disk, d1: Disk, e: Disk, root: Node, a: seq<nat>, f: Node, inode: Block,
                    bs: seq<nat>, buf: seq<byte>, off: nat)
    requires FsInv(d, root) && Get(root, a) == Some(f) && f.File? && InRange(f.ino) && off <= |f.data|
    requires Stands(d, root, At(a, f)) && off + |buf| <= MAX_FILE
    requires |bs| == Missing(f.data, off, |buf|)
    requires Writing(d, d1, inode, f, Claimed(root), bs, Overlay(f.data, buf, off))
    requires e == d1[f.ino := e[f.ino]] && !IsDir(e[f.ino]) && Size(e[f.ino]) == |Overlay(f.data, buf, off)|
    requires forall i | 0 <= i < NUM_PTRS :: Ptr(e[f.ino], i) == Ptr(inode, i)
    ensures FsInv(e, Put(root, a, File(f.ino, f.blks + bs, Overlay(f.data, buf, off))))
  {
    var m := File(f.ino, f.blks + bs, Overlay(f.data, buf, off));
    FileShape(f);
    FootInRange(root);
    GrownFile(root, f, bs, buf, off);
    hide BitmapIs, IsDir, Layout.Size, Layout.Ptr, Overlay;
    FileBytesGrow(d1, e, m.blks, [], m.data);
    assert m.blks + [] == m.blks;
    assert Rep(e, m);
    hide WF, Rep, FileBytes, FileInode, Foot;
    assert Claimed(root) - Foot(f) + Foot(m) == Claimed(root) + Blocks(bs);
    FileUpdate(d, e, root, a, m);
  }

  lemma GrownFile(root: Node, f: Node, bs: seq<nat>, buf: seq<byte>, off: nat)
    requires WF(f) && f.File? && off <= |f.data| && off + |buf| <= MAX_FILE && f.ino in Foot(root)
    requires |bs| == Missing(f.data, off, |buf|) && AllocMany(Claimed(root), |bs|) == Some(bs)
    requires Distinct(f.blks + bs) && Foot(f) <= Foot(root)
    ensures WF(File(f.ino, f.blks + bs, Overlay(f.data, buf, off)))
    ensures Foot(File(f.ino, f.blks + bs, Overlay(f.data, buf, off))) == Foot(f) + Blocks(bs)
    ensures Blocks(bs) !! Claimed(root)
  {
    hide AllocMany;
    assert Blocks(f.blks + bs) == Blocks(f.blks) + Blocks(bs);
  }

  // What a write starts from, at a file that path lookup has found.
  lemma StandsFile(d: Disk, root: Node, a: seq<nat>, f: Node)
    requires FsInv(d, root) && f.File? && Stands(d, root, At(a, f))
    ensures WF(f) && Blocks(f.blks) <= Claimed(root) && BitmapIs(d[1], Claimed(root))
    ensures f.ino < NUM_BLOCKS && FileInode(d[f.ino], f.blks, |f.data|) && FileBytes(d, f.blks, f.data)
    ensures f.ino in Foot(root) && f.ino !in f.blks && 1 !in Foot(root) && !IsDir(d[f.ino])
  {
    FileShape(f);
    FootInRange(root);
  }

  lemma OverlaySize(data: seq<byte>, buf: seq<byte>, off: nat)
    requires off <= |data|
    ensures |Overlay(data, buf, off)| == if off + |buf| > |data| then off + |buf| else |data|
  {
  }

  lemma HeaderOf(b: Block, c: Block, d: Block)
    requires b[..12] == c[..12] && c[..20] == d[..20]
    ensures b[..12] == d[..12]
  {
    assert c[..20][..12] == c[..12] && d[..20][..12] == d[..12];
  }

  // A write touches the bitmap, the inode and the file's own blocks, old and new.
  lemma WriteTouches(d0: Disk, d1: Disk, e: Disk, inode: Block, f: Node, used: set<nat>, bs: seq<nat>, cur: seq<byte>)
    requires Writing(d0, d1, inode, f, used, bs, cur) && f.ino < NUM_BLOCKS && e == d1[f.ino := e[f.ino]]
    ensures OnlyChanges(d0, e, {1, f.ino} + Blocks(f.blks) + Blocks(bs))
  {
    hide WF, BitmapIs, FileInode, FileBytes, AllocMany, Distinct;
  }

  lemma SealFrame(inode: Block, size: nat, now: nat)
    requires size < WORD / 2 && now < WORD
    ensures IsDir(SetMtime(SetSize(inode, size), now)) == IsDir(inode) &&
        Size(SetMtime(SetSize(inode, size), now)) == size
    ensures forall i | 0 <= i < NUM_PTRS :: Ptr(SetMtime(SetSize(inode, size), now), i) == Ptr(inode, i)
  {
    hide SetSize, SetMtime;
    SetSizeFrame(inode, size);
    SetMtimeFrame(SetSize(inode, size), now);
  }

  // How many blocks a write has added when the chunk at block k is done.
  lemma MissingStep(data: seq<byte>, off: nat, done: nat, n: nat, len: nat, k: nat, o: nat)
    requires off <= |data| && done < len && off + len <= MAX_FILE && |data| <= MAX_FILE
    requires k * BLOCK_SIZE + o == off + done && o < BLOCK_SIZE
    requires n == if len - done > BLOCK_SIZE - o then BLOCK_SIZE - o else len - done
    requires o == 0 || done == 0
    ensures k <= Ceil(|data|) + Missing(data, off, done)
    ensures k >= Ceil(|data|) ==>
              && k == Ceil(|data|) + Missing(data, off, done) < NUM_PTRS
              && Missing(data, off, done) < Missing(data, off, len)
    ensures Missing(data, off, done + n) == Missing(data, off, done) + (if k >= Ceil(|data|) then 1 else 0)
  {
  }

  // The state of the block loop: done bytes of buf are stored, the next one goes to offset o of block k.
  ghost predicate WriteLoop(d0: Disk, d: Disk, inode: Block, f: Node, used: set<nat>, bs: seq<nat>,
                            buf: seq<byte>, off: nat, done: nat, k: nat, o: nat)
  {
    && f.File? && off <= |f.data| <= MAX_FILE && off + |buf| <= MAX_FILE && done <= |buf|
    && (done < |buf| ==> k * BLOCK_SIZE + o == off + done && o < BLOCK_SIZE && (o == 0 || done == 0))
    && |f.blks| == Ceil(|f.data|) && |bs| == Missing(f.data, off, done)
    && AllocMany(used, Missing(f.data, off, |buf|)).Some?
    && Writing(d0, d, inode, f, used, bs, Stored(f.data, buf, off, done))
  }

  lemma LoopStarts(d: Disk, inode: Block, f: Node, used: set<nat>, buf: seq<byte>, off: nat)
    requires f.File? && WF(f) && Blocks(f.blks) <= used && BitmapIs(d[1], used)
    requires FileInode(inode, f.blks, |f.data|) && FileBytes(d, f.blks, f.data)
    requires off <= |f.data| && off + |buf| <= MAX_FILE && AllocMany(used, Missing(f.data, off, |buf|)).Some?
    ensures WriteLoop(d, d, inode, f, used, [], buf, off, 0, off / BLOCK_SIZE, off % BLOCK_SIZE)
  {
    FileShape(f);
    StoredEnds(f.data, buf, off);
    WriteStarts(d, inode, f, used);
    hide Writing, AllocMany, WF, BitmapIs, FileInode, FileBytes;
  }

  lemma LoopEnds(d0: Disk, d: Disk, inode: Block, f: Node, used: set<nat>, bs: seq<nat>, buf: seq<byte>, off: nat,
      k: nat, o: nat)
    requires WriteLoop(d0, d, inode, f, used, bs, buf, off, |buf|, k, o)
    ensures off <= |f.data| && |bs| == Missing(f.data, off, |buf|)
    ensures Writing(d0, d, inode, f, used, bs, Overlay(f.data, buf, off))
  {
    StoredEnds(f.data, buf, off);
  }

  ghost function Below(s: set<nat>, i: nat): set<nat> { set b | b in s && b < i }

  lemma BelowStep(s: set<nat>, i: nat)
    ensures |Below(s, i + 1)| == |Below(s, i)| + (if i in s then 1 else 0)
  {
    if i in s {
      assert Below(s, i + 1) == Below(s, i) + {i};
    } else {
      assert Below(s, i + 1) == Below(s, i);
    }
  }

  lemma BelowEnds(s: set<nat>)
    ensures (forall b | b in s :: InRange(b)) ==> |Below(s, 2)| == 0 && |Below(s, NUM_BLOCKS)| == |s|
  {
    if forall b | b in s :: InRange(b) {
      assert Below(s, 2) == {};
      assert Below(s, NUM_BLOCKS) == s;
    }
  }

  lemma ClaimedRange(d: Disk, root: Node)
    requires FsInv(d, root)
    ensures BitmapIs(d[1], {0, 1} + Foot(root)) && forall b | b in Foot(root) :: InRange(b)
  {
    FootInRange(root);
  }
}
