/**
  The fs5600 calls as fs5600.c performs them on a disk of raw blocks.
  Each is proved to return the code, and to leave the tree, that FsSpec prescribes.
  */
module FsOps {
  import opened Wrappers
  import opened Layout
  import opened Paths
  import opened FsTree
  import opened FsSpec
  import opened FsUpdate
  import opened FsBytes
  import opened FsStored

  class Fs5600 {
    const disk: array<Block>
    ghost var root: Node

    // The block array, which only the calls below change, stores the tree.
    ghost predicate Valid()
      reads this, disk
    {
      disk.Length == NUM_BLOCKS && FsInv(disk[..], root)
    }

    constructor Mount(image: array<Block>)
      requires image.Length == NUM_BLOCKS && FreshImage(image[..])
      ensures Valid() && disk == image && root == FreshRoot()
    {
      disk := image;
      root := FreshRoot();
      FreshInv(image[..]);
    }

    // ---------- Bitmap ----------

    method AllocBlk(ghost used: set<nat>) returns (r: int)
      requires disk.Length == NUM_BLOCKS && BitmapIs(disk[1], used)
      modifies disk
      ensures Alloc(used).None? ==> r == -ENOSPC && disk[..] == old(disk[..])
      ensures Alloc(used).Some? ==>
                && r == Alloc(used).value
                && disk[..] == old(disk[..])[1 := BitPut(old(disk[1]), r, true)]
                && BitmapIs(disk[1], used + {r})
    {
      var bitmap := disk[1];
      var i := 3;
      while i < NUM_BLOCKS
        invariant 3 <= i <= NUM_BLOCKS && disk[..] == old(disk[..]) && bitmap == old(disk[1])
        invariant Alloc(used) == Lowest(used, i)
      {
        if !BitTest(bitmap, i) {
          BitmapPut(disk[1], used, i, true);
          disk[1] := BitPut(bitmap, i, true);
          return i;
        }
        i := i + 1;
      }
      return -ENOSPC;
    }

    method FreeBlk(b: nat, ghost used: set<nat>)
      requires disk.Length == NUM_BLOCKS && BitmapIs(disk[1], used) && b < NUM_BLOCKS
      modifies disk
      ensures disk[..] == old(disk[..])[1 := BitPut(old(disk[1]), b, false)]
      ensures BitmapIs(disk[1], used - {b})
    {
      BitmapPut(disk[1], used, b, false);
      disk[1] := BitPut(disk[1], b, false);
    }

    // The loop of unlink and truncate over an inode's data pointers.
    method FreeData(ino: Block, ghost used: set<nat>, ghost blks: seq<nat>)
      requires disk.Length == NUM_BLOCKS && BitmapIs(disk[1], used)
      requires Size(ino) >= 0 && |blks| == Ceil(Size(ino)) && FileInode(ino, blks, Size(ino))
      requires forall i | 0 <= i < |blks| :: blks[i] < NUM_BLOCKS
      modifies disk
      ensures disk[..] == old(disk[..])[1 := disk[1]]
      ensures BitmapIs(disk[1], used - Blocks(blks))
    {
      var i := 0;
      assert used - Blocks(blks[..0]) == used;
      while i < Ceil(Size(ino))
        invariant 0 <= i <= |blks|
        invariant disk[..] == old(disk[..])[1 := disk[1]]
        invariant BitmapIs(disk[1], used - Blocks(blks[..i]))
      {
        FreeBlk(Ptr(ino, i), used - Blocks(blks[..i]));
        assert used - Blocks(blks[..i]) - {blks[i]} == used - Blocks(blks[..i + 1]) by {
          assert blks[..i + 1] == blks[..i] + [blks[i]];
        }
        i := i + 1;
      }
      assert blks[..i] == blks;
    }

    // ---------- Directory search ----------

    static method FindDirent(b: Block, name: Name, ghost kids: seq<Slot>) returns (r: Option<nat>)
      requires DirBlock(b, kids)
      ensures r == Find(kids, name, 0)
    {
      var i := 0;
      while i < NUM_DIRENT
        invariant 0 <= i <= NUM_DIRENT && Find(kids, name, 0) == Find(kids, name, i)
      {
        if DValid(b, i) && DName(b, i) == name {
          return Some(i);
        }
        i := i + 1;
      }
      return None;
    }

    static method FindEmpty(b: Block, ghost kids: seq<Slot>) returns (r: Option<nat>)
      requires DirBlock(b, kids)
      ensures r == FirstFree(kids, 0)
    {
      var i := 0;
      while i < NUM_DIRENT
        invariant 0 <= i <= NUM_DIRENT && FirstFree(kids, 0) == FirstFree(kids, i)
      {
        if !DValid(b, i) {
          return Some(i);
        }
        i := i + 1;
      }
      return None;
    }

    static method FindFull(b: Block, ghost kids: seq<Slot>) returns (r: Option<nat>)
      requires DirBlock(b, kids)
      ensures r.Some? <==> exists i :: 0 <= i < |kids| && kids[i].Used?
    {
      var i := 0;
      while i < NUM_DIRENT
        invariant 0 <= i <= NUM_DIRENT && forall j | 0 <= j < i :: kids[j].Free?
      {
        if DValid(b, i) {
          return Some(i);
        }
        i := i + 1;
      }
      return None;
    }

    // ---------- Path resolution ----------

    method Path2Inum(path: seq<byte>) returns (r: int)
      requires Valid()
      ensures r == Code(PathWalk(root, path))
      ensures Stands(disk[..], root, PathWalk(root, path))
      ensures PathWalk(root, path).At? ==> 2 <= r < NUM_BLOCKS
    {
      Standing(disk[..], root, PathWalk(root, path));
      hide WF, Rep, Foot, BitmapIs;
      if |path| == 0 || path[0] != SLASH {
        return -ENOENT;
      }
      var names := SepPath(path);
      if names.None? {
        return -ENOENT;
      }
      r := Descend(names.value);
    }

    method Descend(names: seq<Name>) returns (r: int)
      requires Valid()
      ensures r == Code(Resolve(root, names))
    {
      var k := 0;
      var ino := 2;
      ghost var cur := root;
      while k < |names|
        invariant 0 <= k <= |names| && cur.ino == ino
        invariant WF(cur) && Rep(disk[..], cur)
        invariant Code(Resolve(root, names)) == Code(Resolve(cur, names[k..]))
      {
        if |names[k]| > NAME_MAX {
          return -ENOENT;
        }
        var inode := disk[ino];
        if !IsDir(inode) || Size(inode) == 0 {
          return -ENOTDIR;
        }
        var s := FindDirent(disk[Ptr(inode, 0)], names[k], cur.kids);
        if s.None? {
          return -ENOENT;
        }
        assert names[k..][1..] == names[k + 1..];
        ino := DIno(disk[Ptr(inode, 0)], s.value);
        cur := cur.kids[s.value].node;
        k := k + 1;
      }
      return ino;
    }

    // The names of a path and the path of its parent.
    static method CutParent(path: seq<byte>) returns (names: seq<Name>, par: seq<byte>)
      requires Canonical(path) && 0 < |Tokens(path)| <= MAX_DEPTH
      ensures names == Tokens(path) && IsToken(Last(names))
      ensures par != [] && par[0] == SLASH && 0 !in par && Tokens(par) == Init(names)
    {
      var tokens := SepPath(path);
      names := tokens.value;
      par := ParPath(names, path);
      ParentTokens(path);
      TokensAreTokens(path);
    }

    // ---------- create and mkdir ----------

    // What create and mkdir do before they allocate: the block and slot for a new entry, or an error.
    method FindPlace(path: seq<byte>) returns (err: int, blk: nat, slot: nat, name: Name)
      requires Valid() && Canonical(path) && |Tokens(path)| <= MAX_DEPTH
      ensures var t := Place(root, Tokens(path));
        if err < 0 then t == Bad(err)
        else t.Ok? && t.dir.blk == blk && InRange(blk) && t.slot == slot < NUM_DIRENT && name == Last(Tokens(path))
      ensures err >= 0 ==> NameOk(name) && |Tokens(path)| <= MAX_DEPTH
    {
      assert path != [] && path[0] == SLASH;
      hide WF, Rep, Foot, BitmapIs, Canonical, Tokens, DirBlock;
      blk, slot, name := 0, 0, [];
      var there := Path2Inum(path);
      if there > 0 {
        return -EEXIST, blk, slot, name;
      }
      var names, par := CutParent(path);
      name := names[|names| - 1];
      if |name| > NAME_MAX {
        return -EINVAL, blk, slot, name;
      }
      var ino := Path2Inum(par);
      if ino < 0 {
        return -ENOENT, blk, slot, name;
      }
      ghost var dir := Locate(root, Init(names)).node;
      if !IsDir(disk[ino]) {
        return -ENOTDIR, blk, slot, name;
      }
      blk := Ptr(disk[ino], 0);
      var s := FindEmpty(disk[blk], dir.kids);
      if s.None? {
        return -ENOSPC, blk, slot, name;
      }
      return 0, blk, s.value, name;
    }

    method Create(path: seq<byte>, stamp: Stamp, junk: Block) returns (r: int)
      requires Valid() && Canonical(path) && |Tokens(path)| <= MAX_DEPTH && StampOk(stamp)
      modifies this, disk
      ensures Valid() && (r, root) == FsSpec.Create(old(root), Tokens(path))
      ensures r < 0 ==> disk[..] == old(disk[..])
      ensures r == 0 ==> var t, b := Place(old(root), Tokens(path)), Alloc(Claimed(old(root)));
        && t.Ok? && b.Some? && OnlyChanges(old(disk[..]), disk[..], {1, b.value, t.dir.blk})
        && Stamped(disk[b.value], stamp, 32768, 0)
    {
      hide WF, Rep, Foot, BitmapIs, Place, Canonical, Tokens, DirBlock, IsDir, FileBytes, NewInode, SetDirent,
          SetPtr, BitPut, Stamped;
      var err, blk, slot, name := FindPlace(path);
      if err < 0 {
        return err;
      }
      var buf := disk[blk];
      var b := AllocBlk(Claimed(root));
      if b < 0 {
        return b;
      }
      disk[b] := NewInode(junk, stamp, 32768, 0);
      disk[blk] := SetDirent(buf, slot, b, name);
      NewInodeStamped(junk, stamp, 32768, 0);
      CreateStored(old(disk[..]), disk[..], root, Tokens(path), Place(root, Tokens(path)), b, stamp, junk);
      root := FsSpec.Create(root, Tokens(path)).1;
      return 0;
    }

    method Mkdir(path: seq<byte>, stamp: Stamp, junk: Block) returns (r: int)
      requires Valid() && Canonical(path) && |Tokens(path)| <= MAX_DEPTH && StampOk(stamp)
      modifies this, disk
      ensures Valid() && (r, root) == FsSpec.Mkdir(old(root), Tokens(path))
      ensures r < 0 ==> disk[..] == old(disk[..])
      ensures r == 0 ==> var t, bs := Place(old(root), Tokens(path)), AllocMany(Claimed(old(root)), 2);
        && t.Ok? && bs.Some? && OnlyChanges(old(disk[..]), disk[..], {1, bs.value[0], bs.value[1], t.dir.blk})
        && bs.value[0] < NUM_BLOCKS && Stamped(disk[bs.value[0]], stamp, 16384, BLOCK_SIZE)
    {
      hide WF, Rep, Foot, BitmapIs, Place, Canonical, Tokens, DirBlock, IsDir, FileBytes, NewInode, SetDirent,
          SetPtr, BitPut, Stamped;
      var err, blk, slot, name := FindPlace(path);
      if err < 0 {
        return err;
      }
      var buf := disk[blk];
      var b, c := AllocPair(Claimed(root));
      if b < 0 {
        return b;
      }
      disk[c] := ZeroBlock();
      disk[b] := SetPtr(NewInode(junk, stamp, 16384, BLOCK_SIZE), 0, c);
      disk[blk] := SetDirent(buf, slot, b, name);
      NewDirStamped(junk, stamp, c);
      MkdirStored(old(disk[..]), disk[..], root, Tokens(path), Place(root, Tokens(path)), b, c, stamp, junk);
      root := FsSpec.Mkdir(root, Tokens(path)).1;
      return 0;
    }

    // mkdir's two allocations: when the second fails, the first block is given back.
    method AllocPair(ghost used: set<nat>) returns (b: int, c: int)
      requires disk.Length == NUM_BLOCKS && BitmapIs(disk[1], used)
      modifies disk
      ensures AllocMany(used, 2).None? ==> b == -ENOSPC && disk[..] == old(disk[..])
      ensures AllocMany(used, 2).Some? ==>
                && AllocMany(used, 2) == Some([b, c]) && 3 <= b < NUM_BLOCKS && 3 <= c < NUM_BLOCKS
                && disk[..] == old(disk[..])[1 := disk[1]]
                && BitmapIs(disk[1], used + {b, c})
    {
      hide BitmapIs, BitPut;
      c := 0;
      b := AllocBlk(used);
      PairOfAllocs(used);
      if b < 0 {
        return;
      }
      c := AllocBlk(used + {b});
      if c < 0 {
        AllocThenFree(old(disk[..]), used, b);
        FreeBlk(b, used + {b});
        return c, 0;
      }
      assert used + {b} + {c} == used + {b, c};
    }

    // ---------- unlink and rmdir ----------

    // What unlink and rmdir look up before they inspect the victim.
    method FindVictim(path: seq<byte>) returns (err: int, parent: nat, blk: nat, slot: nat, ino: nat)
      requires Valid() && Canonical(path) && 0 < |Tokens(path)| <= MAX_DEPTH
      ensures var t := Victim(root, Tokens(path));
        if err < 0 then t == Bad(err)
        else
          && Aimed(root, t) && t.dir.ino == parent && t.dir.blk == blk && t.slot == slot
          && InRange(parent) && InRange(blk) && blk != parent && slot < NUM_DIRENT
          && t.dir.kids[slot].Used? && t.dir.kids[slot].node.ino == ino && InRange(ino)
          && Stands(disk[..], root, At([], t.dir.kids[slot].node))
    {
      assert path != [] && path[0] == SLASH;
      hide WF, Rep, Foot, BitmapIs, Canonical, Tokens;
      parent, blk, slot, ino := 0, 0, 0, 0;
      var names, par := CutParent(path);
      err := Path2Inum(par);
      if err < 0 {
        return -ENOENT, parent, blk, slot, ino;
      }
      parent := err;
      ghost var w := Locate(root, Init(names));
      if !IsDir(disk[parent]) {
        return -ENOTDIR, parent, blk, slot, ino;
      }
      blk := Ptr(disk[parent], 0);
      var s := FindDirent(disk[blk], Last(names), w.node.kids);
      if s.None? {
        return -ENOENT, parent, blk, slot, ino;
      }
      slot := s.value;
      ino := DIno(disk[blk], slot);
      KidStanding(disk[..], root, Victim(root, names));
      DirApart(w.node);
      return 0, parent, blk, slot, ino;
    }

    // How unlink and rmdir end: the entry is cleared and the parent's mtime set, from the copies read
    // before the victim's blocks were freed.
    method Detach(parIn: Block, parData: Block, parent: nat, blk: nat, slot: nat, now: nat, ghost d: Disk,
        ghost t: Target)
      requires disk.Length == NUM_BLOCKS && FsInv(d, root) && Aimed(root, t) && now < WORD
      requires t.dir.ino == parent && t.dir.blk == blk && t.slot == slot && t.dir.kids[slot].Used?
      requires InRange(parent) && InRange(blk) && blk != parent && slot < NUM_DIRENT
      requires parIn == d[parent] && parData == d[blk] && disk[..] == d[1 := disk[1]]
      requires BitmapIs(disk[1], Claimed(root) - Foot(t.dir.kids[slot].node))
      modifies this, disk
      ensures Valid() && root == WithSlot(old(root), t, Free)
      ensures OnlyChanges(d, disk[..], {1, blk, parent}) && disk[parent] == SetMtime(d[parent], now)
    {
      hide WF, Rep, Foot, BitmapIs, DirBlock, IsDir, FileBytes, FsInv, ClearDirent, SetMtime;
      disk[blk] := ClearDirent(parData, slot);
      disk[parent] := SetMtime(parIn, now);
      assert disk[..] == d[1 := disk[1]][blk := ClearDirent(d[blk], slot)][parent := SetMtime(d[parent], now)];
      RemovalStored(d, disk[..], root, t, now);
      root := WithSlot(root, t, Free);
    }

    method Unlink(path: seq<byte>, now: nat) returns (r: int)
      requires Valid() && Canonical(path) && 0 < |Tokens(path)| <= MAX_DEPTH && now < WORD
      modifies this, disk
      ensures Valid() && (r, root) == FsSpec.Unlink(old(root), Tokens(path))
      ensures r < 0 ==> disk[..] == old(disk[..])
      ensures r == 0 ==> var t := Victim(old(root), Tokens(path));
        && t.Ok? && t.dir.ino < NUM_BLOCKS && OnlyChanges(old(disk[..]), disk[..], {1, t.dir.blk, t.dir.ino})
        && disk[t.dir.ino] == SetMtime(old(disk[..])[t.dir.ino], now)
    {
      hide WF, Rep, Foot, BitmapIs, Victim, Canonical, Tokens, DirBlock, IsDir, FileBytes;
      var err, parent, blk, slot, ino := FindVictim(path);
      if err < 0 {
        return err;
      }
      ghost var t := Victim(root, Tokens(path));
      ghost var kid := t.dir.kids[slot].node;
      var parIn, parData, fileIn := disk[parent], disk[blk], disk[ino];
      if IsDir(fileIn) {
        return -EISDIR;
      }
      FileShape(kid);
      FreeData(fileIn, Claimed(root), kid.blks);
      FreeBlk(ino, Claimed(root) - Blocks(kid.blks));
      assert Claimed(root) - Blocks(kid.blks) - {ino} == Claimed(root) - Foot(kid);
      Detach(parIn, parData, parent, blk, slot, now, old(disk[..]), t);
      return 0;
    }

    method Rmdir(path: seq<byte>, now: nat) returns (r: int)
      requires Valid() && Canonical(path) && |Tokens(path)| <= MAX_DEPTH && now < WORD
      modifies this, disk
      ensures Valid() && (r, root) == FsSpec.Rmdir(old(root), Tokens(path))
      ensures r < 0 ==> disk[..] == old(disk[..])
      ensures r == 0 ==> var t := Victim(old(root), Tokens(path));
        && t.Ok? && t.dir.ino < NUM_BLOCKS && OnlyChanges(old(disk[..]), disk[..], {1, t.dir.blk, t.dir.ino})
        && disk[t.dir.ino] == SetMtime(old(disk[..])[t.dir.ino], now)
    {
      hide WF, Rep, Foot, BitmapIs, Canonical, Tokens, DirBlock, IsDir;
      var tokens := SepPath(path);
      if |tokens.value| == 0 {
        return -ENOENT;
      }
      hide Victim;
      var err, parent, blk, slot, ino := FindVictim(path);
      if err < 0 {
        return err;
      }
      ghost var t := Victim(root, Tokens(path));
      ghost var kid := t.dir.kids[slot].node;
      var parIn, parData, subIn := disk[parent], disk[blk], disk[ino];
      if !IsDir(subIn) {
        return -ENOTDIR;
      }
      var sub := Ptr(subIn, 0);
      var full := FindFull(disk[sub], kid.kids);
      if full.Some? {
        return -ENOTEMPTY;
      }
      EmptyDirFoot(kid);
      FreeBlk(sub, Claimed(root));
      FreeBlk(ino, Claimed(root) - {sub});
      assert Claimed(root) - {sub} - {ino} == Claimed(root) - Foot(kid);
      Detach(parIn, parData, parent, blk, slot, now, old(disk[..]), t);
      return 0;
    }

    // ---------- rename ----------

    method Rename(src: seq<byte>, dst: seq<byte>) returns (r: int)
      requires Valid() && Canonical(src) && Canonical(dst)
      requires Tokens(dst) != [] ==> |Last(Tokens(dst))| <= NAME_MAX
      modifies this, disk
      ensures Valid() && (r, root) == FsSpec.Rename(old(root), Tokens(src), Tokens(dst))
      ensures r < 0 ==> disk[..] == old(disk[..])
      ensures r == 0 ==> var t := Victim(old(root), Tokens(src));
        t.Ok? && OnlyChanges(old(disk[..]), disk[..], {t.dir.blk})
    {
      assert src != [] && src[0] == SLASH && dst != [] && dst[0] == SLASH;
      TokensAreTokens(dst);
      hide WF, Rep, Foot, BitmapIs, Canonical, Tokens, Victim;
      var from := Path2Inum(src);
      var to := Path2Inum(dst);
      if from < 0 {
        return -ENOENT;
      }
      if to > 0 {
        return -EEXIST;
      }
      var srcNames := SepPath(src);
      var dstNames := SepPath(dst);
      if dstNames.None? || |srcNames.value| != |dstNames.value| {
        return -EINVAL;
      }
      var same := SameParent(srcNames.value, dstNames.value);
      if !same {
        return -EINVAL;
      }
      RenameEntry(src, dst, srcNames.value, dstNames.value);
      return 0;
    }

    static method SameParent(src: seq<Name>, dst: seq<Name>) returns (same: bool)
      requires |src| == |dst|
      ensures same <==> src == [] || Init(src) == Init(dst)
    {
      var i := 0;
      while i < |src| - 1
        invariant 0 <= i <= |src| && (src != [] ==> i <= |src| - 1)
        invariant src[..i] == dst[..i]
      {
        if src[i] != dst[i] {
          assert Init(src)[i] != Init(dst)[i];
          return false;
        }
        i := i + 1;
      }
      return true;
    }

    // The tail of rename: rewrite the name in the parent's directory block.
    method RenameEntry(src: seq<byte>, dst: seq<byte>, srcNames: seq<Name>, dstNames: seq<Name>)
      requires Valid() && Canonical(src) && Canonical(dst) && srcNames == Tokens(src) && dstNames == Tokens(dst)
      requires 0 < |srcNames| == |dstNames| <= MAX_DEPTH && Init(srcNames) == Init(dstNames)
      requires Locate(root, srcNames).At? && Locate(root, dstNames).Fail? && NameOk(Last(dstNames))
      modifies this, disk
      ensures Valid() && (0, root) == FsSpec.Rename(old(root), Tokens(src), Tokens(dst))
      ensures var t := Victim(old(root), Tokens(src)); t.Ok? && OnlyChanges(old(disk[..]), disk[..], {t.dir.blk})
    {
      hide WF, Rep, Foot, BitmapIs, Canonical, Tokens, DirBlock, IsDir, Victim;
      var err, _, blk, slot, _ := FindVictim(src);
      ghost var t := Victim(root, srcNames);
      FoundVictim(root, srcNames);
      RenameFits(root, srcNames, dstNames, t);
      disk[blk] := SetDName(disk[blk], slot, Last(dstNames));
      RenameStored(old(disk[..]), disk[..], root, t, Last(dstNames));
      root := WithSlot(root, t, t.dir.kids[slot].(name := Last(dstNames)));
    }

    // ---------- chmod, utime, truncate ----------

    method Chmod(path: seq<byte>, mode: nat) returns (r: int)
      requires Valid() && Canonical(path)
      modifies this, disk
      ensures Valid() && root == old(root) && r == ChmodCode(root, Tokens(path))
      ensures r < 0 ==> disk[..] == old(disk[..])
      ensures r == 0 ==> var ino := Locate(root, Tokens(path)).node.ino;
        && ino < NUM_BLOCKS && disk[..] == old(disk[..])[ino := disk[ino]]
        && Mode(disk[ino]) % 4096 == mode % 4096 && Mode(disk[ino]) / 4096 == Mode(old(disk[..])[ino]) / 4096
        && disk[ino][..4] == old(disk[..])[ino][..4] && disk[ino][8..] == old(disk[..])[ino][8..]
    {
      assert path != [] && path[0] == SLASH;
      hide WF, Rep, Foot, BitmapIs, Canonical, Tokens, DirBlock, FileBytes;
      var ino := Path2Inum(path);
      if ino <= 0 {
        return -ENOENT;
      }
      ChmodFrame(disk[ino], mode);
      ghost var before := disk[..];
      disk[ino] := Layout.Chmod(disk[ino], mode);
      hide IsDir, Layout.Size, Layout.Ptr, Layout.Chmod;
      TouchUpdate(before, disk[..], root, PathWalk(root, path).addr);
      return 0;
    }

    method Utime(path: seq<byte>, mtime: nat) returns (r: int)
      requires Valid() && Canonical(path) && mtime < WORD
      modifies this, disk
      ensures Valid() && root == old(root) && r == UtimeCode(root, Tokens(path))
      ensures r < 0 ==> disk[..] == old(disk[..])
      ensures r == 0 ==> var ino := Locate(root, Tokens(path)).node.ino;
        ino < NUM_BLOCKS && disk[..] == old(disk[..])[ino := SetMtime(old(disk[..])[ino], mtime)]
    {
      assert path != [] && path[0] == SLASH;
      hide WF, Rep, Foot, BitmapIs, Canonical, Tokens, DirBlock, FileBytes;
      var ino := Path2Inum(path);
      if ino <= 0 {
        return ino;
      }
      if IsDir(disk[ino]) {
        return -EISDIR;
      }
      SetMtimeFrame(disk[ino], mtime);
      ghost var before := disk[..];
      disk[ino] := SetMtime(disk[ino], mtime);
      hide Layout.Mode, Layout.Size, Layout.Ptr, Layout.SetMtime;
      TouchUpdate(before, disk[..], root, PathWalk(root, path).addr);
      return 0;
    }

    method Truncate(path: seq<byte>, len: int) returns (r: int)
      requires Valid() && Canonical(path)
      modifies this, disk
      ensures Valid() && (r, root) == FsSpec.Truncate(old(root), Tokens(path), len)
      ensures r < 0 ==> disk[..] == old(disk[..])
      ensures r == 0 ==> var ino := Locate(old(root), Tokens(path)).node.ino;
        && ino < NUM_BLOCKS && OnlyChanges(old(disk[..]), disk[..], {1, ino})
        && disk[ino] == SetSize(old(disk[..])[ino], 0)
    {
      if len != 0 {
        return -EINVAL;
      }
      assert path != [] && path[0] == SLASH;
      hide WF, Rep, Foot, BitmapIs, Canonical, Tokens, DirBlock, FileBytes, SetSize;
      var ino := Path2Inum(path);
      if ino <= 0 {
        return ino;
      }
      var inode := disk[ino];
      if IsDir(inode) {
        return -EISDIR;
      }
      ghost var w := Locate(root, Tokens(path));
      Discard(ino, inode, w.addr, w.node);
      return 0;
    }

    // The tail of truncate: free the data blocks and store a size of 0.
    method Discard(ino: nat, inode: Block, ghost a: seq<nat>, ghost f: Node)
      requires Valid() && InRange(ino) && f.File? && f.ino == ino && inode == disk[ino]
      requires Get(root, a) == Some(f) && Stands(disk[..], root, At(a, f))
      modifies this, disk
      ensures Valid() && root == Put(old(root), a, File(ino, [], []))
      ensures OnlyChanges(old(disk[..]), disk[..], {1, ino}) && disk[ino] == SetSize(old(disk[..])[ino], 0)
    {
      hide WF, Rep, Foot, BitmapIs, DirBlock, FileBytes, SetSize;
      FileShape(f);
      FreeData(inode, Claimed(root), f.blks);
      disk[ino] := SetSize(inode, 0);
      TruncateStored(old(disk[..]), disk[..], root, a, f);
      root := Put(root, a, File(ino, [], []));
    }

    // ---------- readdir and statfs ----------

    // The filler calls of readdir, in order: each valid entry's name and inode number.
    method ReadDir(path: seq<byte>) returns (r: int, entries: seq<(Name, nat)>)
      requires Valid() && Canonical(path)
      ensures (r, entries) == FsSpec.ReadDir(root, Tokens(path))
    {
      assert path != [] && path[0] == SLASH;
      assert PathWalk(root, path) == Locate(root, Tokens(path));
      hide WF, Rep, Foot, BitmapIs, Canonical, Tokens, FileBytes, IsDir, Layout.Size, Layout.Ptr, Locate, PathWalk;
      entries := [];
      var ino := Path2Inum(path);
      if ino <= 0 {
        return ino, entries;
      }
      if !IsDir(disk[ino]) {
        return -ENOTDIR, entries;
      }
      entries := ListBlock(disk[Ptr(disk[ino], 0)], Locate(root, Tokens(path)).node.kids);
      return 0, entries;
    }

    static method ListBlock(b: Block, ghost kids: seq<Slot>) returns (entries: seq<(Name, nat)>)
      requires DirBlock(b, kids)
      ensures entries == Listing(kids)
    {
      entries := [];
      var i := 0;
      while i < NUM_DIRENT
        invariant 0 <= i <= NUM_DIRENT && entries == Listing(kids[..i])
      {
        assert kids[..i + 1] == kids[..i] + [kids[i]];
        if DValid(b, i) {
          entries := entries + [(DName(b, i), DIno(b, i))];
        }
        i := i + 1;
      }
      assert kids[..i] == kids;
    }

    // f_blocks and f_bfree, in the unsigned arithmetic of their C types.
    method StatFs() returns (blocks: nat, bfree: nat)
      requires Valid()
      ensures blocks == U32(Get32(disk[0], 4) - 2)
      ensures bfree == U64(blocks - |Foot(root)|)
    {
      hide FsInv, Foot, Get32, U32, U64;
      blocks := U32(Get32(disk[0], 4) - 2);
      var used := CountUsed(disk[1], disk[..], root);
      bfree := U64(blocks - used);
    }

    // Count the set bits from 2 on.
    static method CountUsed(bitmap: Block, ghost d: Disk, ghost tree: Node) returns (n: nat)
      requires FsInv(d, tree) && bitmap == d[1]
      ensures n == |Foot(tree)|
    {
      hide Foot, WF, Rep, FsInv, BitTest, Below;
      ghost var owned := Foot(tree);
      ClaimedRange(d, tree);
      n := 0;
      var i := 2;
      BelowEnds(owned);
      while i < NUM_BLOCKS
        invariant 2 <= i <= NUM_BLOCKS && n == |Below(owned, i)|
      {
        BelowStep(owned, i);
        if BitTest(bitmap, i) {
          n := n + 1;
        }
        i := i + 1;
      }
    }

    // ---------- read ----------

    method Read(path: seq<byte>, len: nat, off: nat) returns (n: int, buf: seq<byte>)
      requires Valid() && Canonical(path)
      ensures (n, buf) == FsSpec.Read(root, Tokens(path), len, off)
    {
      assert path != [] && path[0] == SLASH;
      assert PathWalk(root, path) == Locate(root, Tokens(path));
      hide WF, Rep, Foot, BitmapIs, Canonical, Tokens, DirBlock, FileBytes, IsDir, Layout.Size, Layout.Ptr, Locate,
          PathWalk;
      buf := [];
      var ino := Path2Inum(path);
      if ino < 0 {
        return ino, buf;
      }
      var inode := disk[ino];
      if IsDir(inode) {
        return -EISDIR, buf;
      }
      if off >= Size(inode) {
        return 0, buf;
      }
      ghost var f := Locate(root, Tokens(path)).node;
      hide Window;
      buf := ReadLoop(inode, len, off, f.blks, f.data);
      return |buf|, buf;
    }

    method ReadLoop(inode: Block, len: nat, off: nat, ghost blks: seq<nat>, ghost data: seq<byte>)
      returns (buf: seq<byte>)
      requires disk.Length == NUM_BLOCKS && FileInode(inode, blks, |data|) && FileBytes(disk[..], blks, data)
      requires off < |data|
      ensures buf == Window(data, len, off)
    {
      hide IsDir, Layout.Size, Layout.Ptr;
      buf := [];
      var nread := 0;
      var k := off / BLOCK_SIZE;
      var o := off % BLOCK_SIZE;
      while nread < len && nread + off < Size(inode)
        invariant 0 <= nread <= len && nread + off <= |data| && buf == data[off..off + nread]
        invariant nread < len && nread + off < |data| ==> k * BLOCK_SIZE + o == off + nread && 0 <= o < BLOCK_SIZE
      {
        var chunk := BLOCK_SIZE - o;
        if nread + chunk > len {
          chunk := len - nread;
        }
        if nread + chunk + off > Size(inode) {
          chunk := Size(inode) - off - nread;
        }
        var block := disk[Ptr(inode, k)];
        ReadChunk(disk[..], blks, data, k, o, chunk);
        buf := buf + block[o..o + chunk];
        nread := nread + chunk;
        k := k + 1;
        o := 0;
      }
    }

    // ---------- write ----------

    method Write(path: seq<byte>, buf: seq<byte>, off: nat, now: nat) returns (r: int)
      requires Valid() && Canonical(path) && Room(root, Tokens(path), off, |buf|) && now < WORD
      modifies this, disk
      ensures Valid() && (r, root) == FsSpec.Write(old(root), Tokens(path), buf, off)
      ensures r < 0 ==> disk[..] == old(disk[..])
      ensures r >= 0 ==> var f := Locate(old(root), Tokens(path)).node;
        && f.ino < NUM_BLOCKS && Mtime(disk[f.ino]) == now && disk[f.ino][..12] == old(disk[..])[f.ino][..12]
        && OnlyChanges(old(disk[..]), disk[..], {1, f.ino} + Blocks(f.blks)
                       + Blocks(AllocMany(Claimed(old(root)), Missing(f.data, off, |buf|)).value))
    {
      assert path != [] && path[0] == SLASH;
      hide WF, Rep, Foot, BitmapIs, Canonical, Tokens, DirBlock, IsDir, Layout.Size, Layout.Ptr, FileBytes, AllocMany;
      var ino := Path2Inum(path);
      if ino < 0 {
        return ino;
      }
      var inode := disk[ino];
      if IsDir(inode) {
        return -EISDIR;
      }
      if off > Size(inode) {
        return -EINVAL;
      }
      if off + |buf| > BLOCK_SIZE * NUM_PTRS {
        return -ENOSPC;
      }
      ghost var w := Locate(root, Tokens(path));
      Store(ino, inode, buf, off, now, w.addr, w.node);
      return |buf|;
    }

    // The part of write after its checks: the data, then the inode with its new size and mtime.
    method Store(ino: nat, inode0: Block, buf: seq<byte>, off: nat, now: nat, ghost a: seq<nat>, ghost f: Node)
      requires Valid() && InRange(ino) && f.File? && f.ino == ino && inode0 == disk[ino] && now < WORD
      requires Get(root, a) == Some(f) && Stands(disk[..], root, At(a, f)) && off <= |f.data| && off + |buf| <= MAX_FILE
      requires AllocMany(Claimed(root), Missing(f.data, off, |buf|)).Some?
      modifies this, disk
      ensures var bs := AllocMany(Claimed(old(root)), Missing(f.data, off, |buf|)).value;
        && Valid() && root == Put(old(root), a, File(ino, f.blks + bs, Overlay(f.data, buf, off)))
        && OnlyChanges(old(disk[..]), disk[..], {1, ino} + Blocks(f.blks) + Blocks(bs))
      ensures Mtime(disk[ino]) == now && disk[ino][..12] == old(disk[..])[ino][..12]
    {
      hide WF, Rep, Foot, BitmapIs, DirBlock, IsDir, Layout.Size, Layout.Ptr, Layout.Mtime, FileBytes, AllocMany,
          SetMtime, SetSize,
           OnlyChanges, Missing, Overlay;
      ghost var d0 := disk[..];
      StandsFile(d0, root, a, f);
      var inode;
      ghost var bs;
      inode, bs := WriteData(inode0, buf, off, f, Claimed(root));
      ghost var d1 := disk[..];
      WritingFacts(d0, d1, inode, f, Claimed(root), bs, Overlay(f.data, buf, off));
      var size := if off + |buf| > Size(inode) then off + |buf| else Size(inode);
      SealFrame(inode, size, now);
      SealedHeader(inode, size, now);
      disk[ino] := SetMtime(SetSize(inode, size), now);
      HeaderOf(disk[ino], inode, inode0);
      OverlaySize(f.data, buf, off);
      WriteStored(d0, d1, disk[..], root, a, f, inode, bs, buf, off);
      WriteTouches(d0, d1, disk[..], inode, f, Claimed(root), bs, Overlay(f.data, buf, off));
      root := Put(root, a, File(ino, f.blks + bs, Overlay(f.data, buf, off)));
    }

    // The block loop of write.
    method WriteData(inode0: Block, buf: seq<byte>, off: nat, ghost f: Node, ghost used: set<nat>)
      returns (inode: Block, ghost bs: seq<nat>)
      requires disk.Length == NUM_BLOCKS && BitmapIs(disk[1], used)
      requires f.File? && WF(f) && Blocks(f.blks) <= used && off <= |f.data| && off + |buf| <= MAX_FILE
      requires FileInode(inode0, f.blks, |f.data|) && FileBytes(disk[..], f.blks, f.data)
      requires AllocMany(used, Missing(f.data, off, |buf|)).Some?
      modifies disk
      ensures |bs| == Missing(f.data, off, |buf|) && inode[..20] == inode0[..20]
      ensures Writing(old(disk[..]), disk[..], inode, f, used, bs, Overlay(f.data, buf, off))
    {
      ghost var d0 := disk[..];
      inode, bs := inode0, [];
      var done := 0;
      var k := off / BLOCK_SIZE;
      var o := off % BLOCK_SIZE;
      LoopStarts(d0, inode0, f, used, buf, off);
      hide WriteLoop, WF, FileInode, FileBytes, BitmapIs, AllocMany, Missing;
      while done < |buf|
        invariant 0 <= done <= |buf| && 0 <= k && 0 <= o <= BLOCK_SIZE
        invariant WriteLoop(d0, disk[..], inode, f, used, bs, buf, off, done, k, o)
        invariant inode[..20] == inode0[..20]
        decreases |buf| - done
      {
        done, k, o, inode, bs := WriteRound(inode, buf, off, done, k, o, f, used, bs, d0);
      }
      LoopEnds(d0, disk[..], inode, f, used, bs, buf, off, k, o);
    }

    // One round: the chunk that fits in block k from offset o.
    method WriteRound(inode0: Block, buf: seq<byte>, off: nat, done0: nat, k0: nat, o0: nat,
                      ghost f: Node, ghost used: set<nat>, ghost bs0: seq<nat>, ghost d0: Disk)
      returns (done: nat, k: nat, o: nat, inode: Block, ghost bs: seq<nat>)
      requires disk.Length == NUM_BLOCKS && done0 < |buf|
      requires WriteLoop(d0, disk[..], inode0, f, used, bs0, buf, off, done0, k0, o0)
      modifies disk
      ensures done0 < done <= |buf| && o <= BLOCK_SIZE && inode[..20] == inode0[..20]
      ensures WriteLoop(d0, disk[..], inode, f, used, bs, buf, off, done, k, o)
    {
      hide Writing, Overlay, Stored, AllocMany, WF;
      var room := BLOCK_SIZE - o0;
      var n := if |buf| - done0 > room then room else |buf| - done0;
      StoredSteps(f.data, buf, off, done0, done0 + n);
      MissingStep(f.data, off, done0, n, |buf|, k0, o0);
      inode, bs := WriteBlock(inode0, k0, o0, buf[done0..done0 + n], f, used, bs0, Stored(f.data, buf, off, done0), d0,
                              Missing(f.data, off, |buf|));
      done, k, o := done0 + n, k0 + 1, 0;
    }

    // Extend the file by a block when it is past the end, then copy the chunk.
    method WriteBlock(inode0: Block, k: nat, o: nat, chunk: seq<byte>, ghost f: Node, ghost used: set<nat>,
                      ghost bs0: seq<nat>, ghost cur: seq<byte>, ghost d0: Disk, ghost want: nat)
      returns (inode: Block, ghost bs: seq<nat>)
      requires disk.Length == NUM_BLOCKS && Writing(d0, disk[..], inode0, f, used, bs0, cur)
      requires o + |chunk| <= BLOCK_SIZE && k * BLOCK_SIZE + o <= |cur|
      requires AllocMany(used, want).Some? && k <= |f.blks| + |bs0|
      requires k >= Ceil(|f.data|) ==> k == |f.blks| + |bs0| < NUM_PTRS && |bs0| < want
      modifies disk
      ensures Writing(d0, disk[..], inode, f, used, bs, Overlay(cur, chunk, k * BLOCK_SIZE + o))
      ensures |bs| == (if k >= Ceil(|f.data|) then |bs0| + 1 else |bs0|) && inode[..20] == inode0[..20]
    {
      hide Writing, Overlay;
      WritingFacts(d0, disk[..], inode0, f, used, bs0, cur);
      inode, bs := inode0, bs0;
      if k >= Ceil(Size(inode)) {
        inode, bs := AddBlock(inode0, k, f, used, bs0, cur, d0, want);
        WritingFacts(d0, disk[..], inode, f, used, bs, cur);
      }
      WriteChunk(d0, disk[..], inode, f, used, bs, cur, k, o, chunk);
      var b := Ptr(inode, k);
      var data := disk[b];
      disk[b] := Splice(data, o, chunk);
    }

    method AddBlock(inode0: Block, k: nat, ghost f: Node, ghost used: set<nat>,
                    ghost bs0: seq<nat>, ghost cur: seq<byte>, ghost d0: Disk, ghost want: nat)
      returns (inode: Block, ghost bs: seq<nat>)
      requires disk.Length == NUM_BLOCKS && Writing(d0, disk[..], inode0, f, used, bs0, cur)
      requires AllocMany(used, want).Some? && k == |f.blks| + |bs0| < NUM_PTRS && |bs0| < want
      modifies disk
      ensures Writing(d0, disk[..], inode, f, used, bs, cur) && |bs| == |bs0| + 1
      ensures inode[..20] == inode0[..20]
    {
      hide Writing, Alloc, BitmapIs, BitPut, SetPtr;
      WritingFacts(d0, disk[..], inode0, f, used, bs0, cur);
      AllocPrefix(used, |bs0| + 1, want);
      AllocNext(used, |bs0|, bs0);
      hide AllocMany;
      ghost var next := Alloc(used + Blocks(bs0)).value;
      WriteAllocates(d0, disk[..], inode0, f, used, bs0, cur, next);
      var b := AllocBlk(used + Blocks(bs0));
      SetPtrHeader(inode0, k, b);
      inode, bs := SetPtr(inode0, k, b), bs0 + [b];
    }
  }
}
