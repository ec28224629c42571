/**
  Runs of the imperative file system from a fresh image: after every call the raw disk stores the
  tree that the specification prescribes.
  */
module FsRunner {
  import opened Wrappers
  import opened Layout
  import opened Paths
  import opened FsTree
  import opened FsSpec
  import opened FsStored
  import opened FsNamespace
  import opened FsRefine
  import opened FsRuns
  import opened FsFrame
  import opened FsOwnership
  import opened FsOps

  // Owner, clock and uninitialised stack of one call.
  datatype Env = Env(stamp: Stamp, junk: Block)

  lemma JoinSplits(names: seq<Name>)
    requires forall n | n in names :: IsToken(n)
    ensures Canonical(Join(names)) && Tokens(Join(names)) == names
  {
    if names != [] {
      TokensCat(names, []);
      assert Cat(names) + [] == Cat(names);
      CatHasNoZero(names);
    } else {
      assert [SLASH][1..] == [];
    }
  }

  lemma {:induction false} CatHasNoZero(names: seq<Name>)
    requires forall n | n in names :: IsToken(n)
    ensures 0 !in Cat(names)
  {
    if names != [] {
      assert names[0] in names;
      CatHasNoZero(names[1..]);
    }
  }

  // One call through its path as bytes: it does what the step says, and writes nothing but the bitmap
  // and blocks the tree owns before it or after it.
  method Apply(fs: Fs5600, op: Op, env: Env) returns (r: int)
    requires fs.Valid() && Allowed(fs.root, op) && StampOk(env.stamp)
    modifies fs, fs.disk
    ensures fs.Valid() && (r, fs.root) == Step(old(fs.root), op)
    ensures r < 0 ==> fs.disk[..] == old(fs.disk[..])
    ensures WritesOwn(old(fs.disk[..]), fs.disk[..], old(fs.root), fs.root)
  {
    hide FsInv, Good, Join, Canonical, Tokens, FsSpec.Create, FsSpec.Mkdir, FsSpec.Unlink, FsSpec.Rmdir, FsSpec.Rename,
         FsSpec.Write, FsSpec.Truncate, Place, Victim, Locate, AllocMany, Alloc, Room, WritesOwn, OnlyChanges, Stamped;
    ghost var d, root := fs.disk[..], fs.root;
    StoredIsGood(d, root);
    match op
    case OpCreate(names) =>
      JoinSplits(names);
      r := fs.Create(Join(names), env.stamp, env.junk);
      CreateWrites(d, fs.disk[..], root, names);
    case OpMkdir(names) =>
      JoinSplits(names);
      r := fs.Mkdir(Join(names), env.stamp, env.junk);
      MkdirWrites(d, fs.disk[..], root, names);
    case OpUnlink(names) =>
      JoinSplits(names);
      r := fs.Unlink(Join(names), env.stamp.now);
      UnlinkWrites(d, fs.disk[..], root, names);
    case OpRmdir(names) =>
      JoinSplits(names);
      r := fs.Rmdir(Join(names), env.stamp.now);
      RmdirWrites(d, fs.disk[..], root, names);
    case OpRename(src, dst) =>
      JoinSplits(src);
      JoinSplits(dst);
      r := fs.Rename(Join(src), Join(dst));
      RenameWrites(d, fs.disk[..], root, src, dst);
    case OpChmod(names, mode) =>
      JoinSplits(names);
      r := fs.Chmod(Join(names), mode);
      TouchWrites(d, fs.disk[..], root, names);
    case OpUtime(names, mtime) =>
      JoinSplits(names);
      r := fs.Utime(Join(names), mtime);
      TouchWrites(d, fs.disk[..], root, names);
    case OpTruncate(names, len) =>
      JoinSplits(names);
      r := fs.Truncate(Join(names), len);
      TruncateWrites(d, fs.disk[..], root, names, len);
    case OpWrite(names, buf, off) =>
      JoinSplits(names);
      r := fs.Write(Join(names), buf, off, env.stamp.now);
      WriteWrites(d, fs.disk[..], root, names, buf, off);
  }

  // Any run, from any image in use. Block 0 stays as it was.
  method RunOps(fs: Fs5600, ops: seq<Op>, envs: seq<Env>)
    requires fs.Valid() && RunAllowed(fs.root, ops)
    requires |envs| == |ops| && forall e | e in envs :: StampOk(e.stamp)
    modifies fs, fs.disk
    ensures fs.Valid() && fs.root == Run(old(fs.root), ops)
    ensures fs.disk[0] == old(fs.disk[0])
  {
    hide FsInv, WritesOwn, Allowed, Step;
    var i := 0;
    while i < |ops|
      invariant 0 <= i <= |ops|
      invariant fs.Valid() && RunAllowed(fs.root, ops[i..]) && Run(fs.root, ops[i..]) == Run(old(fs.root), ops)
      invariant fs.disk[0] == old(fs.disk[0])
    {
      assert ops[i..][0] == ops[i] && ops[i..][1..] == ops[i + 1..];
      assert envs[i] in envs;
      ghost var d, root := fs.disk[..], fs.root;
      var _ := Apply(fs, ops[i], envs[i]);
      BlockZeroStays(d, fs.disk[..], root, fs.root);
      i := i + 1;
    }
  }

  lemma BlockZeroStays(d: Disk, e: Disk, root: Node, after: Node)
    requires FsInv(d, root) && FsInv(e, after) && WritesOwn(d, e, root, after)
    ensures d[0] == e[0]
  {
    hide WritesOwn;
    StoredIsGood(d, root);
    StoredIsGood(e, after);
    SuperblockStays(d, e, root, after);
  }

  // statfs before and after a run: f_bfree falls by exactly what the run adds to the blocks in use, and
  // is back where it was whenever the run leaves the tree that a user sees as it was.
  method FreeAround(fs: Fs5600, ops: seq<Op>, envs: seq<Env>) returns (before: nat, after: nat)
    requires fs.Valid() && RunAllowed(fs.root, ops)
    requires |envs| == |ops| && forall e | e in envs :: StampOk(e.stamp)
    modifies fs, fs.disk
    ensures fs.Valid() && fs.root == Run(old(fs.root), ops)
    ensures before == FreeReported(old(fs.disk[0]), old(fs.root)) && after == FreeReported(fs.disk[0], fs.root)
    ensures after == U64(before - TotalGain(old(fs.root), ops))
    ensures Abs(fs.root) == Abs(old(fs.root)) ==> after == before
  {
    hide FsInv, Good, Foot, RunAllowed, Run, TotalGain, Abs, Get32, U32, U64;
    var blocks;
    StoredIsGood(fs.disk[..], fs.root);
    FreeAfterRun(fs.disk[0], fs.root, ops);
    blocks, before := fs.StatFs();
    RunOps(fs, ops, envs);
    blocks, after := fs.StatFs();
  }

  ghost predicate UsedExactly(d: Disk)
  {
    forall b | 2 <= b < NUM_BLOCKS :: BitTest(d[1], b) <==> exists addr, part :: BlockAt(d, addr, part) == Some(b)
  }

  ghost predicate ReachedOnlyOnce(d: Disk)
  {
    forall a, p, a', p' | BlockAt(d, a, p).Some? && BlockAt(d, a, p) == BlockAt(d, a', p') :: a == a' && p == p'
  }

  lemma OwnedExactly(d: Disk, root: Node)
    requires FsInv(d, root)
    ensures UsedExactly(d) && ReachedOnlyOnce(d)
  {
    hide FsInv, BlockAt, BitTest;
    forall b | 2 <= b < NUM_BLOCKS ensures BitTest(d[1], b) <==>
        exists addr, part :: BlockAt(d, addr, part) == Some(b) {
      UsedIffReached(d, root, b);
    }
    forall a, p, a', p' | BlockAt(d, a, p).Some? && BlockAt(d, a, p) == BlockAt(d, a', p') ensures a == a' && p == p' {
      ReachedOnce(d, root, a, p, a', p');
    }
  }

  lemma FreshRootOwns()
    ensures Good(FreshRoot()) && Foot(FreshRoot()) == {2, 399}
  {
  }

  // Any run from a fresh image ends on a disk that stores the run's tree, on which a block from 2 on
  // is marked used exactly when it can be reached from inode 2, and is reached in one way only.
  method RunAll(image: array<Block>, ops: seq<Op>, envs: seq<Env>) returns (fs: Fs5600)
    requires image.Length == NUM_BLOCKS && FreshImage(image[..])
    requires |envs| == |ops| && forall e | e in envs :: StampOk(e.stamp)
    requires RunAllowed(FreshRoot(), ops)
    modifies image
    ensures fs.Valid() && fs.disk == image && fs.root == Run(FreshRoot(), ops)
    ensures |Foot(fs.root)| == 2 + TotalGain(FreshRoot(), ops) && image[0] == old(image[0])
    ensures UsedExactly(image[..]) && ReachedOnlyOnce(image[..])
  {
    hide FsInv, Foot, WF, Good, RunAllowed, Run, UsedExactly, ReachedOnlyOnce, FreshRoot;
    fs := new Fs5600.Mount(image);
    FreshRootOwns();
    RunKeeps(fs.root, ops);
    RunOps(fs, ops, envs);
    OwnedExactly(image[..], fs.root);
  }

  // ---------- There is a fresh image ----------

  function FreshDisk(): Disk
  {
    var stamp := Stamp(0, 0, 511, 0);
    var inode := SetPtr(NewInode(ZeroBlock(), stamp, 16384, BLOCK_SIZE), 0, 399);
    var bitmap := BitPut(BitPut(BitPut(BitPut(ZeroBlock(), 0, true), 1, true), 2, true), 399, true);
    ZeroDisk()[1 := bitmap][2 := inode]
  }

  lemma FreshImageExists()
    ensures FreshImage(FreshDisk())
  {
    var d := FreshDisk();
    var stamp := Stamp(0, 0, 511, 0);
    assert d[399] == ZeroBlock();
    assert d[2] == SetPtr(NewInode(ZeroBlock(), stamp, 16384, BLOCK_SIZE), 0, 399);
    EmptyDirStored(d, 2, 399, stamp, ZeroBlock());
    FreshBitmap();
  }

  lemma FreshBitmap()
    ensures BitmapIs(BitPut(BitPut(BitPut(BitPut(ZeroBlock(), 0, true), 1, true), 2, true), 399, true), {0, 1, 2, 399})
  {
    var z := ZeroBlock();
    forall b | 0 <= b < NUM_BLOCKS
      ensures !BitTest(z, b)
    {
      ZeroBits(b % 8);
    }
    hide BitTest, BitPut;
    BitPutBits(z, 0, true);
    BitPutBits(BitPut(z, 0, true), 1, true);
    BitPutBits(BitPut(BitPut(z, 0, true), 1, true), 2, true);
    BitPutBits(BitPut(BitPut(BitPut(z, 0, true), 1, true), 2, true), 399, true);
  }

  lemma {:induction false} ZeroBits(k: nat)
    ensures !BitOf(0, k)
  {
    if k > 0 {
      ZeroBits(k - 1);
    }
  }
}
