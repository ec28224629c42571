/**
  Where the error codes of the calls differ from those of path lookup. Lookup tells a missing
  component (ENOENT) from one that is no directory (ENOTDIR); the calls that look up the parent first
  pass only the second kind on when the parent itself is the file, and rename and chmod never do.
  */
module FsErrors {
  import opened Layout
  import opened Paths
  import opened FsTree
  import opened FsSpec
  import opened FsStored
  import opened FsRefine
  import opened FsRuns
  import opened FsFullImage

  // A path that lookup refuses with ENOTDIR goes on below a file: below its parent, or further up.
  lemma NotDirBelow(root: Node, names: seq<Name>)
    requires Locate(root, names) == Fail(-ENOTDIR)
    ensures 0 < |names| <= MAX_DEPTH
    ensures Locate(root, Init(names)).At? ==> Locate(root, Init(names)).node.File? && |Last(names)| <= NAME_MAX
    ensures Locate(root, Init(names)).Fail? ==> Locate(root, Init(names)) == Fail(-ENOTDIR)
  {
    ResolveSnoc(root, Init(names), Last(names));
    assert Init(names) + [Last(names)] == names;
  }

  // create, mkdir, unlink and rmdir agree with lookup on ENOTDIR exactly when the parent resolves.
  lemma CreateNotDir(root: Node, names: seq<Name>)
    requires Locate(root, names) == Fail(-ENOTDIR)
    ensures Create(root, names).0 == -ENOTDIR <==> Locate(root, Init(names)).At?
    ensures Mkdir(root, names).0 == -ENOTDIR <==> Locate(root, Init(names)).At?
  {
    NotDirBelow(root, names);
  }

  lemma RemoveNotDir(root: Node, names: seq<Name>)
    requires Locate(root, names) == Fail(-ENOTDIR)
    ensures Unlink(root, names).0 == -ENOTDIR <==> Locate(root, Init(names)).At?
    ensures Rmdir(root, names).0 == -ENOTDIR <==> Locate(root, Init(names)).At?
    ensures Locate(root, Init(names)).Fail? ==> Unlink(root, names).0 == Rmdir(root, names).0 == -ENOENT
  {
    NotDirBelow(root, names);
  }

  // What create and mkdir say instead: the length of the last name is looked at before the parent.
  lemma CreateInstead(root: Node, names: seq<Name>)
    requires Locate(root, names) == Fail(-ENOTDIR) && Locate(root, Init(names)).Fail?
    ensures Create(root, names).0 == Mkdir(root, names).0 == if |Last(names)| > NAME_MAX then -EINVAL else -ENOENT
  {
    NotDirBelow(root, names);
  }

  // rename and chmod report every failed lookup as ENOENT, so they agree with it exactly when it does.
  lemma RenameAndChmodNotDir(root: Node, src: seq<Name>, dst: seq<Name>, err: int)
    requires Locate(root, src) == Fail(err)
    ensures Rename(root, src, dst).0 == ChmodCode(root, src) == -ENOENT
    ensures err in {-ENOENT, -ENOTDIR}
    ensures Rename(root, src, dst).0 == err <==> err != -ENOTDIR
  {
    LookupErrors(root, src);
  }

  lemma {:induction false} LookupErrors(n: Node, names: seq<Name>)
    ensures Resolve(n, names).Fail? ==> Resolve(n, names).err in {-ENOENT, -ENOTDIR}
    decreases |names|
  {
    if names != [] && n.Dir? {
      var s := FsSpec.Find(n.kids, names[0], 0);
      if s.Some? {
        LookupErrors(n.kids[s.value].node, names[1..]);
      }
    }
  }

  // Below a file /a: lookup of /a/b and of /a/b/c says ENOTDIR; the four calls that look up the parent
  // agree on /a/b and say ENOENT on /a/b/c, and so do rename and chmod.
  lemma BelowAFile(root: Node, a: Name, b: Name, c: Name)
    requires Locate(root, [a]).At? && Locate(root, [a]).node.File? && |b| <= NAME_MAX && |c| <= NAME_MAX
    ensures Locate(root, [a, b]) == Locate(root, [a, b, c]) == Fail(-ENOTDIR)
    ensures Create(root, [a, b]).0 == Mkdir(root, [a, b]).0 == -ENOTDIR
    ensures Unlink(root, [a, b]).0 == Rmdir(root, [a, b]).0 == -ENOTDIR
    ensures Create(root, [a, b, c]).0 == Mkdir(root, [a, b, c]).0 == -ENOENT
    ensures Unlink(root, [a, b, c]).0 == Rmdir(root, [a, b, c]).0 == ChmodCode(root, [a, b, c]) == -ENOENT
    ensures forall dst :: Rename(root, [a, b, c], dst).0 == -ENOENT
  {
    assert [a, b] == [a] + [b] && [a, b, c] == [a, b] + [c];
    ResolveSnoc(root, [a], b);
    ResolveSnoc(root, [a, b], c);
    assert Init([a, b]) == [a] && Init([a, b, c]) == [a, b];
    hide Create, Mkdir, Unlink, Rmdir, Locate;
    CreateNotDir(root, [a, b]);
    RemoveNotDir(root, [a, b]);
    RemoveNotDir(root, [a, b, c]);
    CreateInstead(root, [a, b, c]);
  }

  // Such a tree is one call away from the fresh image.
  lemma LookupAndCallsDiffer()
    ensures RunAllowed(FreshRoot(), [OpCreate([[97]])])
    ensures var root := Run(FreshRoot(), [OpCreate([[97]])]);
      && Code(Locate(root, [[97], [98], [99]])) == -ENOTDIR && Create(root, [[97], [98], [99]]).0 == -ENOENT
      && Code(Locate(root, [[97], [98]])) == Create(root, [[97], [98]]).0 == -ENOTDIR
  {
    hide Create, OneFile, Locate, Good;
    var root := OneFile([], []);
    Created();
    assert [OpCreate([[97]])][1..] == [];
    FileAt([], []);
    BelowAFile(root, [97], [98], [99]);
  }
}
