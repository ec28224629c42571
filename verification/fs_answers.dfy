/**
  The answer of every call in terms of the tree that a user sees: which code it returns, in the order
  of the source's tests, and which bytes it delivers or leaves behind.
  */
module FsAnswers {
  import opened Wrappers
  import opened Layout
  import opened Paths
  import opened FsTree
  import opened FsSpec
  import opened FsStored
  import opened FsNamespace
  import opened FsRefine

  // ---------- Lookup ----------

  // A path leads on from where the path before it leads: by an entry of that directory, or nowhere.
  lemma {:induction false} LookupExact(t: Tree, names: seq<Name>, last: Name)
    ensures FsNamespace.Find(t, []) == Hit(t)
    ensures FsNamespace.Find(t, names + [last]) ==
              match FsNamespace.Find(t, names)
              case Miss(e) => Miss(e)
              case Hit(u) =>
                if |last| > 27 then Miss(-ENOENT)
                else if u.Leaf? then Miss(-ENOTDIR)
                else if last !in u.kids then Miss(-ENOENT)
                else Hit(u.kids[last])
    decreases |names|
  {
    if names == [] {
      assert names + [last] == [last] && [last][1..] == [];
    } else {
      assert (names + [last])[1..] == names[1..] + [last];
      if |names[0]| <= 27 && t.Branch? && names[0] in t.kids {
        LookupExact(t.kids[names[0]], names[1..], last);
      }
    }
  }

  // What lookup in the stored tree finds, seen in the user's tree.
  lemma Seen(root: Node, names: seq<Name>)
    requires Good(root) && |names| <= MAX_DEPTH
    ensures match Locate(root, names)
            case Fail(e) => FsNamespace.Find(Abs(root), names) == Miss(e)
            case At(a, n) => WF(n) && FsNamespace.Find(Abs(root), names) == Hit(Abs(n))
  {
    hide WF, Abs, Foot, Rep;
    GoodIsWF(root);
    ResolveIsFind(root, names);
    if Locate(root, names).At? {
      GetParts(ZeroDisk(), root, Locate(root, names).addr);
    }
  }

  lemma GoodIsWF(root: Node)
    requires Good(root)
    ensures WF(root) && root.Dir?
  {
  }

  lemma Kind(n: Node)
    ensures n.File? ==> Abs(n) == Leaf(n.ino, n.data)
    ensures n.Dir? ==> Abs(n).Branch? && Abs(n).ino == n.ino && Abs(n).kids.Keys == Names(n.kids)
  {
    if n.Dir? {
      AbsKeys(n);
    }
  }

  // ---------- Room in a directory and on the disk ----------

  lemma {:induction false} NamesCount(kids: seq<Slot>)
    requires forall i, j | 0 <= i < j < |kids| && kids[i].Used? && kids[j].Used? :: kids[i].name != kids[j].name
    ensures |Names(kids)| <= |kids|
    ensures |Names(kids)| == |kids| <==> forall i | 0 <= i < |kids| :: kids[i].Used?
  {
    if kids != [] {
      var init, last := kids[..|kids| - 1], kids[|kids| - 1];
      NamesCount(init);
      NamesOfLast(kids);
      if last.Used? {
        assert last.name !in Names(init);
      }
      assert forall i | 0 <= i < |init| :: kids[i] == init[i];
    }
  }

  lemma NamesOfLast(kids: seq<Slot>)
    requires kids != []
    ensures var last := kids[|kids| - 1];
      Names(kids) == Names(kids[..|kids| - 1]) + (if last.Used? then {last.name} else {})
  {
    var init, last := kids[..|kids| - 1], kids[|kids| - 1];
    forall x
      ensures x in Names(kids) <==> x in Names(init) + (if last.Used? then {last.name} else {})
    {
      if x in Names(kids) {
        var i :| 0 <= i < |kids| && kids[i].Used? && kids[i].name == x;
        assert i < |init| ==> init[i] == kids[i];
      }
      if x in Names(init) {
        var i :| 0 <= i < |init| && init[i].Used? && init[i].name == x;
        assert kids[i] == init[i];
      }
    }
  }

  // A directory has a free slot exactly when it has fewer than 128 names.
  lemma DirectoryRoom(n: Node)
    requires WF(n) && n.Dir?
    ensures FirstFree(n.kids, 0).Some? <==> |Abs(n).kids| < 128
  {
    AbsKeys(n);
    NamesCount(n.kids);
    hide WF, Abs, Names;
    assert |Abs(n).kids| == |Abs(n).kids.Keys|;
    assert FirstFree(n.kids, 0).None? <==> forall i | 0 <= i < |n.kids| :: n.kids[i].Used?;
  }

  // The blocks that the allocator may hand out.
  ghost function Spare(root: Node): set<nat> { set b | 3 <= b < 32768 && b !in Claimed(root) }

  ghost function SpareOf(used: set<nat>): set<nat> { set b | 3 <= b < NUM_BLOCKS && b !in used }

  lemma AllocExact(used: set<nat>)
    ensures Alloc(used).Some? <==> SpareOf(used) != {}
  {
    if Alloc(used).Some? {
      assert Alloc(used).value in SpareOf(used);
    }
  }

  // k allocations in a row succeed exactly when k blocks are spare.
  lemma {:induction false} AllocManyExact(used: set<nat>, k: nat)
    ensures AllocMany(used, k).Some? <==> |SpareOf(used)| >= k
  {
    if k > 0 {
      hide AllocMany, SpareOf;
      AllocManyExact(used, k - 1);
      NoneBefore(used, k);
      if AllocMany(used, k - 1).Some? {
        OneMoreAlloc(used, k - 1, AllocMany(used, k - 1).value);
      }
    }
  }

  lemma OneMoreAlloc(used: set<nat>, k: nat, bs: seq<nat>)
    requires AllocMany(used, k) == Some(bs)
    ensures AllocMany(used, k + 1).Some? <==> |SpareOf(used)| > k
  {
    hide Alloc, AllocMany, SpareOf, Blocks;
    AllocNext(used, k, bs);
    AllocExact(used + Blocks(bs));
    AllocatedSpare(used, k, bs);
  }

  lemma AllocatedSpare(used: set<nat>, k: nat, bs: seq<nat>)
    requires AllocMany(used, k) == Some(bs)
    ensures |bs| == k && (SpareOf(used + Blocks(bs)) != {} <==> |SpareOf(used)| > |bs|)
  {
    hide AllocMany, SpareOf, Blocks;
    SpareAfter(used, bs);
  }

  lemma NoneBefore(used: set<nat>, k: nat)
    requires k > 0
    ensures AllocMany(used, k - 1).None? ==> AllocMany(used, k).None?
  {
  }

  lemma SpareAfter(used: set<nat>, bs: seq<nat>)
    requires forall i | 0 <= i < |bs| :: bs[i] !in used && 3 <= bs[i] < NUM_BLOCKS
    requires forall i, j | 0 <= i < j < |bs| :: bs[i] != bs[j]
    ensures |bs| <= |SpareOf(used)| && (SpareOf(used + Blocks(bs)) != {} <==> |SpareOf(used)| > |bs|)
  {
    BlocksCount(bs);
    assert SpareOf(used + Blocks(bs)) == SpareOf(used) - Blocks(bs) && Blocks(bs) <= SpareOf(used);
    hide SpareOf, Blocks;
    LeftOver(SpareOf(used), Blocks(bs));
  }

  lemma LeftOver(s: set<nat>, t: set<nat>)
    requires t <= s
    ensures |t| <= |s| && (s - t != {} <==> |s| > |t|)
  {
    assert s == s - t + t;
  }

  lemma {:induction false} BlocksCount(bs: seq<nat>)
    requires forall i, j | 0 <= i < j < |bs| :: bs[i] != bs[j]
    ensures |Blocks(bs)| == |bs|
  {
    if bs != [] {
      var n := |bs| - 1;
      BlocksCount(bs[..n]);
      assert Blocks(bs) == Blocks(bs[..n]) + {bs[n]};
    }
  }

  lemma SpareIsSpareOf(root: Node)
    ensures Spare(root) == SpareOf(Claimed(root))
  {
  }

  // ---------- create and mkdir ----------

  // The checks that both make before they allocate.
  lemma PlaceAnswers(root: Node, names: seq<Name>)
    requires Good(root) && PathOk(names)
    ensures FsNamespace.Find(Abs(root), names).Hit? ==> Place(root, names) == Bad(-EEXIST)
    ensures FsNamespace.Find(Abs(root), names).Miss? ==> names != []
    ensures FsNamespace.Find(Abs(root), names).Miss? ==>
      var p := FsNamespace.Find(Abs(root), names[..|names| - 1]);
      if |names[|names| - 1]| > 27 then Place(root, names) == Bad(-EINVAL)
      else if p.Miss? then Place(root, names) == Bad(-ENOENT)
      else if p.tree.Leaf? then Place(root, names) == Bad(-ENOTDIR)
      else if |p.tree.kids| >= 128 then Place(root, names) == Bad(-ENOSPC)
      else Place(root, names).Ok?
  {
    hide WF, Good, Abs, Locate;
    Seen(root, names);
    if FsNamespace.Find(Abs(root), names).Miss? {
      Seen(root, names[..|names| - 1]);
      var w := Locate(root, names[..|names| - 1]);
      if w.At? {
        Kind(w.node);
        if w.node.Dir? {
          DirectoryRoom(w.node);
        }
      }
    }
  }

  // create succeeds exactly for a new name of at most 27 characters in an existing directory with room,
  // while a block is spare; the source's order of tests decides between the errors.
  lemma CreateAnswers(root: Node, names: seq<Name>)
    requires Good(root) && PathOk(names)
    ensures Create(root, names).0 == 0 <==>
      && FsNamespace.Find(Abs(root), names).Miss?
      && names != [] && |names[|names| - 1]| <= 27 && HasParent(Abs(root), names)
      && |FsNamespace.Find(Abs(root), names[..|names| - 1]).tree.kids| < 128 && |Spare(root)| >= 1
    ensures Create(root, names).0 == -EEXIST <==> FsNamespace.Find(Abs(root), names).Hit?
    ensures FsNamespace.Find(Abs(root), names).Miss? ==> names != []
    ensures FsNamespace.Find(Abs(root), names).Miss? ==>
      var p := FsNamespace.Find(Abs(root), names[..|names| - 1]);
      Create(root, names).0 ==
        if |names[|names| - 1]| > 27 then -EINVAL
        else if p.Miss? then -ENOENT
        else if p.tree.Leaf? then -ENOTDIR
        else if |p.tree.kids| >= 128 || |Spare(root)| < 1 then -ENOSPC
        else 0
  {
    PlaceAnswers(root, names);
    SpareIsSpareOf(root);
    AllocExact(Claimed(root));
    hide Good, WF, Abs, Place, Alloc, Spare, SpareOf;
    CreateCode(root, names);
  }

  lemma CreateCode(root: Node, names: seq<Name>)
    ensures Create(root, names).0 ==
      match Place(root, names) case Bad(e) => e case Ok(_, _, _) => if Alloc(Claimed(root)).None? then -ENOSPC else 0
  {
  }

  // The same for mkdir, which needs two blocks.
  lemma MkdirAnswers(root: Node, names: seq<Name>)
    requires Good(root) && PathOk(names)
    ensures Mkdir(root, names).0 == 0 <==>
      && FsNamespace.Find(Abs(root), names).Miss?
      && names != [] && |names[|names| - 1]| <= 27 && HasParent(Abs(root), names)
      && |FsNamespace.Find(Abs(root), names[..|names| - 1]).tree.kids| < 128 && |Spare(root)| >= 2
    ensures Mkdir(root, names).0 == -EEXIST <==> FsNamespace.Find(Abs(root), names).Hit?
    ensures FsNamespace.Find(Abs(root), names).Miss? ==> names != []
    ensures FsNamespace.Find(Abs(root), names).Miss? ==>
      var p := FsNamespace.Find(Abs(root), names[..|names| - 1]);
      Mkdir(root, names).0 ==
        if |names[|names| - 1]| > 27 then -EINVAL
        else if p.Miss? then -ENOENT
        else if p.tree.Leaf? then -ENOTDIR
        else if |p.tree.kids| >= 128 || |Spare(root)| < 2 then -ENOSPC
        else 0
  {
    PlaceAnswers(root, names);
    SpareIsSpareOf(root);
    AllocManyExact(Claimed(root), 2);
    hide Good, WF, Abs, Place, AllocMany, Spare, SpareOf;
    MkdirCode(root, names);
  }

  lemma MkdirCode(root: Node, names: seq<Name>)
    ensures Mkdir(root, names).0 ==
      match Place(root, names)
      case Bad(e) => e
      case Ok(_, _, _) => if AllocMany(Claimed(root), 2).None? then -ENOSPC else 0
  {
  }

  // ---------- unlink and rmdir ----------

  lemma VictimAnswers(root: Node, names: seq<Name>)
    requires Good(root) && PathOk(names) && names != []
    ensures var p := FsNamespace.Find(Abs(root), names[..|names| - 1]);
      if p.Miss? then Victim(root, names) == Bad(-ENOENT)
      else if p.tree.Leaf? then Victim(root, names) == Bad(-ENOTDIR)
      else if FsNamespace.Find(Abs(root), names).Miss? then Victim(root, names) == Bad(-ENOENT)
      else
        && Victim(root, names).Ok? && Victim(root, names).slot < |Victim(root, names).dir.kids|
        && Victim(root, names).dir.kids[Victim(root, names).slot].Used?
        && FsNamespace.Find(Abs(root), names) == Hit(Abs(Victim(root, names).dir.kids[Victim(root, names).slot].node))
  {
    var t := Victim(root, names);
    hide WF, Good, Abs, Resolve, Victim;
    GoodIsWF(root);
    Seen(root, names);
    Seen(root, names[..|names| - 1]);
    VictimCode(root, names);
    if t.Ok? {
      VictimFound(root, names, t);
    } else if Locate(root, names).At? {
      FoundVictim(root, names);
    }
    var w := Locate(root, names[..|names| - 1]);
    if w.At? {
      Kind(w.node);
    }
  }

  lemma VictimCode(root: Node, names: seq<Name>)
    requires names != []
    ensures var w := Locate(root, names[..|names| - 1]);
      && (w.Fail? ==> Victim(root, names) == Bad(-ENOENT))
      && (w.At? && w.node.File? ==> Victim(root, names) == Bad(-ENOTDIR))
      && (w.At? && w.node.Dir? && Victim(root, names).Bad? ==> Victim(root, names) == Bad(-ENOENT))
  {
  }

  lemma UnlinkCode(root: Node, names: seq<Name>)
    ensures var t := Victim(root, names);
      && (t.Bad? ==> Unlink(root, names).0 == t.err)
      && (t.Ok? && t.dir.Dir? && t.slot < |t.dir.kids| && t.dir.kids[t.slot].Used? ==>
            Unlink(root, names).0 == if t.dir.kids[t.slot].node.Dir? then -EISDIR else 0)
  {
  }

  // unlink succeeds exactly for a file.
  lemma UnlinkAnswers(root: Node, names: seq<Name>)
    requires Good(root) && PathOk(names) && names != []
    ensures var look, p := FsNamespace.Find(Abs(root), names), FsNamespace.Find(Abs(root), names[..|names| - 1]);
      Unlink(root, names).0 ==
        if p.Miss? then -ENOENT
        else if p.tree.Leaf? then -ENOTDIR
        else if look.Miss? then -ENOENT
        else if look.tree.Branch? then -EISDIR
        else 0
    ensures Unlink(root, names).0 == 0 <==>
              FsNamespace.Find(Abs(root), names).Hit? && FsNamespace.Find(Abs(root), names).tree.Leaf?
  {
    hide WF, Good, Abs, Victim, Unlink, PathOk;
    VictimAnswers(root, names);
    UnlinkCode(root, names);
    var t := Victim(root, names);
    if t.Ok? {
      Kind(t.dir.kids[t.slot].node);
    }
    LookupExact(Abs(root), names[..|names| - 1], names[|names| - 1]);
    assert names[..|names| - 1] + [names[|names| - 1]] == names;
  }

  // rmdir succeeds exactly for an empty directory other than the root.
  lemma RmdirAnswers(root: Node, names: seq<Name>)
    requires Good(root) && PathOk(names)
    ensures names == [] ==> Rmdir(root, names).0 == -ENOENT
    ensures names != [] ==>
      var look, p := FsNamespace.Find(Abs(root), names), FsNamespace.Find(Abs(root), names[..|names| - 1]);
      Rmdir(root, names).0 ==
        if p.Miss? then -ENOENT
        else if p.tree.Leaf? then -ENOTDIR
        else if look.Miss? then -ENOENT
        else if look.tree.Leaf? then -ENOTDIR
        else if look.tree.kids != map[] then -ENOTEMPTY
        else 0
    ensures Rmdir(root, names).0 == 0 <==>
              names != [] && FsNamespace.Find(Abs(root), names).Hit? && FsNamespace.Find(Abs(root), names).tree.Branch?
              && FsNamespace.Find(Abs(root), names).tree.kids == map[]
  {
    hide WF, Good, Abs, Victim, Rmdir, PathOk;
    RmdirCode(root, names);
    if names != [] {
      VictimAnswers(root, names);
      var t := Victim(root, names);
      if t.Ok? {
        KidEmpty(t.dir.kids[t.slot].node);
      }
      LookupExact(Abs(root), names[..|names| - 1], names[|names| - 1]);
      assert names[..|names| - 1] + [names[|names| - 1]] == names;
    }
  }

  predicate Occupied(kids: seq<Slot>) { exists i :: 0 <= i < |kids| && kids[i].Used? }

  lemma RmdirCode(root: Node, names: seq<Name>)
    ensures names == [] ==> Rmdir(root, names).0 == -ENOENT
    ensures var t := Victim(root, names);
      && (t.Bad? ==> Rmdir(root, names).0 == t.err)
      && (t.Ok? && t.slot < |t.dir.kids| && t.dir.kids[t.slot].Used? ==>
            var n := t.dir.kids[t.slot].node;
            Rmdir(root, names).0 == if n.File? then -ENOTDIR else if Occupied(n.kids) then -ENOTEMPTY else 0)
  {
  }

  lemma KidEmpty(n: Node)
    ensures n.Dir? == Abs(n).Branch?
    ensures n.Dir? ==> (Occupied(n.kids) <==> Abs(n).kids != map[])
  {
    Kind(n);
    hide Abs;
    if n.Dir? {
      EmptyNames(n.kids);
    }
  }

  lemma EmptyNames(kids: seq<Slot>)
    ensures Names(kids) == {} <==> forall i | 0 <= i < |kids| :: !kids[i].Used?
    ensures forall m: map<Name, Tree> :: m.Keys == {} <==> m == map[]
  {
    assert forall i | 0 <= i < |kids| && kids[i].Used? :: kids[i].name in Names(kids);
  }

  // ---------- rename ----------

  // rename succeeds exactly when the old path leads somewhere, the new one nowhere, and both name
  // entries of one directory.
  lemma RenameAnswers(root: Node, src: seq<Name>, dst: seq<Name>)
    requires Good(root) && PathOk(src) && PathOk(dst)
    ensures Rename(root, src, dst).0 ==
              if FsNamespace.Find(Abs(root), src).Miss? then -ENOENT
              else if FsNamespace.Find(Abs(root), dst).Hit? then -EEXIST
              else if |src| != |dst| || src == [] || src[..|src| - 1] != dst[..|dst| - 1] then -EINVAL
              else 0
  {
    hide WF, Good, Abs, Locate, Victim, WithSlot;
    Seen(root, src);
    Seen(root, dst);
    if src != [] && Locate(root, src).At? {
      FoundVictim(root, src);
    }
  }

  // ---------- chmod, utime, truncate, readdir ----------

  lemma TouchAnswers(root: Node, names: seq<Name>)
    requires Good(root) && PathOk(names)
    ensures var look := FsNamespace.Find(Abs(root), names);
      && ChmodCode(root, names) == (if look.Hit? then 0 else -ENOENT)
      && UtimeCode(root, names) == (if look.Miss? then look.err else if look.tree.Branch? then -EISDIR else 0)
  {
    hide WF, Good, Abs, Locate;
    Seen(root, names);
    if Locate(root, names).At? {
      Kind(Locate(root, names).node);
    }
  }

  // truncate to 0 empties every file; no other length is supported.
  lemma TruncateAnswers(root: Node, names: seq<Name>, len: int)
    requires Good(root) && PathOk(names)
    ensures var look := FsNamespace.Find(Abs(root), names);
      Truncate(root, names, len).0 ==
        if len != 0 then -EINVAL else if look.Miss? then look.err else if look.tree.Branch? then -EISDIR else 0
  {
    hide WF, Good, Abs, Locate;
    Seen(root, names);
    if Locate(root, names).At? {
      Kind(Locate(root, names).node);
    }
  }

  // readdir lists every directory, and of it every entry with its inode number, once.
  lemma ReadDirAnswers(root: Node, names: seq<Name>)
    requires Good(root) && PathOk(names)
    ensures var look := FsNamespace.Find(Abs(root), names);
      ReadDir(root, names).0 == if look.Miss? then look.err else if look.tree.Leaf? then -ENOTDIR else 0
    ensures ReadDir(root, names).0 == 0 ==>
      var look, list := FsNamespace.Find(Abs(root), names), ReadDir(root, names).1;
      && look.Hit? && look.tree.Branch?
      && (forall name, ino: nat :: (name, ino) in list <==> name in look.tree.kids && look.tree.kids[name].ino == ino)
      && (forall a, b | 0 <= a < b < |list| :: list[a].0 != list[b].0)
  {
    hide WF, Good, Abs, Locate, Listing;
    Seen(root, names);
    var w := Locate(root, names);
    if w.At? {
      Kind(w.node);
      if w.node.Dir? {
        ListingAnswers(w.node);
      }
    }
  }

  lemma ListingAnswers(n: Node)
    requires WF(n) && n.Dir? && Abs(n).Branch?
    ensures forall name, ino: nat ::
      (name, ino) in Listing(n.kids) <==> name in Abs(n).kids && Abs(n).kids[name].ino == ino
    ensures forall a, b | 0 <= a < b < |Listing(n.kids)| :: Listing(n.kids)[a].0 != Listing(n.kids)[b].0
  {
    hide Abs, Foot;
    ListingDistinct(n.kids);
    AbsKeys(n);
    hide Listing;
    forall name, ino: nat
      ensures (name, ino) in Listing(n.kids) <==> name in Abs(n).kids && Abs(n).kids[name].ino == ino
    {
      ListingEntries(n.kids, name, ino);
      EntryAnswers(n, name, ino);
    }
  }

  lemma EntryAnswers(n: Node, name: Name, ino: nat)
    requires WF(n) && n.Dir? && Abs(n).Branch? && Abs(n).kids.Keys == Names(n.kids)
    ensures (exists i :: 0 <= i < |n.kids| && n.kids[i].Used? && n.kids[i].name == name && n.kids[i].node.ino == ino)
      <==> name in Abs(n).kids && Abs(n).kids[name].ino == ino
  {
    hide Abs, Foot, WF;
    if i :| 0 <= i < |n.kids| && n.kids[i].Used? && n.kids[i].name == name && n.kids[i].node.ino == ino {
      KidsOf(n, i);
      Inode(n.kids[i].node);
    }
    if name in Names(n.kids) && Abs(n).kids[name].ino == ino {
      var i :| 0 <= i < |n.kids| && n.kids[i].Used? && n.kids[i].name == name;
      KidsOf(n, i);
      Inode(n.kids[i].node);
    }
  }

  lemma Inode(n: Node)
    ensures Abs(n).ino == n.ino
  {
  }

  // ---------- read and write ----------

  // A read delivers exactly the bytes of the file from the offset on, as many as asked for and there are.
  lemma ReadAnswers(root: Node, names: seq<Name>, len: nat, off: nat)
    requires Good(root) && PathOk(names)
    ensures var look, (n, buf) := FsNamespace.Find(Abs(root), names), Read(root, names, len, off);
      if look.Miss? then n == look.err && buf == []
      else if look.tree.Branch? then n == -EISDIR && buf == []
      else
        var data := look.tree.data;
        && n == |buf| == (if off >= |data| then 0 else if len < |data| - off then len else |data| - off)
        && forall i | 0 <= i < n :: buf[i] == data[off + i]
  {
    ReadIsWindow(root, names, len, off);
  }

  // The room that a write asks of its caller: a spare block for each one it has to add.
  lemma RoomExact(root: Node, names: seq<Name>, off: nat, len: nat)
    requires Good(root) && PathOk(names)
    ensures var look := FsNamespace.Find(Abs(root), names);
      Room(root, names, off, len) <==>
        (look.Hit? && look.tree.Leaf? && off <= |look.tree.data| && off + len <= 4096 * 1019 ==>
           |Spare(root)| >= (off + len + 4095) / 4096 - (|look.tree.data| + 4095) / 4096)
  {
    hide Good, WF, Abs, Locate, Claimed, AllocMany, Spare, SpareOf;
    Seen(root, names);
    SpareIsSpareOf(root);
    var w := Locate(root, names);
    if w.At? {
      Kind(w.node);
      if w.node.File? {
        AllocManyExact(Claimed(root), Missing(w.node.data, off, len));
        CeilGrows(off + len, |w.node.data|);
      }
    }
  }

  lemma CeilGrows(a: nat, b: nat)
    ensures a <= b ==> (a + 4095) / 4096 <= (b + 4095) / 4096
    ensures b <= a ==> (b + 4095) / 4096 <= (a + 4095) / 4096
  {
  }

  lemma OverlayBytes(data: seq<byte>, buf: seq<byte>, off: nat)
    requires off <= |data|
    ensures var e := Overlay(data, buf, off);
      && |e| == (if off + |buf| > |data| then off + |buf| else |data|)
      && forall i | 0 <= i < |e| :: e[i] == if off <= i < off + |buf| then buf[i - off] else data[i]
  {
  }

  // A write that starts inside the file or at its end stores exactly the buffer there and keeps every
  // other byte; it is refused past the end and beyond the largest file.
  lemma WriteAnswers(root: Node, names: seq<Name>, buf: seq<byte>, off: nat)
    requires Good(root) && PathOk(names) && Room(root, names, off, |buf|)
    ensures var look := FsNamespace.Find(Abs(root), names);
      Write(root, names, buf, off).0 ==
        if look.Miss? then look.err
        else if look.tree.Branch? then -EISDIR
        else if off > |look.tree.data| then -EINVAL
        else if off + |buf| > 4096 * 1019 then -ENOSPC
        else |buf|
    ensures Write(root, names, buf, off).0 >= 0 ==>
      var before := FsNamespace.Find(Abs(root), names);
      var after := FsNamespace.Find(Abs(Write(root, names, buf, off).1), names);
      && before.Hit? && before.tree.Leaf? && after.Hit? && after.tree.Leaf? && after.tree.ino == before.tree.ino
      && var d, e := before.tree.data, after.tree.data;
         && |e| == (if off + |buf| > |d| then off + |buf| else |d|)
         && forall i | 0 <= i < |e| :: e[i] == if off <= i < off + |buf| then buf[i - off] else d[i]
  {
    Seen(root, names);
    if Locate(root, names).At? {
      Kind(Locate(root, names).node);
    }
    hide Good, WF, Abs, Locate, Overlay, AllocMany, Put, Update;
    if Write(root, names, buf, off).0 >= 0 {
      hide Write;
      WriteRefines(root, names, buf, off);
      var f := Locate(root, names).node;
      FileEditPaths(root, names, Overlay(f.data, buf, off), names);
      OverlayBytes(f.data, buf, off);
    }
  }
}
