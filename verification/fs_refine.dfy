/**
  Each successful call is one edit of the abstract namespace, and what that does to every path.
  */
module FsRefine {
  import opened Layout
  import opened Paths
  import opened FsTree
  import opened FsSpec
  import opened FsUpdate
  import opened FsStored
  import opened FsNamespace

  ghost predicate Good(root: Node) { root.Dir? && root.ino == 2 && WF(root) }

  ghost predicate PathOk(names: seq<Name>)
  {
    |names| <= MAX_DEPTH && forall n | n in names :: IsToken(n)
  }

  // rename, as an edit of the directory that holds both names
  function Move(t: Tree, src: seq<Name>, dst: seq<Name>): Tree
    requires HasParent(t, src) && dst != [] && Init(dst) == Init(src) && FsNamespace.Find(t, src).Hit?
  {
    var p := FsNamespace.Find(t, Init(src)).tree;
    Update(t, Init(src), Branch(p.ino, (p.kids - {Last(src)})[Last(dst) := FsNamespace.Find(t, src).tree]))
  }

  // ---------- Lookup after an edit of the abstract tree ----------

  // Two lookups agree on the error, or on the inode, its kind and a file's contents.
  ghost predicate SameAnswer(a: Look, b: Look)
  {
    match (a, b)
    case (Miss(e), Miss(f)) => e == f
    case (Hit(t), Hit(u)) => t.ino == u.ino && t.Leaf? == u.Leaf? && (t.Leaf? ==> t == u)
    case _ => false
  }

  lemma {:induction false} FindUpdate(t: Tree, a: seq<Name>, u: Tree, q: seq<Name>)
    requires FsNamespace.Find(t, a).Hit?
    requires u.ino == FsNamespace.Find(t, a).tree.ino && u.Leaf? == FsNamespace.Find(t, a).tree.Leaf?
    ensures a <= q ==> FsNamespace.Find(Update(t, a, u), q) == FsNamespace.Find(u, q[|a|..])
    ensures a <= q ==> FsNamespace.Find(t, q) == FsNamespace.Find(FsNamespace.Find(t, a).tree, q[|a|..])
    ensures !(a <= q) ==> SameAnswer(FsNamespace.Find(Update(t, a, u), q), FsNamespace.Find(t, q))
    decreases |a|
  {
    if a == [] {
      assert q[0..] == q;
    } else if q != [] && q[0] == a[0] {
      FindUpdate(t.kids[a[0]], a[1..], u, q[1..]);
      assert a <= q ==> q[1..][|a[1..]|..] == q[|a|..];
      assert a == [a[0]] + a[1..] && q == [q[0]] + q[1..];
    }
  }

  // An edit of one directory at a: paths whose next name after a is untouched keep their answer.
  lemma EditElsewhere(t: Tree, a: seq<Name>, kids: map<Name, Tree>, q: seq<Name>)
    requires FsNamespace.Find(t, a).Hit? && FsNamespace.Find(t, a).tree.Branch?
    requires var p := FsNamespace.Find(t, a).tree;
      a < q ==> (q[|a|] in kids <==> q[|a|] in p.kids) && (q[|a|] in kids ==> kids[q[|a|]] == p.kids[q[|a|]])
    ensures var p := FsNamespace.Find(t, a).tree;
      SameAnswer(FsNamespace.Find(Update(t, a, Branch(p.ino, kids)), q), FsNamespace.Find(t, q))
  {
    var p := FsNamespace.Find(t, a).tree;
    FindUpdate(t, a, Branch(p.ino, kids), q);
    if a <= q {
      var r := q[|a|..];
      if r != [] {
        assert r[0] == q[|a|];
      }
    }
  }

  lemma SplitLast(names: seq<Name>, q: seq<Name>)
    requires names != []
    ensures Init(names) + [Last(names)] == names
    ensures names <= q <==> Init(names) < q && q[|names| - 1] == Last(names)
    ensures names <= q ==> q[|Init(names)|..] == [Last(names)] + q[|names|..]
  {
    if Init(names) < q && q[|names| - 1] == Last(names) {
      assert q[..|names|] == q[..|names| - 1] + [q[|names| - 1]];
    }
  }

  lemma InsertPaths(t: Tree, names: seq<Name>, x: Tree, q: seq<Name>)
    requires HasParent(t, names) && |Last(names)| <= NAME_MAX
    ensures if names <= q then FsNamespace.Find(Insert(t, names, x), q) == FsNamespace.Find(x, q[|names|..])
            else SameAnswer(FsNamespace.Find(Insert(t, names, x), q), FsNamespace.Find(t, q))
  {
    var a := Init(names);
    var p := FsNamespace.Find(t, a).tree;
    var kids := p.kids[Last(names) := x];
    SplitLast(names, q);
    if names <= q {
      FindUpdate(t, a, Branch(p.ino, kids), q);
      assert q[|a|..][1..] == q[|names|..];
    } else {
      EditElsewhere(t, a, kids, q);
    }
  }

  lemma RemovePaths(t: Tree, names: seq<Name>, q: seq<Name>)
    requires HasParent(t, names)
    ensures if names <= q then FsNamespace.Find(Remove(t, names), q) == Miss(-ENOENT)
            else SameAnswer(FsNamespace.Find(Remove(t, names), q), FsNamespace.Find(t, q))
  {
    var a := Init(names);
    var p := FsNamespace.Find(t, a).tree;
    var kids := p.kids - {Last(names)};
    SplitLast(names, q);
    if names <= q {
      FindUpdate(t, a, Branch(p.ino, kids), q);
    } else {
      EditElsewhere(t, a, kids, q);
    }
  }

  lemma MovePaths(t: Tree, src: seq<Name>, dst: seq<Name>, q: seq<Name>)
    requires HasParent(t, src) && dst != [] && Init(dst) == Init(src) && FsNamespace.Find(t, src).Hit?
    requires |Last(dst)| <= NAME_MAX && src != dst
    ensures if dst <= q then FsNamespace.Find(Move(t, src, dst), q) == FsNamespace.Find(t, src + q[|dst|..])
            else if src <= q then FsNamespace.Find(Move(t, src, dst), q) == Miss(-ENOENT)
            else SameAnswer(FsNamespace.Find(Move(t, src, dst), q), FsNamespace.Find(t, q))
  {
    var a := Init(src);
    var p := FsNamespace.Find(t, a).tree;
    var x := FsNamespace.Find(t, src).tree;
    var kids := (p.kids - {Last(src)})[Last(dst) := x];
    SplitLast(dst, q);
    SplitLast(src, q);
    if dst <= q {
      FindUpdate(t, a, Branch(p.ino, kids), q);
      assert q[|a|..][1..] == q[|dst|..];
      FindUpdate(t, src, x, src + q[|dst|..]);
      assert (src + q[|dst|..])[|src|..] == q[|dst|..];
    } else if src <= q {
      assert Last(src) != Last(dst);
      FindUpdate(t, a, Branch(p.ino, kids), q);
    } else {
      EditElsewhere(t, a, kids, q);
    }
  }

  // ---------- Slot updates of the ownership tree ----------

  // One slot of the directory at a path changes: well-formedness, ownership and abstraction at once.
  lemma SlotRefines(root: Node, a: seq<Name>, t: Target, k: Slot)
    requires Good(root) && Aimed(root, t) && Fits(root, t, k) && Locate(root, a) == At(t.addr, t.dir)
    ensures Good(WithSlot(root, t, k)) && SlotFoot(t.dir.kids[t.slot]) <= Foot(root)
    ensures Foot(WithSlot(root, t, k)) == Foot(root) - SlotFoot(t.dir.kids[t.slot]) + SlotFoot(k)
    ensures FsNamespace.Find(Abs(root), a) == Hit(Abs(t.dir)) && Abs(t.dir).Branch? && Abs(t.dir).ino == t.dir.ino
    ensures Abs(WithSlot(root, t, k)) ==
              Update(Abs(root), a, Branch(t.dir.ino, WithKid(Abs(t.dir).kids, t.dir.kids[t.slot], k)))
  {
    var dir' := t.dir.(kids := t.dir.kids[t.slot := k]);
    SlotUpdateTree(root, t, k);
    PutIno(root, t.addr, dir');
    hide WF, Foot, Abs, Resolve;
    GetParts(ZeroDisk(), root, t.addr);
    SlotOwned(t.dir, t.slot);
    SetSlot(t.dir, t.slot, k);
    AbsKeys(t.dir);
    AbsPut(root, a, dir');
    AbsSetKid(t.dir, t.slot, k);
  }

  // ---------- create and mkdir ----------

  lemma CreateRefines(root: Node, names: seq<Name>)
    requires Good(root) && PathOk(names) && Create(root, names).0 == 0
    ensures var root', b := Create(root, names).1, Alloc(Claimed(root)).value;
      && Alloc(Claimed(root)).Some? && InRange(b) && b !in Foot(root)
      && Good(root') && Foot(root') == Foot(root) + {b}
      && HasParent(Abs(root), names) && FsNamespace.Find(Abs(root), names).Miss?
      && Abs(root') == Insert(Abs(root), names, Leaf(b, []))
  {
    var t := Place(root, names);
    var b := Alloc(Claimed(root)).value;
    OwnFile(b);
    LeafPlaced(root, names, t, File(b, [], []));
  }

  lemma MkdirRefines(root: Node, names: seq<Name>)
    requires Good(root) && PathOk(names) && Mkdir(root, names).0 == 0
    ensures AllocMany(Claimed(root), 2).Some?
    ensures var root', bs := Mkdir(root, names).1, AllocMany(Claimed(root), 2).value;
      && bs[0] != bs[1] && bs[0] !in Foot(root) && bs[1] !in Foot(root)
      && Good(root') && Foot(root') == Foot(root) + {bs[0], bs[1]}
      && HasParent(Abs(root), names) && FsNamespace.Find(Abs(root), names).Miss?
      && Abs(root') == Insert(Abs(root), names, Branch(bs[0], map[]))
  {
    var t := Place(root, names);
    var bs := AllocMany(Claimed(root), 2).value;
    OwnDir(bs[0], bs[1]);
    var node := Dir(bs[0], bs[1], EmptyKids());
    AbsKeys(node);
    assert Abs(node) == Branch(bs[0], map[]);
    LeafPlaced(root, names, t, node);
  }

  lemma LeafPlaced(root: Node, names: seq<Name>, t: Target, node: Node)
    requires Good(root) && PathOk(names) && t == Place(root, names) && t.Ok? && WF(node) && Foot(node) !! Claimed(root)
    ensures var root' := WithSlot(root, t, Used(Last(names), node));
      && Good(root') && Foot(root') == Foot(root) + Foot(node)
      && HasParent(Abs(root), names) && FsNamespace.Find(Abs(root), names).Miss?
      && Abs(root') == Insert(Abs(root), names, Abs(node))
  {
    var k := Used(Last(names), node);
    assert IsToken(Last(names));
    LeafFits(root, names, t, node);
    ResolveIsFind(root, names);
    hide WF, Foot, Abs, Resolve;
    SlotRefines(root, Init(names), t, k);
  }

  // ---------- unlink and rmdir ----------

  lemma RemovalRefines(root: Node, names: seq<Name>, t: Target)
    requires Good(root) && PathOk(names) && t == Victim(root, names) && t.Ok?
    ensures Aimed(root, t) && t.dir.kids[t.slot].Used? && WF(t.dir.kids[t.slot].node)
    ensures Foot(t.dir.kids[t.slot].node) <= Foot(root)
    ensures var root' := WithSlot(root, t, Free);
      && Good(root') && Foot(root') == Foot(root) - Foot(t.dir.kids[t.slot].node)
      && HasParent(Abs(root), names) && FsNamespace.Find(Abs(root), names) == Hit(Abs(t.dir.kids[t.slot].node))
      && Abs(root') == Remove(Abs(root), names)
  {
    VictimFound(root, names, t);
    ResolveIsFind(root, names);
    hide WF, Foot, Abs, Resolve;
    SlotRefines(root, Init(names), t, Free);
  }

  lemma KidNamed(n: Node, s: nat)
    requires WF(n) && n.Dir? && s < |n.kids| && n.kids[s].Used?
    ensures WF(n.kids[s].node) && NameOk(n.kids[s].name)
  {
  }

  // The victim is what the path resolves to.
  lemma VictimFound(root: Node, names: seq<Name>, t: Target)
    requires WF(root) && PathOk(names) && t == Victim(root, names) && t.Ok?
    ensures t.slot < |t.dir.kids| && t.dir.kids[t.slot].Used? && WF(t.dir.kids[t.slot].node)
    ensures t.dir.kids[t.slot].name == Last(names) && |Last(names)| <= NAME_MAX
    ensures Resolve(root, names) == At(t.addr + [t.slot], t.dir.kids[t.slot].node)
  {
    hide Foot, Rep, WF;
    GetParts(ZeroDisk(), root, t.addr);
    KidNamed(t.dir, t.slot);
    ResolveSnoc(root, Init(names), Last(names));
    assert Init(names) + [Last(names)] == names;
  }

  lemma UnlinkRefines(root: Node, names: seq<Name>)
    requires Good(root) && PathOk(names) && Unlink(root, names).0 == 0
    ensures Locate(root, names).At? && Locate(root, names).node.File?
    ensures var root', f := Unlink(root, names).1, Locate(root, names).node;
      && Good(root') && Foot(f) <= Foot(root) && Foot(root') == Foot(root) - Foot(f)
      && HasParent(Abs(root), names) && FsNamespace.Find(Abs(root), names) == Hit(Leaf(f.ino, f.data))
      && Abs(root') == Remove(Abs(root), names)
  {
    var t := Victim(root, names);
    VictimFound(root, names, t);
    RemovalRefines(root, names, t);
  }

  lemma RmdirRefines(root: Node, names: seq<Name>)
    requires Good(root) && PathOk(names) && Rmdir(root, names).0 == 0
    ensures Locate(root, names).At? && Locate(root, names).node.Dir?
    ensures var root', n := Rmdir(root, names).1, Locate(root, names).node;
      && Good(root') && Foot(n) <= Foot(root) && Foot(root') == Foot(root) - {n.ino, n.blk} && n.ino != n.blk
      && Foot(n) == {n.ino, n.blk}
      && HasParent(Abs(root), names) && FsNamespace.Find(Abs(root), names) == Hit(Branch(n.ino, map[]))
      && Abs(root') == Remove(Abs(root), names)
  {
    var t := Victim(root, names);
    VictimFound(root, names, t);
    RemovalRefines(root, names, t);
    var n := t.dir.kids[t.slot].node;
    EmptyDirFoot(n);
    DirApart(n);
    AbsKeys(n);
    assert Names(n.kids) == {};
    assert Abs(n).kids == map[];
  }

  // ---------- rename ----------

  lemma RenameRefines(root: Node, src: seq<Name>, dst: seq<Name>)
    requires Good(root) && PathOk(src) && PathOk(dst) && (dst != [] ==> |Last(dst)| <= NAME_MAX)
    requires Rename(root, src, dst).0 == 0
    ensures var root' := Rename(root, src, dst).1;
      && Good(root') && Foot(root') == Foot(root)
      && src != dst && dst != [] && Init(dst) == Init(src)
      && HasParent(Abs(root), src) && FsNamespace.Find(Abs(root), src).Hit? && FsNamespace.Find(Abs(root), dst).Miss?
      && Abs(root') == Move(Abs(root), src, dst)
  {
    var t := Victim(root, src);
    FoundVictim(root, src);
    VictimFound(root, src, t);
    assert IsToken(Last(dst));
    RenameFits(root, src, dst, t);
    ResolveIsFind(root, src);
    ResolveIsFind(root, dst);
    hide WF, Foot, Abs, Resolve;
    SlotRefines(root, Init(src), t, t.dir.kids[t.slot].(name := Last(dst)));
  }

  // ---------- File contents ----------

  lemma WriteRefines(root: Node, names: seq<Name>, buf: seq<byte>, off: nat)
    requires Good(root) && PathOk(names) && Room(root, names, off, |buf|) && Write(root, names, buf, off).0 >= 0
    ensures Write(root, names, buf, off).0 == |buf|
    ensures Locate(root, names).At? && Locate(root, names).node.File?
    ensures var root', f := Write(root, names, buf, off).1, Locate(root, names).node;
      && off <= |f.data| && off + |buf| <= MAX_FILE && Good(root')
      && AllocMany(Claimed(root), Missing(f.data, off, |buf|)).Some?
      && Foot(root') == Foot(root) + Blocks(AllocMany(Claimed(root), Missing(f.data, off, |buf|)).value)
      && FsNamespace.Find(Abs(root), names) == Hit(Leaf(f.ino, f.data))
      && Abs(root') == Update(Abs(root), names, Leaf(f.ino, Overlay(f.data, buf, off)))
  {
    var w := Locate(root, names);
    var f := w.node;
    var bs := AllocMany(Claimed(root), Missing(f.data, off, |buf|)).value;
    var m := File(f.ino, f.blks + bs, Overlay(f.data, buf, off));
    GetParts(ZeroDisk(), root, w.addr);
    FootInRange(root);
    FootInRange(f);
    FileShape(f);
    DistinctApart(f.blks, bs, Claimed(root));
    GrownFile(root, f, bs, buf, off);
    hide WF, Foot, Abs, AllocMany, Overlay, Resolve;
    FileRefines(root, names, m);
  }

  lemma DistinctApart(a: seq<nat>, b: seq<nat>, used: set<nat>)
    requires Distinct(a) && Distinct(b) && Blocks(a) <= used && forall i | 0 <= i < |b| :: b[i] !in used
    ensures Distinct(a + b)
  {
    assert forall i | 0 <= i < |a| :: a[i] in Blocks(a);
  }

  lemma TruncateRefines(root: Node, names: seq<Name>)
    requires Good(root) && PathOk(names) && Truncate(root, names, 0).0 == 0
    ensures Locate(root, names).At? && Locate(root, names).node.File?
    ensures var root', f := Truncate(root, names, 0).1, Locate(root, names).node;
      && Good(root') && Blocks(f.blks) <= Foot(root) && Foot(root') == Foot(root) - Blocks(f.blks)
      && Distinct(f.blks) && |f.blks| == Ceil(|f.data|)
      && FsNamespace.Find(Abs(root), names) == Hit(Leaf(f.ino, f.data))
      && Abs(root') == Update(Abs(root), names, Leaf(f.ino, []))
  {
    var w := Locate(root, names);
    var f := w.node;
    GetParts(ZeroDisk(), root, w.addr);
    FileShape(f);
    FootInRange(root);
    FootInRange(f);
    OwnFile(f.ino);
    hide WF, Foot, Abs, Resolve;
    FileRefines(root, names, File(f.ino, [], []));
  }

  // Replacing one file by another at the same inode.
  lemma FileRefines(root: Node, names: seq<Name>, m: Node)
    requires Good(root) && Locate(root, names).At? && Locate(root, names).node.File? && m.File? && WF(m)
    requires m.ino == Locate(root, names).node.ino
    requires Foot(m) !! (Foot(root) - Foot(Locate(root, names).node))
    ensures var w, root' := Locate(root, names), Put(root, Locate(root, names).addr, m);
      && Good(root') && Foot(root') == Foot(root) - Foot(w.node) + Foot(m) && Foot(w.node) <= Foot(root)
      && FsNamespace.Find(Abs(root), names) == Hit(Leaf(w.node.ino, w.node.data))
      && Abs(root') == Update(Abs(root), names, Leaf(m.ino, m.data))
  {
    var w := Locate(root, names);
    FileUpdateTree(root, w.addr, m);
    PutIno(root, w.addr, m);
    AbsPut(root, names, m);
    if names == [] {
      assert false;
    }
    AddrNonEmpty(root, names);
    PutKeepsDir(root, w.addr, m);
  }

  lemma AddrNonEmpty(root: Node, names: seq<Name>)
    requires names != [] && Resolve(root, names).At?
    ensures Resolve(root, names).addr != []
  {
  }

  lemma PutKeepsDir(n: Node, addr: seq<nat>, m: Node)
    requires addr != [] && Get(n, addr).Some?
    ensures Put(n, addr, m).Dir? && Put(n, addr, m).ino == n.ino
  {
  }

  // A read sees exactly the abstract contents.
  lemma ReadIsWindow(root: Node, names: seq<Name>, len: nat, off: nat)
    requires Good(root) && PathOk(names)
    ensures Read(root, names, len, off) ==
              match FsNamespace.Find(Abs(root), names)
              case Miss(e) => (e, [])
              case Hit(t) => if t.Branch? then (-EISDIR, []) else (|Window(t.data, len, off)|, Window(t.data, len, off))
  {
    ResolveIsFind(root, names);
  }

  // Every path's inode or error is the same before and after a write or a truncation.
  lemma FileEditPaths(root: Node, names: seq<Name>, data: seq<byte>, q: seq<Name>)
    requires Good(root) && FsNamespace.Find(Abs(root), names).Hit? && FsNamespace.Find(Abs(root), names).tree.Leaf?
    ensures var leaf := Leaf(FsNamespace.Find(Abs(root), names).tree.ino, data);
      var before, after := FsNamespace.Find(Abs(root), q), FsNamespace.Find(Update(Abs(root), names, leaf), q);
      if q == names then after == Hit(leaf) else SameAnswer(after, before)
  {
    var leaf := Leaf(FsNamespace.Find(Abs(root), names).tree.ino, data);
    hide Abs;
    FindUpdate(Abs(root), names, leaf, q);
    if names <= q && q != names {
      assert q[|names|..] != [];
    }
  }

  // After a write, reading the written range returns the buffer, and a read through any other path
  // returns what it returned before.
  lemma WriteThenRead(root: Node, names: seq<Name>, buf: seq<byte>, off: nat, q: seq<Name>, len: nat, o: nat)
    requires Good(root) && PathOk(names) && PathOk(q)
    requires Room(root, names, off, |buf|) && Write(root, names, buf, off).0 >= 0
    ensures var root' := Write(root, names, buf, off).1;
      && Read(root', names, |buf|, off) == (|buf|, buf)
      && (q != names ==> Read(root', q, len, o) == Read(root, q, len, o))
  {
    var root' := Write(root, names, buf, off).1;
    WriteRefines(root, names, buf, off);
    var f := Locate(root, names).node;
    var leaf := Leaf(f.ino, Overlay(f.data, buf, off));
    hide WF, Foot, Abs, Read, Write, Locate, AllocMany, Overlay, Window, Update;
    WindowOverlay(f.data, buf, off);
    FileEditPaths(root, names, leaf.data, names);
    ReadIsWindow(root', names, |buf|, off);
    FileEditPaths(root, names, leaf.data, q);
    ReadIsWindow(root', q, len, o);
    ReadIsWindow(root, q, len, o);
  }

  lemma WindowOverlay(data: seq<byte>, buf: seq<byte>, off: nat)
    requires off <= |data|
    ensures Window(Overlay(data, buf, off), |buf|, off) == buf
  {
  }

  // ---------- readdir ----------

  lemma {:induction false} ListingEntries(kids: seq<Slot>, name: Name, ino: nat)
    ensures (name, ino) in Listing(kids) <==>
              exists i :: 0 <= i < |kids| && kids[i].Used? && kids[i].name == name && kids[i].node.ino == ino
  {
    if kids != [] {
      var init := kids[..|kids| - 1];
      ListingEntries(init, name, ino);
      if i :| 0 <= i < |kids| && kids[i].Used? && kids[i].name == name && kids[i].node.ino == ino {
        assert i < |init| ==> init[i] == kids[i];
      }
      if i :| 0 <= i < |init| && init[i].Used? && init[i].name == name && init[i].node.ino == ino {
        assert init[i] == kids[i];
      }
    }
  }

  // Every entry is listed at most once: as long as no two slots share a name, no two lines do.
  lemma {:induction false} ListingDistinct(kids: seq<Slot>)
    requires forall i, j | 0 <= i < j < |kids| && kids[i].Used? && kids[j].Used? :: kids[i].name != kids[j].name
    ensures forall a, b | 0 <= a < b < |Listing(kids)| :: Listing(kids)[a].0 != Listing(kids)[b].0
  {
    if kids != [] {
      var init, last := kids[..|kids| - 1], kids[|kids| - 1];
      ListingDistinct(init);
      var before := Listing(init);
      forall a | 0 <= a < |before| && last.Used? ensures before[a].0 != last.name {
        assert before[a] in before;
        ListingEntries(init, before[a].0, before[a].1);
        var i :| 0 <= i < |init| && init[i].Used? && init[i].name == before[a].0;
        assert kids[i] == init[i];
      }
    }
  }

  // readdir lists exactly the names that resolve, each with the inode it resolves to, and each once.
  lemma ReadDirExact(root: Node, names: seq<Name>, name: Name, ino: nat)
    requires Good(root) && |names| < MAX_DEPTH && ReadDir(root, names).0 == 0
    ensures (name, ino) in ReadDir(root, names).1 <==> Code(Locate(root, names + [name])) == ino
    ensures var list := ReadDir(root, names).1; forall a, b | 0 <= a < b < |list| :: list[a].0 != list[b].0
  {
    var w := Locate(root, names);
    hide Foot, Rep;
    GetParts(ZeroDisk(), root, w.addr);
    ListingDistinct(w.node.kids);
    ListingEntries(w.node.kids, name, ino);
    ResolveSnoc(root, names, name);
    var s := FsSpec.Find(w.node.kids, name, 0);
    if s.Some? {
      KidFoot(w.node, s.value);
      assert NameOk(w.node.kids[s.value].name);
    }
    if i :| 0 <= i < |w.node.kids| && w.node.kids[i].Used? && w.node.kids[i].name == name {
      KidsOf(w.node, i);
    }
    hide WF, Listing;
    if |name| <= NAME_MAX && s.Some? {
      assert Resolve(w.node, [name]) == At([s.value], w.node.kids[s.value].node) by {
        assert [name][1..] == [] && [s.value] + [] == [s.value];
      }
    }
  }
}
