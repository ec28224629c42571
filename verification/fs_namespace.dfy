/**
  The namespace as a user sees it: a tree of named files with inode numbers and contents.
  Every successful call is one edit of this tree, and an edit at one path leaves the lookup of
  every other path alone.
  */
module FsNamespace {
  import opened Wrappers
  import opened Layout
  import opened Paths
  import opened FsTree
  import opened FsSpec

  datatype Tree = Leaf(ino: nat, data: seq<byte>) | Branch(ino: nat, kids: map<Name, Tree>)
  datatype Look = Hit(tree: Tree) | Miss(err: int)

  // What the ownership tree means once slots and block numbers are forgotten.
  ghost function Abs(n: Node): Tree
  {
    match n
    case File(ino, _, data) => Leaf(ino, data)
    case Dir(ino, _, kids) =>
      Branch(ino, map name | name in Names(kids) :: Abs(kids[FsSpec.Find(kids, name, 0).value].node))
  }

  ghost function Names(kids: seq<Slot>): set<Name>
  {
    set i | 0 <= i < |kids| && kids[i].Used? :: kids[i].name
  }

  function Find(t: Tree, names: seq<Name>): Look
    decreases |names|
  {
    if names == [] then Hit(t)
    else if |names[0]| > NAME_MAX then Miss(-ENOENT)
    else if t.Leaf? then Miss(-ENOTDIR)
    else if names[0] !in t.kids then Miss(-ENOENT)
    else Find(t.kids[names[0]], names[1..])
  }

  // Replace the subtree at a path that exists.
  function Update(t: Tree, names: seq<Name>, u: Tree): Tree
    requires Find(t, names).Hit?
    decreases |names|
  {
    if names == [] then u
    else Branch(t.ino, t.kids[names[0] := Update(t.kids[names[0]], names[1..], u)])
  }

  ghost predicate HasParent(t: Tree, names: seq<Name>)
  {
    names != [] && Find(t, Init(names)).Hit? && Find(t, Init(names)).tree.Branch?
  }

  // Add or overwrite one entry of the parent directory.
  function Insert(t: Tree, names: seq<Name>, x: Tree): Tree
    requires HasParent(t, names)
  {
    var p := Find(t, Init(names)).tree;
    Update(t, Init(names), Branch(p.ino, p.kids[Last(names) := x]))
  }

  // Drop one entry of the parent directory.
  function Remove(t: Tree, names: seq<Name>): Tree
    requires HasParent(t, names)
  {
    var p := Find(t, Init(names)).tree;
    Update(t, Init(names), Branch(p.ino, p.kids - {Last(names)}))
  }

  // ---------- The abstraction commutes with lookup and update ----------

  lemma KidsOf(n: Node, i: nat)
    requires WF(n) && n.Dir? && i < |n.kids| && n.kids[i].Used?
    ensures n.kids[i].name in Abs(n).kids && Abs(n).kids[n.kids[i].name] == Abs(n.kids[i].node)
    ensures FsSpec.Find(n.kids, n.kids[i].name, 0) == Some(i)
  {
    assert n.kids[i].name in Names(n.kids);
  }

  // path2inum's descent is lookup in the abstract tree, errors included.
  lemma {:induction false} ResolveIsFind(n: Node, names: seq<Name>)
    requires WF(n)
    ensures var w := Resolve(n, names);
      match Find(Abs(n), names)
      case Hit(t) => w.At? && Abs(w.node) == t
      case Miss(e) => w == Fail(e)
    decreases |names|
  {
    if names != [] && n.Dir? {
      var s := FsSpec.Find(n.kids, names[0], 0);
      if s.Some? {
        KidFoot(n, s.value);
        KidsOf(n, s.value);
        ResolveIsFind(n.kids[s.value].node, names[1..]);
      } else {
        assert names[0] !in Names(n.kids);
      }
    }
  }

  // Setting a slot adds its name and drops the one that was there.
  lemma AbsSetKid(n: Node, s: nat, k: Slot)
    requires WF(n) && n.Dir? && s < |n.kids| && WF(n.(kids := n.kids[s := k]))
    ensures Abs(n.(kids := n.kids[s := k])) == Branch(n.ino, WithKid(Abs(n).kids, n.kids[s], k))
  {
    var n' := n.(kids := n.kids[s := k]);
    AbsKeys(n);
    AbsKeys(n');
    NamesSet(n, s, k);
    WithKidKeys(Abs(n).kids, n.kids[s], k);
    hide WF, FsSpec.Find, Abs, WithKid, Names, KeyShift;
    forall name | name in Abs(n').kids
      ensures Abs(n').kids[name] == WithKid(Abs(n).kids, n.kids[s], k)[name]
    {
      KidAfterSet(n, s, k, name);
    }
    MapsEqual(Abs(n').kids, WithKid(Abs(n).kids, n.kids[s], k));
  }

  lemma MapsEqual(a: map<Name, Tree>, b: map<Name, Tree>)
    requires a.Keys == b.Keys && forall name | name in a :: a[name] == b[name]
    ensures a == b
  {
  }

  ghost function KeyShift(keys: set<Name>, was: Slot, k: Slot): set<Name>
  {
    keys - (if was.Used? then {was.name} else {}) + (if k.Used? then {k.name} else {})
  }

  lemma AbsKeys(n: Node)
    requires n.Dir?
    ensures Abs(n).Branch? && Abs(n).ino == n.ino && Abs(n).kids.Keys == Names(n.kids)
  {
  }

  lemma WithKidKeys(m: map<Name, Tree>, was: Slot, k: Slot)
    ensures WithKid(m, was, k).Keys == KeyShift(m.Keys, was, k)
  {
  }

  lemma KidAfterSet(n: Node, s: nat, k: Slot, name: Name)
    requires WF(n) && n.Dir? && s < |n.kids| && WF(n.(kids := n.kids[s := k]))
    requires name in Abs(n.(kids := n.kids[s := k])).kids && name in WithKid(Abs(n).kids, n.kids[s], k)
    ensures Abs(n.(kids := n.kids[s := k])).kids[name] == WithKid(Abs(n).kids, n.kids[s], k)[name]
  {
    var n' := n.(kids := n.kids[s := k]);
    var i := FsSpec.Find(n'.kids, name, 0).value;
    KidsOf(n', i);
    assert n'.kids[s] == k && (i != s ==> n'.kids[i] == n.kids[i]);
    if k.Used? { KidsOf(n', s); }
    if n.kids[s].Used? { KidsOf(n, s); }
    if i != s { KidsOf(n, i); }
  }

  ghost function WithKid(m: map<Name, Tree>, was: Slot, k: Slot): map<Name, Tree>
  {
    var rest := if was.Used? then m - {was.name} else m;
    if k.Used? then rest[k.name := Abs(k.node)] else rest
  }

  lemma NamesSet(n: Node, s: nat, k: Slot)
    requires WF(n) && n.Dir? && s < |n.kids|
    ensures Names(n.kids[s := k]) == KeyShift(Names(n.kids), n.kids[s], k)
  {
    var kids' := n.kids[s := k];
    forall name
      ensures name in Names(kids') <==> name in KeyShift(Names(n.kids), n.kids[s], k)
    {
      if i :| 0 <= i < |n.kids| && i != s && n.kids[i].Used? && n.kids[i].name == name {
        assert kids'[i] == n.kids[i];
      }
      assert kids'[s] == k;
    }
  }

  // Replacing a subtree of the ownership tree replaces the same subtree of the abstract tree.
  lemma {:induction false} AbsPut(n: Node, names: seq<Name>, m: Node)
    requires WF(n) && WF(m) && Resolve(n, names).At?
    requires Foot(m) !! (Foot(n) - Foot(Resolve(n, names).node))
    ensures Find(Abs(n), names) == Hit(Abs(Resolve(n, names).node))
    ensures Abs(Put(n, Resolve(n, names).addr, m)) == Update(Abs(n), names, Abs(m))
    decreases |names|
  {
    ResolveIsFind(n, names);
    if names != [] {
      var s := FsSpec.Find(n.kids, names[0], 0).value;
      var kid := n.kids[s].node;
      var w := Resolve(kid, names[1..]);
      assert Resolve(n, names).addr[1..] == w.addr && Resolve(n, names).node == w.node;
      KidsOf(n, s);
      KidFoot(n, s);
      hide WF, Foot, Abs, Resolve, FsSpec.Find;
      GetParts(ZeroDisk(), kid, w.addr);
      Nested(Foot(n), Foot(kid), Foot(w.node), Foot(m));
      AbsPut(kid, names[1..], m);
      PutFoot(kid, w.addr, m);
      AbsPutKid(n, s, Put(kid, w.addr, m));
    }
  }

  lemma AbsPutKid(n: Node, s: nat, m: Node)
    requires WF(n) && n.Dir? && s < |n.kids| && n.kids[s].Used? && WF(m)
    requires Foot(m) !! (Foot(n) - Foot(n.kids[s].node))
    ensures Abs(n.(kids := n.kids[s := n.kids[s].(node := m)])) == Branch(n.ino, Abs(n).kids[n.kids[s].name := Abs(m)])
  {
    hide Abs, Foot, WithKid;
    PutKid(n, s, m);
    AbsSetKid(n, s, Used(n.kids[s].name, m));
    assert n.kids[s].(node := m) == Used(n.kids[s].name, m);
    AbsKeys(n);
    ReplaceKid(Abs(n).kids, n.kids[s], m);
  }

  lemma ReplaceKid(kids: map<Name, Tree>, was: Slot, m: Node)
    requires was.Used?
    ensures WithKid(kids, was, Used(was.name, m)) == kids[was.name := Abs(m)]
  {
    hide Abs;
    assert (kids - {was.name})[was.name := Abs(m)] == kids[was.name := Abs(m)];
  }
}
