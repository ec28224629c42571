/**
  Whole runs of the file system: the invariant, the namespace and the free-block count after any
  sequence of calls.
  */
module FsRuns {
  import opened Layout
  import opened Paths
  import opened FsTree
  import opened FsSpec
  import opened FsStored
  import opened FsNamespace
  import opened FsRefine

  datatype Op =
    | OpCreate(names: seq<Name>)
    | OpMkdir(names: seq<Name>)
    | OpUnlink(names: seq<Name>)
    | OpRmdir(names: seq<Name>)
    | OpRename(src: seq<Name>, dst: seq<Name>)
    | OpChmod(names: seq<Name>, mode: nat)
    | OpUtime(names: seq<Name>, mtime: nat)
    | OpTruncate(names: seq<Name>, len: int)
    | OpWrite(names: seq<Name>, buf: seq<byte>, off: nat)

  // What the code demands of its callers.
  ghost predicate Allowed(root: Node, op: Op)
  {
    match op
    case OpRename(src, dst) => PathOk(src) && PathOk(dst) && (dst != [] ==> |Last(dst)| <= NAME_MAX)
    case OpUnlink(names) => PathOk(names) && names != []
    case OpUtime(names, mtime) => PathOk(names) && mtime < WORD
    case OpWrite(names, buf, off) => PathOk(names) && Room(root, names, off, |buf|)
    case _ => PathOk(op.names)
  }

  ghost function Step(root: Node, op: Op): (int, Node)
  {
    match op
    case OpCreate(names) => Create(root, names)
    case OpMkdir(names) => Mkdir(root, names)
    case OpUnlink(names) => Unlink(root, names)
    case OpRmdir(names) => Rmdir(root, names)
    case OpRename(src, dst) => Rename(root, src, dst)
    case OpChmod(names, _) => (ChmodCode(root, names), root)
    case OpUtime(names, _) => (UtimeCode(root, names), root)
    case OpTruncate(names, len) => Truncate(root, names, len)
    case OpWrite(names, buf, off) => Write(root, names, buf, off)
  }

  // The size of the file at a path; 0 when there is none.
  ghost function SizeAt(root: Node, names: seq<Name>): nat
  {
    var w := Locate(root, names);
    if w.At? && w.node.File? then |w.node.data| else 0
  }

  // How many blocks a call adds to those in use.
  ghost function Gain(root: Node, op: Op): int
  {
    if Step(root, op).0 < 0 then 0
    else
      match op
      case OpCreate(_) => 1
      case OpMkdir(_) => 2
      case OpUnlink(names) => -(1 + Ceil(SizeAt(root, names)))
      case OpRmdir(_) => -2
      case OpTruncate(names, _) => 0 - Ceil(SizeAt(root, names))
      case OpWrite(names, buf, off) => Ceil(Max(SizeAt(root, names), off + |buf|)) - Ceil(SizeAt(root, names))
      case _ => 0
  }

  function Max(a: nat, b: nat): nat { if a > b then a else b }

  ghost predicate RunAllowed(root: Node, ops: seq<Op>)
    decreases |ops|
  {
    ops == [] || (Allowed(root, ops[0]) && RunAllowed(Step(root, ops[0]).1, ops[1..]))
  }

  ghost function Run(root: Node, ops: seq<Op>): Node
    decreases |ops|
  {
    if ops == [] then root else Run(Step(root, ops[0]).1, ops[1..])
  }

  ghost function TotalGain(root: Node, ops: seq<Op>): int
    decreases |ops|
  {
    if ops == [] then 0 else Gain(root, ops[0]) + TotalGain(Step(root, ops[0]).1, ops[1..])
  }

  // ---------- Counting blocks ----------

  lemma CardShift(f: set<nat>, x: set<nat>, y: set<nat>)
    requires x <= f && y !! (f - x)
    ensures |f - x + y| == |f| - |x| + |y|
  {
  }

  lemma {:induction false} CardBlocks(s: seq<nat>)
    requires Distinct(s)
    ensures |Blocks(s)| == |s|
  {
    if s != [] {
      var last := s[|s| - 1];
      CardBlocks(s[..|s| - 1]);
      assert last !in Blocks(s[..|s| - 1]);
      assert s == s[..|s| - 1] + [last];
      assert Blocks(s) == Blocks(s[..|s| - 1]) + {last};
    }
  }

  lemma SameCode(root: Node, op: Op)
    requires Step(root, op).0 < 0
    ensures Step(root, op).1 == root
  {
  }

  // ---------- One step ----------

  // Every call keeps the tree good and changes the number of blocks in use by exactly its gain.
  lemma StepKeeps(root: Node, op: Op)
    requires Good(root) && Allowed(root, op)
    ensures Good(Step(root, op).1) && |Foot(Step(root, op).1)| == |Foot(root)| + Gain(root, op)
  {
    hide Good, Foot, WF, Abs, Locate, Place, Victim, Room, PathOk, AllocMany, Alloc;
    if Step(root, op).0 < 0 {
      SameCode(root, op);
    } else {
      match op
      case OpCreate(names) => CreateRefines(root, names);
      case OpMkdir(names) => MkdirCount(root, names);
      case OpUnlink(names) => UnlinkCount(root, names);
      case OpRmdir(names) => RmdirCount(root, names);
      case OpRename(src, dst) => RenameRefines(root, src, dst);
      case OpTruncate(names, len) => TruncateCount(root, names);
      case OpWrite(names, buf, off) => WriteCount(root, names, buf, off);
      case _ =>
    }
  }

  lemma MkdirCount(root: Node, names: seq<Name>)
    requires Good(root) && PathOk(names) && Mkdir(root, names).0 >= 0
    ensures Good(Mkdir(root, names).1) && |Foot(Mkdir(root, names).1)| == |Foot(root)| + 2
  {
    MkdirRefines(root, names);
    var bs := AllocMany(Claimed(root), 2).value;
    hide Good, Foot, Mkdir, AllocMany;
    assert |Foot(root) + {bs[0]}| == |Foot(root)| + 1;
    assert Foot(root) + {bs[0], bs[1]} == Foot(root) + {bs[0]} + {bs[1]};
  }

  lemma UnlinkCode(root: Node, names: seq<Name>)
    ensures Unlink(root, names).0 >= 0 ==> Unlink(root, names).0 == 0
  {
  }

  lemma UnlinkCount(root: Node, names: seq<Name>)
    requires Good(root) && PathOk(names) && Unlink(root, names).0 >= 0
    ensures Good(Unlink(root, names).1)
    ensures |Foot(Unlink(root, names).1)| == |Foot(root)| - (1 + Ceil(SizeAt(root, names)))
  {
    hide Foot, Unlink, Locate, WF, Rep, Abs, Remove;
    UnlinkCode(root, names);
    UnlinkRefines(root, names);
    var w := Locate(root, names);
    GetParts(ZeroDisk(), root, w.addr);
    FileCount(w.node);
    hide Good;
    CardShift(Foot(root), Foot(w.node), {});
    assert Foot(root) - Foot(w.node) + {} == Foot(root) - Foot(w.node);
  }

  lemma FileCount(f: Node)
    requires f.File? && WF(f)
    ensures |Foot(f)| == 1 + Ceil(|f.data|)
  {
    FileShape(f);
    CardBlocks(f.blks);
    hide Blocks;
    FileApart(f);
  }

  lemma FileApart(f: Node)
    requires f.File? && f.ino !in f.blks
    ensures |{f.ino} + Blocks(f.blks)| == 1 + |Blocks(f.blks)|
  {
  }

  lemma RmdirCode(root: Node, names: seq<Name>)
    ensures Rmdir(root, names).0 >= 0 ==> Rmdir(root, names).0 == 0
  {
  }

  lemma RmdirCount(root: Node, names: seq<Name>)
    requires Good(root) && PathOk(names) && Rmdir(root, names).0 >= 0
    ensures Good(Rmdir(root, names).1) && |Foot(Rmdir(root, names).1)| == |Foot(root)| - 2
  {
    hide Good, Foot, Rmdir, Locate, WF, PathOk;
    RmdirCode(root, names);
    RmdirRefines(root, names);
    var n := Locate(root, names).node;
    assert |{n.ino, n.blk}| == 2;
    CardShift(Foot(root), {n.ino, n.blk}, {});
    assert Foot(root) - {n.ino, n.blk} + {} == Foot(root) - {n.ino, n.blk};
  }

  lemma TruncateCount(root: Node, names: seq<Name>)
    requires Good(root) && PathOk(names) && Truncate(root, names, 0).0 >= 0
    ensures Good(Truncate(root, names, 0).1)
    ensures |Foot(Truncate(root, names, 0).1)| == |Foot(root)| - Ceil(SizeAt(root, names))
  {
    TruncateRefines(root, names);
    var f := Locate(root, names).node;
    CardBlocks(f.blks);
    hide Good, Foot, Truncate, Blocks;
    CardShift(Foot(root), Blocks(f.blks), {});
    assert Foot(root) - Blocks(f.blks) + {} == Foot(root) - Blocks(f.blks);
  }

  lemma WriteCount(root: Node, names: seq<Name>, buf: seq<byte>, off: nat)
    requires Good(root) && PathOk(names) && Room(root, names, off, |buf|) && Write(root, names, buf, off).0 >= 0
    ensures Good(Write(root, names, buf, off).1)
    ensures |Foot(Write(root, names, buf, off).1)| ==
              |Foot(root)| + Ceil(Max(SizeAt(root, names), off + |buf|)) - Ceil(SizeAt(root, names))
  {
    WriteRefines(root, names, buf, off);
    var f := Locate(root, names).node;
    var k := Missing(f.data, off, |buf|);
    var bs := AllocMany(Claimed(root), k).value;
    assert Blocks(bs) !! Foot(root);
    CardBlocks(bs);
    hide Good, Foot, Write, Blocks, AllocMany;
    CardShift(Foot(root), {}, Blocks(bs));
    assert Foot(root) - {} + Blocks(bs) == Foot(root) + Blocks(bs);
  }

  // ---------- Whole runs ----------

  // Conservation: after any run the blocks in use differ by the sum of the gains.
  lemma {:induction false} RunKeeps(root: Node, ops: seq<Op>)
    requires Good(root) && RunAllowed(root, ops)
    ensures Good(Run(root, ops)) && |Foot(Run(root, ops))| == |Foot(root)| + TotalGain(root, ops)
    decreases |ops|
  {
    if ops != [] {
      hide Good, Foot, Step, Gain, Allowed;
      StepKeeps(root, ops[0]);
      RunKeeps(Step(root, ops[0]).1, ops[1..]);
    }
  }

  // ---------- The block count is a function of what a user sees ----------

  ghost function Cost(t: Tree): nat
    decreases t, 1, 0
  {
    match t
    case Leaf(_, data) => 1 + Ceil(|data|)
    case Branch(_, kids) => 2 + CostOver(t, kids.Keys)
  }

  ghost function CostOver(t: Tree, names: set<Name>): nat
    requires t.Branch? && names <= t.kids.Keys
    decreases t, 0, |names|
  {
    if names == {} then 0
    else
      var x :| x in names;
      Cost(t.kids[x]) + CostOver(t, names - {x})
  }

  lemma {:induction false} CostOverPick(t: Tree, names: set<Name>, x: Name)
    requires t.Branch? && names <= t.kids.Keys && x in names
    ensures CostOver(t, names) == Cost(t.kids[x]) + CostOver(t, names - {x})
    decreases |names|
  {
    hide Cost;
    var y :| y in names && CostOver(t, names) == Cost(t.kids[y]) + CostOver(t, names - {y});
    if y != x {
      CostOverPick(t, names - {y}, x);
      CostOverPick(t, names - {x}, y);
      assert names - {y} - {x} == names - {x} - {y};
    }
  }

  // The number of blocks a subtree owns, from its abstraction alone.
  lemma {:induction false} FootCost(n: Node)
    requires WF(n)
    ensures |Foot(n)| == Cost(Abs(n))
    decreases n, 1
  {
    match n
    case File(ino, blks, data) =>
      CardBlocks(blks);
      FileApart(n);
    case Dir(ino, blk, kids) =>
      AbsKeys(n);
      KidsCost(n, |kids|);
      assert kids[..|kids|] == kids;
      DirFoot(n);
  }

  ghost function FootUpTo(kids: seq<Slot>, k: nat): set<nat>
    requires k <= |kids|
  {
    set i, b | 0 <= i < k && kids[i].Used? && b in Foot(kids[i].node) :: b
  }

  lemma DirFoot(n: Node)
    requires WF(n) && n.Dir?
    ensures |Foot(n)| == 2 + |FootUpTo(n.kids, |n.kids|)|
  {
    var f := FootUpTo(n.kids, |n.kids|);
    assert Foot(n) == {n.ino, n.blk} + f;
    assert n.ino !in f && n.blk !in f;
    assert |{n.ino, n.blk}| == 2;
  }

  lemma {:induction false} KidsCost(n: Node, k: nat)
    requires WF(n) && n.Dir? && k <= |n.kids|
    ensures Abs(n).Branch? && Names(n.kids[..k]) <= Abs(n).kids.Keys
    ensures |FootUpTo(n.kids, k)| == CostOver(Abs(n), Names(n.kids[..k]))
    decreases n, 0, k
  {
    hide Abs, Cost, CostOver, Foot, FootUpTo, Names;
    AbsKeys(n);
    NamesPrefix(n.kids, k);
    if k == 0 {
      NoKidsCost(n);
    } else {
      KidsCost(n, k - 1);
      NamesPrefix(n.kids, k - 1);
      if n.kids[k - 1].Used? {
        KidFoot(n, k - 1);
        FootCost(n.kids[k - 1].node);
        KidsOf(n, k - 1);
      }
      OneMoreKid(n, k);
    }
  }

  lemma NoKidsCost(n: Node)
    requires n.Dir? && Abs(n).Branch?
    ensures Names(n.kids[..0]) == {} && FootUpTo(n.kids, 0) == {} && CostOver(Abs(n), {}) == 0
  {
    hide Abs, Foot;
  }

  lemma NamesPrefix(kids: seq<Slot>, k: nat)
    requires k <= |kids|
    ensures Names(kids[..k]) <= Names(kids)
  {
    forall name | name in Names(kids[..k])
      ensures name in Names(kids)
    {
      var i :| 0 <= i < k && kids[..k][i].Used? && kids[..k][i].name == name;
      assert kids[i] == kids[..k][i];
    }
  }

  lemma OneMoreKid(n: Node, k: nat)
    requires WF(n) && n.Dir? && 0 < k <= |n.kids|
    requires Abs(n).Branch? && Names(n.kids[..k]) <= Abs(n).kids.Keys && Names(n.kids[..k - 1]) <= Abs(n).kids.Keys
    requires |FootUpTo(n.kids, k - 1)| == CostOver(Abs(n), Names(n.kids[..k - 1]))
    requires n.kids[k - 1].Used? ==>
               && n.kids[k - 1].name in Abs(n).kids
               && |Foot(n.kids[k - 1].node)| == Cost(Abs(n).kids[n.kids[k - 1].name])
    ensures |FootUpTo(n.kids, k)| == CostOver(Abs(n), Names(n.kids[..k]))
  {
    hide Abs, WF, Cost, Foot, FootUpTo, Names, CostOver;
    var s := n.kids[k - 1];
    FootSnoc(n, k);
    NamesSnoc(n, k);
    if s.Used? {
      CostOverPick(Abs(n), Names(n.kids[..k]), s.name);
    } else {
      assert Names(n.kids[..k]) - {} == Names(n.kids[..k]);
    }
  }

  lemma FootSnoc(n: Node, k: nat)
    requires WF(n) && n.Dir? && 0 < k <= |n.kids|
    ensures |FootUpTo(n.kids, k)| ==
              |FootUpTo(n.kids, k - 1)| + (if n.kids[k - 1].Used? then |Foot(n.kids[k - 1].node)| else 0)
  {
    hide Foot;
    var s, before := n.kids[k - 1], FootUpTo(n.kids, k - 1);
    assert FootUpTo(n.kids, k) == before + (if s.Used? then Foot(s.node) else {});
    if s.Used? {
      assert before !! Foot(s.node);
      CardUnion(before, Foot(s.node));
    }
  }

  lemma CardUnion(a: set<nat>, b: set<nat>)
    requires a !! b
    ensures |a + b| == |a| + |b|
  {
  }

  lemma NamesSnoc(n: Node, k: nat)
    requires WF(n) && n.Dir? && 0 < k <= |n.kids|
    ensures n.kids[k - 1].Used? ==> n.kids[k - 1].name in Names(n.kids[..k])
    ensures Names(n.kids[..k - 1]) == Names(n.kids[..k]) - (if n.kids[k - 1].Used? then {n.kids[k - 1].name} else {})
  {
    var a, b := n.kids[..k - 1], n.kids[..k];
    var s := n.kids[k - 1];
    assert b[k - 1] == s && forall i | 0 <= i < k - 1 :: b[i] == a[i] == n.kids[i];
    forall name
      ensures name in Names(a) <==> name in Names(b) - (if s.Used? then {s.name} else {})
    {
    }
  }

  // Any run that ends with the files it started from, under the same names and with the same sizes,
  // ends with the same number of blocks in use - whatever it created and removed in between.
  lemma RunRestores(root: Node, ops: seq<Op>)
    requires Good(root) && RunAllowed(root, ops) && Abs(Run(root, ops)) == Abs(root)
    ensures |Foot(Run(root, ops))| == |Foot(root)| && TotalGain(root, ops) == 0
  {
    RunKeeps(root, ops);
    FootCost(root);
    FootCost(Run(root, ops));
  }

  // ---------- What f_bfree means ----------

  // The value statfs computes before it wraps, for an image of the given size.
  ghost function FreeCount(root: Node, size: nat): int { size - 2 - |Foot(root)| }

  ghost function Range(lo: nat, hi: nat): (r: set<nat>)
    ensures forall b :: b in r <==> lo <= b < hi
  {
    if lo >= hi then {} else Range(lo, hi - 1) + {hi - 1}
  }

  lemma {:induction false} RangeCard(lo: nat, hi: nat)
    requires lo <= hi
    ensures |Range(lo, hi)| == hi - lo
    decreases hi - lo
  {
    if lo < hi {
      RangeCard(lo, hi - 1);
    }
  }

  // f_bfree is the number of free blocks of the image exactly when no block past its end is in use.
  lemma FreeCountExact(root: Node, size: nat)
    requires Good(root) && 2 <= size <= NUM_BLOCKS
    ensures FreeCount(root, size) == |Range(2, size) - Foot(root)| <==> forall b | b in Foot(root) :: b < size
  {
    var r, f := Range(2, size), Foot(root);
    RangeCard(2, size);
    FootInRange(root);
    hide Good, Foot, WF;
    assert |r| == |r - f| + |r * f| by { assert r == (r - f) + (r * f); }
    assert |f| == |f - r| + |r * f| by { assert f == (f - r) + (r * f); }
    if f - r == {} {
      forall b | b in f ensures b < size { assert b !in f - r; }
    } else {
      var b :| b in f - r;
    }
  }

  // alloc_blk does not know the image size: it stays inside the image exactly while a block from 3
  // on is free there.
  lemma AllocInside(root: Node, size: nat)
    requires Alloc(Claimed(root)).Some? && size <= NUM_BLOCKS
    ensures Alloc(Claimed(root)).value < size <==> exists b :: 3 <= b < size && b !in Claimed(root)
  {
  }

  // So a create on a full image takes a block past its end and drives the count below zero.
  lemma CreateWhenFull(root: Node, names: seq<Name>, size: nat)
    requires Good(root) && PathOk(names) && 3 <= size < NUM_BLOCKS
    requires Foot(root) == Range(2, size) && Create(root, names).0 == 0
    ensures Alloc(Claimed(root)).value == size
    ensures FreeCount(root, size) == 0 && FreeCount(Create(root, names).1, size) == -1
  {
    hide Good, Foot, Create, Range, Abs, Insert;
    CreateRefines(root, names);
    RangeCard(2, size);
    assert size !in Claimed(root) && forall b | 3 <= b < size :: b in Claimed(root);
  }

  // ---------- Every path after every call ----------

  // The paths whose meaning a successful call is meant to change.
  ghost predicate Touches(op: Op, q: seq<Name>)
  {
    match op
    case OpRename(src, dst) => src <= q || dst <= q
    case OpTruncate(names, _) => names == q
    case OpWrite(names, _, _) => names == q
    case OpChmod(_, _) => false
    case OpUtime(_, _) => false
    case _ => op.names <= q
  }

  ghost function View(root: Node, q: seq<Name>): Look { FsNamespace.Find(Abs(root), q) }

  // Any other path keeps its inode or its error, and a file there keeps its contents.
  lemma UntouchedPaths(root: Node, op: Op, q: seq<Name>)
    requires Good(root) && Allowed(root, op) && !Touches(op, q)
    ensures SameAnswer(View(Step(root, op).1, q), View(root, q))
  {
    hide Good, Abs, Insert, Remove, Move, Update;
    if Step(root, op).0 < 0 {
      SameCode(root, op);
    } else {
      match op
      case OpCreate(names) => InsertedElsewhere(root, op, q);
      case OpMkdir(names) => InsertedElsewhere(root, op, q);
      case OpUnlink(names) => RemovedElsewhere(root, op, q);
      case OpRmdir(names) => RemovedElsewhere(root, op, q);
      case OpRename(src, dst) =>
        RenameRefines(root, src, dst);
        MovePaths(Abs(root), src, dst, q);
      case OpTruncate(names, len) =>
        TruncateRefines(root, names);
        FileEditPaths(root, names, [], q);
      case OpWrite(names, buf, off) =>
        WriteRefines(root, names, buf, off);
        FileEditPaths(root, names, Overlay(Locate(root, names).node.data, buf, off), q);
      case _ =>
    }
  }

  lemma InsertedElsewhere(root: Node, op: Op, q: seq<Name>)
    requires Good(root) && Allowed(root, op) && (op.OpCreate? || op.OpMkdir?) && Step(root, op).0 >= 0
    requires !(op.names <= q)
    ensures SameAnswer(View(Step(root, op).1, q), View(root, q))
  {
    hide Good, Abs, Insert;
    var x := if op.OpCreate? then Leaf(Alloc(Claimed(root)).value, [])
             else Branch(AllocMany(Claimed(root), 2).value[0], map[]);
    if op.OpCreate? {
      CreateRefines(root, op.names);
    } else {
      MkdirRefines(root, op.names);
    }
    InsertPaths(Abs(root), op.names, x, q);
  }

  lemma RemovedElsewhere(root: Node, op: Op, q: seq<Name>)
    requires Good(root) && Allowed(root, op) && (op.OpUnlink? || op.OpRmdir?) && Step(root, op).0 >= 0
    requires !(op.names <= q)
    ensures SameAnswer(View(Step(root, op).1, q), View(root, q))
  {
    hide Good, Abs, Remove;
    if op.OpUnlink? {
      UnlinkRefines(root, op.names);
    } else {
      RmdirRefines(root, op.names);
    }
    RemovePaths(Abs(root), op.names, q);
  }

  // The view decides what path2inum returns.
  lemma ViewIsCode(root: Node, q: seq<Name>)
    requires Good(root)
    ensures Code(Locate(root, q)) ==
              if |q| > MAX_DEPTH then -ENOENT
              else match View(root, q) case Hit(t) => t.ino case Miss(e) => e
  {
    ResolveIsFind(root, q);
    if Resolve(root, q).At? && Resolve(root, q).node.Dir? {
      AbsKeys(Resolve(root, q).node);
    }
  }

  // path2inum gives the same answer on every untouched path.
  lemma UntouchedCodes(root: Node, op: Op, q: seq<Name>)
    requires Good(root) && Allowed(root, op) && !Touches(op, q)
    ensures Code(Locate(Step(root, op).1, q)) == Code(Locate(root, q))
  {
    StepKeeps(root, op);
    UntouchedPaths(root, op, q);
    ViewIsCode(root, q);
    ViewIsCode(Step(root, op).1, q);
  }

  // rename carries the whole subtree along: what was under src is under dst, and src is gone.
  lemma RenamedPaths(root: Node, src: seq<Name>, dst: seq<Name>, r: seq<Name>)
    requires Good(root) && Allowed(root, OpRename(src, dst)) && Rename(root, src, dst).0 == 0
    ensures View(Rename(root, src, dst).1, dst + r) == View(root, src + r)
    ensures View(Rename(root, src, dst).1, src + r) == Miss(-ENOENT)
    ensures Code(Locate(Rename(root, src, dst).1, dst + r)) == Code(Locate(root, src + r))
  {
    var root' := Rename(root, src, dst).1;
    RenameRefines(root, src, dst);
    ViewIsCode(root, src + r);
    ViewIsCode(root', dst + r);
    hide Good, Abs, Rename, Move;
    MovePaths(Abs(root), src, dst, dst + r);
    MovePaths(Abs(root), src, dst, src + r);
    assert (dst + r)[|dst|..] == r;
    assert (src + r)[..|src|] == src;
  }

  // What create, mkdir, unlink and rmdir did to their own path.
  lemma OwnPath(root: Node, op: Op)
    requires Good(root) && Allowed(root, op) && Step(root, op).0 == 0
    requires op.OpCreate? || op.OpMkdir? || op.OpUnlink? || op.OpRmdir?
    ensures op.OpCreate? ==> View(root, op.names).Miss? && View(Step(root, op).1, op.names).Hit? &&
                             View(Step(root, op).1, op.names).tree == Leaf(Alloc(Claimed(root)).value, [])
    ensures op.OpMkdir? ==> View(root, op.names).Miss? && View(Step(root, op).1, op.names).Hit? &&
                            View(Step(root, op).1, op.names).tree.Branch? &&
                            View(Step(root, op).1, op.names).tree.kids == map[]
    ensures op.OpUnlink? ==> View(root, op.names).Hit? && View(root, op.names).tree.Leaf?
    ensures op.OpRmdir? ==> View(root, op.names).Hit? && View(root, op.names).tree.Branch? &&
                            View(root, op.names).tree.kids == map[]
    ensures op.OpUnlink? || op.OpRmdir? ==> View(Step(root, op).1, op.names) == Miss(-ENOENT)
  {
    hide Good, Abs, Insert, Remove;
    match op
    case OpCreate(names) =>
      CreateRefines(root, names);
      InsertPaths(Abs(root), names, Leaf(Alloc(Claimed(root)).value, []), names);
    case OpMkdir(names) =>
      MkdirRefines(root, names);
      InsertPaths(Abs(root), names, Branch(AllocMany(Claimed(root), 2).value[0], map[]), names);
    case OpUnlink(names) =>
      UnlinkRefines(root, names);
      RemovePaths(Abs(root), names, names);
    case OpRmdir(names) =>
      RmdirRefines(root, names);
      RemovePaths(Abs(root), names, names);
  }
}
