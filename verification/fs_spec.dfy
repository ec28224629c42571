/**
  What each fs5600 call returns and what it does to the ownership tree.
  These functions specify the imperative code in fs_ops.dfy; the theorems about whole runs are
  proved about them.
  */
module FsSpec {
  import opened Wrappers
  import opened Layout
  import opened Paths
  import opened FsTree

  const ENOENT := 2
  const EEXIST := 17
  const ENOTDIR := 20
  const EISDIR := 21
  const EINVAL := 22
  const ENOSPC := 28
  const ENOTEMPTY := 39
  const MAX_FILE := BLOCK_SIZE * NUM_PTRS

  // ---------- Directory search ----------

  // find_dirent: the first valid entry with this name.
  function Find(kids: seq<Slot>, name: Name, i: nat): (r: Option<nat>)
    ensures r.Some? ==> i <= r.value < |kids| && kids[r.value].Used? && kids[r.value].name == name
    ensures r.None? ==> forall j | i <= j < |kids| && kids[j].Used? :: kids[j].name != name
    decreases |kids| - i
  {
    if i >= |kids| then None
    else if kids[i].Used? && kids[i].name == name then Some(i)
    else Find(kids, name, i + 1)
  }

  // find_empty: the first slot that is not valid.
  function FirstFree(kids: seq<Slot>, i: nat): (r: Option<nat>)
    ensures r.Some? ==> i <= r.value < |kids| && kids[r.value].Free?
    ensures r.None? ==> forall j | i <= j < |kids| :: kids[j].Used?
    decreases |kids| - i
  {
    if i >= |kids| then None else if kids[i].Free? then Some(i) else FirstFree(kids, i + 1)
  }

  // ---------- Path resolution ----------

  datatype Walk = At(addr: seq<nat>, node: Node) | Fail(err: int)

  // path2inum's descent, component by component.
  function Resolve(n: Node, names: seq<Name>): (r: Walk)
    ensures r.Fail? ==> r.err < 0
    ensures r.At? ==> Get(n, r.addr) == Some(r.node) && |r.addr| == |names|
    decreases |names|
  {
    if names == [] then At([], n)
    else if |names[0]| > NAME_MAX then Fail(-ENOENT)
    else if n.File? then Fail(-ENOTDIR)
    else
      match Find(n.kids, names[0], 0)
      case None => Fail(-ENOENT)
      case Some(s) =>
        match Resolve(n.kids[s].node, names[1..])
        case At(a, m) => At([s] + a, m)
        case Fail(e) => Fail(e)
  }

  // With the ten-component limit.
  function Locate(root: Node, names: seq<Name>): (r: Walk)
    ensures r.Fail? ==> r.err < 0
    ensures r.At? ==> Get(root, r.addr) == Some(r.node)
  {
    if |names| > MAX_DEPTH then Fail(-ENOENT) else Resolve(root, names)
  }

  // An inode number or a negative error.
  function Code(w: Walk): int { if w.At? then w.node.ino else w.err }

  function Last(names: seq<Name>): Name
    requires names != []
  {
    names[|names| - 1]
  }

  function Init(names: seq<Name>): seq<Name>
    requires names != []
  {
    names[..|names| - 1]
  }

  // ---------- The allocator ----------

  // alloc_blk: the lowest clear bit from i on.
  function Lowest(used: set<nat>, i: nat): (r: Option<nat>)
    ensures r.Some? ==> i <= r.value < NUM_BLOCKS && r.value !in used
    ensures r.Some? ==> forall b | i <= b < r.value :: b in used
    ensures r.None? ==> forall b | i <= b < NUM_BLOCKS :: b in used
    decreases NUM_BLOCKS - i
  {
    if i >= NUM_BLOCKS then None else if i !in used then Some(i) else Lowest(used, i + 1)
  }

  function Alloc(used: set<nat>): Option<nat> { Lowest(used, 3) }

  // k allocations in a row.
  function AllocMany(used: set<nat>, k: nat): (r: Option<seq<nat>>)
    ensures r.Some? ==> |r.value| == k
    ensures r.Some? ==> forall i | 0 <= i < k :: r.value[i] !in used && 3 <= r.value[i] < NUM_BLOCKS
    ensures r.Some? ==> forall i, j | 0 <= i < j < k :: r.value[i] != r.value[j]
  {
    if k == 0 then Some([])
    else
      match AllocMany(used, k - 1)
      case None => None
      case Some(bs) =>
        match Alloc(used + Blocks(bs))
        case None => None
        case Some(b) => Some(bs + [b])
  }

  // ---------- The calls ----------

  // What create and mkdir check before they allocate.
  datatype Target = Bad(err: int) | Ok(addr: seq<nat>, dir: Node, slot: nat)

  function Place(root: Node, names: seq<Name>): (r: Target)
    ensures r.Ok? ==> names != [] && |Last(names)| <= NAME_MAX && Locate(root, Init(names)) == At(r.addr, r.dir)
    ensures r.Ok? ==> r.dir.Dir? && FirstFree(r.dir.kids, 0) == Some(r.slot)
    ensures r.Bad? ==> r.err < 0
  {
    if Locate(root, names).At? then Bad(-EEXIST)
    else if names == [] then Bad(-ENOENT)
    else if |Last(names)| > NAME_MAX then Bad(-EINVAL)
    else
      match Locate(root, Init(names))
      case Fail(_) => Bad(-ENOENT)
      case At(a, n) =>
        if n.File? then Bad(-ENOTDIR)
        else
          match FirstFree(n.kids, 0)
          case None => Bad(-ENOSPC)
          case Some(s) => Ok(a, n, s)
  }

  // What unlink and rmdir look up before they inspect the victim.
  function Victim(root: Node, names: seq<Name>): (r: Target)
    ensures r.Ok? ==> names != [] && Locate(root, Init(names)) == At(r.addr, r.dir)
    ensures r.Ok? ==> r.dir.Dir? && Find(r.dir.kids, Last(names), 0) == Some(r.slot)
    ensures r.Bad? ==> r.err < 0
  {
    if names == [] then Bad(-ENOENT)
    else
      match Locate(root, Init(names))
      case Fail(_) => Bad(-ENOENT)
      case At(a, n) =>
        if n.File? then Bad(-ENOTDIR)
        else
          match Find(n.kids, Last(names), 0)
          case None => Bad(-ENOENT)
          case Some(s) => Ok(a, n, s)
  }

  function WithSlot(root: Node, t: Target, k: Slot): Node
    requires t.Ok? && t.dir.Dir? && t.slot < |t.dir.kids| && Get(root, t.addr) == Some(t.dir)
  {
    Put(root, t.addr, t.dir.(kids := t.dir.kids[t.slot := k]))
  }

  function EmptyKids(): seq<Slot> { seq(NUM_DIRENT, _ => Free) }

  ghost function Create(root: Node, names: seq<Name>): (r: (int, Node))
  {
    match Place(root, names)
    case Bad(e) => (e, root)
    case Ok(_, _, _) =>
      match Alloc(Claimed(root))
      case None => (-ENOSPC, root)
      case Some(b) => (0, WithSlot(root, Place(root, names), Used(Last(names), File(b, [], []))))
  }

  ghost function Mkdir(root: Node, names: seq<Name>): (r: (int, Node))
  {
    match Place(root, names)
    case Bad(e) => (e, root)
    case Ok(_, _, _) =>
      match AllocMany(Claimed(root), 2)
      case None => (-ENOSPC, root)
      case Some(bs) =>
        (0, WithSlot(root, Place(root, names), Used(Last(names), Dir(bs[0], bs[1], EmptyKids()))))
  }

  ghost function Unlink(root: Node, names: seq<Name>): (r: (int, Node))
  {
    match Victim(root, names)
    case Bad(e) => (e, root)
    case Ok(_, dir, s) =>
      if dir.kids[s].node.Dir? then (-EISDIR, root) else (0, WithSlot(root, Victim(root, names), Free))
  }

  ghost function Rmdir(root: Node, names: seq<Name>): (r: (int, Node))
  {
    match Victim(root, names)
    case Bad(e) => (e, root)
    case Ok(_, dir, s) =>
      if dir.kids[s].node.File? then (-ENOTDIR, root)
      else if exists i | 0 <= i < |dir.kids[s].node.kids| :: dir.kids[s].node.kids[i].Used? then (-ENOTEMPTY, root)
      else (0, WithSlot(root, Victim(root, names), Free))
  }

  ghost function Rename(root: Node, src: seq<Name>, dst: seq<Name>): (r: (int, Node))
  {
    if Locate(root, src).Fail? then (-ENOENT, root)
    else if Locate(root, dst).At? then (-EEXIST, root)
    else if |src| != |dst| || src == [] || Init(src) != Init(dst) then (-EINVAL, root)
    else
      var t := Victim(root, src);
      if t.Bad? then (t.err, root)
      else (0, WithSlot(root, t, t.dir.kids[t.slot].(name := Last(dst))))
  }

  // The blocks a write at this range has to add.
  function Missing(data: seq<byte>, off: nat, len: nat): nat
  {
    if off + len > |data| then Ceil(off + len) - Ceil(|data|) else 0
  }

  function Overlay(data: seq<byte>, buf: seq<byte>, off: nat): seq<byte>
    requires off <= |data|
  {
    data[..off] + buf + (if off + |buf| < |data| then data[off + |buf|..] else [])
  }

  ghost function Write(root: Node, names: seq<Name>, buf: seq<byte>, off: nat): (r: (int, Node))
  {
    match Locate(root, names)
    case Fail(e) => (e, root)
    case At(a, n) =>
      if n.Dir? then (-EISDIR, root)
      else if off > |n.data| then (-EINVAL, root)
      else if off + |buf| > MAX_FILE then (-ENOSPC, root)
      else
        match AllocMany(Claimed(root), Missing(n.data, off, |buf|))
        case None => (-ENOSPC, root)
        case Some(bs) => (|buf|, Put(root, a, File(n.ino, n.blks + bs, Overlay(n.data, buf, off))))
  }

  ghost function Truncate(root: Node, names: seq<Name>, len: int): (r: (int, Node))
  {
    if len != 0 then (-EINVAL, root)
    else
      match Locate(root, names)
      case Fail(e) => (e, root)
      case At(a, n) => if n.Dir? then (-EISDIR, root) else (0, Put(root, a, File(n.ino, [], [])))
  }

  ghost function ChmodCode(root: Node, names: seq<Name>): int
  {
    if Locate(root, names).At? then 0 else -ENOENT
  }

  ghost function UtimeCode(root: Node, names: seq<Name>): int
  {
    match Locate(root, names)
    case Fail(e) => e
    case At(_, n) => if n.Dir? then -EISDIR else 0
  }

  // The bytes in [off, off + len) that lie inside the file.
  function Window(data: seq<byte>, len: nat, off: nat): (r: seq<byte>)
    ensures |r| == if off >= |data| then 0 else if off + len > |data| then |data| - off else len
  {
    if off >= |data| then [] else if off + len > |data| then data[off..] else data[off..off + len]
  }

  // fs_read: a negative error, or the number of bytes delivered and the bytes.
  ghost function Read(root: Node, names: seq<Name>, len: nat, off: nat): (r: (int, seq<byte>))
  {
    match Locate(root, names)
    case Fail(e) => (e, [])
    case At(_, n) => if n.Dir? then (-EISDIR, []) else (|Window(n.data, len, off)|, Window(n.data, len, off))
  }

  // The valid entries of a directory, in slot order.
  function Listing(kids: seq<Slot>): seq<(Name, nat)>
  {
    if kids == [] then []
    else
      var last := kids[|kids| - 1];
      Listing(kids[..|kids| - 1]) + if last.Used? then [(last.name, last.node.ino)] else []
  }

  ghost function ReadDir(root: Node, names: seq<Name>): (r: (int, seq<(Name, nat)>))
  {
    match Locate(root, names)
    case Fail(e) => (e, [])
    case At(_, n) => if n.File? then (-ENOTDIR, []) else (0, Listing(n.kids))
  }
}
