/**
  The byte layout of an fs5600 block: little-endian words, inode and directory-entry fields at
  their offsets in the C structures, and single bits of the free-block map.
  Every accessor works on the raw 4096 bytes, so one block can be read in any of its roles.
  */
module Layout {
  const BLOCK_SIZE := 4096
  const NUM_PTRS := 1019
  const NUM_DIRENT := 128
  const NAME_MAX := 27
  // One bitmap block has this many bits; the allocator scans all of them.
  const NUM_BLOCKS := 32768
  const WORD := 0x1_0000_0000
  const WORD64 := 0x1_0000_0000_0000_0000

  // Unsigned wrap-around of the C types.
  function U32(x: int): nat { x % WORD }
  function U64(x: int): nat { x % WORD64 }

  type byte = x: int | 0 <= x < 256
  type Block = b: seq<byte> | |b| == BLOCK_SIZE witness seq(BLOCK_SIZE, _ => 0)
  type Disk = d: seq<Block> | |d| == NUM_BLOCKS witness ZeroDisk()
  // A block of zeroes.
  function ZeroBlock(): Block { seq(BLOCK_SIZE, _ => 0) }

  function ZeroDisk(): (d: seq<Block>)
    ensures |d| == NUM_BLOCKS
  {
    seq<Block>(NUM_BLOCKS, _ => ZeroBlock())
  }

  // ---------- Bytes in place ----------

  // The bytes s over those at off.
  function Splice(b: Block, off: nat, s: seq<byte>): (r: Block)
    requires off + |s| <= BLOCK_SIZE
  {
    b[..off] + s + b[off + |s|..]
  }

  lemma SpliceSlices(b: Block, off: nat, s: seq<byte>)
    requires off + |s| <= BLOCK_SIZE
    ensures Splice(b, off, s)[off..off + |s|] == s
    ensures forall p, q | 0 <= p <= q <= off :: Splice(b, off, s)[p..q] == b[p..q]
    ensures forall p, q | off + |s| <= p <= q <= BLOCK_SIZE :: Splice(b, off, s)[p..q] == b[p..q]
  {
  }

  // ---------- Little-endian words ----------

  function FromLE(s: seq<byte>): (v: nat)
  {
    if s == [] then 0 else s[0] + 256 * FromLE(s[1..])
  }

  function ToLE(v: nat, width: nat): (s: seq<byte>)
    ensures |s| == width
  {
    if width == 0 then [] else [v % 256] + ToLE(v / 256, width - 1)
  }

  function Pow256(n: nat): (p: nat)
    ensures p > 0
  {
    if n == 0 then 1 else 256 * Pow256(n - 1)
  }

  lemma {:induction false} FromToLE(v: nat, width: nat)
    requires v < Pow256(width)
    ensures FromLE(ToLE(v, width)) == v
  {
    if width > 0 {
      FromToLE(v / 256, width - 1);
      assert ToLE(v, width)[1..] == ToLE(v / 256, width - 1);
    }
  }

  lemma {:induction false} FromLEBound(s: seq<byte>)
    ensures FromLE(s) < Pow256(|s|)
  {
    if s != [] {
      FromLEBound(s[1..]);
    }
  }

  lemma Pow256Four()
    ensures Pow256(4) == WORD
  {
    assert Pow256(2) == 65536;
    assert Pow256(3) == 16777216;
  }

  function Get32(b: Block, off: nat): (v: nat)
    requires off + 4 <= BLOCK_SIZE
  {
    FromLE(b[off..off + 4])
  }

  function Put32(b: Block, off: nat, v: nat): (r: Block)
    requires off + 4 <= BLOCK_SIZE
  {
    Splice(b, off, ToLE(v, 4))
  }

  lemma GetPut32(b: Block, off: nat, v: nat)
    requires off + 4 <= BLOCK_SIZE && v < WORD
    ensures Get32(Put32(b, off, v), off) == v
    ensures forall o | 0 <= o && (o + 4 <= off || off + 4 <= o <= BLOCK_SIZE - 4) ::
              Get32(Put32(b, off, v), o) == Get32(b, o)
  {
    SpliceSlices(b, off, ToLE(v, 4));
    Pow256Four();
    FromToLE(v, 4);
  }

  lemma Get32Bound(b: Block, off: nat)
    requires off + 4 <= BLOCK_SIZE
    ensures Get32(b, off) < WORD
  {
    FromLEBound(b[off..off + 4]);
    Pow256Four();
  }

  // ---------- Inodes: uid16 gid16 mode ctime mtime size ptrs[1019] ----------

  function Mode(b: Block): nat { Get32(b, 4) }

  // S_ISDIR: the type nibble above the twelve permission bits is 4.
  predicate IsDir(b: Block) { Mode(b) / 4096 % 16 == 4 }

  // The size field is a signed 32-bit integer.
  function Size(b: Block): int
  {
    var v := Get32(b, 16);
    if v < WORD / 2 then v else v - WORD
  }

  function Ptr(b: Block, i: nat): nat
    requires i < NUM_PTRS
  {
    Get32(b, 20 + 4 * i)
  }

  function SetMode(b: Block, m: nat): Block { Put32(b, 4, m) }
  function SetCtime(b: Block, t: nat): Block { Put32(b, 8, t) }
  function SetMtime(b: Block, t: nat): Block { Put32(b, 12, t) }
  function SetSize(b: Block, n: nat): Block { Put32(b, 16, n) }
  function SetOwner(b: Block, uid: nat, gid: nat): Block { Splice(b, 0, ToLE(uid, 2) + ToLE(gid, 2)) }

  function SetPtr(b: Block, i: nat, p: nat): Block
    requires i < NUM_PTRS
  {
    Put32(b, 20 + 4 * i, p)
  }

  // Two inode blocks that agree on everything but owner and times.
  ghost predicate SameInode(a: Block, b: Block)
  {
    Mode(a) == Mode(b) && Size(a) == Size(b) && forall i | 0 <= i < NUM_PTRS :: Ptr(a, i) == Ptr(b, i)
  }

  function Ctime(b: Block): nat { Get32(b, 8) }
  function Mtime(b: Block): nat { Get32(b, 12) }

  // An inode with the given owner, permissions, type and size, created and modified at the given time.
  predicate Stamped(b: Block, s: Stamp, typeBits: nat, size: nat)
  {
    && Mode(b) == typeBits + s.perm % 4096 && Size(b) == size && Ctime(b) == Mtime(b) == s.now
    && b[..4] == ToLE(s.uid, 2) + ToLE(s.gid, 2)
  }

  lemma SetMtimeFrame(b: Block, t: nat)
    requires t < WORD
    ensures SameInode(SetMtime(b, t), b)
  {
    GetPut32(b, 12, t);
  }

  lemma SetSizeFrame(b: Block, n: nat)
    requires n < WORD / 2
    ensures Mode(SetSize(b, n)) == Mode(b) && Size(SetSize(b, n)) == n
    ensures forall i | 0 <= i < NUM_PTRS :: Ptr(SetSize(b, n), i) == Ptr(b, i)
  {
    GetPut32(b, 16, n);
  }

  lemma SetPtrFrame(b: Block, k: nat, p: nat)
    requires k < NUM_PTRS && p < WORD
    ensures Mode(SetPtr(b, k, p)) == Mode(b) && Size(SetPtr(b, k, p)) == Size(b)
    ensures Ptr(SetPtr(b, k, p), k) == p
    ensures forall i | 0 <= i < NUM_PTRS && i != k :: Ptr(SetPtr(b, k, p), i) == Ptr(b, i)
  {
    GetPut32(b, 20 + 4 * k, p);
  }

  lemma SetPtrHeader(b: Block, i: nat, p: nat)
    requires i < NUM_PTRS
    ensures SetPtr(b, i, p)[..20] == b[..20]
  {
    SpliceSlices(b, 20 + 4 * i, ToLE(p, 4));
  }

  // What a write leaves in the header: size and mtime are new, the owner, mode and ctime are not.
  lemma SealedHeader(b: Block, size: nat, now: nat)
    requires now < WORD
    ensures SetMtime(SetSize(b, size), now)[..12] == b[..12] && Mtime(SetMtime(SetSize(b, size), now)) == now
  {
    SpliceSlices(b, 16, ToLE(size, 4));
    var c := SetSize(b, size);
    SpliceSlices(c, 12, ToLE(now, 4));
    GetPut32(c, 12, now);
  }

  // chmod keeps the bits above the twelve permission bits and replaces those twelve.
  function Chmod(b: Block, perm: nat): Block { SetMode(b, Mode(b) / 4096 * 4096 + perm % 4096) }

  lemma ChmodFrame(b: Block, perm: nat)
    ensures IsDir(Chmod(b, perm)) == IsDir(b) && Size(Chmod(b, perm)) == Size(b)
    ensures Mode(Chmod(b, perm)) % 4096 == perm % 4096 && Mode(Chmod(b, perm)) / 4096 == Mode(b) / 4096
    ensures Chmod(b, perm)[..4] == b[..4] && Chmod(b, perm)[8..] == b[8..]
    ensures forall i | 0 <= i < NUM_PTRS :: Ptr(Chmod(b, perm), i) == Ptr(b, i)
  {
    Get32Bound(b, 4);
    GetPut32(b, 4, Mode(b) / 4096 * 4096 + perm % 4096);
  }

  datatype Stamp = Stamp(uid: nat, gid: nat, perm: nat, now: nat)

  predicate StampOk(s: Stamp) { s.now < WORD }

  // An inode built field by field over whatever bytes were on the stack; typeBits is 1<<15 for a
  // regular file and 1<<14 for a directory.
  function NewInode(junk: Block, s: Stamp, typeBits: nat, size: nat): Block
  {
    SetMtime(SetCtime(SetSize(SetMode(SetOwner(junk, s.uid, s.gid), typeBits + s.perm % 4096), size), s.now), s.now)
  }

  lemma NewInodeFields(junk: Block, s: Stamp, typeBits: nat, size: nat)
    requires StampOk(s) && typeBits % 4096 == 0 && typeBits < 65536 && size < WORD / 2
    ensures Mode(NewInode(junk, s, typeBits, size)) == typeBits + s.perm % 4096
    ensures IsDir(NewInode(junk, s, typeBits, size)) == (typeBits / 4096 == 4)
    ensures Size(NewInode(junk, s, typeBits, size)) == size
  {
    var a := SetOwner(junk, s.uid, s.gid);
    var m := typeBits + s.perm % 4096;
    GetPut32(a, 4, m);
    GetPut32(SetMode(a, m), 16, size);
    GetPut32(SetSize(SetMode(a, m), size), 8, s.now);
    GetPut32(SetCtime(SetSize(SetMode(a, m), size), s.now), 12, s.now);
  }

  lemma NewInodeStamped(junk: Block, s: Stamp, typeBits: nat, size: nat)
    requires StampOk(s) && typeBits % 4096 == 0 && typeBits < 65536 && size < WORD / 2
    ensures Stamped(NewInode(junk, s, typeBits, size), s, typeBits, size)
  {
    NewInodeFields(junk, s, typeBits, size);
    var a := SetOwner(junk, s.uid, s.gid);
    var m := typeBits + s.perm % 4096;
    var b := SetMode(a, m);
    var c := SetSize(b, size);
    var d := SetCtime(c, s.now);
    hide Get32, Put32;
    GetPut32(c, 8, s.now);
    GetPut32(d, 12, s.now);
    OwnerKept(a, 4, m);
    OwnerKept(b, 16, size);
    OwnerKept(c, 8, s.now);
    OwnerKept(d, 12, s.now);
    SpliceSlices(junk, 0, ToLE(s.uid, 2) + ToLE(s.gid, 2));
  }

  lemma NewDirStamped(junk: Block, s: Stamp, blk: nat)
    requires StampOk(s) && blk < WORD
    ensures Stamped(SetPtr(NewInode(junk, s, 16384, BLOCK_SIZE), 0, blk), s, 16384, BLOCK_SIZE)
  {
    NewInodeStamped(junk, s, 16384, BLOCK_SIZE);
    var b := NewInode(junk, s, 16384, BLOCK_SIZE);
    hide NewInode, Get32, Put32;
    GetPut32(b, 20, blk);
    OwnerKept(b, 20, blk);
  }

  lemma OwnerKept(b: Block, off: nat, v: nat)
    requires 4 <= off && off + 4 <= BLOCK_SIZE
    ensures Put32(b, off, v)[..4] == b[..4]
  {
    SpliceSlices(b, off, ToLE(v, 4));
  }

  // ---------- Directory entries: valid:1, inode:31, name[28] ----------

  function DWord(b: Block, i: nat): nat
    requires i < NUM_DIRENT
  {
    Get32(b, 32 * i)
  }

  predicate DValid(b: Block, i: nat)
    requires i < NUM_DIRENT
  {
    DWord(b, i) % 2 == 1
  }

  function DIno(b: Block, i: nat): nat
    requires i < NUM_DIRENT
  {
    DWord(b, i) / 2
  }

  // The characters of a C string stored in a fixed-size field.
  function CString(s: seq<byte>): (r: seq<byte>)
  {
    if s == [] || s[0] == 0 then [] else [s[0]] + CString(s[1..])
  }

  function DName(b: Block, i: nat): seq<byte>
    requires i < NUM_DIRENT
  {
    CString(b[32 * i + 4..32 * i + 32])
  }

  lemma {:induction false} CStringCopy(name: seq<byte>, rest: seq<byte>)
    requires 0 !in name
    ensures CString(name + [0] + rest) == name
  {
    var s := name + [0] + rest;
    if name != [] {
      assert s[1..] == name[1..] + [0] + rest;
      CStringCopy(name[1..], rest);
    } else {
      assert s[0] == 0;
    }
  }

  function SetDWord(b: Block, i: nat, w: nat): Block
    requires i < NUM_DIRENT
  {
    Put32(b, 32 * i, w)
  }

  // The name and its terminating zero; what the field held beyond stays.
  function SetDName(b: Block, i: nat, name: seq<byte>): Block
    requires i < NUM_DIRENT && |name| <= NAME_MAX
  {
    Splice(b, 32 * i + 4, name + [0])
  }

  // The entry is marked free; its inode number and name stay behind.
  function ClearDirent(b: Block, i: nat): Block
    requires i < NUM_DIRENT
  {
    SetDWord(b, i, DIno(b, i) * 2)
  }

  function SetDirent(b: Block, i: nat, ino: nat, name: seq<byte>): Block
    requires i < NUM_DIRENT && |name| <= NAME_MAX
  {
    SetDWord(SetDName(b, i, name), i, ino * 2 + 1)
  }

  ghost predicate SameDirent(a: Block, b: Block, i: nat)
    requires i < NUM_DIRENT
  {
    DWord(a, i) == DWord(b, i) && DName(a, i) == DName(b, i)
  }

  lemma SetDWordFrame(b: Block, i: nat, w: nat)
    requires i < NUM_DIRENT && w < WORD
    ensures DWord(SetDWord(b, i, w), i) == w && DName(SetDWord(b, i, w), i) == DName(b, i)
    ensures forall j | 0 <= j < NUM_DIRENT && j != i :: SameDirent(SetDWord(b, i, w), b, j)
  {
    GetPut32(b, 32 * i, w);
    SpliceSlices(b, 32 * i, ToLE(w, 4));
  }

  lemma SetDNameFrame(b: Block, i: nat, name: seq<byte>)
    requires i < NUM_DIRENT && |name| <= NAME_MAX && 0 !in name
    ensures DName(SetDName(b, i, name), i) == name && DWord(SetDName(b, i, name), i) == DWord(b, i)
    ensures forall j | 0 <= j < NUM_DIRENT && j != i :: SameDirent(SetDName(b, i, name), b, j)
  {
    var c := SetDName(b, i, name);
    SpliceSlices(b, 32 * i + 4, name + [0]);
    var rest := b[32 * i + 5 + |name|..32 * i + 32];
    assert c[32 * i + 4..32 * i + 32] == name + [0] + rest;
    CStringCopy(name, rest);
  }

  // ---------- The free-block bitmap ----------

  function Pow2(n: nat): nat { if n == 0 then 1 else 2 * Pow2(n - 1) }

  // (x >> k) & 1
  predicate BitOf(x: nat, k: nat)
  {
    if k == 0 then x % 2 == 1 else BitOf(x / 2, k - 1)
  }

  // x | (1 << k) when v, and x & ~(1 << k) otherwise
  function WithBit(x: nat, k: nat, v: bool): nat
  {
    if k == 0 then x / 2 * 2 + (if v then 1 else 0) else x % 2 + 2 * WithBit(x / 2, k - 1, v)
  }

  lemma {:induction false} WithBitBound(x: nat, k: nat, v: bool, n: nat)
    requires k < n && x < Pow2(n)
    ensures WithBit(x, k, v) < Pow2(n)
  {
    if k > 0 {
      WithBitBound(x / 2, k - 1, v, n - 1);
    }
  }

  lemma {:induction false} WithBitBits(x: nat, k: nat, v: bool, j: nat)
    ensures BitOf(WithBit(x, k, v), j) == if j == k then v else BitOf(x, j)
  {
    if k > 0 && j > 0 {
      WithBitBits(x / 2, k - 1, v, j - 1);
      assert WithBit(x, k, v) / 2 == WithBit(x / 2, k - 1, v);
    }
  }

  lemma {:induction false} WithBitRestore(x: nat, k: nat)
    requires !BitOf(x, k)
    ensures WithBit(WithBit(x, k, true), k, false) == x
  {
    if k > 0 {
      WithBitRestore(x / 2, k - 1);
      assert WithBit(x, k, true) / 2 == WithBit(x / 2, k - 1, true);
    }
  }

  predicate BitTest(m: Block, i: nat)
    requires i < NUM_BLOCKS
  {
    BitOf(m[i / 8], i % 8)
  }

  function BitPut(m: Block, i: nat, v: bool): Block
    requires i < NUM_BLOCKS
  {
    assert Pow2(8) == 256 by { assert Pow2(4) == 16; }
    WithBitBound(m[i / 8], i % 8, v, 8);
    m[i / 8 := WithBit(m[i / 8], i % 8, v)]
  }

  lemma BitPutBits(m: Block, i: nat, v: bool)
    requires i < NUM_BLOCKS
    ensures forall j | 0 <= j < NUM_BLOCKS :: BitTest(BitPut(m, i, v), j) == if j == i then v else BitTest(m, j)
  {
    forall j | 0 <= j < NUM_BLOCKS
      ensures BitTest(BitPut(m, i, v), j) == if j == i then v else BitTest(m, j)
    {
      WithBitBits(m[i / 8], i % 8, v, j % 8);
    }
  }

  // Clearing a bit that was just set gives back the very same block.
  lemma BitPutRestore(m: Block, i: nat)
    requires i < NUM_BLOCKS && !BitTest(m, i)
    ensures BitPut(BitPut(m, i, true), i, false) == m
  {
    WithBitRestore(m[i / 8], i % 8);
  }
}
