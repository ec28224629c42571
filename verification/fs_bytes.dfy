/**
  How the edits that fs5600.c makes to directory blocks, file blocks and the bitmap look from the
  ownership tree.
  */
module FsBytes {
  import opened Wrappers
  import opened Layout
  import opened Paths
  import opened FsTree
  import opened FsSpec

  // ---------- Directory blocks ----------

  lemma DirBlockSet(b: Block, kids: seq<Slot>, s: nat, name: Name, node: Node)
    requires DirBlock(b, kids) && s < NUM_DIRENT && NameOk(name) && node.ino < NUM_BLOCKS
    ensures DirBlock(SetDirent(b, s, node.ino, name), kids[s := Used(name, node)])
  {
    var c := SetDName(b, s, name);
    SetDNameFrame(b, s, name);
    SetDWordFrame(c, s, node.ino * 2 + 1);
    var e := SetDirent(b, s, node.ino, name);
    assert DWord(e, s) == node.ino * 2 + 1 && DName(e, s) == name;
    forall j | 0 <= j < NUM_DIRENT && j != s
      ensures DValid(e, j) == DValid(b, j) && DIno(e, j) == DIno(b, j) && DName(e, j) == DName(b, j)
    {
      assert SameDirent(e, c, j) && SameDirent(c, b, j);
    }
  }

  lemma DirBlockClear(b: Block, kids: seq<Slot>, s: nat)
    requires DirBlock(b, kids) && s < NUM_DIRENT
    ensures DirBlock(ClearDirent(b, s), kids[s := Free])
  {
    Get32Bound(b, 32 * s);
    SetDWordFrame(b, s, DIno(b, s) * 2);
    forall j | 0 <= j < NUM_DIRENT && j != s
      ensures DValid(ClearDirent(b, s), j) == DValid(b, j) && DIno(ClearDirent(b, s), j) == DIno(b, j)
      ensures DName(ClearDirent(b, s), j) == DName(b, j)
    {
      assert SameDirent(ClearDirent(b, s), b, j);
    }
  }

  lemma DirBlockRename(b: Block, kids: seq<Slot>, s: nat, name: Name)
    requires DirBlock(b, kids) && s < NUM_DIRENT && kids[s].Used? && NameOk(name)
    ensures DirBlock(SetDName(b, s, name), kids[s := kids[s].(name := name)])
  {
    SetDNameFrame(b, s, name);
    forall j | 0 <= j < NUM_DIRENT && j != s
      ensures DValid(SetDName(b, s, name), j) == DValid(b, j) && DIno(SetDName(b, s, name), j) == DIno(b, j)
      ensures DName(SetDName(b, s, name), j) == DName(b, j)
    {
      assert SameDirent(SetDName(b, s, name), b, j);
    }
  }

  // A zeroed block is a directory with no entries.
  lemma DirBlockZero()
    ensures DirBlock(ZeroBlock(), EmptyKids())
  {
    forall s | 0 <= s < NUM_DIRENT
      ensures !DValid(ZeroBlock(), s)
    {
      var w := ZeroBlock()[32 * s..32 * s + 4];
      assert w == [0, 0, 0, 0];
      assert FromLE([0, 0]) == 0;
      assert w[1..][1..] == [0, 0];
    }
  }

  // ---------- File blocks ----------

  // Copying a chunk into block k of a file overlays the chunk on the file's bytes.
  lemma OverlayBlock(d: Disk, blks: seq<nat>, cur: seq<byte>, k: nat, o: nat, chunk: seq<byte>)
    requires FileBytes(d, blks, cur) && Distinct(blks) && k < |blks|
    requires o + |chunk| <= BLOCK_SIZE && k * BLOCK_SIZE + o <= |cur|
    ensures FileBytes(d[blks[k] := Splice(d[blks[k]], o, chunk)], blks, Overlay(cur, chunk, k * BLOCK_SIZE + o))
  {
    var b := Splice(d[blks[k]], o, chunk);
    var e := d[blks[k] := b];
    var p := k * BLOCK_SIZE + o;
    var next := Overlay(cur, chunk, p);
    forall j | 0 <= j < |next|
      ensures next[j] == e[blks[j / BLOCK_SIZE]][j % BLOCK_SIZE]
    {
      if j / BLOCK_SIZE == k {
        assert j % BLOCK_SIZE == j - k * BLOCK_SIZE;
      } else {
        assert blks[j / BLOCK_SIZE] != blks[k];
        assert j < p || j >= p + |chunk|;
      }
    }
  }

  // The bytes of the file after the first w bytes of a write.
  function Stored(data: seq<byte>, buf: seq<byte>, off: nat, w: nat): seq<byte>
    requires off <= |data| && w <= |buf|
  {
    Overlay(data, buf[..w], off)
  }

  lemma StoredSteps(data: seq<byte>, buf: seq<byte>, off: nat, w: nat, v: nat)
    requires off <= |data| && w <= v <= |buf|
    ensures off + w <= |Stored(data, buf, off, w)|
    ensures Overlay(Stored(data, buf, off, w), buf[w..v], off + w) == Stored(data, buf, off, v)
  {
    assert buf[..v] == buf[..w] + buf[w..v];
  }

  lemma StoredEnds(data: seq<byte>, buf: seq<byte>, off: nat)
    requires off <= |data|
    ensures Stored(data, buf, off, 0) == data && Stored(data, buf, off, |buf|) == Overlay(data, buf, off)
  {
    assert buf[..|buf|] == buf;
  }

  // A file may own one block more, and any block it does not own may change.
  lemma FileBytesGrow(d: Disk, e: Disk, blks: seq<nat>, more: seq<nat>, cur: seq<byte>)
    requires FileBytes(d, blks, cur)
    requires forall i | 0 <= i < |blks| :: d[blks[i]] == e[blks[i]]
    requires forall i | 0 <= i < |more| :: more[i] < NUM_BLOCKS
    ensures FileBytes(e, blks + more, cur)
  {
    forall j | 0 <= j < |cur|
      ensures cur[j] == e[(blks + more)[j / BLOCK_SIZE]][j % BLOCK_SIZE]
    {
      assert (blks + more)[j / BLOCK_SIZE] == blks[j / BLOCK_SIZE];
    }
  }

  // The bytes a block contributes to a read.
  lemma ReadChunk(d: Disk, blks: seq<nat>, data: seq<byte>, k: nat, o: nat, n: nat)
    requires FileBytes(d, blks, data) && o + n <= BLOCK_SIZE && k < |blks|
    requires k * BLOCK_SIZE + o + n <= |data|
    ensures d[blks[k]][o..o + n] == data[k * BLOCK_SIZE + o..k * BLOCK_SIZE + o + n]
  {
    var p := k * BLOCK_SIZE + o;
    var got, want := d[blks[k]][o..o + n], data[p..p + n];
    forall i | 0 <= i < n
      ensures got[i] == want[i]
    {
      assert (p + i) / BLOCK_SIZE == k && (p + i) % BLOCK_SIZE == o + i;
    }
  }

  // ---------- The bitmap ----------

  lemma BitmapPut(map1: Block, used: set<nat>, b: nat, v: bool)
    requires BitmapIs(map1, used) && b < NUM_BLOCKS
    ensures BitmapIs(BitPut(map1, b, v), if v then used + {b} else used - {b})
  {
    BitPutBits(map1, b, v);
  }

  // Setting the bit of a free block and clearing it again restores the disk byte for byte.
  lemma AllocThenFree(d: Disk, used: set<nat>, b: nat)
    requires BitmapIs(d[1], used) && b < NUM_BLOCKS && b !in used
    ensures d[1 := BitPut(d[1], b, true)][1 := BitPut(BitPut(d[1], b, true), b, false)] == d
  {
    BitPutRestore(d[1], b);
  }

  lemma {:induction false} AllocPrefix(used: set<nat>, j: nat, k: nat)
    requires j <= k && AllocMany(used, k).Some?
    ensures AllocMany(used, j) == Some(AllocMany(used, k).value[..j])
  {
    if j < k {
      AllocPrefix(used, j, k - 1);
      assert AllocMany(used, k).value[..j] == AllocMany(used, k - 1).value[..j];
    } else {
      assert AllocMany(used, k).value[..k] == AllocMany(used, k).value;
    }
  }
}
