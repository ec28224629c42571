/**
  A full image, reached by two calls on the fresh image of 400 blocks: one file is created and written
  until every block is in use. The next create still succeeds, with the block past the end.
  */
module FsFullImage {
  import opened Wrappers
  import opened Layout
  import opened Paths
  import opened FsTree
  import opened FsSpec
  import opened FsStored
  import opened FsRefine
  import opened FsRuns

  const SIZE := 400
  const DATA := 395

  function Zeros(n: nat): seq<byte> { seq(n, _ => 0) }

  function Filling(): seq<Op>
  {
    [OpCreate([[97]]), OpWrite([[97]], Zeros(DATA * BLOCK_SIZE), 0)]
  }

  function From4(k: nat): seq<nat> { seq(k, i => 4 + i) }

  lemma AllocAt(used: set<nat>, b: nat)
    requires 3 <= b < NUM_BLOCKS && b !in used && forall x | 3 <= x < b :: x in used
    ensures Alloc(used) == Some(b)
  {
  }

  lemma InUse(k: nat, x: nat)
    requires k <= DATA
    ensures x in {0, 1, 2, 3, 399} + Blocks(From4(k)) <==> x < 4 + k || x == 399
  {
    if 4 <= x < 4 + k {
      assert From4(k)[x - 4] == x;
    }
  }

  // First fit takes the blocks of the fresh image one by one.
  lemma {:induction false} AllocRange(k: nat)
    requires k <= DATA
    ensures AllocMany({0, 1, 2, 3, 399}, k) == Some(From4(k))
    decreases k
  {
    hide Alloc, Blocks;
    if k == 0 {
      assert From4(0) == [];
    } else {
      AllocRange(k - 1);
      var used := {0, 1, 2, 3, 399} + Blocks(From4(k - 1));
      forall x: nat ensures x in used <==> x < 3 + k || x == 399 {
        InUse(k - 1, x);
      }
      hide From4, AllocMany;
      AllocAt(used, 3 + k);
      OneMoreBlock({0, 1, 2, 3, 399}, k, 3 + k);
    }
  }

  lemma OneMoreBlock(used: set<nat>, k: nat, b: nat)
    requires 0 < k && AllocMany(used, k - 1) == Some(From4(k - 1)) && b == 3 + k
    requires Alloc(used + Blocks(From4(k - 1))) == Some(b)
    ensures AllocMany(used, k) == Some(From4(k))
  {
    hide Alloc, Blocks;
    assert From4(k) == From4(k - 1) + [b];
  }

  // After create: one empty file in slot 0, on block 3.
  function OneFile(data: seq<byte>, blks: seq<nat>): Node
  {
    Dir(2, 399, EmptyKids()[0 := Used([97], File(3, blks, data))])
  }

  lemma Created()
    ensures Good(FreshRoot()) && Create(FreshRoot(), [[97]]) == (0, OneFile([], []))
    ensures Good(OneFile([], [])) && Foot(OneFile([], [])) == {2, 3, 399}
  {
    var root := FreshRoot();
    assert Foot(root) == {2, 399} && Claimed(root) == {0, 1, 2, 399};
    AllocAt(Claimed(root), 3);
    NothingThere(EmptyKids(), [97]);
    assert Locate(root, [[97]]).Fail?;
    assert Place(root, [[97]]) == Ok([], root, 0);
    CreateRefines(root, [[97]]);
  }

  lemma NothingThere(kids: seq<Slot>, name: seq<byte>)
    requires forall i | 0 <= i < |kids| && kids[i].Used? :: kids[i].name != name
    ensures FsSpec.Find(kids, name, 0) == None
  {
  }

  lemma Written()
    ensures Room(OneFile([], []), [[97]], 0, DATA * BLOCK_SIZE)
    ensures Write(OneFile([], []), [[97]], Zeros(DATA * BLOCK_SIZE), 0)
      == (DATA * BLOCK_SIZE, OneFile(Zeros(DATA * BLOCK_SIZE), From4(DATA)))
    ensures Good(OneFile(Zeros(DATA * BLOCK_SIZE), From4(DATA)))
    ensures Foot(OneFile(Zeros(DATA * BLOCK_SIZE), From4(DATA))) == Range(2, SIZE)
  {
    hide Good, Range, Foot, OneFile, Locate, AllocMany, From4, Zeros, Blocks, Missing, Overlay;
    var root, buf := OneFile([], []), Zeros(DATA * BLOCK_SIZE);
    Created();
    FileAt([], []);
    assert Claimed(root) == {0, 1, 2, 3, 399};
    AllocRange(DATA);
    Amounts(buf);
    PutFile(buf, From4(DATA));
    assert [] + From4(DATA) == From4(DATA);
    WriteRefines(root, [[97]], buf, 0);
    Everything();
  }

  lemma Amounts(buf: seq<byte>)
    requires buf == Zeros(DATA * BLOCK_SIZE)
    ensures |buf| == DATA * BLOCK_SIZE <= MAX_FILE && Missing([], 0, |buf|) == DATA && Overlay([], buf, 0) == buf
    ensures PathOk([[97]])
  {
  }

  lemma Everything()
    ensures {2, 3, 399} + Blocks(From4(DATA)) == Range(2, SIZE)
  {
    forall b: nat ensures b in {2, 3, 399} + Blocks(From4(DATA)) <==> 2 <= b < SIZE {
      InUse(DATA, b);
    }
  }

  lemma FileAt(data: seq<byte>, blks: seq<nat>)
    ensures Locate(OneFile(data, blks), [[97]]) == At([0], File(3, blks, data))
  {
    assert [[97]][1..] == [] && [0] + [] == [0];
  }

  lemma PutFile(data: seq<byte>, blks: seq<nat>)
    ensures Put(OneFile([], []), [0], File(3, blks, data)) == OneFile(data, blks)
  {
    assert [0][1..] == [];
    assert EmptyKids()[0 := Used([97], File(3, [], []))][0 := Used([97], File(3, blks, data))]
      == EmptyKids()[0 := Used([97], File(3, blks, data))];
  }

  // The image is full, with f_bfree at 0, and one more create makes it -1.
  lemma FullImageOverflows()
    ensures RunAllowed(FreshRoot(), Filling())
    ensures var root := Run(FreshRoot(), Filling());
      && Good(root) && Foot(root) == Range(2, SIZE) && FreeCount(root, SIZE) == 0
      && Create(root, [[98]]).0 == 0 && Alloc(Claimed(root)) == Some(SIZE)
      && FreeCount(Create(root, [[98]]).1, SIZE) == -1
  {
    hide Good, Foot, Range, Create, Write;
    var buf := Zeros(DATA * BLOCK_SIZE);
    Created();
    Written();
    TwoCalls(buf);
    var root := OneFile(buf, From4(DATA));
    NextCreate(buf, From4(DATA));
    CreateWhenFull(root, [[98]], SIZE);
  }

  lemma TwoCalls(buf: seq<byte>)
    requires buf == Zeros(DATA * BLOCK_SIZE)
    requires Create(FreshRoot(), [[97]]) == (0, OneFile([], [])) && Room(OneFile([], []), [[97]], 0, |buf|)
    requires Write(OneFile([], []), [[97]], buf, 0) == (|buf|, OneFile(buf, From4(DATA)))
    ensures RunAllowed(FreshRoot(), Filling()) && Run(FreshRoot(), Filling()) == OneFile(buf, From4(DATA))
  {
    hide Create, Write, Room, OneFile;
    assert Filling()[1..] == [OpWrite([[97]], buf, 0)];
    assert Filling()[1..][1..] == [];
  }

  lemma NextCreate(data: seq<byte>, blks: seq<nat>)
    requires Foot(OneFile(data, blks)) == Range(2, SIZE)
    ensures Create(OneFile(data, blks), [[98]]).0 == 0 && Alloc(Claimed(OneFile(data, blks))) == Some(SIZE)
  {
    hide Foot, Alloc;
    var root := OneFile(data, blks);
    AllocAt(Claimed(root), SIZE);
    NothingThere(root.kids, [98]);
    assert root.kids[1].Free?;
    assert Locate(root, [[98]]).Fail?;
    assert Place(root, [[98]]).Ok?;
  }
}
