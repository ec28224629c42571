/**
  The key-value store as a value: 200 chains and a key counter, the four operations as written in
  kvstore.c, and the bounded map they are meant to implement.
  */
module KvTable {
  import opened Wrappers

  const HB_MAX_SIZE := 200
  const TABLE_MAX := 200
  const U32 := 0x1_0000_0000

  // A character of a C string: any byte but NUL.
  type CChar = x: int | 1 <= x < 256 witness 1

  type Key = seq<CChar>
  type Val = seq<CChar>
  datatype Entry = Entry(key: Key, val: Val)
  datatype Table = Table(buckets: seq<seq<Entry>>, size: int)

  // ---------- hash33 ----------

  // A plain char is signed.
  function Signed(b: CChar): int { if b < 128 then b else b - 256 }

  // hash += (hash << 5) + c in unsigned 32-bit arithmetic, over the rest of the key.
  function HashFrom(h: nat, k: Key): (r: nat)
    requires h < U32
    ensures r < U32
    decreases |k|
  {
    if k == [] then h else HashFrom(Mix(h, k[0]), k[1..])
  }

  // hash * 33 + c, the intent of the shift and add
  function Mix(h: nat, c: CChar): (r: nat)
    ensures r < U32
  {
    (33 * h + Signed(c)) % U32
  }

  lemma ShiftAndAdd(h: nat, c: CChar)
    ensures (h + (h * 32 % U32 + Signed(c)) % U32) % U32 == Mix(h, c)
  {
    var x := h * 32 % U32 + Signed(c);
    Wrap(h * 32, Signed(c));
    Wrap(x, h);
    Wrap(h * 32 + Signed(c), h);
  }

  lemma Wrap(x: int, y: int)
    ensures (x % U32 + y) % U32 == (x + y) % U32
  {
  }

  function Bucket(k: Key): (b: nat)
    ensures b < HB_MAX_SIZE
  {
    HashFrom(5381, k) % (U32 / 2) % HB_MAX_SIZE
  }

  method Hash33(k: Key) returns (index: nat)
    ensures index == Bucket(k)
  {
    var hash, i := 5381, 0;
    while i < |k|
      invariant 0 <= i <= |k| && 0 <= hash < U32
      invariant HashFrom(5381, k) == HashFrom(hash, k[i..])
    {
      assert k[i..][1..] == k[i + 1..];
      ShiftAndAdd(hash, k[i]);
      hash := (hash + (hash * 32 % U32 + Signed(k[i])) % U32) % U32;
      i := i + 1;
    }
    index := hash % (U32 / 2) % HB_MAX_SIZE;
  }

  // The hash of a key, from its last character back: 33 times the hash before it plus the character as a
  // signed char, in 32 bits; the bucket is its low 31 bits modulo 200.
  lemma {:induction false} HashExact(h: nat, k: Key, c: CChar)
    requires h < U32
    ensures HashFrom(h, []) == h
    ensures HashFrom(h, k + [c]) == (33 * HashFrom(h, k) + (if c < 128 then c else c - 256)) % 0x1_0000_0000
    ensures Bucket(k) == HashFrom(5381, k) % 0x8000_0000 % 200
    decreases |k|
  {
    if k == [] {
      assert k + [c] == [c] && [c][1..] == [];
      assert HashFrom(h, [c]) == HashFrom(Mix(h, c), []);
    } else {
      assert (k + [c])[1..] == k[1..] + [c];
      HashExact(Mix(h, k[0]), k[1..], c);
      hide Mix;
    }
  }

  // ---------- Chains ----------

  // Position of a key in a chain, or its length.
  function Index(c: seq<Entry>, k: Key): (i: nat)
    ensures i <= |c| && (i < |c| ==> c[i].key == k)
    ensures forall j | 0 <= j < i :: c[j].key != k
  {
    if c == [] || c[0].key == k then 0 else 1 + Index(c[1..], k)
  }

  lemma IndexUnique(c: seq<Entry>, k: Key, i: nat)
    requires i <= |c| && (i < |c| ==> c[i].key == k) && forall j | 0 <= j < i :: c[j].key != k
    ensures Index(c, k) == i
  {
  }

  ghost predicate Distinct(c: seq<Entry>)
  {
    forall i, j | 0 <= i < j < |c| :: c[i].key != c[j].key
  }

  // Every entry sits in the bucket of its key and no key occurs twice.
  ghost predicate WF(t: Table)
  {
    && |t.buckets| == HB_MAX_SIZE
    && (forall b | 0 <= b < HB_MAX_SIZE :: Distinct(t.buckets[b]))
    && (forall b, i | 0 <= b < HB_MAX_SIZE && 0 <= i < |t.buckets[b]| :: Bucket(t.buckets[b][i].key) == b)
  }

  function Lengths(bs: seq<seq<Entry>>): nat
  {
    if bs == [] then 0 else Lengths(bs[..|bs| - 1]) + |bs[|bs| - 1]|
  }

  // The counter never falls below the number of entries and never exceeds the limit.
  ghost predicate Bounded(t: Table) { Lengths(t.buckets) <= t.size <= TABLE_MAX }

  // The counter is the number of entries.
  ghost predicate Exact(t: Table) { t.size == Lengths(t.buckets) }

  // ---------- The operations as written ----------

  function Init(): Table { Table(seq(HB_MAX_SIZE, _ => []), 0) }

  function Lookup(c: seq<Entry>, k: Key): Option<Val>
  {
    if Index(c, k) < |c| then Some(c[Index(c, k)].val) else None
  }

  function Read(t: Table, k: Key): Option<Val>
    requires |t.buckets| == HB_MAX_SIZE
  {
    Lookup(t.buckets[Bucket(k)], k)
  }

  function Write(t: Table, k: Key, v: Val): (r: (int, Table))
    requires |t.buckets| == HB_MAX_SIZE
    ensures |r.1.buckets| == HB_MAX_SIZE
  {
    var b := Bucket(k);
    var c := t.buckets[b];
    if Index(c, k) < |c| then (0, t.(buckets := t.buckets[b := c[Index(c, k) := Entry(k, v)]]))
    else if t.size == TABLE_MAX then (1, t)
    else (0, Table(t.buckets[b := [Entry(k, v)] + c], t.size + 1))
  }

  // kv_delete: a match at the head of its chain clears the whole bucket.
  function Delete(t: Table, k: Key): (r: Table)
    requires |t.buckets| == HB_MAX_SIZE
    ensures |r.buckets| == HB_MAX_SIZE
  {
    var b := Bucket(k);
    var c := t.buckets[b];
    var i := Index(c, k);
    if i == |c| then t
    else Table(t.buckets[b := if i == 0 then [] else c[..i] + c[i + 1..]], t.size - 1)
  }

  // kv_dump: every entry, bucket by bucket.
  function Flat(bs: seq<seq<Entry>>): seq<Entry>
  {
    if bs == [] then [] else bs[0] + Flat(bs[1..])
  }

  lemma {:induction false} FlatSnoc(bs: seq<seq<Entry>>, c: seq<Entry>)
    ensures Flat(bs + [c]) == Flat(bs) + c
  {
    if bs == [] {
      assert bs + [c] == [c];
      assert Flat([]) == [] && [c][1..] == [];
    } else {
      assert (bs + [c])[1..] == bs[1..] + [c];
      FlatSnoc(bs[1..], c);
    }
  }

  // The guard of the branch that drops more than the key: it heads a chain that goes on.
  predicate HeadWithSuccessor(t: Table, k: Key)
    requires |t.buckets| == HB_MAX_SIZE
  {
    |t.buckets[Bucket(k)]| > 1 && t.buckets[Bucket(k)][0].key == k
  }

  // ---------- The map ----------

  ghost function KeysUpTo(bs: seq<seq<Entry>>, n: nat): set<Key>
    requires n <= |bs|
  {
    set b, i | 0 <= b < n && 0 <= i < |bs[b]| :: bs[b][i].key
  }

  ghost function Abs(t: Table): map<Key, Val>
    requires WF(t)
  {
    map k | k in KeysUpTo(t.buckets, |t.buckets|) :: InKeys(t, k)
  }

  ghost function InKeys(t: Table, k: Key): (v: Val)
    requires WF(t) && k in KeysUpTo(t.buckets, |t.buckets|)
    ensures Read(t, k) == Some(v)
  {
    Read(t, k).value
  }

  // A read is a map lookup.
  lemma ReadIsLookup(t: Table, k: Key)
    requires WF(t)
    ensures Read(t, k) == if k in Abs(t) then Some(Abs(t)[k]) else None
  {
    var c := t.buckets[Bucket(k)];
    if Index(c, k) < |c| {
      assert t.buckets[Bucket(k)][Index(c, k)].key == k;
      assert k in KeysUpTo(t.buckets, |t.buckets|);
    }
  }

  // Two tables that answer every read alike stand for the same map.
  lemma SameReads(t: Table, m: map<Key, Val>)
    requires WF(t)
    requires forall k :: Read(t, k) == if k in m then Some(m[k]) else None
    ensures Abs(t) == m
  {
    forall k: Key
      ensures k in Abs(t) <==> k in m
      ensures k in m ==> Abs(t)[k] == m[k]
    {
      ReadIsLookup(t, k);
    }
  }

  lemma InitEmpty()
    ensures WF(Init()) && Exact(Init()) && Bounded(Init()) && Abs(Init()) == map[]
  {
    EmptyLengths(Init().buckets);
  }

  lemma {:induction false} EmptyLengths(bs: seq<seq<Entry>>)
    requires forall b | 0 <= b < |bs| :: bs[b] == []
    ensures Lengths(bs) == 0
  {
    if bs != [] {
      EmptyLengths(bs[..|bs| - 1]);
    }
  }

  lemma {:induction false} LengthsUpdate(bs: seq<seq<Entry>>, b: nat, c: seq<Entry>)
    requires b < |bs|
    ensures Lengths(bs[b := c]) == Lengths(bs) - |bs[b]| + |c|
  {
    var n := |bs| - 1;
    if b == n {
      assert bs[b := c][..n] == bs[..n];
    } else {
      LengthsUpdate(bs[..n], b, c);
      assert bs[b := c][..n] == bs[..n][b := c];
    }
  }

  // ---------- write ----------

  // write overwrites or inserts, and fails exactly for a new key when the counter is at the limit.
  lemma WriteRefines(t: Table, k: Key, v: Val)
    requires WF(t)
    ensures WF(Write(t, k, v).1)
    ensures Write(t, k, v).0 == if k !in Abs(t) && t.size == TABLE_MAX then 1 else 0
    ensures Abs(Write(t, k, v).1) == if Write(t, k, v).0 == 0 then Abs(t)[k := v] else Abs(t)
    ensures Bounded(t) ==> Bounded(Write(t, k, v).1)
    ensures Exact(t) ==> Exact(Write(t, k, v).1)
  {
    ReadIsLookup(t, k);
    var t' := Write(t, k, v).1;
    if Write(t, k, v).0 == 0 {
      LengthsUpdate(t.buckets, Bucket(k), t'.buckets[Bucket(k)]);
      WriteKeeps(t, k, v);
      forall q: Key
        ensures Read(t', q) == if q in Abs(t)[k := v] then Some(Abs(t)[k := v][q]) else None
      {
        ReadIsLookup(t, q);
        ReadAfterWrite(t, k, v, q);
      }
      SameReads(t', Abs(t)[k := v]);
    }
  }

  lemma WriteKeeps(t: Table, k: Key, v: Val)
    requires WF(t)
    ensures WF(Write(t, k, v).1)
  {
    var c := t.buckets[Bucket(k)];
    if Index(c, k) == |c| {
      assert Distinct([Entry(k, v)] + c);
    } else {
      assert Distinct(c[Index(c, k) := Entry(k, v)]);
    }
  }

  lemma ReadAfterWrite(t: Table, k: Key, v: Val, q: Key)
    requires WF(t) && Write(t, k, v).0 == 0
    ensures Read(Write(t, k, v).1, q) == if q == k then Some(v) else Read(t, q)
  {
    var c := t.buckets[Bucket(k)];
    if Bucket(q) == Bucket(k) {
      if Index(c, k) == |c| {
        assert ([Entry(k, v)] + c)[1..] == c;
      } else {
        IndexUpdate(c, Index(c, k), Entry(k, v), q);
      }
    }
  }

  // Overwriting the value of an entry moves no key.
  lemma {:induction false} IndexUpdate(c: seq<Entry>, i: nat, e: Entry, q: Key)
    requires i < |c| && e.key == c[i].key
    ensures Index(c[i := e], q) == Index(c, q)
  {
    if i > 0 && c[0].key != q {
      assert c[i := e][1..] == c[1..][i - 1 := e];
      IndexUpdate(c[1..], i - 1, e, q);
    } else if i == 0 {
      assert c[i := e][1..] == c[1..];
    }
  }

  // ---------- delete ----------

  // What the written code removes: the key alone, or the whole chain that it heads.
  ghost function Dropped(t: Table, k: Key): set<Key>
    requires |t.buckets| == HB_MAX_SIZE
  {
    var c := t.buckets[Bucket(k)];
    if HeadWithSuccessor(t, k) then set i | 0 <= i < |c| :: c[i].key else {k}
  }

  lemma DeleteRefines(t: Table, k: Key)
    requires WF(t)
    ensures WF(Delete(t, k)) && Abs(Delete(t, k)) == Abs(t) - Dropped(t, k)
    ensures Bounded(t) ==> Bounded(Delete(t, k))
  {
    DeleteKeeps(t, k);
    LengthsUpdate(t.buckets, Bucket(k), Delete(t, k).buckets[Bucket(k)]);
    forall q: Key
      ensures Read(Delete(t, k), q) == if q in Abs(t) - Dropped(t, k) then Some((Abs(t) - Dropped(t, k))[q]) else None
    {
      ReadIsLookup(t, q);
      ReadAfterDelete(t, k, q);
    }
    SameReads(Delete(t, k), Abs(t) - Dropped(t, k));
  }

  lemma DeleteKeeps(t: Table, k: Key)
    requires WF(t)
    ensures WF(Delete(t, k))
  {
    var c := t.buckets[Bucket(k)];
    var i := Index(c, k);
    if 0 < i < |c| {
      assert Distinct(c[..i] + c[i + 1..]);
    }
  }

  lemma ReadAfterDelete(t: Table, k: Key, q: Key)
    requires WF(t)
    ensures Read(Delete(t, k), q) == if q in Dropped(t, k) then None else Read(t, q)
  {
    var c := t.buckets[Bucket(k)];
    var i := Index(c, k);
    if Bucket(q) == Bucket(k) && i < |c| {
      if i > 0 {
        IndexCut(c, i, q);
      } else if q != k && !HeadWithSuccessor(t, k) {
        assert c == [c[0]];
        assert c[1..] == [];
      } else if HeadWithSuccessor(t, k) && q !in Dropped(t, k) {
        assert Index(c, q) == |c|;
      }
    }
  }

  lemma {:induction false} IndexCut(c: seq<Entry>, i: nat, q: Key)
    requires i < |c| && Distinct(c)
    ensures Lookup(c[..i] + c[i + 1..], q) == if q == c[i].key then None else Lookup(c, q)
  {
    hide Lookup;
    var head, rest := c[0], c[1..];
    var cut := c[..i] + c[i + 1..];
    LookupCons(head, rest, q);
    assert c == [head] + rest;
    if i == 0 {
      assert cut == rest;
      NotThere(rest, head.key);
    } else {
      var cutRest := rest[..i - 1] + rest[i..];
      assert cut == [head] + cutRest;
      LookupCons(head, cutRest, q);
      assert rest[i - 1] == c[i];
      IndexCut(rest, i - 1, q);
    }
  }

  lemma LookupCons(e: Entry, c: seq<Entry>, q: Key)
    ensures Lookup([e] + c, q) == if e.key == q then Some(e.val) else Lookup(c, q)
  {
    assert ([e] + c)[1..] == c;
  }

  lemma NotThere(c: seq<Entry>, q: Key)
    requires forall i | 0 <= i < |c| :: c[i].key != q
    ensures Lookup(c, q) == None
  {
  }

  // The documented delete holds exactly when the key does not head a longer chain.
  lemma DeleteAsDocumented(t: Table, k: Key)
    requires WF(t)
    ensures WF(Delete(t, k))
    ensures Abs(Delete(t, k)) == Abs(t) - {k} <==>
              !(|t.buckets[Bucket(k)]| > 1 && t.buckets[Bucket(k)][0].key == k)
  {
    DeleteRefines(t, k);
    if HeadWithSuccessor(t, k) {
      var lost := t.buckets[Bucket(k)][1].key;
      assert lost in KeysUpTo(t.buckets, |t.buckets|);
      assert lost in Abs(t) - {k} && lost in Dropped(t, k);
    }
  }

  // Which keys a delete loses besides its own: those of the same bucket, when its key comes first there.
  lemma DeleteDrops(t: Table, k: Key, q: Key)
    requires WF(t) && q in Abs(t)
    ensures WF(Delete(t, k))
    ensures q in Abs(Delete(t, k)) <==>
              q != k && !(Bucket(q) == Bucket(k) && t.buckets[Bucket(k)][0].key == k)
  {
    DeleteRefines(t, k);
    ReadIsLookup(t, q);
    var c := t.buckets[Bucket(q)];
    assert c[Index(c, q)].key == q;
  }

  // How far the counter is above the number of entries.
  function Gap(t: Table): int { t.size - Lengths(t.buckets) }

  lemma WriteKeepsGap(t: Table, k: Key, v: Val)
    requires WF(t)
    ensures Gap(Write(t, k, v).1) == Gap(t)
  {
    LengthsUpdate(t.buckets, Bucket(k), Write(t, k, v).1.buckets[Bucket(k)]);
    assert t.buckets[Bucket(k) := t.buckets[Bucket(k)]] == t.buckets;
  }

  // A delete at the head of a longer chain takes one off the counter for all the entries it drops.
  lemma DeleteGap(t: Table, k: Key)
    requires WF(t)
    ensures Gap(Delete(t, k)) == Gap(t) + if HeadWithSuccessor(t, k) then |t.buckets[Bucket(k)]| - 1 else 0
  {
    LengthsUpdate(t.buckets, Bucket(k), Delete(t, k).buckets[Bucket(k)]);
  }

  // And the counter stays exact under the same condition.
  lemma DeleteKeepsCount(t: Table, k: Key)
    requires WF(t) && Exact(t)
    ensures Exact(Delete(t, k)) <==> !(|t.buckets[Bucket(k)]| > 1 && t.buckets[Bucket(k)][0].key == k)
  {
    DeleteGap(t, k);
  }

  // "aZ" and "b9" share a bucket.
  function TwoInABucket(): Table { Write(Write(Init(), [97, 90], [1]).1, [98, 57], [2]).1 }

  lemma TwoKeys()
    ensures var t := TwoInABucket();
      && WF(t) && Bounded(t) && Exact(t) && t.size == 2 && Abs(t) == map[[97, 90] := [1], [98, 57] := [2]]
      && t.buckets[Bucket([97, 90])] == t.buckets[Bucket([98, 57])] == [Entry([98, 57], [2]), Entry([97, 90], [1])]
  {
    var a: Key, b: Key := [97, 90], [98, 57];
    SharedBucket();
    InitEmpty();
    var t1 := Write(Init(), a, [1]).1;
    WriteRefines(Init(), a, [1]);
    WriteRefines(t1, b, [2]);
    assert t1.buckets[Bucket(a)] == [Entry(a, [1])];
  }

  // A run in which the written delete loses a key.
  lemma DeleteLosesAKey()
    ensures var t := TwoInABucket();
      && Read(t, [97, 90]) == Some([1])
      && Read(Delete(t, [98, 57]), [97, 90]) == None
      && !Exact(Delete(t, [98, 57]))
  {
    var a: Key, b: Key := [97, 90], [98, 57];
    var t := TwoInABucket();
    TwoKeys();
    ReadIsLookup(t, a);
    DeleteKeepsCount(t, b);
    ReadAfterDelete(t, b, a);
    assert t.buckets[Bucket(b)][1].key in Dropped(t, b);
  }

  lemma SharedBucket()
    ensures Bucket([97, 90]) == Bucket([98, 57])
  {
    var a: Key, b: Key := [97, 90], [98, 57];
    assert a[1..] == [90] && b[1..] == [57] && a[1..][1..] == [] && b[1..][1..] == [];
    assert HashFrom(5381, a) == HashFrom(177670, [90]) == HashFrom(5863200, []);
    assert HashFrom(5381, b) == HashFrom(177671, [57]) == HashFrom(5863200, []);
  }

  // ---------- The counter and the map ----------

  lemma {:induction false} KeyCount(t: Table, n: nat)
    requires WF(t) && n <= |t.buckets|
    ensures |KeysUpTo(t.buckets, n)| == Lengths(t.buckets[..n])
  {
    if n == 0 {
      assert KeysUpTo(t.buckets, 0) == {};
    } else {
      hide WF, KeysUpTo, ChainKeys;
      KeyCount(t, n - 1);
      assert t.buckets[..n][..n - 1] == t.buckets[..n - 1];
      KeyStep(t, n);
      ChainCount(t.buckets[n - 1], |t.buckets[n - 1]|);
    }
  }

  lemma KeyStep(t: Table, n: nat)
    requires WF(t) && 0 < n <= |t.buckets|
    ensures var own := ChainKeys(t.buckets[n - 1], |t.buckets[n - 1]|);
      KeysUpTo(t.buckets, n) == KeysUpTo(t.buckets, n - 1) + own && KeysUpTo(t.buckets, n - 1) !! own
  {
  }

  ghost function ChainKeys(c: seq<Entry>, n: nat): set<Key>
    requires n <= |c|
  {
    set i | 0 <= i < n :: c[i].key
  }

  lemma {:induction false} ChainCount(c: seq<Entry>, n: nat)
    requires Distinct(c) && n <= |c|
    ensures |ChainKeys(c, n)| == n
  {
    if n > 0 {
      ChainCount(c, n - 1);
      OneMoreKey(c, n);
    } else {
      assert ChainKeys(c, 0) == {};
    }
  }

  lemma OneMoreKey(c: seq<Entry>, n: nat)
    requires Distinct(c) && 0 < n <= |c|
    ensures |ChainKeys(c, n)| == |ChainKeys(c, n - 1)| + 1
  {
    var before, k := ChainKeys(c, n - 1), c[n - 1].key;
    assert k !in before;
    assert ChainKeys(c, n) == before + {k};
  }

  // The map has as many keys as the chains have entries, so an exact counter is the number of keys
  // and at most TABLE_MAX of them are ever stored.
  lemma SizeIsKeyCount(t: Table)
    requires WF(t) && Bounded(t)
    ensures |Abs(t)| == Lengths(t.buckets) <= TABLE_MAX
    ensures Exact(t) <==> t.size == |Abs(t)|
  {
    KeyCount(t, |t.buckets|);
    assert t.buckets[..|t.buckets|] == t.buckets;
    assert Abs(t).Keys == KeysUpTo(t.buckets, |t.buckets|);
  }

  // n further keys written one after the other; each key differs from all the others.
  function NewKey(i: nat): Key
    requires i < 400
  {
    [1 + i % 20, 1 + i / 20]
  }

  function Filled(t: Table, n: nat): (r: Table)
    requires |t.buckets| == HB_MAX_SIZE && n <= 400
    ensures |r.buckets| == HB_MAX_SIZE
  {
    if n == 0 then t else Write(Filled(t, n - 1), NewKey(n - 1), [1]).1
  }

  lemma NewKeysDiffer(i: nat, j: nat)
    requires i < 400 && j < 400 && i != j
    ensures NewKey(i) != NewKey(j)
  {
    assert i == 20 * (i / 20) + i % 20 && j == 20 * (j / 20) + j % 20;
    if i % 20 != j % 20 {
      assert NewKey(i)[0] != NewKey(j)[0];
    } else {
      assert NewKey(i)[1] != NewKey(j)[1];
    }
  }

  // From an empty map with a counter of 1, n writes leave n keys and a counter of n + 1.
  lemma {:induction false} FilledCounts(t: Table, n: nat)
    requires WF(t) && |t.buckets| == HB_MAX_SIZE && Bounded(t) && Abs(t) == map[] && t.size == 1 && n <= TABLE_MAX - 1
    ensures WF(Filled(t, n)) && Bounded(Filled(t, n)) && Filled(t, n).size == n + 1 && |Abs(Filled(t, n))| == n
    ensures forall i: nat | n <= i < 400 :: NewKey(i) !in Abs(Filled(t, n))
  {
    hide WF, Bounded, NewKey, Abs, Write, Read;
    if n > 0 {
      FilledCounts(t, n - 1);
      var before, k := Filled(t, n - 1), NewKey(n - 1);
      WriteRefines(before, k, [1]);
      NewKeyCounted(before, k);
      assert Abs(Filled(t, n)) == Abs(before)[k := [1]];
      forall i: nat | n <= i < 400 ensures NewKey(i) !in Abs(Filled(t, n)) {
        NewKeysDiffer(n - 1, i);
      }
    }
  }

  lemma NewKeyCounted(t: Table, k: Key)
    requires WF(t) && k !in Abs(t) && t.size < TABLE_MAX
    ensures Write(t, k, [1]).1.size == t.size + 1
  {
    ReadIsLookup(t, k);
  }

  // Such a table exists: one delete of a key at the head of a chain of two, then 199 writes of new
  // keys, and the 200th key is refused.
  lemma RefusedAt199()
    ensures var t := Filled(Delete(TwoInABucket(), [98, 57]), 199);
      WF(t) && |Abs(t)| == 199 && NewKey(199) !in Abs(t) && Write(t, NewKey(199), [1]).0 == 1
  {
    var t0 := TwoInABucket();
    var t := Delete(t0, [98, 57]);
    TwoKeys();
    DeleteRefines(t0, [98, 57]);
    FilledCounts(t, 199);
    WriteRefines(Filled(t, 199), NewKey(199), [1]);
  }

  // A new key is refused with room to spare exactly when the counter is at the limit but inexact.
  lemma RefusedTooEarly(t: Table, k: Key, v: Val)
    requires WF(t) && Bounded(t) && k !in Abs(t)
    ensures Write(t, k, v).0 == 1 && |Abs(t)| < TABLE_MAX <==> t.size == TABLE_MAX && !Exact(t)
    ensures Exact(t) ==> (Write(t, k, v).0 == 1 <==> |Abs(t)| == TABLE_MAX)
  {
    SizeIsKeyCount(t);
    WriteRefines(t, k, v);
  }

  // ---------- dump ----------

  // The entries are those of the map, each once.
  ghost predicate Lists(es: seq<Entry>, m: map<Key, Val>)
  {
    && Distinct(es)
    && (forall i | 0 <= i < |es| :: es[i].key in m && m[es[i].key] == es[i].val)
    && (forall k | k in m :: exists i :: 0 <= i < |es| && es[i].key == k)
  }

  // No key occurs twice, in one chain or in two.
  ghost predicate KeysApart(bs: seq<seq<Entry>>)
  {
    forall b, i, b', j | 0 <= b < |bs| && 0 <= i < |bs[b]| && 0 <= b' < |bs| && 0 <= j < |bs[b']| ::
      bs[b][i].key == bs[b'][j].key ==> b == b' && i == j
  }

  lemma {:induction false} InFlat(bs: seq<seq<Entry>>, e: Entry)
    ensures e in Flat(bs) <==> exists b :: 0 <= b < |bs| && e in bs[b]
  {
    if bs != [] {
      InFlat(bs[1..], e);
      if b :| 0 <= b < |bs[1..]| && e in bs[1..][b] {
        assert e in bs[b + 1];
      }
      if b :| 0 <= b < |bs| && e in bs[b] {
        assert b > 0 ==> e in bs[1..][b - 1];
      }
    }
  }

  lemma {:induction false} FlatDistinct(bs: seq<seq<Entry>>)
    requires KeysApart(bs)
    ensures Distinct(Flat(bs))
  {
    if bs != [] {
      var head, rest := bs[0], bs[1..];
      RestApart(bs);
      FlatDistinct(rest);
      hide KeysApart;
      var flat := Flat(rest);
      forall i, j | 0 <= i < |head| && 0 <= j < |flat| ensures head[i].key != flat[j].key {
        InFlat(rest, flat[j]);
        HeadApart(bs, i, flat[j]);
      }
    }
  }

  lemma RestApart(bs: seq<seq<Entry>>)
    requires bs != [] && KeysApart(bs)
    ensures KeysApart(bs[1..]) && Distinct(bs[0])
  {
    forall i, j | 0 <= i < j < |bs[0]| ensures bs[0][i].key != bs[0][j].key {
    }
  }

  lemma HeadApart(bs: seq<seq<Entry>>, i: nat, e: Entry)
    requires bs != [] && KeysApart(bs) && i < |bs[0]| && exists b :: 0 <= b < |bs[1..]| && e in bs[1..][b]
    ensures bs[0][i].key != e.key
  {
    var b :| 0 <= b < |bs[1..]| && e in bs[1..][b];
    var j :| 0 <= j < |bs[b + 1]| && bs[b + 1][j] == e;
  }

  lemma TableApart(t: Table)
    requires WF(t)
    ensures KeysApart(t.buckets)
  {
  }

  lemma EntryInMap(t: Table, b: nat, e: Entry)
    requires WF(t) && b < HB_MAX_SIZE && e in t.buckets[b]
    ensures e.key in Abs(t) && Abs(t)[e.key] == e.val
  {
    var c := t.buckets[b];
    var i :| 0 <= i < |c| && c[i] == e;
    IndexUnique(c, e.key, i);
    ReadIsLookup(t, e.key);
  }

  // A key of the map is listed.
  lemma KeyListed(t: Table, k: Key) returns (e: Entry)
    requires WF(t) && k in Abs(t)
    ensures e in Flat(t.buckets) && e.key == k
  {
    hide Flat, InKeys;
    var b, i :| 0 <= b < |t.buckets| && 0 <= i < |t.buckets[b]| && t.buckets[b][i].key == k;
    e := t.buckets[b][i];
    assert e in t.buckets[b];
    InFlat(t.buckets, e);
  }

  // A listed entry is one of the map.
  lemma ListedInMap(t: Table, e: Entry)
    requires WF(t) && e in Flat(t.buckets)
    ensures e.key in Abs(t) && Abs(t)[e.key] == e.val
  {
    hide Flat, Abs;
    InFlat(t.buckets, e);
    var b :| 0 <= b < |t.buckets| && e in t.buckets[b];
    EntryInMap(t, b, e);
  }

  lemma NothingElseListed(t: Table)
    requires WF(t)
    ensures forall i | 0 <= i < |Flat(t.buckets)| ::
      Flat(t.buckets)[i].key in Abs(t) && Abs(t)[Flat(t.buckets)[i].key] == Flat(t.buckets)[i].val
  {
    hide Flat, Abs, WF;
    var es := Flat(t.buckets);
    forall i | 0 <= i < |es| ensures es[i].key in Abs(t) && Abs(t)[es[i].key] == es[i].val {
      ListedInMap(t, es[i]);
    }
  }

  lemma AllListed(t: Table, k: Key)
    requires WF(t) && k in Abs(t)
    ensures exists i :: 0 <= i < |Flat(t.buckets)| && Flat(t.buckets)[i].key == k
  {
    hide Flat, Abs, WF;
    var e := KeyListed(t, k);
    var j :| 0 <= j < |Flat(t.buckets)| && Flat(t.buckets)[j] == e;
  }

  // What kv_dump prints is the map.
  lemma FlatLists(t: Table)
    requires WF(t)
    ensures Lists(Flat(t.buckets), Abs(t))
  {
    hide Flat, KeysApart, Abs, WF, Distinct;
    TableApart(t);
    FlatDistinct(t.buckets);
    NothingElseListed(t);
    forall k | k in Abs(t) ensures exists i :: 0 <= i < |Flat(t.buckets)| && Flat(t.buckets)[i].key == k {
      AllListed(t, k);
    }
  }
}
