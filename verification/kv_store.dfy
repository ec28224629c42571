/**
  The key-value store as kvstore.c builds it: an array of bucket heads and heap nodes linked by
  next pointers. Each operation is proved to act on the table as KvTable prescribes.
  */
module KvStore {
  import opened Wrappers
  import opened KvTable

  class Node {
    var key: Key
    var val: Val
    var next: Node?

    // kv_entry_init: the key and the value are copied, next is NULL.
    constructor (k: Key, v: Val)
      ensures key == k && val == v && next == null
    {
      key, val, next := k, v, null;
    }
  }

  // The chain that starts at head is c.
  ghost predicate Linked(head: Node?, c: seq<Node>)
    reads c
  {
    && head == (if c == [] then null else c[0])
    && forall i | 0 <= i < |c| :: c[i].next == After(c, i)
  }

  function After(c: seq<Node>, i: nat): Node? { if i + 1 < |c| then c[i + 1] else null }

  // No node occurs twice, in one chain or in two.
  ghost predicate Separate(chains: seq<seq<Node>>)
  {
    forall b, i, b', j | 0 <= b < |chains| && 0 <= i < |chains[b]| && 0 <= b' < |chains| && 0 <= j < |chains[b']| ::
      chains[b][i] == chains[b'][j] ==> b == b' && i == j
  }

  ghost function Entries(c: seq<Node>): (r: seq<Entry>)
    reads c
    ensures |r| == |c| && forall i | 0 <= i < |c| :: r[i] == Entry(c[i].key, c[i].val)
  {
    seq(|c|, i requires 0 <= i < |c| reads c => Entry(c[i].key, c[i].val))
  }

  ghost function NodesOf(chains: seq<seq<Node>>): set<Node>
  {
    set b, i | 0 <= b < |chains| && 0 <= i < |chains[b]| :: chains[b][i]
  }

  ghost function AllEntries(chains: seq<seq<Node>>): (r: seq<seq<Entry>>)
    reads NodesOf(chains)
    ensures |r| == |chains| && forall b | 0 <= b < |chains| :: r[b] == Entries(chains[b])
  {
    if chains == [] then []
    else
      assert forall n | n in NodesOf(chains[..|chains| - 1]) :: n in NodesOf(chains) by { NodesPrefix(chains); }
      assert forall n | n in chains[|chains| - 1] :: n in NodesOf(chains);
      AllEntries(chains[..|chains| - 1]) + [Entries(chains[|chains| - 1])]
  }

  lemma NodesPrefix(chains: seq<seq<Node>>)
    requires chains != []
    ensures NodesOf(chains[..|chains| - 1]) <= NodesOf(chains)
  {
    var init := chains[..|chains| - 1];
    forall n | n in NodesOf(init)
      ensures n in NodesOf(chains)
    {
      var b, i :| 0 <= b < |init| && 0 <= i < |init[b]| && init[b][i] == n;
      assert chains[b] == init[b];
    }
  }

  class Store {
    const buckets: array<Node?>
    var size: int
    ghost var chains: seq<seq<Node>>

    ghost function Nodes(): set<Node>
      reads this
    {
      NodesOf(chains)
    }

    ghost predicate Valid()
      reads this, buckets, Nodes()
    {
      && buckets.Length == HB_MAX_SIZE == |chains|
      && Separate(chains)
      && forall b | 0 <= b < HB_MAX_SIZE ::
           assert forall n | n in chains[b] :: n in Nodes();
           Linked(buckets[b], chains[b])
    }

    ghost function View(): Table
      reads this, Nodes()
    {
      Table(AllEntries(chains), size)
    }

    constructor ()
      ensures Valid() && View() == Init() && fresh(buckets) && Nodes() == {}
    {
      buckets := new Node?[HB_MAX_SIZE](_ => null);
      size := 0;
      chains := seq(HB_MAX_SIZE, _ => []);
      new;
      assert AllEntries(chains) == Init().buckets;
    }

    // The walk that every operation starts with: the node that holds the key, and its predecessor.
    method Walk(index: nat, key: Key) returns (h: Node?, prev: Node?, ghost i: nat)
      requires Valid() && index < HB_MAX_SIZE
      ensures index < |View().buckets| && i == Index(View().buckets[index], key)
      ensures i <= |View().buckets[index]| == |chains[index]|
      ensures h == if i < |chains[index]| then chains[index][i] else null
      ensures h != null ==> h.key == key && h in Nodes() && View().buckets[index][i] == Entry(h.key, h.val)
      ensures 0 < i < |chains[index]| ==> prev == chains[index][i - 1] && prev in Nodes() && prev != h
      ensures i == 0 ==> prev == h
    {
      ghost var c := chains[index];
      assert Linked(buckets[index], c);
      h, i := buckets[index], 0;
      prev := h;
      while h != null && h.key != key
        invariant i <= |c| && h == (if i < |c| then c[i] else null)
        invariant 0 < i <= |c| ==> prev == c[i - 1]
        invariant i == 0 ==> prev == h
        invariant forall j | 0 <= j < i :: c[j].key != key
        decreases |c| - i
      {
        assert h == c[i];
        prev, h, i := h, h.next, i + 1;
      }
      IndexUnique(Entries(c), key, i);
    }

    method Read(key: Key) returns (r: Option<Val>)
      requires Valid()
      ensures r == KvTable.Read(View(), key)
    {
      hide Linked, Separate, NodesOf, AllEntries;
      var index := Hash33(key);
      var h, _, i := Walk(index, key);
      r := if h != null then Some(h.val) else None;
    }

    // kv_dump: the entries in the order in which they are printed.
    method Dump() returns (out: seq<Entry>)
      requires Valid()
      ensures out == Flat(View().buckets)
    {
      hide Separate, Flat, AllEntries, NodesOf, Entries, Linked;
      ghost var bs := View().buckets;
      NothingFlat();
      out := [];
      var i := 0;
      while i < HB_MAX_SIZE
        invariant i <= HB_MAX_SIZE && out == Flat(bs[..i]) && View().buckets == bs
      {
        assert Linked(buckets[i], chains[i]);
        var part := DumpChain(buckets[i], chains[i]);
        FlatSnoc(bs[..i], bs[i]);
        assert bs[..i] + [bs[i]] == bs[..i + 1];
        out := out + part;
        i := i + 1;
      }
      assert bs[..i] == bs;
    }

    static method DumpChain(head: Node?, ghost c: seq<Node>) returns (out: seq<Entry>)
      requires Linked(head, c)
      ensures out == Entries(c)
    {
      var h := head;
      ghost var i := 0;
      out := [];
      while h != null
        invariant i <= |c| && h == (if i < |c| then c[i] else null)
        invariant out == Entries(c)[..i]
        decreases |c| - i
      {
        assert Entries(c)[..i + 1] == Entries(c)[..i] + [Entries(c)[i]];
        out := out + [Entry(h.key, h.val)];
        assert h == c[i];
        h, i := h.next, i + 1;
      }
      assert Entries(c)[..i] == Entries(c);
    }

    method Write(key: Key, val: Val) returns (ret: int)
      requires Valid()
      modifies this, buckets, Nodes()
      ensures Valid() && (ret, View()) == KvTable.Write(old(View()), key, val)
      ensures fresh(Nodes() - old(Nodes()))
    {
      hide Linked, Separate, AllEntries, Index, Bucket;
      var index := Hash33(key);
      var h, _, i := Walk(index, key);
      if h != null {
        Overwrite(index, i, h, val);
        return 0;
      } else if size == TABLE_MAX {
        return 1;
      } else {
        Insert(index, key, val);
        return 0;
      }
    }

    method Overwrite(index: nat, ghost i: nat, h: Node, val: Val)
      requires Valid() && index < HB_MAX_SIZE && i < |chains[index]| && h == chains[index][i]
      modifies h
      ensures Valid() && chains == old(chains)
      ensures var bs := old(View()).buckets;
        View() == old(View()).(buckets := bs[index := bs[index][i := Entry(h.key, val)]])
      ensures h.key == old(h.key)
    {
      hide Separate, NodesOf, AllEntries;
      ghost var before := AllEntries(chains);
      PrevElsewhere(chains, index, i);
      h.val := val;
      forall b | 0 <= b < HB_MAX_SIZE
        ensures Linked(buckets[b], chains[b])
        ensures Entries(chains[b]) == if b == index then before[index][i := Entry(h.key, val)] else before[b]
      {
        assert old(Linked(buckets[b], chains[b]));
      }
      assert AllEntries(chains) == before[index := before[index][i := Entry(h.key, val)]];
    }

    // A new node goes to the front of its chain.
    method Insert(index: nat, key: Key, val: Val)
      requires Valid() && index < HB_MAX_SIZE
      modifies this, buckets
      ensures Valid() && fresh(Nodes() - old(Nodes()))
      ensures var bs := old(View()).buckets;
        View() == Table(bs[index := [Entry(key, val)] + bs[index]], old(size) + 1)
    {
      hide Separate, NodesOf, Linked, Entries, AllEntries;
      ghost var c := chains[index];
      var node := NewFront(index, key, val);
      Adopt(index, [node] + c);
      AddToSize(1);
      assert Nodes() <= old(Nodes()) + {node};
    }

    // The new node, linked in front of its chain.
    method NewFront(index: nat, key: Key, val: Val) returns (node: Node)
      requires Valid() && index < HB_MAX_SIZE
      modifies buckets
      ensures fresh(node) && Linked(buckets[index], [node] + chains[index])
      ensures Entries([node] + chains[index]) == [Entry(key, val)] + old(AllEntries(chains)[index])
      ensures AllEntries(chains) == old(AllEntries(chains))
      ensures forall b | 0 <= b < HB_MAX_SIZE && b != index :: Linked(buckets[b], chains[b])
      ensures Separate(chains[index := [node] + chains[index]])
      ensures NodesOf(chains[index := [node] + chains[index]]) <= NodesOf(chains) + {node}
    {
      hide Separate, AllEntries;
      ghost var c := chains[index];
      node := new Node(key, val);
      assert node !in NodesOf(chains);
      hide NodesOf;
      SeparatePrepend(chains, index, node);
      ghost var first := buckets[index];
      node.next := buckets[index];
      buckets[index] := node;
      forall b | 0 <= b < HB_MAX_SIZE
        ensures b != index ==> Linked(buckets[b], chains[b])
        ensures Entries(chains[b]) == old(Entries(chains[b]))
      {
        assert old(Linked(buckets[b], chains[b]));
      }
      assert AllEntries(chains) == old(AllEntries(chains));
      LinkedCons(node, first, c);
    }

    method AddToSize(n: int)
      requires Valid()
      modifies this`size
      ensures Valid() && Nodes() == old(Nodes()) && View() == old(View()).(size := old(size) + n)
    {
      hide Separate;
      size := size + n;
    }

    // Record that one bucket now starts a different, already linked, chain.
    ghost method Adopt(index: nat, c: seq<Node>)
      requires buckets.Length == HB_MAX_SIZE == |chains| && index < HB_MAX_SIZE
      requires Separate(chains[index := c]) && Linked(buckets[index], c)
      requires forall b | 0 <= b < HB_MAX_SIZE && b != index :: Linked(buckets[b], chains[b])
      modifies this`chains
      ensures Valid() && chains == old(chains)[index := c]
      ensures View() == Table(old(AllEntries(chains))[index := old(Entries(c))], size)
    {
      hide Separate, NodesOf, Linked, Entries, AllEntries;
      ChainsFrame(chains, index, c, Entries(c));
      chains := chains[index := c];
      forall b | 0 <= b < HB_MAX_SIZE
        ensures Linked(buckets[b], chains[b])
      {
        assert b != index ==> old(Linked(buckets[b], chains[b]));
      }
    }

    // kv_delete as written: a match at the head of its chain stores NULL in the bucket.
    method Delete(key: Key)
      requires Valid()
      modifies this, buckets, Nodes()
      ensures Valid() && View() == KvTable.Delete(old(View()), key)
      ensures Nodes() <= old(Nodes())
    {
      hide Linked, Separate, NodesOf, AllEntries, Index, Bucket;
      var index := Hash33(key);
      var h, prev, i := Walk(index, key);
      if h != null {
        if prev == h {
          ClearBucket(index);
        } else {
          Unlink(index, i, prev, h);
        }
      }
    }

    method ClearBucket(index: nat)
      requires Valid() && index < HB_MAX_SIZE
      modifies this, buckets
      ensures Valid() && Nodes() <= old(Nodes())
      ensures View() == Table(old(View()).buckets[index := []], old(size) - 1)
    {
      hide Separate, NodesOf, Linked, AllEntries;
      SeparateClear(chains, index);
      NothingLinked();
      buckets[index] := null;
      Adopt(index, []);
      AddToSize(-1);
    }

    method Unlink(index: nat, ghost i: nat, prev: Node, h: Node)
      requires Valid() && index < HB_MAX_SIZE && 0 < i < |chains[index]|
      requires h == chains[index][i] && prev == chains[index][i - 1]
      modifies this, prev
      ensures Valid() && Nodes() <= old(Nodes())
      ensures var bs := old(View()).buckets;
        View() == Table(bs[index := bs[index][..i] + bs[index][i + 1..]], old(size) - 1)
    {
      hide Separate, NodesOf, Linked, Entries, AllEntries;
      ghost var c := chains[index];
      ghost var cut := c[..i] + c[i + 1..];
      SeparateCut(chains, index, i);
      Relink(index, i, prev, h);
      Adopt(index, cut);
      AddToSize(-1);
    }

    // The node is spliced out behind its predecessor.
    method Relink(index: nat, ghost i: nat, prev: Node, h: Node)
      requires Valid() && index < HB_MAX_SIZE && 0 < i < |chains[index]|
      requires h == chains[index][i] && prev == chains[index][i - 1]
      modifies prev
      ensures Linked(buckets[index], chains[index][..i] + chains[index][i + 1..])
      ensures Entries(chains[index][..i] + chains[index][i + 1..]) ==
                old(AllEntries(chains)[index])[..i] + old(AllEntries(chains)[index])[i + 1..]
      ensures AllEntries(chains) == old(AllEntries(chains))
      ensures forall b | 0 <= b < HB_MAX_SIZE && b != index :: Linked(buckets[b], chains[b])
    {
      hide Separate, NodesOf, AllEntries, Entries, After;
      ghost var c := chains[index];
      ghost var entries := AllEntries(chains);
      EntriesAre(chains, entries);
      PrevElsewhere(chains, index, i - 1);
      assert Linked(buckets[index], c);
      prev.next := h.next;
      LinkedCut(buckets[index], c, i, old(c[i].next));
      SameEntries(chains, entries);
      forall b | 0 <= b < HB_MAX_SIZE && b != index
        ensures Linked(buckets[b], chains[b])
      {
        assert old(Linked(buckets[b], chains[b]));
      }
    }
  }

  ghost predicate Holds(chains: seq<seq<Node>>, es: seq<seq<Entry>>)
    reads NodesOf(chains)
  {
    && |es| == |chains|
    && forall b | 0 <= b < |chains| ::
         && |es[b]| == |chains[b]|
         && forall i | 0 <= i < |chains[b]| ::
              assert chains[b][i] in NodesOf(chains);
              es[b][i] == Entry(chains[b][i].key, chains[b][i].val)
  }

  lemma EntriesAre(chains: seq<seq<Node>>, es: seq<seq<Entry>>)
    requires es == AllEntries(chains)
    ensures Holds(chains, es)
  {
    hide AllEntries;
  }

  // Keys and values alone decide the entries.
  lemma SameEntries(chains: seq<seq<Node>>, es: seq<seq<Entry>>)
    requires Holds(chains, es)
    ensures AllEntries(chains) == es
  {
    hide AllEntries;
    forall b | 0 <= b < |chains|
      ensures AllEntries(chains)[b] == es[b]
    {
      assert Entries(chains[b]) == es[b];
    }
  }

  lemma NothingFlat()
    ensures Flat([]) == []
  {
  }

  lemma NothingLinked()
    ensures Linked(null, [])
  {
  }

  // A node in front of a chain makes a chain.
  lemma LinkedCons(n: Node, head: Node?, c: seq<Node>)
    requires Linked(head, c) && n.next == head
    ensures Linked(n, [n] + c)
    ensures Entries([n] + c) == [Entry(n.key, n.val)] + Entries(c)
  {
  }

  // A chain whose node k - 1 points past node k is the chain without node k.
  lemma LinkedCut(head: Node?, c: seq<Node>, k: nat, next: Node?)
    requires 0 < k < |c| && next == After(c, k) && c[k - 1].next == next && head == c[0]
    requires forall i | 0 <= i < |c| && i != k - 1 :: c[i].next == After(c, i)
    ensures Linked(head, c[..k] + c[k + 1..])
    ensures Entries(c[..k] + c[k + 1..]) == Entries(c)[..k] + Entries(c)[k + 1..]
  {
    var cut := c[..k] + c[k + 1..];
    hide Entries, After;
    CutEntries(c, k);
    forall i | 0 <= i < |cut|
      ensures cut[i].next == After(cut, i)
    {
      AfterCut(c, k, i);
    }
    assert cut[0] == c[0];
  }

  lemma AfterCut(c: seq<Node>, k: nat, i: nat)
    requires 0 < k < |c| && i < |c| - 1
    ensures var cut := c[..k] + c[k + 1..];
      && cut[i] == c[if i < k then i else i + 1]
      && After(cut, i) == if i == k - 1 then After(c, k) else After(c, if i < k then i else i + 1)
  {
  }

  lemma CutEntries(c: seq<Node>, k: nat)
    requires k < |c|
    ensures Entries(c[..k] + c[k + 1..]) == Entries(c)[..k] + Entries(c)[k + 1..]
  {
    hide Entries;
    var cut := c[..k] + c[k + 1..];
    var want := Entries(c)[..k] + Entries(c)[k + 1..];
    forall i | 0 <= i < |cut|
      ensures Entries(cut)[i] == want[i]
    {
      assert cut[i] == c[if i < k then i else i + 1];
    }
  }

  // Exchanging one chain exchanges one bucket of entries.
  lemma ChainsFrame(chains: seq<seq<Node>>, b: nat, c: seq<Node>, es: seq<Entry>)
    requires b < |chains| && Entries(c) == es
    ensures AllEntries(chains[b := c]) == AllEntries(chains)[b := es]
  {
  }

  lemma SeparateClear(chains: seq<seq<Node>>, b: nat)
    requires Separate(chains) && b < |chains|
    ensures Separate(chains[b := []]) && NodesOf(chains[b := []]) <= NodesOf(chains)
  {
    forall n | n in NodesOf(chains[b := []])
      ensures n in NodesOf(chains)
    {
      var b', i :| 0 <= b' < |chains| && 0 <= i < |chains[b := []][b']| && chains[b := []][b'][i] == n;
      assert chains[b'][i] == n;
    }
  }

  lemma SeparatePrepend(chains: seq<seq<Node>>, b: nat, n: Node)
    requires Separate(chains) && b < |chains| && n !in NodesOf(chains)
    ensures Separate(chains[b := [n] + chains[b]])
    ensures NodesOf(chains[b := [n] + chains[b]]) <= NodesOf(chains) + {n}
    ensures forall b', i | 0 <= b' < |chains| && 0 <= i < |chains[b']| :: chains[b'][i] != n
  {
    var next := chains[b := [n] + chains[b]];
    forall b', i | 0 <= b' < |chains| && 0 <= i < |chains[b']|
      ensures chains[b'][i] in NodesOf(chains)
    {
    }
    forall b', i, b'', j | 0 <= b' < |next| && 0 <= i < |next[b']| && 0 <= b'' < |next| && 0 <= j < |next[b'']| &&
                           next[b'][i] == next[b''][j]
      ensures b' == b'' && i == j
    {
      var i' := if b' == b then i - 1 else i;
      var j' := if b'' == b then j - 1 else j;
      assert i' >= 0 ==> next[b'][i] == chains[b'][i'];
      assert j' >= 0 ==> next[b''][j] == chains[b''][j'];
    }
  }

  lemma SeparateCut(chains: seq<seq<Node>>, b: nat, k: nat)
    requires Separate(chains) && b < |chains| && k < |chains[b]|
    ensures Separate(chains[b := chains[b][..k] + chains[b][k + 1..]])
    ensures NodesOf(chains[b := chains[b][..k] + chains[b][k + 1..]]) <= NodesOf(chains)
  {
    var next := chains[b := chains[b][..k] + chains[b][k + 1..]];
    forall b', i, b'', j | 0 <= b' < |next| && 0 <= i < |next[b']| && 0 <= b'' < |next| && 0 <= j < |next[b'']| &&
                           next[b'][i] == next[b''][j]
      ensures b' == b'' && i == j
    {
      var i' := if b' == b && i >= k then i + 1 else i;
      var j' := if b'' == b && j >= k then j + 1 else j;
      assert next[b'][i] == chains[b'][i'] && next[b''][j] == chains[b''][j'];
    }
    forall n | n in NodesOf(next)
      ensures n in NodesOf(chains)
    {
      var b', i :| 0 <= b' < |next| && 0 <= i < |next[b']| && next[b'][i] == n;
      assert n == chains[b'][if b' == b && i >= k then i + 1 else i];
    }
  }

  lemma PrevElsewhere(chains: seq<seq<Node>>, b: nat, k: nat)
    requires Separate(chains) && b < |chains| && k < |chains[b]|
    ensures forall b', i | 0 <= b' < |chains| && 0 <= i < |chains[b']| && (b' != b || i != k) ::
      chains[b'][i] != chains[b][k]
  {
  }
}
