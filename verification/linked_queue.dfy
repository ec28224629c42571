/**
  The linked queue of C strings, and the Caesar cipher that rewrites a string in place.
*/
module LinkedQueue {
  import opened Wrappers

  class Node {
    const data: array<char>
    var next: Node?

    constructor (data: array<char>)
      ensures this.data == data && next == null
    {
      this.data, next := data, null;
    }
  }

  // No node and no string occurs twice.
  ghost predicate Apart(nodes: seq<Node>)
  {
    forall i, j | 0 <= i < j < |nodes| :: nodes[i] != nodes[j] && nodes[i].data != nodes[j].data
  }

  ghost predicate Owned(nodes: seq<Node>, repr: set<object>)
  {
    forall i | 0 <= i < |nodes| :: nodes[i] in repr && nodes[i].data in repr
  }

  ghost predicate Chained(nodes: seq<Node>)
    reads nodes
  {
    forall i | 0 <= i < |nodes| :: nodes[i].next == After(nodes, i)
  }

  // The strings stored in the nodes, in order.
  ghost predicate Holds(nodes: seq<Node>, contents: seq<string>, repr: set<object>)
    requires Owned(nodes, repr)
    reads repr
  {
    |contents| == |nodes| && forall i | 0 <= i < |nodes| :: contents[i] == nodes[i].data[..]
  }

  lemma ApartSnoc(nodes: seq<Node>, n: Node, repr: set<object>)
    requires Apart(nodes) && Owned(nodes, repr) && n !in repr && n.data !in repr
    ensures Apart(nodes + [n]) && Owned(nodes + [n], repr + {n, n.data})
  {
  }

  lemma ApartTail(nodes: seq<Node>, repr: set<object>)
    requires nodes != [] && Apart(nodes) && Owned(nodes, repr)
    ensures Apart(nodes[1..]) && Owned(nodes[1..], repr - {nodes[0], nodes[0].data})
  {
  }

  lemma ChainedSnoc(nodes: seq<Node>, n: Node)
    requires forall i | 0 <= i < |nodes| - 1 :: nodes[i].next == After(nodes, i)
    requires nodes != [] ==> nodes[|nodes| - 1].next == n
    requires n.next == null
    ensures Chained(nodes + [n])
  {
    forall i | 0 <= i < |nodes + [n]| ensures (nodes + [n])[i].next == After(nodes + [n], i) {
      assert i < |nodes| - 1 ==> After(nodes, i) == nodes[i + 1];
    }
  }

  // In a chain only the last node has no successor.
  lemma OnlyLastEnds(nodes: seq<Node>)
    requires Chained(nodes)
    ensures forall i | 0 <= i < |nodes| - 1 :: nodes[i].next == After(nodes, i) && nodes[i] != nodes[|nodes| - 1]
  {
    forall i | 0 <= i < |nodes| - 1 ensures nodes[i] != nodes[|nodes| - 1] {
      assert nodes[i].next == After(nodes, i) != null;
      assert nodes[|nodes| - 1].next == After(nodes, |nodes| - 1) == null;
    }
  }

  ghost function After(nodes: seq<Node>, i: nat): Node? { if i + 1 < |nodes| then nodes[i + 1] else null }

  // strcpy into newly allocated memory
  method CopyString(s: array<char>) returns (t: array<char>)
    ensures fresh(t) && t[..] == s[..]
  {
    t := new char[s.Length];
    var i := 0;
    while i < s.Length
      invariant i <= s.Length && t[..i] == s[..i]
    {
      t[i] := s[i];
      i := i + 1;
    }
    assert t[..] == t[..i] && s[..] == s[..i];
  }

  class Queue {
    var head: Node?
    var tail: Node?
    ghost var nodes: seq<Node>
    ghost var contents: seq<string>
    ghost var Repr: set<object>

    ghost predicate Valid()
      reads this, Repr
    {
      && this in Repr
      && head == (if nodes == [] then null else nodes[0])
      && tail == (if nodes == [] then null else nodes[|nodes| - 1])
      && Owned(nodes, Repr) && Apart(nodes) && Chained(nodes) && Holds(nodes, contents, Repr)
    }

    constructor ()
      ensures Valid() && contents == [] && fresh(Repr)
    {
      head, tail, nodes, contents := null, null, [], [];
      Repr := {this};
    }

    // The part of enqueue that links the new node in.
    method Append(pnode: Node)
      requires Valid() && pnode !in Repr && pnode.data !in Repr && pnode.next == null
      modifies Repr
      ensures Valid() && Repr == old(Repr) + {pnode, pnode.data}
      ensures contents == old(contents) + [old(pnode.data[..])]
    {
      hide Apart, Chained;
      ghost var before, text := nodes, pnode.data[..];
      ApartSnoc(nodes, pnode, Repr);
      OnlyLastEnds(nodes);
      if tail == null {
        head := pnode;
        tail := pnode;
      } else {
        tail.next := pnode;
        tail := pnode;
      }
      nodes, contents := nodes + [pnode], contents + [text];
      Repr := Repr + {pnode, pnode.data};
      ChainedSnoc(before, pnode);
    }

    method Enqueue(data: array<char>)
      requires Valid()
      modifies Repr
      ensures Valid() && fresh(Repr - old(Repr)) && old(Repr) <= Repr
      ensures contents == old(contents) + [old(data[..])]
    {
      var copy := CopyString(data);
      var pnode := new Node(copy);
      Append(pnode);
    }

    // The removed node, with its string, leaves the queue's memory and belongs to the caller.
    method Dequeue() returns (pnode: Node?)
      requires Valid()
      modifies this
      ensures Valid() && Repr <= old(Repr)
      ensures old(contents) == [] ==> pnode == null && contents == [] && Repr == old(Repr)
      ensures old(contents) != [] ==>
        && pnode != null && pnode in old(Repr) - Repr && pnode.data in old(Repr) - Repr
        && [pnode.data[..]] + contents == old(contents)
    {
      hide Apart;
      if head == null {
        return null;
      }
      pnode := head;
      if head.next == null {
        tail := null;
      }
      head := head.next;
      ghost var before := nodes;
      nodes, contents := nodes[1..], contents[1..];
      assert forall i: nat | i < |nodes| :: After(nodes, i) == After(before, i + 1);
      ApartTail(before, Repr);
      Repr := Repr - {pnode, pnode.data};
    }
  }

  // free_queue
  method FreeQueue(q: Queue)
    requires q.Valid()
    modifies q
    ensures q.Valid() && q.contents == [] && q.Repr <= old(q.Repr)
  {
    var pnode := q.Dequeue();
    while pnode != null
      invariant q.Valid() && q.Repr <= old(q.Repr)
      invariant pnode == null ==> q.contents == []
      decreases |q.nodes|, pnode != null
    {
      pnode := q.Dequeue();
    }
  }

  // copy_queue
  method CopyQueue(original: Queue) returns (copy: Queue)
    requires original.Valid()
    ensures copy.Valid() && fresh(copy.Repr) && copy.contents == original.contents
  {
    hide Queue.Valid;
    copy := new Queue();
    StartsAtHead(original);
    var pnode := original.head;
    ghost var i := 0;
    while pnode != null
      invariant i <= |original.nodes| == |original.contents|
      invariant pnode == (if i < |original.nodes| then original.nodes[i] else null)
      invariant original.Valid() && copy.Valid() && fresh(copy.Repr)
      invariant copy.contents == original.contents[..i]
      decreases |original.nodes| - i
    {
      NodeFacts(original, i);
      copy.Enqueue(pnode.data);
      NodeFacts(original, i);
      pnode := pnode.next;
      i := i + 1;
    }
  }

  lemma StartsAtHead(q: Queue)
    requires q.Valid()
    ensures q.head == (if q.nodes == [] then null else q.nodes[0]) && |q.contents| == |q.nodes|
  {
  }

  lemma NodeFacts(q: Queue, i: nat)
    requires q.Valid() && i < |q.nodes|
    ensures |q.contents| == |q.nodes| && q.nodes[i] in q.Repr && q.nodes[i].data in q.Repr
    ensures q.contents[i] == q.nodes[i].data[..] && q.nodes[i].next == After(q.nodes, i)
  {
  }

  function Joined(contents: seq<string>): string
  {
    if contents == [] then ""
    else "[" + contents[0] + "]" + (if |contents| > 1 then "->" else "") + Joined(contents[1..])
  }

  // Each string in brackets, with an arrow between two of them.
  lemma {:induction false} JoinedSnoc(contents: seq<string>, last: string)
    ensures Joined([]) == ""
    ensures Joined(contents + [last]) == Joined(contents) + (if contents == [] then "" else "->") + "[" + last + "]"
  {
    if contents == [] {
      assert contents + [last] == [last] && [last][1..] == [];
      assert Joined([last]) == "[" + last + "]" + "" + "";
    } else {
      assert (contents + [last])[1..] == contents[1..] + [last];
      JoinedSnoc(contents[1..], last);
      hide Joined;
    }
  }

  // print_queue
  method PrintQueue(q: Queue) returns (text: string)
    requires q.Valid()
    ensures text == "finally: " + Joined(q.contents) + "\n"
  {
    text := "finally: ";
    var pnode := q.head;
    ghost var i := 0;
    while pnode != null
      invariant i <= |q.nodes| && pnode == (if i < |q.nodes| then q.nodes[i] else null)
      invariant text + Joined(q.contents[i..]) == "finally: " + Joined(q.contents)
      decreases |q.nodes| - i
    {
      ghost var before, rest := text, q.contents[i..];
      assert rest[1..] == q.contents[i + 1..] && rest[0] == pnode.data[..];
      text := text + ("[" + pnode.data[..] + "]");
      pnode := pnode.next;
      if pnode != null {
        text := text + "->";
      }
      i := i + 1;
      JoinedStep(before, rest);
    }
    text := text + "\n";
  }

  lemma JoinedStep(before: string, rest: seq<string>)
    requires rest != []
    ensures before + Joined(rest) ==
      (if |rest| > 1 then before + ("[" + rest[0] + "]") + "->" else before + ("[" + rest[0] + "]")) + Joined(rest[1..])
  {
    Regroup(before, "[" + rest[0] + "]", if |rest| > 1 then "->" else "", Joined(rest[1..]));
  }

  lemma Regroup(a: string, b: string, c: string, d: string)
    ensures a + (b + c + d) == a + b + c + d && (c == "" ==> a + b + c + d == a + b + d)
  {
    assert c == "" ==> a + b + c == a + b;
    assert a + (b + c + d) == a + b + c + d;
  }

  // ---------- The cipher ----------

  // The remainder of C, which has the sign of the dividend.
  function Remainder(a: int, m: int): int
    requires m > 0
  {
    if a >= 0 then a % m else -((-a) % m)
  }

  predicate Legal(c: char) { '0' <= c <= '9' || 'a' <= c <= 'z' || 'A' <= c <= 'Z' }

  function First(c: char): char { if '0' <= c <= '9' then '0' else if 'a' <= c <= 'z' then 'a' else 'A' }
  function Size(c: char): int { if '0' <= c <= '9' then 10 else 26 }

  function EncodeChar(c: char, key: int): char
    requires Legal(c)
  {
    (Remainder(c as int - First(c) as int + key, Size(c)) + First(c) as int) as char
  }

  // The loop that adds the base makes the dividend non-negative first.
  function DecodeChar(c: char, key: int): char
    requires Legal(c)
  {
    ((c as int - First(c) as int - key) % Size(c) + First(c) as int) as char
  }

  predicate AllLegal(s: string) { forall i | 0 <= i < |s| :: Legal(s[i]) }

  const ILLCHAR := "ILLCHAR"

  function Cipher(s: string, key: int): string
  {
    if AllLegal(s) then seq(|s|, i requires 0 <= i < |s| => EncodeChar(s[i], key)) else ILLCHAR
  }

  // decode gives up at the first character it cannot decode, and leaves the rest as it is.
  function Decipher(s: string, key: int): (r: string)
    ensures |r| == |s|
  {
    if s == [] || !Legal(s[0]) then s else [DecodeChar(s[0], key)] + Decipher(s[1..], key)
  }

  // encode: in place; None is the constant "ILLCHAR", and then the string is left half encoded.
  method Encode(text: array<char>, key: int) returns (r: Option<array<char>>)
    modifies text
    ensures if AllLegal(old(text[..])) then r == Some(text) && text[..] == Cipher(old(text[..]), key) else r == None
  {
    ghost var plain := text[..];
    var i := 0;
    while i < text.Length
      invariant i <= text.Length && text[i..] == plain[i..]
      invariant AllLegal(plain[..i])
      invariant forall j | 0 <= j < i :: text[j] == EncodeChar(plain[j], key)
    {
      var c := text[i];
      assert c == plain[i];
      if !Legal(c) {
        return None;
      }
      text[i] := EncodeChar(c, key);
      i := i + 1;
    }
    assert plain[..i] == plain;
    return Some(text);
  }

  lemma DecipherStep(done: string, rest: string, key: int)
    requires rest != [] && Legal(rest[0])
    ensures done + Decipher(rest, key) == (done + [DecodeChar(rest[0], key)]) + Decipher(rest[1..], key)
  {
  }

  // decode: in place, up to the first character that is not legal.
  method Decode(text: array<char>, key: int)
    modifies text
    ensures text[..] == Decipher(old(text[..]), key)
  {
    hide DecodeChar, Legal;
    ghost var cipher := text[..];
    var i := 0;
    assert cipher[0..] == cipher;
    while i < text.Length
      invariant i <= text.Length && text[i..] == cipher[i..]
      invariant Decipher(cipher, key) == text[..i] + Decipher(cipher[i..], key)
    {
      ghost var done, rest := text[..i], cipher[i..];
      assert text[i] == text[i..][0];
      var c := text[i];
      if !Legal(c) {
        assert text[..] == done + rest;
        return;
      }
      DecipherStep(done, rest, key);
      text[i] := DecodeChar(c, key);
      i := i + 1;
      assert text[..i] == done + [DecodeChar(c, key)] && rest[1..] == cipher[i..];
    }
    assert text[..] == text[..i];
  }

  // Whether the shifted character stays in its own alphabet in spite of C's signed remainder.
  predicate Fits(c: char, key: int)
  {
    c as int - First(c) as int + key >= 0 || (c as int - First(c) as int + key) % Size(c) == 0
  }

  lemma CharRoundTrip(c: char, key: int)
    requires Legal(c)
    ensures Fits(c, key) ==> Legal(EncodeChar(c, key)) && DecodeChar(EncodeChar(c, key), key) == c
    ensures !Fits(c, key) && Legal(EncodeChar(c, key)) ==> DecodeChar(EncodeChar(c, key), key) != c
  {
    hide DecodeChar;
    var v, m := c as int - First(c) as int, Size(c);
    if Fits(c, key) {
      ShiftedBack(v, key, m);
      var e := EncodeChar(c, key);
      assert e as int == First(c) as int + (v + key) % m;
      SameAlphabet(e, c);
      DecodedChar(e, key);
    } else if Legal(EncodeChar(c, key)) {
      var e := EncodeChar(c, key);
      assert (e as int) < First(c) as int;
      DecodedChar(e, key);
      assert First(e) != First(c);
    }
  }

  lemma ShiftedBack(v: int, key: int, m: int)
    requires 0 <= v < m && (m == 10 || m == 26)
    ensures ((v + key) % m - key) % m == v
    ensures v + key < 0 && (v + key) % m == 0 ==> Remainder(v + key, m) == 0
  {
    if m == 10 {
      ShiftedBackTen(v, key);
    } else {
      ShiftedBackAlphabet(v, key);
    }
    if v + key < 0 && (v + key) % m == 0 {
      Negated(v + key, m);
    }
  }

  lemma ShiftedBackTen(v: int, key: int)
    requires 0 <= v < 10
    ensures ((v + key) % 10 - key) % 10 == v
  {
    var q := (v + key) / 10;
    var x := (v + key) % 10 - key;
    assert x == v - 10 * q;
    assert x == 10 * (x / 10) + x % 10;
  }

  lemma ShiftedBackAlphabet(v: int, key: int)
    requires 0 <= v < 26
    ensures ((v + key) % 26 - key) % 26 == v
  {
    var q := (v + key) / 26;
    var x := (v + key) % 26 - key;
    assert x == v - 26 * q;
    assert x == 26 * (x / 26) + x % 26;
  }

  lemma Negated(a: int, m: int)
    requires a < 0 && (m == 10 || m == 26) && a % m == 0
    ensures (-a) % m == 0
  {
    if m == 10 {
      NegatedTen(a);
    } else {
      NegatedAlphabet(a);
    }
  }

  lemma NegatedTen(a: int)
    requires a % 10 == 0
    ensures (-a) % 10 == 0
  {
    var q, p, r := a / 10, (-a) / 10, (-a) % 10;
    assert a == 10 * q && -a == 10 * p + r;
    assert r == 10 * (-q - p);
  }

  lemma NegatedAlphabet(a: int)
    requires a % 26 == 0
    ensures (-a) % 26 == 0
  {
    var q, p, r := a / 26, (-a) / 26, (-a) % 26;
    assert a == 26 * q && -a == 26 * p + r;
    assert r == 26 * (-q - p);
  }

  lemma SameAlphabet(e: char, c: char)
    requires Legal(c) && 0 <= e as int - First(c) as int < Size(c)
    ensures Legal(e) && First(e) == First(c) && Size(e) == Size(c)
  {
  }

  lemma DecodedChar(e: char, key: int)
    requires Legal(e)
    ensures DecodeChar(e, key) as int == (e as int - First(e) as int - key) % Size(e) + First(e) as int
    ensures Legal(DecodeChar(e, key)) && First(DecodeChar(e, key)) == First(e)
  {
  }

  // The smallest loss: 'a' shifted back by one leaves the alphabet and does not come back.
  lemma BackwardKeyLosesA()
    ensures Cipher("a", -1) == "`" == Decipher(Cipher("a", -1), -1)
  {
    assert EncodeChar('a', -1) == '`' && !Legal('`');
    assert Cipher("a", -1) == ['`'];
  }

  // Decoding undoes encoding exactly for the keys that keep every character in its own alphabet;
  // in particular for every key that is not negative.
  lemma {:induction false} DecipherCipher(s: string, key: int)
    requires AllLegal(s)
    ensures Decipher(Cipher(s, key), key) == s <==> forall i | 0 <= i < |s| :: Fits(s[i], key)
  {
    if s != [] {
      var c := Cipher(s, key);
      assert c[1..] == Cipher(s[1..], key);
      CharRoundTrip(s[0], key);
      DecipherCipher(s[1..], key);
      assert s == [s[0]] + s[1..];
    }
  }

  // ---------- The cipher, character by character ----------

  // c is one of the size characters from first on.
  predicate In(c: char, first: char, size: int) { 0 <= c as int - first as int < size }

  // Every character of a legal string moves on by the key among the 10 digits, the 26 small or the 26
  // capital letters that it belongs to; only a step back over the first one leaves them.
  lemma CipherMoves(s: string, key: int, i: nat, first: char, size: int)
    requires i < |s| && AllLegal(s) && (first, size) in {('0', 10), ('a', 26), ('A', 26)} && In(s[i], first, size)
    ensures |Cipher(s, key)| == |s|
    ensures (Cipher(s, key)[i] as int - s[i] as int - key) % size == 0
    ensures if s[i] as int - first as int + key >= 0 then In(Cipher(s, key)[i], first, size)
            else -size < Cipher(s, key)[i] as int - first as int <= 0
  {
    var v := s[i] as int - first as int;
    assert First(s[i]) == first && Size(s[i]) == size;
    Moved(v, key, size);
    assert Cipher(s, key)[i] as int == Remainder(v + key, size) + first as int;
  }

  lemma Moved(v: int, key: int, size: int)
    requires size == 10 || size == 26
    ensures (Remainder(v + key, size) - v - key) % size == 0
    ensures if v + key >= 0 then 0 <= Remainder(v + key, size) < size else -size < Remainder(v + key, size) <= 0
  {
    hide Remainder;
    if size == 10 {
      MovedTen(v + key);
    } else {
      MovedAlphabet(v + key);
    }
  }

  lemma MovedTen(a: int)
    ensures (Remainder(a, 10) - a) % 10 == 0
    ensures if a >= 0 then 0 <= Remainder(a, 10) < 10 else -10 < Remainder(a, 10) <= 0
  {
    var q, r := if a >= 0 then a / 10 else -((-a) / 10), Remainder(a, 10);
    assert a == 10 * q + r;
    hide Remainder;
    assert r - a == 10 * (-q);
  }

  lemma MovedAlphabet(a: int)
    ensures (Remainder(a, 26) - a) % 26 == 0
    ensures if a >= 0 then 0 <= Remainder(a, 26) < 26 else -26 < Remainder(a, 26) <= 0
  {
    var q, r := if a >= 0 then a / 26 else -((-a) / 26), Remainder(a, 26);
    assert a == 26 * q + r;
    hide Remainder;
    assert r - a == 26 * (-q);
  }

  // Deciphering moves every character back by the key, up to the first one that is not legal.
  lemma {:induction false} DecipherMoves(s: string, key: int, i: nat, first: char, size: int)
    requires i < |s| && (first, size) in {('0', 10), ('a', 26), ('A', 26)} && In(s[i], first, size)
    ensures AllLegal(s[..i]) ==>
              In(Decipher(s, key)[i], first, size) && (Decipher(s, key)[i] as int - s[i] as int + key) % size == 0
    ensures !AllLegal(s[..i]) ==> Decipher(s, key)[i] == s[i]
    decreases |s|
  {
    assert First(s[i]) == first && Size(s[i]) == size;
    if i == 0 {
      MovedBack(s[0] as int - first as int, key, size);
    } else {
      assert s[1..][i - 1] == s[i] && s[..i][1..] == s[1..][..i - 1] && s[..i] == [s[0]] + s[..i][1..];
      DecipherMoves(s[1..], key, i - 1, first, size);
    }
  }

  lemma MovedBack(v: int, key: int, size: int)
    requires size == 10 || size == 26
    ensures 0 <= (v - key) % size < size && ((v - key) % size - v + key) % size == 0
  {
    var a := v - key;
    if size == 10 {
      assert a % 10 - a == 10 * (-(a / 10));
    } else {
      assert a % 26 - a == 26 * (-(a / 26));
    }
  }
}
