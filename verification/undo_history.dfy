/**
  The interpreter of the ciphered queue: every valid command works on a fresh copy of the newest
  queue, and undo drops the newest copy.
*/
module UndoHistory {
  import opened Wrappers
  import opened LinkedQueue

  const CAPACITY := 50000

  // ---------- Commands ----------

  datatype Command =
    | EncodeEnqueue(key: int, data: string)
    | DequeueDecode(key: int)
    | Enqueue(data: string)
    | Dequeue
    | Undo
    | Unknown                 // any other word is accepted, and does nothing but take a snapshot

  predicate IsDigit(c: char) { '0' <= c <= '9' }
  predicate IsSpace(c: char) { c == ' ' || 9 <= c as int <= 13 }

  function Number(s: string, acc: int): int
  {
    if s == [] || !IsDigit(s[0]) then acc else Number(s[1..], 10 * acc + (s[0] as int - '0' as int))
  }

  // atoi, without its range
  function Atoi(s: string): int
  {
    if s == [] then 0
    else if IsSpace(s[0]) then Atoi(s[1..])
    else if s[0] == '-' then -Number(s[1..], 0)
    else if s[0] == '+' then Number(s[1..], 0)
    else Number(s, 0)
  }

  // check_cmd
  predicate Check(argv: seq<string>)
    requires argv != []
  {
    && (argv[0] == "encode_enqueue" ==> |argv| >= 3)
    && (argv[0] == "dequeue_decode" ==> |argv| >= 2)
    && (argv[0] == "enqueue" ==> |argv| >= 2)
  }

  function Meaning(argv: seq<string>): Command
    requires argv != [] && Check(argv)
  {
    if argv[0] == "encode_enqueue" then EncodeEnqueue(Atoi(argv[1]), argv[2])
    else if argv[0] == "dequeue_decode" then DequeueDecode(Atoi(argv[1]))
    else if argv[0] == "enqueue" then Enqueue(argv[1])
    else if argv[0] == "dequeue" then Dequeue
    else if argv[0] == "undo" then Undo
    else Unknown
  }

  // ---------- One command on one queue ----------

  type Line = Option<string>   // a printed line, if any

  function Effect(q: seq<string>, c: Command): (seq<string>, Line)
  {
    match c
    case EncodeEnqueue(key, data) => (q + [Cipher(data, key)], None)
    case DequeueDecode(key) =>
      if q == [] then (q, Some("NULL"))
      else (q[1..], Some(if q[0] == ILLCHAR then q[0] else Decipher(q[0], key)))
    case Enqueue(data) => (q + [data], None)
    case Dequeue => if q == [] then (q, Some("NULL")) else (q[1..], Some(q[0]))
    case Undo => (q, None)
    case Unknown => (q, None)
  }

  // The stack of snapshots: undo drops the newest unless it is the only one.
  function Step(stack: seq<seq<string>>, c: Command): (r: seq<seq<string>>)
    requires stack != []
    ensures r != []
  {
    if c.Undo? then (if |stack| > 1 then stack[..|stack| - 1] else stack)
    else stack + [Effect(stack[|stack| - 1], c).0]
  }

  function Output(stack: seq<seq<string>>, c: Command): Line
    requires stack != []
  {
    Effect(stack[|stack| - 1], c).1
  }

  function Stack(cmds: seq<Command>): (r: seq<seq<string>>)
    ensures r != []
  {
    if cmds == [] then [[]] else Step(Stack(cmds[..|cmds| - 1]), cmds[|cmds| - 1])
  }

  // ---------- Which commands are not undone ----------

  // From position i up to j: how many commands more than undos.
  function Balance(cmds: seq<Command>, i: nat, j: nat): int
    requires j <= |cmds|
    decreases j
  {
    if j <= i then 0 else Balance(cmds, i, j - 1) + (if cmds[j - 1].Undo? then -1 else 1)
  }

  // A command stays when at every later point more commands than undos have come from it on.
  predicate Stays(cmds: seq<Command>, i: nat)
  {
    i < |cmds| && forall j: nat | i < j <= |cmds| :: Balance(cmds, i, j) > 0
  }

  function Pop(k: seq<nat>): seq<nat> { if k == [] then k else k[..|k| - 1] }

  // The positions of the commands that stay, in order.
  function Kept(cmds: seq<Command>): seq<nat>
  {
    if cmds == [] then []
    else
      var n := |cmds| - 1;
      var k := Kept(cmds[..n]);
      if !cmds[n].Undo? then k + [n]
      else Pop(k)
  }

  lemma {:induction false} BalanceInit(cmds: seq<Command>, i: nat, j: nat)
    requires j < |cmds|
    ensures Balance(cmds[..|cmds| - 1], i, j) == Balance(cmds, i, j)
    decreases j
  {
    if j > i {
      BalanceInit(cmds, i, j - 1);
    }
  }

  // What one more command does to the balance of a position, and to whether it stays.
  lemma OneMore(cmds: seq<Command>, i: nat)
    requires i + 1 < |cmds|
    ensures Balance(cmds, i, |cmds|) ==
      Balance(cmds[..|cmds| - 1], i, |cmds| - 1) + (if cmds[|cmds| - 1].Undo? then -1 else 1)
    ensures Stays(cmds, i) <==> Stays(cmds[..|cmds| - 1], i) && Balance(cmds, i, |cmds|) > 0
  {
    var init := cmds[..|cmds| - 1];
    BalanceInit(cmds, i, |init|);
    if Stays(cmds, i) {
      forall j: nat | i < j <= |init| ensures Balance(init, i, j) > 0 {
        BalanceInit(cmds, i, j);
      }
    }
    if Stays(init, i) && Balance(cmds, i, |cmds|) > 0 {
      forall j: nat | i < j <= |cmds| ensures Balance(cmds, i, j) > 0 {
        if j < |cmds| {
          BalanceInit(cmds, i, j);
        }
      }
    }
  }

  lemma TheLast(cmds: seq<Command>)
    requires cmds != []
    ensures Balance(cmds, |cmds| - 1, |cmds|) == if cmds[|cmds| - 1].Undo? then -1 else 1
    ensures Stays(cmds, |cmds| - 1) <==> !cmds[|cmds| - 1].Undo?
  {
  }

  predicate Increasing(k: seq<nat>) { forall a, b | 0 <= a < b < |k| :: k[a] < k[b] }

  // The a-th kept position has balance |k| - a: the undos needed to get at it.
  predicate Counted(cmds: seq<Command>, k: seq<nat>)
  {
    forall a | 0 <= a < |k| :: Stays(cmds, k[a]) && Balance(cmds, k[a], |cmds|) == |k| - a
  }

  ghost predicate Covers(cmds: seq<Command>, k: seq<nat>)
  {
    forall i: nat :: Stays(cmds, i) ==> i in k
  }

  // The positions that undo leaves over are exactly those of the commands that stay.
  lemma {:induction false} KeptIsStays(cmds: seq<Command>)
    ensures Increasing(Kept(cmds)) && Counted(cmds, Kept(cmds)) && Covers(cmds, Kept(cmds))
    ensures forall i: nat :: i in Kept(cmds) <==> Stays(cmds, i)
    decreases |cmds|
  {
    if cmds != [] {
      var n := |cmds| - 1;
      KeptIsStays(cmds[..n]);
      if cmds[n].Undo? {
        PopCounted(cmds, Kept(cmds[..n]));
        PopCovers(cmds, Kept(cmds[..n]));
      } else {
        PushCounted(cmds, Kept(cmds[..n]));
        PushCovers(cmds, Kept(cmds[..n]));
      }
    }
  }

  lemma PushCounted(cmds: seq<Command>, k: seq<nat>)
    requires cmds != [] && !cmds[|cmds| - 1].Undo?
    requires Increasing(k) && Counted(cmds[..|cmds| - 1], k)
    ensures Increasing(k + [|cmds| - 1]) && Counted(cmds, k + [|cmds| - 1])
  {
    hide Stays, Balance;
    var n := |cmds| - 1;
    var r := k + [n];
    TheLast(cmds);
    forall a | 0 <= a < |k| ensures k[a] < n && Stays(cmds, k[a]) && Balance(cmds, k[a], |cmds|) == |r| - a {
      StaysInside(cmds[..n], k[a]);
      OneMore(cmds, k[a]);
    }
  }

  lemma PushCovers(cmds: seq<Command>, k: seq<nat>)
    requires cmds != [] && !cmds[|cmds| - 1].Undo? && Covers(cmds[..|cmds| - 1], k)
    ensures Covers(cmds, k + [|cmds| - 1])
  {
    hide Stays, Balance;
    var n := |cmds| - 1;
    forall i: nat | Stays(cmds, i) ensures i in k + [n] {
      StaysInside(cmds, i);
      if i < n {
        OneMore(cmds, i);
      }
    }
  }

  lemma PopCounted(cmds: seq<Command>, k: seq<nat>)
    requires cmds != [] && cmds[|cmds| - 1].Undo?
    requires Increasing(k) && Counted(cmds[..|cmds| - 1], k)
    ensures Increasing(Pop(k)) && Counted(cmds, Pop(k))
  {
    hide Stays, Balance;
    forall a | 0 <= a < |Pop(k)| ensures Stays(cmds, k[a]) && Balance(cmds, k[a], |cmds|) == |Pop(k)| - a {
      StaysInside(cmds[..|cmds| - 1], k[a]);
      OneMore(cmds, k[a]);
    }
  }

  lemma PopCovers(cmds: seq<Command>, k: seq<nat>)
    requires cmds != [] && cmds[|cmds| - 1].Undo?
    requires Counted(cmds[..|cmds| - 1], k) && Covers(cmds[..|cmds| - 1], k)
    ensures Covers(cmds, Pop(k))
  {
    hide Stays, Balance;
    var n := |cmds| - 1;
    TheLast(cmds);
    forall i: nat | Stays(cmds, i) ensures i in Pop(k) {
      StaysInside(cmds, i);
      OneMore(cmds, i);
      StaysPositive(cmds, i);
      var a :| 0 <= a < |k| && k[a] == i;
      assert Pop(k)[a] == i;
    }
  }

  lemma StaysPositive(cmds: seq<Command>, i: nat)
    requires Stays(cmds, i)
    ensures i < |cmds| && Balance(cmds, i, |cmds|) > 0
  {
  }

  lemma StaysInside(cmds: seq<Command>, i: nat)
    requires Stays(cmds, i)
    ensures i < |cmds|
  {
  }

  // Running only the commands at the given positions, from the empty queue.
  function Replay(cmds: seq<Command>, k: seq<nat>): seq<string>
    requires forall a | 0 <= a < |k| :: k[a] < |cmds|
  {
    if k == [] then [] else Effect(Replay(cmds, k[..|k| - 1]), cmds[k[|k| - 1]]).0
  }

  predicate Within(cmds: seq<Command>, k: seq<nat>) { forall a | 0 <= a < |k| :: k[a] < |cmds| }

  lemma {:induction false} ReplayInit(cmds: seq<Command>, k: seq<nat>)
    requires cmds != [] && Within(cmds[..|cmds| - 1], k)
    ensures Replay(cmds[..|cmds| - 1], k) == Replay(cmds, k)
    decreases |k|
  {
    if k != [] {
      ReplayInit(cmds, k[..|k| - 1]);
    }
  }

  lemma KeptWithin(cmds: seq<Command>)
    ensures Within(cmds, Kept(cmds))
  {
    KeptIsStays(cmds);
    forall a | 0 <= a < |Kept(cmds)| ensures Kept(cmds)[a] < |cmds| {
      StaysInside(cmds, Kept(cmds)[a]);
    }
  }

  // The j-th snapshot is what the first j commands that are not undone make of the empty queue; the
  // live queue is the last one.
  lemma {:induction false} StackIsReplay(cmds: seq<Command>)
    ensures Within(cmds, Kept(cmds)) && |Stack(cmds)| == |Kept(cmds)| + 1
    ensures forall j | 0 <= j <= |Kept(cmds)| :: Stack(cmds)[j] == Replay(cmds, Kept(cmds)[..j])
    decreases |cmds|
  {
    KeptWithin(cmds);
    if cmds != [] {
      var init, k, r := cmds[..|cmds| - 1], Kept(cmds[..|cmds| - 1]), Kept(cmds);
      StackIsReplay(init);
      forall j | 0 <= j <= |r| ensures Stack(cmds)[j] == Replay(cmds, r[..j]) {
        if j <= |k| {
          assert r[..j] == k[..j];
          ReplayInit(cmds, k[..j]);
        } else {
          assert r[..j] == r && r[..|r| - 1] == k && k[..|k|] == k;
          ReplayInit(cmds, k);
        }
      }
    }
  }

  // The live queue after any commands and undos is the one that only the commands not undone give.
  lemma UndoMeansNeverDone(cmds: seq<Command>)
    ensures Within(cmds, Kept(cmds))
    ensures Stack(cmds)[|Stack(cmds)| - 1] == Replay(cmds, Kept(cmds))
    ensures forall i: nat :: i in Kept(cmds) <==> Stays(cmds, i)
    ensures Increasing(Kept(cmds))
  {
    StackIsReplay(cmds);
    KeptIsStays(cmds);
    assert Kept(cmds)[..|Kept(cmds)|] == Kept(cmds);
  }

  // ---------- One command on one queue in memory ----------

  method StringOf(s: string) returns (a: array<char>)
    ensures fresh(a) && a[..] == s
  {
    a := new char[|s|](i requires 0 <= i < |s| => s[i]);
  }

  // encode_enqueue
  method EncodeAndEnqueue(q: Queue, plaintext: array<char>, key: int)
    requires q.Valid() && plaintext !in q.Repr
    modifies q.Repr, plaintext
    ensures q.Valid() && fresh(q.Repr - old(q.Repr)) && old(q.Repr) <= q.Repr
    ensures q.contents == old(q.contents) + [Cipher(old(plaintext[..]), key)]
  {
    var r := Encode(plaintext, key);
    if r.Some? {
      q.Enqueue(plaintext);
    } else {
      var illegal := StringOf(ILLCHAR);
      q.Enqueue(illegal);
    }
  }

  // dequeue_decode
  method DequeueAndDecode(q: Queue, key: int) returns (line: Line)
    requires q.Valid()
    modifies q.Repr
    ensures q.Valid() && q.Repr <= old(q.Repr)
    ensures (q.contents, line) == Effect(old(q.contents), DequeueDecode(key))
  {
    var pnode := q.Dequeue();
    if pnode == null {
      return Some("NULL");
    }
    if pnode.data[..] != ILLCHAR {
      Decode(pnode.data, key);
    }
    line := Some(pnode.data[..]);
  }

  // What process_line2 does to the fresh copy, apart from undo.
  method Perform(q: Queue, c: Command) returns (line: Line)
    requires q.Valid() && !c.Undo?
    modifies q.Repr
    ensures q.Valid() && fresh(q.Repr - old(q.Repr))
    ensures (q.contents, line) == Effect(old(q.contents), c)
  {
    line := None;
    if c.EncodeEnqueue? {
      var data := StringOf(c.data);
      EncodeAndEnqueue(q, data, c.key);
    } else if c.DequeueDecode? {
      line := DequeueAndDecode(q, c.key);
    } else if c.Enqueue? {
      var data := StringOf(c.data);
      q.Enqueue(data);
    } else if c.Dequeue? {
      var pnode := q.Dequeue();
      line := if pnode == null then Some("NULL") else Some(pnode.data[..]);
    }
  }

  // ---------- The snapshots ----------

  // No two snapshots share memory.
  ghost predicate Separate(regions: seq<set<object>>)
  {
    forall i, j | 0 <= i < j < |regions| :: regions[i] !! regions[j]
  }

  // The queue with all its nodes and strings makes up the region, and holds the text.
  ghost predicate Stored(q: Queue?, region: set<object>, text: seq<string>)
    reads region
  {
    q != null && q in region && q.Repr == region && q.Valid() && q.contents == text
  }

  lemma StoredQueue(q: Queue?, region: set<object>, text: seq<string>)
    requires Stored(q, region, text)
    ensures q != null && q in region && q.Repr == region && q.Valid() && q.contents == text
  {
  }

  lemma QueueStored(q: Queue)
    requires q.Valid()
    ensures Stored(q, q.Repr, q.contents)
  {
  }

  lemma SeparateSnoc(regions: seq<set<object>>, r: set<object>)
    requires Separate(regions) && forall i | 0 <= i < |regions| :: regions[i] !! r
    ensures Separate(regions + [r])
  {
  }

  lemma SeparateLast(regions: seq<set<object>>)
    requires Separate(regions) && regions != []
    ensures Separate(regions[..|regions| - 1])
    ensures forall i | 0 <= i < |regions| - 1 :: regions[i] !! regions[|regions| - 1]
  {
  }

  class History {
    const gq: array<Queue?>
    var nbrCmds: nat
    ghost var view: seq<seq<string>>        // what the snapshots hold
    ghost var regions: seq<set<object>>     // the memory of each snapshot

    ghost predicate Valid()
      reads this, gq, set o, i | 0 <= i < |regions| && o in regions[i] :: o
    {
      && gq.Length == CAPACITY && |view| == |regions| == nbrCmds + 1 <= CAPACITY
      && Separate(regions)
      && (forall i | 0 <= i <= nbrCmds :: this !in regions[i] && gq !in regions[i])
      && (forall i | 0 <= i <= nbrCmds :: Stored(gq[i], regions[i], view[i]))
    }

    constructor ()
      ensures Valid() && view == [[]] && fresh(gq) && forall i | 0 <= i < |regions| :: fresh(regions[i])
    {
      var q := new Queue();
      var a := new Queue?[CAPACITY](_ => null);
      a[0] := q;
      gq := a;
      nbrCmds := 0;
      view := [[]];
      regions := [q.Repr];
    }

    // A copy of the newest snapshot becomes the newest.
    method TakeSnapshot()
      requires Valid() && nbrCmds + 1 < CAPACITY
      modifies this, gq
      ensures Valid() && nbrCmds == old(nbrCmds) + 1
      ensures view == old(view) + [old(view)[old(nbrCmds)]]
      ensures fresh(regions[nbrCmds]) && regions == old(regions) + [regions[nbrCmds]]
    {
      hide Separate, Stored, Queue.Valid;
      StoredQueue(gq[nbrCmds], regions[nbrCmds], view[nbrCmds]);
      var q := gq[nbrCmds];
      var copy := CopyQueue(q);
      QueueStored(copy);
      SeparateSnoc(regions, copy.Repr);
      nbrCmds := nbrCmds + 1;
      gq[nbrCmds] := copy;
      view, regions := view + [copy.contents], regions + [copy.Repr];
    }

    // Half of an undo: the newest snapshot is emptied and forgotten.
    method DropSnapshot()
      requires Valid() && nbrCmds > 0
      modifies this, regions[nbrCmds]
      ensures Valid() && nbrCmds == old(nbrCmds) - 1
      ensures view == old(view)[..old(nbrCmds)] && regions == old(regions)[..old(nbrCmds)]
    {
      hide Separate, Stored, Queue.Valid;
      SeparateLast(regions);
      StoredQueue(gq[nbrCmds], regions[nbrCmds], view[nbrCmds]);
      FreeQueue(gq[nbrCmds]);
      nbrCmds := nbrCmds - 1;
      view, regions := view[..|view| - 1], regions[..|regions| - 1];
    }

    // The command on the newest snapshot; the others keep their memory and their contents.
    method OnTop(c: Command) returns (line: Line)
      requires Valid() && !c.Undo?
      modifies this, regions[nbrCmds]
      ensures Valid() && nbrCmds == old(nbrCmds)
      ensures view == old(view)[nbrCmds := Effect(old(view)[nbrCmds], c).0]
      ensures line == Effect(old(view)[nbrCmds], c).1
      ensures regions == old(regions)[nbrCmds := regions[nbrCmds]] && fresh(regions[nbrCmds] - old(regions[nbrCmds]))
    {
      hide Separate, Stored, Effect, Queue.Valid;
      SeparateLast(regions);
      StoredQueue(gq[nbrCmds], regions[nbrCmds], view[nbrCmds]);
      var q := gq[nbrCmds];
      ghost var base := regions[..nbrCmds];
      line := Perform(q, c);
      QueueStored(q);
      SeparateSnoc(base, q.Repr);
      view, regions := view[nbrCmds := q.contents], regions[nbrCmds := q.Repr];
      assert regions == base + [q.Repr];
    }

    // process_line2 on the words of one line. Only undo touches memory of an existing snapshot.
    method ProcessLine2(argv: seq<string>) returns (ret: int, line: Line)
      requires Valid() && nbrCmds + 1 < CAPACITY && argv != []
      modifies this, gq, if argv[0] == "undo" then regions[nbrCmds] else {}
      ensures Valid()
      ensures ret == if Check(argv) then 0 else 1
      ensures !Check(argv) ==> view == old(view) && regions == old(regions) && line == Some("ERROR")
      ensures Check(argv) ==> view == Step(old(view), Meaning(argv)) && line == Output(old(view), Meaning(argv))
      ensures forall i | 0 <= i < |regions| && i < |old(regions)| :: regions[i] == old(regions)[i]
      ensures forall i | |old(regions)| <= i < |regions| :: fresh(regions[i])
    {
      hide Separate, Stored, Queue.Valid, Effect;
      if !Check(argv) {
        return 1, Some("ERROR");
      }
      ghost var before := view;
      var c := Meaning(argv);
      TakeSnapshot();
      if c.Undo? {
        DropSnapshot();
        if nbrCmds > 0 {
          DropSnapshot();
        }
        UndoIsSilent(before[|before| - 1]);
        line := None;
      } else {
        line := OnTop(c);
      }
      ret := 0;
    }
  }

  lemma UndoIsSilent(q: seq<string>)
    ensures Effect(q, Undo).1 == None
  {
  }

  // ---------- A whole run ----------

  // The lines up to the first that is rejected, as commands.
  function Accepted(lines: seq<seq<string>>): seq<Command>
    requires forall i | 0 <= i < |lines| :: lines[i] != []
  {
    if lines == [] then []
    else
      var before := Accepted(lines[..|lines| - 1]);
      if |before| == |lines| - 1 && Check(lines[|lines| - 1]) then before + [Meaning(lines[|lines| - 1])] else before
  }

  // Everything the commands print.
  function Outputs(cmds: seq<Command>): seq<string>
  {
    if cmds == [] then []
    else
      var n := |cmds| - 1;
      match Output(Stack(cmds[..n]), cmds[n])
      case None => Outputs(cmds[..n])
      case Some(text) => Outputs(cmds[..n]) + [text]
  }

  lemma AcceptedIsPrefix(lines: seq<seq<string>>, i: nat)
    requires forall j | 0 <= j < |lines| :: lines[j] != []
    requires i < |lines|
    ensures |Accepted(lines[..i])| <= i && (|Accepted(lines[..i])| == i ==> |Accepted(lines)| >= i)
    ensures |Accepted(lines[..i])| < i ==> Accepted(lines) == Accepted(lines[..i])
    ensures |Accepted(lines[..i])| == i && !Check(lines[i]) ==> Accepted(lines) == Accepted(lines[..i])
  {
    assert lines[..|lines|] == lines;
    AcceptedUpTo(lines, i, |lines|);
  }

  lemma {:induction false} AcceptedUpTo(lines: seq<seq<string>>, i: nat, n: nat)
    requires forall j | 0 <= j < |lines| :: lines[j] != []
    requires i < n <= |lines|
    ensures |Accepted(lines[..i])| <= i && (|Accepted(lines[..i])| == i ==> |Accepted(lines[..n])| >= i)
    ensures |Accepted(lines[..i])| < i ==> Accepted(lines[..n]) == Accepted(lines[..i])
    ensures |Accepted(lines[..i])| == i && !Check(lines[i]) ==> Accepted(lines[..n]) == Accepted(lines[..i])
    decreases n
  {
    AcceptedLength(lines[..i]);
    assert lines[..n][..n - 1] == lines[..n - 1];
    if i < n - 1 {
      AcceptedUpTo(lines, i, n - 1);
    }
  }

  lemma {:induction false} AcceptedLength(lines: seq<seq<string>>)
    requires forall j | 0 <= j < |lines| :: lines[j] != []
    ensures |Accepted(lines)| <= |lines|
  {
    if lines != [] {
      AcceptedLength(lines[..|lines| - 1]);
    }
  }

  lemma NothingAccepted(lines: seq<seq<string>>)
    ensures lines[..0] == [] && Accepted([]) == [] && Stack([]) == [[]] && Outputs([]) == []
  {
  }

  // One more accepted line is one more step of the stack and of the output.
  lemma OneMoreAccepted(lines: seq<seq<string>>, i: nat)
    requires forall j | 0 <= j < |lines| :: lines[j] != []
    requires i < |lines| && |Accepted(lines[..i])| == i && Check(lines[i])
    ensures |Accepted(lines[..i + 1])| == i + 1
    ensures var done, c := Accepted(lines[..i]), Meaning(lines[i]);
      && Stack(Accepted(lines[..i + 1])) == Step(Stack(done), c)
      && Outputs(Accepted(lines[..i + 1])) ==
        match Output(Stack(done), c) case None => Outputs(done) case Some(text) => Outputs(done) + [text]
  {
    hide Effect, Check, Meaning, Step, Output;
    var done, c := Accepted(lines[..i]), Meaning(lines[i]);
    assert lines[..i + 1][..i] == lines[..i];
    assert Accepted(lines[..i + 1]) == done + [c];
    assert (done + [c])[..i] == done;
  }

  // main: run the lines until one is rejected, then print the live queue if none was.
  method ProcessFile(lines: seq<seq<string>>) returns (h: History, printed: seq<string>)
    requires forall i | 0 <= i < |lines| :: lines[i] != []
    requires forall i | 0 <= i < |lines| && |Accepted(lines[..i])| == i :: |Stack(Accepted(lines[..i]))| < CAPACITY
    ensures h.Valid() && h.view == Stack(Accepted(lines))
    ensures printed == Outputs(Accepted(lines)) +
      if |Accepted(lines)| < |lines| then ["ERROR"] else ["finally: " + Joined(h.view[|h.view| - 1]) + "\n"]
  {
    hide Separate, Stored, Queue.Valid, Effect, Check, Meaning, Step, Output, Accepted, Stack, Outputs;
    NothingAccepted(lines);
    h := new History();
    printed := [];
    var i := 0;
    while i < |lines|
      invariant i <= |lines| && fresh(h) && fresh(h.gq) && h.Valid()
      invariant forall k | 0 <= k < |h.regions| :: fresh(h.regions[k])
      invariant |Accepted(lines[..i])| == i
      invariant h.view == Stack(Accepted(lines[..i])) && printed == Outputs(Accepted(lines[..i]))
    {
      var ret, line := h.ProcessLine2(lines[i]);
      if ret != 0 {
        AcceptedIsPrefix(lines, i);
        return h, printed + ["ERROR"];
      }
      OneMoreAccepted(lines, i);
      printed := if line.Some? then printed + [line.value] else printed;
      i := i + 1;
    }
    assert lines[..i] == lines;
    StoredQueue(h.gq[h.nbrCmds], h.regions[h.nbrCmds], h.view[h.nbrCmds]);
    var text := PrintQueue(h.gq[h.nbrCmds]);
    return h, printed + [text];
  }
}
