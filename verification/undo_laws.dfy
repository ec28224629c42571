/**
  What the interpreter of the ciphered queue is for, said of the texts that go in and the lines that
  come out: a queue hands out its strings in the order they were put in, one for each dequeue.
  */
module UndoLaws {
  import opened Wrappers
  import opened LinkedQueue
  import opened UndoHistory

  // ---------- Counting in and out ----------

  // The strings that the commands put in, in order.
  function Texts(cmds: seq<Command>): seq<string>
  {
    if cmds == [] then []
    else
      var n := |cmds| - 1;
      Texts(cmds[..n]) +
        match cmds[n]
        case EncodeEnqueue(key, data) => [Cipher(data, key)]
        case Enqueue(data) => [data]
        case _ => []
  }

  predicate Takes(c: Command) { c.Dequeue? || c.DequeueDecode? }

  // How many strings have been taken out: one for each dequeue that found one.
  function Taken(cmds: seq<Command>): nat
  {
    if cmds == [] then 0
    else
      var n := |cmds| - 1;
      var before := Taken(cmds[..n]);
      if Takes(cmds[n]) && before < |Texts(cmds[..n])| then before + 1 else before
  }

  // How many commands print a line.
  function Takers(cmds: seq<Command>): nat
  {
    if cmds == [] then 0 else Takers(cmds[..|cmds| - 1]) + (if Takes(cmds[|cmds| - 1]) then 1 else 0)
  }

  // The commands at the given positions.
  function Pick(cmds: seq<Command>, k: seq<nat>): seq<Command>
    requires Within(cmds, k)
  {
    if k == [] then [] else Pick(cmds, k[..|k| - 1]) + [cmds[k[|k| - 1]]]
  }

  // ---------- The live queue ----------

  lemma {:induction false} ReplayConserves(cmds: seq<Command>, k: seq<nat>)
    requires Within(cmds, k)
    ensures var done := Pick(cmds, k);
      Taken(done) <= |Texts(done)| && Replay(cmds, k) == Texts(done)[Taken(done)..]
    decreases |k|
  {
    if k != [] {
      var before, c := Pick(cmds, k[..|k| - 1]), cmds[k[|k| - 1]];
      ReplayConserves(cmds, k[..|k| - 1]);
      OneCommandMore(before, c);
      hide Texts, Taken, Cipher, Decipher;
    }
  }

  lemma OneCommandMore(before: seq<Command>, c: Command)
    ensures Texts(before + [c]) == Texts(before) +
      if c.EncodeEnqueue? then [Cipher(c.data, c.key)] else if c.Enqueue? then [c.data] else []
    ensures Taken(before + [c]) == Taken(before) + if Takes(c) && Taken(before) < |Texts(before)| then 1 else 0
  {
    hide Cipher;
    assert (before + [c])[..|before|] == before;
  }

  // The commands that undo has left over.
  function Lasting(cmds: seq<Command>): seq<Command>
  {
    KeptWithin(cmds);
    Pick(cmds, Kept(cmds))
  }

  // Conservation: the strings taken out and then the live queue are exactly the strings put in, in
  // order, by the commands that have not been undone.
  lemma QueueConserves(cmds: seq<Command>)
    ensures var done, live := Lasting(cmds), Stack(cmds)[|Stack(cmds)| - 1];
      Taken(done) <= |Texts(done)| && Texts(done)[..Taken(done)] + live == Texts(done)
  {
    hide Stack, Kept, Texts, Taken, Pick, Replay;
    KeptWithin(cmds);
    UndoMeansNeverDone(cmds);
    ReplayConserves(cmds, Kept(cmds));
  }

  lemma {:induction false} PickInit(cmds: seq<Command>, k: seq<nat>)
    requires cmds != [] && Within(cmds[..|cmds| - 1], k)
    ensures Within(cmds, k) && Pick(cmds[..|cmds| - 1], k) == Pick(cmds, k)
    decreases |k|
  {
    if k != [] {
      PickInit(cmds, k[..|k| - 1]);
    }
  }

  // Without undo every command is left over.
  lemma {:induction false} NothingUndone(cmds: seq<Command>)
    requires forall c | c in cmds :: !c.Undo?
    ensures Lasting(cmds) == cmds
  {
    if cmds != [] {
      var n := |cmds| - 1;
      var init, k := cmds[..n], Kept(cmds[..n]);
      assert cmds[n] in cmds;
      NothingUndone(init);
      KeptWithin(init);
      KeptWithin(cmds);
      PickInit(cmds, k);
      assert (k + [n])[..|k|] == k;
      assert cmds == init + [cmds[n]];
    }
  }

  // ---------- What is printed ----------

  // What a dequeue prints when the given commands are in effect.
  lemma OutputExact(cmds: seq<Command>, c: Command)
    ensures var done := Lasting(cmds);
      Output(Stack(cmds), c) ==
        if !Takes(c) then None
        else if Taken(done) >= |Texts(done)| then Some("NULL")
        else
          var s := Texts(done)[Taken(done)];
          Some(if c.Dequeue? || s == "ILLCHAR" then s else Decipher(s, c.key))
  {
    hide Stack, Lasting, Texts, Taken, Cipher, Decipher;
    QueueConserves(cmds);
    var done, live := Lasting(cmds), Stack(cmds)[|Stack(cmds)| - 1];
    SplitAt(Texts(done), Taken(done), live);
  }

  lemma SplitAt(all: seq<string>, n: nat, live: seq<string>)
    requires n <= |all| && all[..n] + live == all
    ensures live == [] <==> n == |all|
    ensures n < |all| ==> live[0] == all[n]
  {
    assert |live| == |all| - n;
    assert n < |all| ==> (all[..n] + live)[n] == live[0];
  }

  // One line for each dequeue, in order: the next string in line among those put in and not undone,
  // deciphered where that is asked for and possible, or NULL exactly when none is left.
  lemma {:induction false} PrintedExactly(cmds: seq<Command>, i: nat)
    requires i < |cmds| && Takes(cmds[i])
    ensures |Outputs(cmds)| == Takers(cmds) && Takers(cmds[..i]) < Takers(cmds)
    ensures var done, line := Lasting(cmds[..i]), Outputs(cmds)[Takers(cmds[..i])];
      if Taken(done) >= |Texts(done)| then line == "NULL"
      else
        var s := Texts(done)[Taken(done)];
        line == if cmds[i].Dequeue? || s == "ILLCHAR" then s else Decipher(s, cmds[i].key)
    decreases |cmds|
  {
    var n := |cmds| - 1;
    hide Stack, Lasting, Texts, Taken, Output, Decipher;
    OutputsCount(cmds[..n]);
    OutputExact(cmds[..n], cmds[n]);
    if i < n {
      PrintedExactly(cmds[..n], i);
      assert cmds[..n][..i] == cmds[..i];
    }
  }

  lemma {:induction false} OutputsCount(cmds: seq<Command>)
    ensures |Outputs(cmds)| == Takers(cmds)
  {
    if cmds != [] {
      var n := |cmds| - 1;
      hide Stack, Lasting, Texts, Taken, Output, Decipher;
      OutputsCount(cmds[..n]);
      OutputExact(cmds[..n], cmds[n]);
    }
  }

  // ---------- What is typed ----------

  function Digits(n: nat): string
  {
    (if n < 10 then "" else Digits(n / 10)) + [('0' as int + n % 10) as char]
  }

  function Decimal(k: int): string { if k < 0 then "-" + Digits(-k) else Digits(k) }

  // How each command is typed.
  function Spelled(c: Command): seq<string>
    requires !c.Unknown?
  {
    match c
    case EncodeEnqueue(key, data) => ["encode_enqueue", Decimal(key), data]
    case DequeueDecode(key) => ["dequeue_decode", Decimal(key)]
    case Enqueue(data) => ["enqueue", data]
    case Dequeue => ["dequeue"]
    case Undo => ["undo"]
  }

  predicate AllDigits(s: string) { forall i | 0 <= i < |s| :: IsDigit(s[i]) }

  lemma {:induction false} NumberSnoc(s: string, d: char, acc: int)
    requires AllDigits(s) && IsDigit(d)
    ensures Number(s + [d], acc) == 10 * Number(s, acc) + (d as int - '0' as int)
  {
    if s == [] {
      assert s + [d] == [d];
      assert Number([d][1..], 10 * acc + (d as int - '0' as int)) == 10 * acc + (d as int - '0' as int);
    } else {
      assert (s + [d])[1..] == s[1..] + [d];
      NumberSnoc(s[1..], d, 10 * acc + (s[0] as int - '0' as int));
    }
  }

  lemma {:induction false} DigitsRead(n: nat)
    ensures Digits(n) != "" && AllDigits(Digits(n)) && Number(Digits(n), 0) == n
  {
    var d := ('0' as int + n % 10) as char;
    var more := if n < 10 then "" else Digits(n / 10);
    if n >= 10 {
      DigitsRead(n / 10);
    }
    NumberSnoc(more, d, 0);
    assert Digits(n) == more + [d];
  }

  lemma DecimalRead(k: int)
    ensures Atoi(Decimal(k)) == k
  {
    DigitsRead(if k < 0 then -k else k);
    if k < 0 {
      assert ("-" + Digits(-k))[1..] == Digits(-k);
    } else {
      assert IsDigit(Digits(k)[0]);
    }
  }

  // A typed command is accepted and means what was typed, whatever follows it on the line.
  lemma TypedIsMeant(c: Command, more: seq<string>)
    requires !c.Unknown?
    ensures Check(Spelled(c) + more) && Meaning(Spelled(c) + more) == c
  {
    hide Decimal, Atoi;
    if c.EncodeEnqueue? || c.DequeueDecode? {
      DecimalRead(c.key);
    }
  }

  // A line is rejected exactly when its command lacks arguments; any other first word does nothing.
  lemma RejectedExactly(argv: seq<string>)
    requires argv != []
    ensures !Check(argv) <==>
              |argv| < (if argv[0] == "encode_enqueue" then 3
                        else if argv[0] in {"dequeue_decode", "enqueue"} then 2 else 1)
    ensures argv[0] !in {"encode_enqueue", "dequeue_decode", "enqueue", "dequeue", "undo"} ==>
              Check(argv) && Meaning(argv) == Unknown
  {
  }
}
