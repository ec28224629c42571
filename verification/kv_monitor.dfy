/**
  The hand-written readers/writer monitor around the key-value store: any number of threads, one
  counter, one condition variable, and chain walks that take many steps.
  Each step below is one uninterrupted run under the mutex, or one step of work outside it.
  */
module KvMonitor {
  import opened Wrappers
  import opened KvTable

  datatype Op = OpRead(key: Key) | OpDump | OpWrite(key: Key, val: Val) | OpDelete(key: Key)
  datatype Result = Value(v: Option<Val>) | Contents(es: seq<Entry>) | Status(code: int) | Done

  // Outside the mutex a thread holds a place in the shared chains, never a copy of them.
  // hist index `at` is where an operation took effect; `called` is the length of hist at the call.
  datatype Thread =
    | Idle
    | Waiting(op: Op, called: nat)    // in pthread_cond_wait, not yet woken
    | Notified(op: Op, called: nat)   // woken, has to take the mutex and test again
    | Walking(op: Op, called: nat, pos: nat, at: nat)
    | Dumping(op: Op, called: nat, bucket: nat, pos: nat, out: seq<Entry>, at: nat)
    | Got(op: Op, called: nat, ret: Result, at: nat)   // a reader with its answer, ready to leave
    | Seeking(op: Op, called: nat, pos: nat)
    | Linked(op: Op, called: nat)                      // chain changed, counter not yet
    | Stored(op: Op, called: nat, ret: Result)         // a writer, ready to leave

  datatype Event = Event(tid: nat, op: Op, result: Result)
  datatype Return = Return(tid: nat, op: Op, result: Result, called: nat, at: nat, ended: nat)

  // hist and replies record what happened; no step depends on them.
  datatype State = State(active: int, table: Table, threads: seq<Thread>, hist: seq<Event>, replies: seq<Return>)

  predicate IsReader(op: Op) { op.OpRead? || op.OpDump? }

  // ---------- Sequential meaning ----------

  function Meaning(t: Table, op: Op): (r: (Result, Table))
    requires |t.buckets| == HB_MAX_SIZE
    ensures |r.1.buckets| == HB_MAX_SIZE
  {
    match op
    case OpRead(k) => (Value(KvTable.Read(t, k)), t)
    case OpDump => (Contents(Flat(t.buckets)), t)
    case OpWrite(k, v) => (Status(KvTable.Write(t, k, v).0), KvTable.Write(t, k, v).1)
    case OpDelete(k) => (Done, KvTable.Delete(t, k))
  }

  function Replay(h: seq<Event>): (t: Table)
    ensures |t.buckets| == HB_MAX_SIZE
  {
    if h == [] then KvTable.Init() else Meaning(Replay(h[..|h| - 1]), h[|h| - 1].op).1
  }

  // Every event has the result the operations before it give it.
  ghost predicate Legal(h: seq<Event>)
  {
    forall i | 0 <= i < |h| :: LegalAt(h, i)
  }

  ghost predicate LegalAt(h: seq<Event>, i: nat)
    requires i < |h|
  {
    h[i].result == Meaning(Replay(h[..i]), h[i].op).0
  }

  // ---------- Steps ----------

  datatype Action =
    | Call(tid: nat, op: Op)
    | Retest(tid: nat)
    | Spurious(tid: nat)            // pthread_cond_wait may return without a signal
    | Work(tid: nat)
    | Leave(tid: nat, woken: nat)   // woken: the thread a signal picks

  function NotifyAll(ts: seq<Thread>): (r: seq<Thread>)
    ensures |r| == |ts|
    ensures forall i | 0 <= i < |ts| :: r[i] == if ts[i].Waiting? then Notified(ts[i].op, ts[i].called) else ts[i]
  {
    if ts == [] then []
    else NotifyAll(ts[..|ts| - 1]) +
         [if ts[|ts| - 1].Waiting? then Notified(ts[|ts| - 1].op, ts[|ts| - 1].called) else ts[|ts| - 1]]
  }

  // Under the mutex: the test, then either to sleep or inside with the counter updated.
  function Enter(s: State, t: nat, op: Op, called: nat): State
    requires t < |s.threads| && |s.table.buckets| == HB_MAX_SIZE
  {
    if IsReader(op) then
      if s.active < 0 then s.(threads := s.threads[t := Waiting(op, called)])
      else
        s.(active := s.active + 1,
           hist := s.hist + [Event(t, op, Meaning(s.table, op).0)],
           threads := s.threads[t :=
             if op.OpRead? then Walking(op, called, 0, |s.hist|) else Dumping(op, called, 0, 0, [], |s.hist|)])
    else
      if s.active != 0 then s.(threads := s.threads[t := Waiting(op, called)])
      else s.(active := -1, threads := s.threads[t := Seeking(op, called, 0)])
  }

  // One step of work inside the monitor, on the shared table as it is at that moment; None when the
  // thread has nothing left to do there.
  function WorkStep(s: State, t: nat): Option<State>
    requires t < |s.threads| && |s.table.buckets| == HB_MAX_SIZE
  {
    match s.threads[t]
    case Walking(_, _, _, _) => Some(s.(threads := s.threads[t := WalkStep(s.table, s.threads[t])]))
    case Dumping(_, _, _, _, _, _) => Some(s.(threads := s.threads[t := DumpStep(s.table, s.threads[t])]))
    case Seeking(op, called, pos) => if IsReader(op) then None else Some(SeekStep(s, t))
    case Linked(op, called) =>
      if op.OpWrite? then
        Some(s.(table := s.table.(size := s.table.size + 1),
                threads := s.threads[t := Stored(op, called, Status(0))]))
      else
        Some(s.(table := s.table.(size := s.table.size - 1),
                threads := s.threads[t := Stored(op, called, Done)]))
    case _ => None
  }

  // kv_read: compare the key of the node the walk has come to, and follow next or take the value.
  function WalkStep(table: Table, th: Thread): Thread
    requires th.Walking? && |table.buckets| == HB_MAX_SIZE
  {
    if !th.op.OpRead? then Got(th.op, th.called, Value(None), th.at)
    else
      var c := table.buckets[Bucket(th.op.key)];
      if th.pos < |c| && c[th.pos].key != th.op.key then Walking(th.op, th.called, th.pos + 1, th.at)
      else Got(th.op, th.called, Value(if th.pos < |c| then Some(c[th.pos].val) else None), th.at)
  }

  // kv_dump: print the node the walk has come to, or go to the next bucket.
  function DumpStep(table: Table, th: Thread): Thread
    requires th.Dumping? && |table.buckets| == HB_MAX_SIZE
  {
    if th.bucket >= HB_MAX_SIZE then Got(th.op, th.called, Contents(th.out), th.at)
    else
      var c := table.buckets[th.bucket];
      if th.pos < |c| then Dumping(th.op, th.called, th.bucket, th.pos + 1, th.out + [c[th.pos]], th.at)
      else Dumping(th.op, th.called, th.bucket + 1, 0, th.out, th.at)
  }

  // kv_write and kv_delete: walk, then change the chain in place.
  function SeekStep(s: State, t: nat): State
    requires t < |s.threads| && |s.table.buckets| == HB_MAX_SIZE
    requires s.threads[t].Seeking? && !IsReader(s.threads[t].op)
  {
    var op, called, pos := s.threads[t].op, s.threads[t].called, s.threads[t].pos;
    var b := Bucket(op.key);
    var c := s.table.buckets[b];
    if pos < |c| && c[pos].key != op.key then s.(threads := s.threads[t := Seeking(op, called, pos + 1)])
    else if op.OpWrite? then
      if pos < |c| then
        s.(table := s.table.(buckets := s.table.buckets[b := c[pos := Entry(op.key, op.val)]]),
           threads := s.threads[t := Stored(op, called, Status(0))])
      else if s.table.size == TABLE_MAX then s.(threads := s.threads[t := Stored(op, called, Status(1))])
      else
        s.(table := s.table.(buckets := s.table.buckets[b := [Entry(op.key, op.val)] + c]),
           threads := s.threads[t := Linked(op, called)])
    else if pos < |c| then
      s.(table := s.table.(buckets := s.table.buckets[b := if pos == 0 then [] else c[..pos] + c[pos + 1..]]),
         threads := s.threads[t := Linked(op, called)])
    else s.(threads := s.threads[t := Stored(op, called, Done)])
  }

  predicate HasWaiter(s: State) { exists i :: 0 <= i < |s.threads| && s.threads[i].Waiting? }

  // Under the mutex: the counter is given back, sleepers are woken, and the call returns.
  function LeaveStep(s: State, t: nat, woken: nat): Option<State>
    requires t < |s.threads|
  {
    match s.threads[t]
    case Stored(op, called, ret) =>
      Some(State(0, s.table, NotifyAll(s.threads[t := Idle]), s.hist + [Event(t, op, ret)],
                 s.replies + [Return(t, op, ret, called, |s.hist|, |s.hist| + 1)]))
    case Got(_, _, _, _) => ReaderLeaves(s, t, woken)
    case _ => None
  }

  function ReaderLeaves(s: State, t: nat, woken: nat): Option<State>
    requires t < |s.threads| && s.threads[t].Got?
  {
    var th := s.threads[t];
    var ts := s.threads[t := Idle];
    var replies := s.replies + [Return(t, th.op, th.ret, th.called, th.at, |s.hist|)];
    if s.active - 1 == 0 && HasWaiter(s) then
      if woken < |ts| && ts[woken].Waiting? then
        Some(State(0, s.table, ts[woken := Notified(ts[woken].op, ts[woken].called)], s.hist, replies))
      else None
    else Some(State(s.active - 1, s.table, ts, s.hist, replies))
  }

  function Next(s: State, a: Action): Option<State>
    requires |s.table.buckets| == HB_MAX_SIZE
  {
    if a.tid >= |s.threads| then None
    else
      match a
      case Call(t, op) => if s.threads[t].Idle? then Some(Enter(s, t, op, |s.hist|)) else None
      case Retest(t) =>
        if s.threads[t].Notified? then Some(Enter(s, t, s.threads[t].op, s.threads[t].called)) else None
      case Spurious(t) =>
        if s.threads[t].Waiting?
        then Some(s.(threads := s.threads[t := Notified(s.threads[t].op, s.threads[t].called)])) else None
      case Work(t) => WorkStep(s, t)
      case Leave(t, woken) => LeaveStep(s, t, woken)
  }

  ghost predicate InitState(s: State)
  {
    && s.active == 0 && s.table == KvTable.Init() && s.hist == [] && s.replies == []
    && forall i | 0 <= i < |s.threads| :: s.threads[i].Idle?
  }

  // ---------- Counting threads ----------

  datatype Class = Out | Wait | Note | Reading | Writing

  function ClassOf(t: Thread): Class
  {
    match t
    case Idle => Out
    case Waiting(_, _) => Wait
    case Notified(_, _) => Note
    case Walking(_, _, _, _) => Reading
    case Dumping(_, _, _, _, _, _) => Reading
    case Got(_, _, _, _) => Reading
    case _ => Writing
  }

  function Count(ts: seq<Thread>, c: Class): nat
  {
    if ts == [] then 0 else Count(ts[..|ts| - 1], c) + (if ClassOf(ts[|ts| - 1]) == c then 1 else 0)
  }

  lemma {:induction false} CountUpdate(ts: seq<Thread>, i: nat, x: Thread, c: Class)
    requires i < |ts|
    ensures Count(ts[i := x], c) ==
              Count(ts, c) - (if ClassOf(ts[i]) == c then 1 else 0) + (if ClassOf(x) == c then 1 else 0)
  {
    var n := |ts| - 1;
    if i == n {
      assert ts[i := x][..n] == ts[..n];
    } else {
      CountUpdate(ts[..n], i, x, c);
      assert ts[i := x][..n] == ts[..n][i := x];
    }
  }

  lemma {:induction false} CountPositive(ts: seq<Thread>, c: Class)
    ensures Count(ts, c) > 0 <==> exists i :: 0 <= i < |ts| && ClassOf(ts[i]) == c
  {
    if ts != [] {
      var n := |ts| - 1;
      CountPositive(ts[..n], c);
      if i :| 0 <= i < n && ClassOf(ts[..n][i]) == c {
        assert ClassOf(ts[i]) == c;
      }
      if i :| 0 <= i < |ts| && ClassOf(ts[i]) == c {
        assert i < n ==> ClassOf(ts[..n][i]) == c;
      }
    }
  }

  lemma {:induction false} CountNotifyAll(ts: seq<Thread>, c: Class)
    ensures c == Out || c == Reading || c == Writing ==> Count(NotifyAll(ts), c) == Count(ts, c)
    ensures Count(NotifyAll(ts), Wait) == 0
    ensures Count(NotifyAll(ts), Note) == Count(ts, Wait) + Count(ts, Note)
  {
    if ts != [] {
      var n := |ts| - 1;
      CountNotifyAll(ts[..n], c);
      assert NotifyAll(ts)[..n] == NotifyAll(ts[..n]);
    }
  }

  // ---------- The invariant ----------

  // activeUsers says who is inside.
  ghost predicate ActiveOk(s: State)
  {
    || (s.active == -1 && Count(s.threads, Writing) == 1 && Count(s.threads, Reading) == 0)
    || (s.active >= 0 && Count(s.threads, Writing) == 0 && Count(s.threads, Reading) == s.active)
  }

  // No wakeup is lost: a free monitor with a sleeper has somebody awake, and a reader sleeps only
  // behind a writer.
  ghost predicate WakeOk(s: State)
  {
    && (s.active == 0 && Count(s.threads, Wait) > 0 ==> Count(s.threads, Note) > 0)
    && forall i | 0 <= i < |s.threads| && s.threads[i].Waiting? && IsReader(s.threads[i].op) :: s.active == -1
  }

  // What a thread inside knows about the shared table and the history.
  ghost predicate ThreadOk(th: Thread, i: nat, table: Table, hist: seq<Event>)
    requires |table.buckets| == HB_MAX_SIZE
  {
    match th
    case Idle => true
    case Waiting(_, called) => called <= |hist|
    case Notified(_, called) => called <= |hist|
    case Walking(op, called, pos, at) =>
      && op.OpRead? && Passed(table.buckets[Bucket(op.key)], pos, op.key)
      && called <= at < |hist| && hist[at] == Event(i, op, Meaning(table, op).0)
    case Dumping(op, called, b, pos, out, at) =>
      && op.OpDump? && b <= HB_MAX_SIZE && (b < HB_MAX_SIZE ==> pos <= |table.buckets[b]|)
      && out == Dumped(table.buckets, b, pos)
      && called <= at < |hist| && hist[at] == Event(i, op, Meaning(table, op).0)
    case Got(op, called, ret, at) =>
      IsReader(op) && called <= at < |hist| && hist[at] == Event(i, op, ret)
    case Seeking(op, called, pos) =>
      && !IsReader(op) && table == Replay(hist) && called <= |hist|
      && Passed(table.buckets[Bucket(op.key)], pos, op.key)
    case Linked(op, called) =>
      && !IsReader(op) && called <= |hist|
      && (op.OpWrite? ==> Meaning(Replay(hist), op) == (Status(0), table.(size := table.size + 1)))
      && (op.OpDelete? ==> Meaning(Replay(hist), op) == (Done, table.(size := table.size - 1)))
    case Stored(op, called, ret) =>
      !IsReader(op) && called <= |hist| && Meaning(Replay(hist), op) == (ret, table)
  }

  ghost predicate AllOk(ts: seq<Thread>, table: Table, hist: seq<Event>)
    requires |table.buckets| == HB_MAX_SIZE
  {
    forall i {:trigger ThreadOk(ts[i], i, table, hist)} | 0 <= i < |ts| :: ThreadOk(ts[i], i, table, hist)
  }

  // The walk has come to pos and the key was not in the part walked past.
  ghost predicate Passed(c: seq<Entry>, pos: nat, k: Key)
  {
    pos <= |c| && forall j | 0 <= j < pos :: c[j].key != k
  }

  // What a dump has printed when it stands at pos in bucket b.
  ghost function Dumped(bs: seq<seq<Entry>>, b: nat, pos: nat): seq<Entry>
    requires b <= |bs| && (b < |bs| ==> pos <= |bs[b]|)
  {
    Flat(bs[..b]) + (if b < |bs| then bs[b][..pos] else [])
  }

  // Each operation that returned gave the result of its place in the history, and that place lies
  // between its call and its return.
  ghost predicate RepliesOk(s: State)
  {
    forall r | 0 <= r < |s.replies| :: ReplyOk(s.replies[r], s.hist)
  }

  ghost predicate ReplyOk(r: Return, hist: seq<Event>)
  {
    r.called <= r.at < r.ended <= |hist| && hist[r.at] == Event(r.tid, r.op, r.result)
  }

  predicate InsideReader(th: Thread) { th.Walking? || th.Dumping? || th.Got? }

  // Every place in the history belongs to one operation: one that returned, or a reader still inside.
  ghost predicate HasReply(replies: seq<Return>, i: nat) { exists r :: 0 <= r < |replies| && replies[r].at == i }

  ghost predicate HasReader(ts: seq<Thread>, i: nat)
  {
    exists t :: 0 <= t < |ts| && InsideReader(ts[t]) && ts[t].at == i
  }

  ghost predicate Owned(ts: seq<Thread>, hist: seq<Event>, replies: seq<Return>)
  {
    && (forall r, q | 0 <= r < q < |replies| :: replies[r].at != replies[q].at)
    && (forall t, u | 0 <= t < u < |ts| && InsideReader(ts[t]) && InsideReader(ts[u]) :: ts[t].at != ts[u].at)
    && (forall t, r | 0 <= t < |ts| && 0 <= r < |replies| && InsideReader(ts[t]) :: ts[t].at != replies[r].at)
    && (forall i | 0 <= i < |hist| :: HasReply(replies, i) || HasReader(ts, i))
  }

  ghost predicate Inv(s: State)
  {
    && |s.table.buckets| == HB_MAX_SIZE
    && ActiveOk(s) && WakeOk(s)
    && AllOk(s.threads, s.table, s.hist)
    && (s.active >= 0 ==> s.table == Replay(s.hist))
    && Legal(s.hist) && RepliesOk(s)
    && Owned(s.threads, s.hist, s.replies) && |s.hist| == |s.replies| + Count(s.threads, Reading)
  }

  lemma {:induction false} CountAllIdle(ts: seq<Thread>, c: Class)
    requires forall i | 0 <= i < |ts| :: ts[i].Idle?
    ensures c != Out ==> Count(ts, c) == 0
  {
    if ts != [] {
      CountAllIdle(ts[..|ts| - 1], c);
    }
  }

  lemma InitInv(s: State)
    requires InitState(s)
    ensures Inv(s)
  {
    CountAllIdle(s.threads, Writing);
    CountAllIdle(s.threads, Reading);
    CountAllIdle(s.threads, Wait);
  }

  // ---------- Who owns which place in the history ----------

  // Changes that leave the readers inside, and their places, as they are.
  lemma SameOwners(ts: seq<Thread>, us: seq<Thread>, hist: seq<Event>, replies: seq<Return>)
    requires Owned(ts, hist, replies) && |us| == |ts|
    requires forall i | 0 <= i < |ts| ::
      InsideReader(us[i]) == InsideReader(ts[i]) && (InsideReader(ts[i]) ==> us[i].at == ts[i].at)
    ensures Owned(us, hist, replies)
  {
    forall i | 0 <= i < |hist| ensures HasReply(replies, i) || HasReader(us, i) {
      if !HasReply(replies, i) {
        var t :| 0 <= t < |ts| && InsideReader(ts[t]) && ts[t].at == i;
        assert InsideReader(us[t]) && us[t].at == i;
      }
    }
  }

  lemma SameOwner(ts: seq<Thread>, t: nat, x: Thread, hist: seq<Event>, replies: seq<Return>)
    requires Owned(ts, hist, replies) && t < |ts|
    requires InsideReader(x) == InsideReader(ts[t]) && (InsideReader(x) ==> x.at == ts[t].at)
    ensures Owned(ts[t := x], hist, replies)
  {
    hide Owned;
    SameOwners(ts, ts[t := x], hist, replies);
  }

  // A reader that enters takes the place it adds to the history.
  lemma OwnerEnters(ts: seq<Thread>, t: nat, x: Thread, hist: seq<Event>, e: Event, replies: seq<Return>)
    requires Owned(ts, hist, replies) && t < |ts| && !InsideReader(ts[t]) && InsideReader(x) && x.at == |hist|
    requires forall i | 0 <= i < |ts| && InsideReader(ts[i]) :: ts[i].at < |hist|
    requires forall r | 0 <= r < |replies| :: replies[r].at < |hist|
    ensures Owned(ts[t := x], hist + [e], replies)
  {
    var us := ts[t := x];
    assert us[t] == x;
    forall i | 0 <= i < |hist + [e]| ensures HasReply(replies, i) || HasReader(us, i) {
      if i < |hist| && !HasReply(replies, i) {
        var u :| 0 <= u < |ts| && InsideReader(ts[u]) && ts[u].at == i;
        assert us[u] == ts[u];
      }
    }
  }

  // A writer that leaves takes the place it adds to the history.
  lemma WriterOwns(ts: seq<Thread>, us: seq<Thread>, hist: seq<Event>, e: Event, replies: seq<Return>, r: Return)
    requires Owned(ts, hist, replies) && r.at == |hist|
    requires forall i | 0 <= i < |ts| :: !InsideReader(ts[i])
    requires forall i | 0 <= i < |us| :: !InsideReader(us[i])
    requires forall q | 0 <= q < |replies| :: replies[q].at < |hist|
    ensures Owned(us, hist + [e], replies + [r])
  {
    var more := replies + [r];
    assert more[|replies|] == r;
    forall i | 0 <= i < |hist + [e]| ensures HasReply(more, i) {
      if i < |hist| {
        assert HasReply(replies, i);
        var q :| 0 <= q < |replies| && replies[q].at == i;
        assert more[q].at == i;
      }
    }
  }

  // A reader that leaves hands its place on to its reply.
  lemma OwnerLeaves(ts: seq<Thread>, t: nat, hist: seq<Event>, replies: seq<Return>, r: Return)
    requires Owned(ts, hist, replies) && t < |ts| && InsideReader(ts[t]) && r.at == ts[t].at
    ensures Owned(ts[t := Idle], hist, replies + [r])
  {
    var us, more := ts[t := Idle], replies + [r];
    assert more[|replies|] == r;
    forall i | 0 <= i < |hist| ensures HasReply(more, i) || HasReader(us, i) {
      if HasReply(replies, i) {
        var q :| 0 <= q < |replies| && replies[q].at == i;
        assert more[q].at == i;
      } else {
        var u :| 0 <= u < |ts| && InsideReader(ts[u]) && ts[u].at == i;
        assert u != t ==> us[u] == ts[u];
      }
    }
  }

  lemma AtsInside(s: State)
    requires |s.table.buckets| == HB_MAX_SIZE && AllOk(s.threads, s.table, s.hist) && RepliesOk(s)
    ensures forall i | 0 <= i < |s.threads| && InsideReader(s.threads[i]) :: s.threads[i].at < |s.hist|
    ensures forall r | 0 <= r < |s.replies| :: s.replies[r].at < |s.hist|
  {
    hide Meaning;
    forall i | 0 <= i < |s.threads| && InsideReader(s.threads[i]) ensures s.threads[i].at < |s.hist| {
      assert ThreadOk(s.threads[i], i, s.table, s.hist);
    }
  }

  // ---------- Steps keep the invariant ----------

  lemma NoneInClass(ts: seq<Thread>, c: Class)
    requires Count(ts, c) == 0
    ensures forall i | 0 <= i < |ts| :: ClassOf(ts[i]) != c
  {
    CountPositive(ts, c);
  }

  // While a writer is inside, everybody else is outside.
  lemma Alone(s: State, t: nat)
    requires ActiveOk(s) && t < |s.threads| && ClassOf(s.threads[t]) == Writing
    ensures s.active == -1
    ensures forall j | 0 <= j < |s.threads| && j != t :: ClassOf(s.threads[j]) in {Out, Wait, Note}
  {
    CountPositive(s.threads, Writing);
    NoneInClass(s.threads, Reading);
    var ts := s.threads[t := Idle];
    CountUpdate(s.threads, t, Idle, Writing);
    NoneInClass(ts, Writing);
    forall j | 0 <= j < |s.threads| && j != t
      ensures ClassOf(s.threads[j]) in {Out, Wait, Note}
    {
      assert ts[j] == s.threads[j];
    }
  }

  lemma InsideCount(s: State, t: nat)
    requires ActiveOk(s) && t < |s.threads| && ClassOf(s.threads[t]) == Reading
    ensures s.active > 0
  {
    CountPositive(s.threads, Reading);
  }

  lemma LegalSnoc(h: seq<Event>, e: Event)
    requires Legal(h) && e.result == Meaning(Replay(h), e.op).0
    ensures Legal(h + [e]) && Replay(h + [e]) == Meaning(Replay(h), e.op).1
  {
    var g := h + [e];
    assert g[..|g| - 1] == h;
    forall i | 0 <= i < |g| ensures LegalAt(g, i) {
      if i < |h| {
        assert LegalAt(h, i);
        assert g[..i] == h[..i];
      }
    }
  }

  // What a thread knows survives a longer history if it is outside, or a reader of the same table.
  lemma ThreadFrame(th: Thread, i: nat, table: Table, hist: seq<Event>, table': Table, hist': seq<Event>)
    requires |table.buckets| == HB_MAX_SIZE == |table'.buckets| && hist <= hist' && ThreadOk(th, i, table, hist)
    requires ClassOf(th) in {Out, Wait, Note} || (ClassOf(th) == Reading && table' == table)
    ensures ThreadOk(th, i, table', hist')
  {
  }

  lemma OneThread(ts: seq<Thread>, t: nat, x: Thread, table: Table, hist: seq<Event>, table': Table, hist': seq<Event>)
    requires |table.buckets| == HB_MAX_SIZE == |table'.buckets| && hist <= hist' && t < |ts| && AllOk(ts, table, hist)
    requires ThreadOk(x, t, table', hist')
    requires forall j | 0 <= j < |ts| && j != t ::
               ClassOf(ts[j]) in {Out, Wait, Note} || (ClassOf(ts[j]) == Reading && table' == table)
    ensures AllOk(ts[t := x], table', hist')
  {
    hide ThreadOk;
    var us := ts[t := x];
    forall j | 0 <= j < |us|
      ensures ThreadOk(us[j], j, table', hist')
    {
      if j != t {
        assert ThreadOk(ts[j], j, table, hist);
        ThreadFrame(ts[j], j, table, hist, table', hist');
      }
    }
  }

  // The counts after one thread changed.
  lemma CountsAfter(ts: seq<Thread>, t: nat, x: Thread)
    requires t < |ts|
    ensures forall c :: Count(ts[t := x], c) ==
              Count(ts, c) - (if ClassOf(ts[t]) == c then 1 else 0) + (if ClassOf(x) == c then 1 else 0)
  {
    forall c
      ensures Count(ts[t := x], c) ==
        Count(ts, c) - (if ClassOf(ts[t]) == c then 1 else 0) + (if ClassOf(x) == c then 1 else 0)
    {
      CountUpdate(ts, t, x, c);
    }
  }

  // Entering, or failing the test and going to sleep.
  lemma EnterKeeps(s: State, t: nat, op: Op, called: nat)
    requires Inv(s) && t < |s.threads| && (s.threads[t].Idle? || s.threads[t].Notified?) && called <= |s.hist|
    ensures Inv(Enter(s, t, op, called))
  {
    if IsReader(op) && s.active >= 0 {
      ReaderEnters(s, t, op, called);
    } else if !IsReader(op) && s.active == 0 {
      WriterEnters(s, t, op, called);
    } else {
      hide ThreadOk, Legal, Replay, Count, Owned, RepliesOk;
      var x := Waiting(op, called);
      CountsAfter(s.threads, t, x);
      SameOwner(s.threads, t, x, s.hist, s.replies);
      Asleep(op, called, t, s.table, s.hist);
      OnlyThread(s.threads, t, x, s.table, s.hist);
    }
  }

  lemma OnlyThread(ts: seq<Thread>, t: nat, x: Thread, table: Table, hist: seq<Event>)
    requires |table.buckets| == HB_MAX_SIZE && t < |ts| && AllOk(ts, table, hist) && ThreadOk(x, t, table, hist)
    ensures AllOk(ts[t := x], table, hist)
  {
    hide ThreadOk;
    var us := ts[t := x];
    forall j | 0 <= j < |us|
      ensures ThreadOk(us[j], j, table, hist)
    {
      assert j != t ==> ThreadOk(ts[j], j, table, hist);
    }
  }

  lemma ReadersChangeNothing(t: Table, op: Op)
    requires |t.buckets| == HB_MAX_SIZE && IsReader(op)
    ensures Meaning(t, op).1 == t
  {
  }

  lemma Asleep(op: Op, called: nat, t: nat, table: Table, hist: seq<Event>)
    requires |table.buckets| == HB_MAX_SIZE && called <= |hist|
    ensures ThreadOk(Waiting(op, called), t, table, hist) && ThreadOk(Notified(op, called), t, table, hist)
  {
  }

  lemma ReaderEnters(s: State, t: nat, op: Op, called: nat)
    requires Inv(s) && t < |s.threads| && (s.threads[t].Idle? || s.threads[t].Notified?) && called <= |s.hist|
    requires IsReader(op) && s.active >= 0
    ensures Inv(Enter(s, t, op, called))
  {
    hide Legal, Replay, Count, Flat, Meaning, Owned;
    var s' := Enter(s, t, op, called);
    var x, e := s'.threads[t], Event(t, op, Meaning(s.table, op).0);
    NoneInClass(s.threads, Writing);
    ReadersChangeNothing(s.table, op);
    LegalSnoc(s.hist, e);
    CountsAfter(s.threads, t, x);
    AtsInside(s);
    OwnerEnters(s.threads, t, x, s.hist, e, s.replies);
    NothingDumped(s.table.buckets);
    assert ThreadOk(x, t, s'.table, s'.hist);
    hide ThreadOk;
    OneThread(s.threads, t, x, s.table, s.hist, s'.table, s'.hist);
  }

  lemma NothingDumped(bs: seq<seq<Entry>>)
    ensures Dumped(bs, 0, 0) == []
  {
  }

  lemma WriterEnters(s: State, t: nat, op: Op, called: nat)
    requires Inv(s) && t < |s.threads| && (s.threads[t].Idle? || s.threads[t].Notified?) && called <= |s.hist|
    requires !IsReader(op) && s.active == 0
    ensures Inv(Enter(s, t, op, called))
  {
    var s' := Enter(s, t, op, called);
    var x := s'.threads[t];
    NoneInClass(s.threads, Writing);
    CountsAfter(s.threads, t, x);
    hide Legal, Replay, Count, Meaning, Owned;
    SameOwner(s.threads, t, x, s.hist, s.replies);
    assert ThreadOk(x, t, s'.table, s'.hist);
    hide ThreadOk;
    OneThread(s.threads, t, x, s.table, s.hist, s'.table, s'.hist);
  }

  // ---------- Work inside ----------

  lemma WorkKeeps(s: State, t: nat)
    requires Inv(s) && t < |s.threads| && WorkStep(s, t).Some?
    ensures Inv(WorkStep(s, t).value)
  {
    hide Count, Legal, ThreadOk, WorkStep, Replay, Owned, Meaning, RepliesOk;
    var s', th := WorkStep(s, t).value, s.threads[t];
    assert ThreadOk(th, t, s.table, s.hist);
    StepOfOne(s, t);
    var x := s'.threads[t];
    CountsAfter(s.threads, t, x);
    SameOwner(s.threads, t, x, s.hist, s.replies);
    SameReplies(s, s');
    if ClassOf(th) == Writing {
      Alone(s, t);
      OneThread(s.threads, t, x, s.table, s.hist, s'.table, s'.hist);
    } else {
      InsideCount(s, t);
      OnlyThread(s.threads, t, x, s.table, s.hist);
    }
  }

  lemma SameReplies(s: State, s': State)
    requires RepliesOk(s) && s'.hist == s.hist && s'.replies == s.replies
    ensures RepliesOk(s')
  {
  }

  // What one step of work does: the moving thread keeps its knowledge and its place.
  lemma StepOfOne(s: State, t: nat)
    requires |s.table.buckets| == HB_MAX_SIZE && t < |s.threads| && WorkStep(s, t).Some?
    requires ThreadOk(s.threads[t], t, s.table, s.hist)
    ensures var s' := WorkStep(s, t).value;
      && |s'.table.buckets| == HB_MAX_SIZE && s'.threads == s.threads[t := s'.threads[t]]
      && s'.active == s.active && s'.hist == s.hist && s'.replies == s.replies
      && ClassOf(s'.threads[t]) == ClassOf(s.threads[t]) && ClassOf(s.threads[t]) in {Reading, Writing}
      && (ClassOf(s.threads[t]) == Reading ==> s'.table == s.table && s'.threads[t].at == s.threads[t].at)
      && ThreadOk(s'.threads[t], t, s'.table, s'.hist)
  {
    hide Replay, Meaning, ThreadOk;
    match s.threads[t]
    case Walking(_, _, _, _) => WalkKeeps(s.table, s.threads[t], t, s.hist);
    case Dumping(_, _, _, _, _, _) => DumpKeeps(s.table, s.threads[t], t, s.hist);
    case Seeking(_, _, _) => SeekKeeps(s, t);
    case Linked(_, _) => LinkedKeeps(s, t);
    case _ =>
  }

  // The walk stays behind the key, and what it ends with is the answer of the map.
  lemma WalkKeeps(table: Table, th: Thread, i: nat, hist: seq<Event>)
    requires |table.buckets| == HB_MAX_SIZE && th.Walking? && ThreadOk(th, i, table, hist)
    ensures ThreadOk(WalkStep(table, th), i, table, hist)
    ensures InsideReader(WalkStep(table, th)) && WalkStep(table, th).at == th.at
  {
    var c := table.buckets[Bucket(th.op.key)];
    if !(th.pos < |c| && c[th.pos].key != th.op.key) {
      IndexUnique(c, th.op.key, th.pos);
    }
  }

  lemma DumpKeeps(table: Table, th: Thread, i: nat, hist: seq<Event>)
    requires |table.buckets| == HB_MAX_SIZE && th.Dumping? && ThreadOk(th, i, table, hist)
    ensures ThreadOk(DumpStep(table, th), i, table, hist)
    ensures InsideReader(DumpStep(table, th)) && DumpStep(table, th).at == th.at
  {
    hide Flat;
    var bs := table.buckets;
    if th.bucket >= HB_MAX_SIZE {
      AllDumped(bs);
    } else if th.pos < |bs[th.bucket]| {
      OneDumped(bs, th.bucket, th.pos);
    } else {
      BucketDumped(bs, th.bucket);
    }
  }

  lemma AllDumped(bs: seq<seq<Entry>>)
    ensures Dumped(bs, |bs|, 0) == Flat(bs)
  {
    assert bs[..|bs|] == bs;
  }

  lemma OneDumped(bs: seq<seq<Entry>>, b: nat, pos: nat)
    requires b < |bs| && pos < |bs[b]|
    ensures Dumped(bs, b, pos + 1) == Dumped(bs, b, pos) + [bs[b][pos]]
  {
    hide Flat;
    assert bs[b][..pos + 1] == bs[b][..pos] + [bs[b][pos]];
  }

  lemma BucketDumped(bs: seq<seq<Entry>>, b: nat)
    requires b < |bs|
    ensures Dumped(bs, b + 1, 0) == Dumped(bs, b, |bs[b]|)
  {
    hide Flat;
    assert bs[..b + 1] == bs[..b] + [bs[b]];
    FlatSnoc(bs[..b], bs[b]);
    assert bs[b][..|bs[b]|] == bs[b];
    assert Flat(bs[..b + 1]) + [] == Flat(bs[..b + 1]);
  }

  lemma LinkedKeeps(s: State, t: nat)
    requires |s.table.buckets| == HB_MAX_SIZE && t < |s.threads| && s.threads[t].Linked?
    requires ThreadOk(s.threads[t], t, s.table, s.hist)
    ensures WorkStep(s, t).Some?
    ensures var s' := WorkStep(s, t).value; s'.threads[t].Stored? && ThreadOk(s'.threads[t], t, s'.table, s'.hist)
  {
    hide Replay;
  }

  lemma SeekKeeps(s: State, t: nat)
    requires |s.table.buckets| == HB_MAX_SIZE && t < |s.threads| && s.threads[t].Seeking?
    requires ThreadOk(s.threads[t], t, s.table, s.hist)
    ensures var s' := SeekStep(s, t);
      && |s'.table.buckets| == HB_MAX_SIZE && s'.threads == s.threads[t := s'.threads[t]]
      && s'.active == s.active && s'.hist == s.hist && s'.replies == s.replies
      && ClassOf(s'.threads[t]) == Writing && ThreadOk(s'.threads[t], t, s'.table, s'.hist)
  {
    hide Replay, Flat;
    var op, pos := s.threads[t].op, s.threads[t].pos;
    var c := s.table.buckets[Bucket(op.key)];
    if pos == |c| || c[pos].key == op.key {
      IndexUnique(c, op.key, pos);
    }
  }

  // ---------- Leaving ----------

  lemma AllNotified(ts: seq<Thread>, table: Table, hist: seq<Event>, table': Table, hist': seq<Event>)
    requires |table.buckets| == HB_MAX_SIZE == |table'.buckets| && hist <= hist' && AllOk(ts, table, hist)
    requires forall j | 0 <= j < |ts| :: ClassOf(ts[j]) in {Out, Wait, Note}
    ensures AllOk(NotifyAll(ts), table', hist')
  {
    hide ThreadOk;
    var us := NotifyAll(ts);
    forall j | 0 <= j < |us|
      ensures ThreadOk(us[j], j, table', hist')
    {
      assert ThreadOk(ts[j], j, table, hist);
      ThreadFrame(ts[j], j, table, hist, table', hist');
      if ts[j].Waiting? {
        Woken(ts[j], j, table', hist');
      }
    }
  }

  lemma Woken(th: Thread, i: nat, table: Table, hist: seq<Event>)
    requires |table.buckets| == HB_MAX_SIZE && th.Waiting? && ThreadOk(th, i, table, hist)
    ensures ThreadOk(Notified(th.op, th.called), i, table, hist)
  {
  }

  lemma WriterLeaves(s: State, t: nat, woken: nat)
    requires Inv(s) && t < |s.threads| && s.threads[t].Stored?
    ensures Inv(LeaveStep(s, t, woken).value)
  {
    hide Count, Legal, Replay, Meaning, WorkStep, Owned;
    var th := s.threads[t];
    var s' := LeaveStep(s, t, woken).value;
    var e := Event(t, th.op, th.ret);
    var ts := s.threads[t := Idle];
    Alone(s, t);
    assert ThreadOk(th, t, s.table, s.hist);
    LegalSnoc(s.hist, e);
    CountsAfter(s.threads, t, Idle);
    CountNotifyAll(ts, Writing);
    CountNotifyAll(ts, Reading);
    CountNotifyAll(ts, Wait);
    assert ThreadOk(Idle, t, s.table, s.hist);
    OnlyThread(s.threads, t, Idle, s.table, s.hist);
    AtsInside(s);
    WriterOwns(s.threads, s'.threads, s.hist, e, s.replies, s'.replies[|s.replies|]);
    hide ThreadOk;
    AllNotified(ts, s.table, s.hist, s'.table, s'.hist);
    RepliesSnoc(s, s');
  }

  // One more reply, and possibly one more place in the history.
  lemma RepliesSnoc(s: State, s': State)
    requires RepliesOk(s) && s.hist <= s'.hist && |s'.replies| == |s.replies| + 1
    requires s'.replies[..|s.replies|] == s.replies && ReplyOk(s'.replies[|s.replies|], s'.hist)
    ensures RepliesOk(s')
  {
    forall r | 0 <= r < |s'.replies| ensures ReplyOk(s'.replies[r], s'.hist) {
      if r < |s.replies| {
        assert s'.replies[r] == s.replies[r];
        assert ReplyOk(s.replies[r], s.hist);
      }
    }
  }

  lemma ReaderLeavesKeeps(s: State, t: nat, woken: nat)
    requires Inv(s) && t < |s.threads| && s.threads[t].Got? && LeaveStep(s, t, woken).Some?
    ensures Inv(LeaveStep(s, t, woken).value)
  {
    hide Count, Legal, Replay, Meaning, WorkStep, Owned, RepliesOk;
    var th := s.threads[t];
    var s' := LeaveStep(s, t, woken).value;
    var ts, reply := s.threads[t := Idle], s'.replies[|s.replies|];
    assert ThreadOk(th, t, s.table, s.hist);
    InsideCount(s, t);
    CountsAfter(s.threads, t, Idle);
    RepliesSnoc(s, s');
    OwnerLeaves(s.threads, t, s.hist, s.replies, reply);
    assert ThreadOk(Idle, t, s.table, s.hist);
    hide ThreadOk;
    OnlyThread(s.threads, t, Idle, s.table, s.hist);
    WaitersCount(s);
    if s.active - 1 == 0 && HasWaiter(s) {
      SignalKeeps(ts, woken, s.table, s.hist);
      var w := Notified(ts[woken].op, ts[woken].called);
      assert s'.threads == ts[woken := w];
      SameOwner(ts, woken, w, s.hist, s'.replies);
    }
  }

  lemma SignalKeeps(ts: seq<Thread>, woken: nat, table: Table, hist: seq<Event>)
    requires |table.buckets| == HB_MAX_SIZE && AllOk(ts, table, hist) && woken < |ts| && ts[woken].Waiting?
    ensures var us := ts[woken := Notified(ts[woken].op, ts[woken].called)];
      && AllOk(us, table, hist) && Count(us, Note) > 0
      && Count(us, Writing) == Count(ts, Writing) && Count(us, Reading) == Count(ts, Reading)
  {
    var w := Notified(ts[woken].op, ts[woken].called);
    CountsAfter(ts, woken, w);
    assert ThreadOk(ts[woken], woken, table, hist);
    Woken(ts[woken], woken, table, hist);
    CountPositive(ts[woken := w], Note);
    assert ClassOf(ts[woken := w][woken]) == Note;
    hide ThreadOk, Count;
    OnlyThread(ts, woken, w, table, hist);
  }

  lemma WaitersCount(s: State)
    ensures HasWaiter(s) <==> Count(s.threads, Wait) > 0
  {
    CountPositive(s.threads, Wait);
    if i :| 0 <= i < |s.threads| && ClassOf(s.threads[i]) == Wait {
      assert s.threads[i].Waiting?;
    }
  }

  // The step with which a reader's walk over the shared chains ends gives the answer of the map as it
  // is now, which is the answer recorded when the reader entered.
  lemma AnswerIsMeaning(s: State, t: nat)
    requires Inv(s) && t < |s.threads| && !s.threads[t].Got?
    requires WorkStep(s, t).Some? && WorkStep(s, t).value.threads[t].Got?
    ensures var th := WorkStep(s, t).value.threads[t];
      && th.at < |s.hist| && th.ret == Meaning(s.table, th.op).0 == s.hist[th.at].result
      && th.ret == Meaning(Replay(s.hist[..th.at]), th.op).0
  {
    hide Meaning, Replay, Owned, ActiveOk, WakeOk, RepliesOk, WorkStep;
    assert ThreadOk(s.threads[t], t, s.table, s.hist);
    StepOfOne(s, t);
    var th := WorkStep(s, t).value.threads[t];
    assert ThreadOk(th, t, s.table, s.hist);
    EntryEvent(s.threads[t], t, s.table, s.hist);
    assert LegalAt(s.hist, th.at);
  }

  // The place a reader took at its entry carries the answer of the map as it still is.
  lemma EntryEvent(th: Thread, i: nat, table: Table, hist: seq<Event>)
    requires |table.buckets| == HB_MAX_SIZE && ThreadOk(th, i, table, hist) && (th.Walking? || th.Dumping?)
    ensures th.at < |hist| && hist[th.at] == Event(i, th.op, Meaning(table, th.op).0)
  {
    hide Meaning;
  }

  // ---------- Whole runs ----------

  lemma NextKeeps(s: State, a: Action)
    requires Inv(s) && Next(s, a).Some?
    ensures Inv(Next(s, a).value)
  {
    match a
    case Call(t, op) => EnterKeeps(s, t, op, |s.hist|);
    case Retest(t) =>
      assert ThreadOk(s.threads[t], t, s.table, s.hist);
      EnterKeeps(s, t, s.threads[t].op, s.threads[t].called);
    case Spurious(t) => SpuriousKeeps(s, t);
    case Work(t) => WorkKeeps(s, t);
    case Leave(t, woken) =>
      if s.threads[t].Stored? {
        WriterLeaves(s, t, woken);
      } else if s.threads[t].Got? {
        ReaderLeavesKeeps(s, t, woken);
      }
  }

  lemma SpuriousKeeps(s: State, t: nat)
    requires Inv(s) && t < |s.threads| && s.threads[t].Waiting?
    ensures Inv(Next(s, Spurious(t)).value)
  {
    var x := Notified(s.threads[t].op, s.threads[t].called);
    assert ThreadOk(s.threads[t], t, s.table, s.hist);
    Woken(s.threads[t], t, s.table, s.hist);
    CountsAfter(s.threads, t, x);
    hide Count, Legal, Replay, ThreadOk, Owned;
    SameOwner(s.threads, t, x, s.hist, s.replies);
    OnlyThread(s.threads, t, x, s.table, s.hist);
  }

  // A run: the state after a sequence of steps, None when one of them was not possible.
  function RunFrom(s: State, actions: seq<Action>): (r: Option<State>)
    requires |s.table.buckets| == HB_MAX_SIZE
    ensures r.Some? ==> |r.value.table.buckets| == HB_MAX_SIZE
    decreases |actions|
  {
    if actions == [] then Some(s)
    else
      match Next(s, actions[0])
      case None => None
      case Some(s') => if |s'.table.buckets| == HB_MAX_SIZE then RunFrom(s', actions[1..]) else None
  }

  lemma {:induction false} RunKeeps(s: State, actions: seq<Action>)
    requires Inv(s) && RunFrom(s, actions).Some?
    ensures Inv(RunFrom(s, actions).value)
    decreases |actions|
  {
    hide ActiveOk, WakeOk, AllOk, Legal, RepliesOk, Owned, Replay, Next;
    if actions != [] {
      NextKeeps(s, actions[0]);
      RunKeeps(Next(s, actions[0]).value, actions[1..]);
    }
  }

  // Safety of the counter over all interleavings: -1 means one writer and no reader inside, and any
  // other value is the number of readers inside with no writer.
  lemma ReadersXorWriter(s: State, actions: seq<Action>)
    requires InitState(s) && RunFrom(s, actions).Some?
    ensures var e := RunFrom(s, actions).value;
      && (e.active == -1 <==> Count(e.threads, Writing) == 1)
      && (e.active == -1 ==> Count(e.threads, Reading) == 0)
      && (e.active != -1 ==> Count(e.threads, Writing) == 0 && e.active == Count(e.threads, Reading))
  {
    InitInv(s);
    RunKeeps(s, actions);
  }

  ghost predicate IsReplyOf(e: State, r: nat, i: nat)
    requires i < |e.hist|
  {
    r < |e.replies| && e.replies[r].at == i
    && e.hist[i] == Event(e.replies[r].tid, e.replies[r].op, e.replies[r].result)
  }

  ghost predicate IsReaderOf(e: State, t: nat, i: nat)
    requires i < |e.hist|
  {
    t < |e.threads| && InsideReader(e.threads[t]) && e.threads[t].at == i
    && e.hist[i].tid == t && e.hist[i].op == e.threads[t].op
  }

  ghost predicate Replied(e: State, i: nat) requires i < |e.hist| { exists r: nat :: IsReplyOf(e, r, i) }
  ghost predicate StillInside(e: State, i: nat) requires i < |e.hist| { exists t: nat :: IsReaderOf(e, t, i) }

  // Every place in the history belongs to exactly one operation, and every operation that has taken
  // effect to one place: those that returned, and the readers still inside.
  ghost predicate OneToOne(e: State)
  {
    && (forall i | 0 <= i < |e.hist| :: Replied(e, i) != StillInside(e, i))
    && (forall i, r: nat, q: nat | 0 <= i < |e.hist| && IsReplyOf(e, r, i) && IsReplyOf(e, q, i) :: r == q)
    && (forall i, t: nat, u: nat | 0 <= i < |e.hist| && IsReaderOf(e, t, i) && IsReaderOf(e, u, i) :: t == u)
    && |e.hist| == |e.replies| + Count(e.threads, Reading)
  }

  // Linearizability: the recorded order is a legal sequential execution; its places correspond one to
  // one to the operations that took effect; every operation that returned gave its result there, at a
  // point between its call and its return, and so the order respects real time.
  lemma Linearizable(s: State, actions: seq<Action>)
    requires InitState(s) && RunFrom(s, actions).Some?
    ensures var e := RunFrom(s, actions).value;
      && Legal(e.hist) && OneToOne(e)
      && (forall r | 0 <= r < |e.replies| ::
            e.replies[r].called <= e.replies[r].at < e.replies[r].ended <= |e.hist| && IsReplyOf(e, r, e.replies[r].at))
      && (forall r, q | 0 <= r < |e.replies| && 0 <= q < |e.replies| && e.replies[r].ended <= e.replies[q].called ::
            e.replies[r].at < e.replies[q].at)
  {
    hide Legal, RunFrom, ActiveOk, WakeOk, OneToOne;
    InitInv(s);
    RunKeeps(s, actions);
    var e := RunFrom(s, actions).value;
    forall r | 0 <= r < |e.replies| ensures ReplyOk(e.replies[r], e.hist) {
    }
    InvOneToOne(e);
  }

  lemma InvOneToOne(e: State)
    requires Inv(e)
    ensures OneToOne(e)
  {
    hide Legal, ActiveOk, WakeOk, Meaning, Replay, Count;
    forall i | 0 <= i < |e.hist| ensures Replied(e, i) != StillInside(e, i) {
      OwnerOf(e, i);
    }
  }

  lemma OwnerOf(e: State, i: nat)
    requires Inv(e) && i < |e.hist|
    ensures Replied(e, i) != StillInside(e, i)
  {
    hide Legal, ActiveOk, WakeOk, Meaning, Replay, Count;
    if HasReply(e.replies, i) {
      var r :| 0 <= r < |e.replies| && e.replies[r].at == i;
      assert ReplyOk(e.replies[r], e.hist);
      assert IsReplyOf(e, r, i);
    } else {
      var t :| 0 <= t < |e.threads| && InsideReader(e.threads[t]) && e.threads[t].at == i;
      assert ThreadOk(e.threads[t], t, e.table, e.hist);
      assert IsReaderOf(e, t, i);
    }
  }

  // In every run, a reader about to return holds what the map held at the moment it entered.
  lemma ReadersSeeTheirEntry(s: State, actions: seq<Action>, t: nat)
    requires InitState(s) && RunFrom(s, actions).Some?
    requires var e := RunFrom(s, actions).value; t < |e.threads| && e.threads[t].Got?
    ensures var e := RunFrom(s, actions).value;
      var th := e.threads[t];
      && IsReader(th.op) && th.at < |e.hist| && WF(Replay(e.hist[..th.at]))
      && MapAnswers(Abs(Replay(e.hist[..th.at])), th.op, th.ret)
  {
    hide RunFrom, Meaning, Replay, Owned, MapAnswers, Abs, WF, Bounded;
    InitInv(s);
    RunKeeps(s, actions);
    var e := RunFrom(s, actions).value;
    var th := e.threads[t];
    assert ThreadOk(th, t, e.table, e.hist);
    assert LegalAt(e.hist, th.at);
    ReplayGood(e.hist[..th.at]);
    ReaderAnswers(Replay(e.hist[..th.at]), th.op);
  }

  // A reader's answer is the map's whether or not the counter is exact.
  lemma ReaderAnswers(t: Table, op: Op)
    requires WF(t) && IsReader(op)
    ensures MapAnswers(Abs(t), op, Meaning(t, op).0)
  {
    hide Lists, Flat, KvTable.Read;
    match op
    case OpRead(k) => ReadIsLookup(t, k);
    case OpDump => FlatLists(t);
    case _ =>
  }

  // What the counter buys: while a reader is inside, no step of any thread changes the table.
  lemma TableStandsStill(s: State, a: Action, t: nat)
    requires Inv(s) && t < |s.threads| && InsideReader(s.threads[t]) && Next(s, a).Some?
    ensures Next(s, a).value.table == s.table
  {
    hide Legal, Replay, Owned, Count, AllOk, Meaning;
    InsideCount(s, t);
    if a.Work? && ClassOf(s.threads[a.tid]) == Writing {
      Alone(s, a.tid);
    }
  }

  // Without it a walk would go wrong: one step of the same reader, with the bucket cleared under it.
  lemma WalksAreExposed(s: State, k: Key, v: Val)
    requires |s.threads| == 1 && s.threads[0] == Walking(OpRead(k), 0, 0, 0)
    requires s.table == Table(Init().buckets[Bucket(k) := [Entry(k, v)]], 1)
    ensures WorkStep(s, 0).Some? && WorkStep(s.(table := Init()), 0).Some?
    ensures WorkStep(s, 0).value.threads[0].ret == Value(Some(v)) == Meaning(s.table, OpRead(k)).0
    ensures WorkStep(s.(table := Init()), 0).value.threads[0].ret == Value(None)
  {
    assert [Entry(k, v)][0].key == k;
  }

  // ---------- No lost wakeup ----------

  // With the monitor free, whoever is notified gets in when it runs.
  lemma NotifiedEnters(s: State, t: nat)
    requires Inv(s) && s.active == 0 && t < |s.threads| && s.threads[t].Notified?
    ensures Next(s, Retest(t)).Some?
    ensures ClassOf(Next(s, Retest(t)).value.threads[t]) in {Reading, Writing}
  {
  }

  predicate Inside(s: State, c: Class) { exists i :: 0 <= i < |s.threads| && ClassOf(s.threads[i]) == c }

  // Who is let in: a reader exactly when no writer is inside, a writer exactly when nobody is; a thread
  // that has slept is let in on the same terms as one that has just called.
  lemma EntersExactly(s: State, a: Action, t: nat, op: Op)
    requires Inv(s) && t < |s.threads|
    requires (a == Call(t, op) && s.threads[t].Idle?)
          || (a == Retest(t) && s.threads[t].Notified? && s.threads[t].op == op)
    ensures Next(s, a).Some? && t < |Next(s, a).value.threads|
    ensures ClassOf(Next(s, a).value.threads[t]) ==
              if op.OpRead? || op.OpDump? then (if Inside(s, Writing) then Wait else Reading)
              else (if Inside(s, Writing) || Inside(s, Reading) then Wait else Writing)
  {
    CountPositive(s.threads, Writing);
    CountPositive(s.threads, Reading);
    hide AllOk, WakeOk, Owned, Legal, Replay, Meaning, RepliesOk, Count;
  }

  // Whenever the monitor is free and somebody sleeps, somebody else has been notified and can go in.
  lemma NoLostWakeup(s: State, actions: seq<Action>, sleeper: nat)
    requires InitState(s) && RunFrom(s, actions).Some?
    requires var e := RunFrom(s, actions).value; e.active == 0 && sleeper < |e.threads| && e.threads[sleeper].Waiting?
    ensures var e := RunFrom(s, actions).value;
      exists t :: 0 <= t < |e.threads| && e.threads[t].Notified? && Next(e, Retest(t)).Some?
  {
    var e := RunFrom(s, actions).value;
    InitInv(s);
    RunKeeps(s, actions);
    assert HasWaiter(e);
    WaitersCount(e);
    CountPositive(e.threads, Note);
    var t :| 0 <= t < |e.threads| && ClassOf(e.threads[t]) == Note;
    NotifiedEnters(e, t);
  }

  // The work a thread inside still has to do before it leaves.
  function Effort(t: Thread, table: Table): nat
    requires |table.buckets| == HB_MAX_SIZE
  {
    match t
    case Walking(op, _, pos, _) => 2 + (if op.OpRead? then ToGo(table.buckets[Bucket(op.key)], pos) else 0)
    case Dumping(_, _, b, pos, _, _) =>
      2 + (if b < HB_MAX_SIZE then 1 + ToGo(table.buckets[b], pos) + Buckets(table.buckets[b + 1..]) else 0)
    case Got(_, _, _, _) => 1
    case Seeking(op, _, pos) => 3 + (if IsReader(op) then 0 else ToGo(table.buckets[Bucket(op.key)], pos))
    case Linked(_, _) => 2
    case Stored(_, _, _) => 1
    case _ => 0
  }

  function ToGo(c: seq<Entry>, pos: nat): nat { if pos < |c| then |c| - pos else 0 }

  function Buckets(bs: seq<seq<Entry>>): nat { if bs == [] then 0 else 1 + |bs[0]| + Buckets(bs[1..]) }

  function TotalEffort(ts: seq<Thread>, table: Table): nat
    requires |table.buckets| == HB_MAX_SIZE
  {
    if ts == [] then 0 else TotalEffort(ts[..|ts| - 1], table) + Effort(ts[|ts| - 1], table)
  }

  // One thread moves; the others' work is not affected by what it does to the table.
  lemma {:induction false} EffortUpdate(ts: seq<Thread>, i: nat, x: Thread, table: Table, table': Table)
    requires i < |ts| && |table.buckets| == HB_MAX_SIZE == |table'.buckets|
    requires forall j | 0 <= j < |ts| && j != i :: Effort(ts[j], table') == Effort(ts[j], table)
    ensures TotalEffort(ts[i := x], table') == TotalEffort(ts, table) - Effort(ts[i], table) + Effort(x, table')
  {
    hide Effort;
    var n := |ts| - 1;
    if i == n {
      assert ts[i := x][..n] == ts[..n];
      SameEffort(ts[..n], table, table');
    } else {
      EffortUpdate(ts[..n], i, x, table, table');
      assert ts[i := x][..n] == ts[..n][i := x];
      assert ts[i := x][n] == ts[n];
    }
  }

  lemma {:induction false} SameEffort(ts: seq<Thread>, table: Table, table': Table)
    requires |table.buckets| == HB_MAX_SIZE == |table'.buckets|
    requires forall j | 0 <= j < |ts| :: Effort(ts[j], table') == Effort(ts[j], table)
    ensures TotalEffort(ts, table') == TotalEffort(ts, table)
  {
    hide Effort;
    if ts != [] {
      SameEffort(ts[..|ts| - 1], table, table');
    }
  }

  lemma {:induction false} EffortNotifyAll(ts: seq<Thread>, table: Table)
    requires |table.buckets| == HB_MAX_SIZE
    ensures TotalEffort(NotifyAll(ts), table) == TotalEffort(ts, table)
  {
    if ts != [] {
      EffortNotifyAll(ts[..|ts| - 1], table);
      assert NotifyAll(ts)[..|ts| - 1] == NotifyAll(ts[..|ts| - 1]);
    }
  }

  // Threads still outside with an operation to do.
  function Pending(s: State): nat { Count(s.threads, Wait) + Count(s.threads, Note) }

  ghost predicate AllIdle(s: State) { forall i | 0 <= i < |s.threads| :: s.threads[i].Idle? }

  // Whoever is inside can take a step, towards the exit or through it.
  lemma InsideMoves(s: State, t: nat) returns (a: Action)
    requires Inv(s) && t < |s.threads| && ClassOf(s.threads[t]) in {Reading, Writing}
    ensures Next(s, a).Some? && |Next(s, a).value.table.buckets| == HB_MAX_SIZE && (a.Work? || a.Leave?)
    ensures Pending(Next(s, a).value) == Pending(s)
    ensures TotalEffort(Next(s, a).value.threads, Next(s, a).value.table) < TotalEffort(s.threads, s.table)
  {
    hide Count, TotalEffort, ThreadOk, Legal, Replay, Owned, Effort, WorkStep, Meaning;
    assert ThreadOk(s.threads[t], t, s.table, s.hist);
    if WorkStep(s, t).Some? {
      a := Work(t);
      StepOfOne(s, t);
      var s' := WorkStep(s, t).value;
      OthersUnaffected(s, t);
      EffortUpdate(s.threads, t, s'.threads[t], s.table, s'.table);
      CountsAfter(s.threads, t, s'.threads[t]);
      WorkShrinks(s, t);
    } else {
      a := LeaveNow(s, t);
    }
  }

  lemma OthersUnaffected(s: State, t: nat)
    requires Inv(s) && t < |s.threads| && WorkStep(s, t).Some?
    requires var s' := WorkStep(s, t).value;
      |s'.table.buckets| == HB_MAX_SIZE && (ClassOf(s.threads[t]) == Reading ==> s'.table == s.table)
    requires ClassOf(s.threads[t]) in {Reading, Writing}
    ensures forall j | 0 <= j < |s.threads| && j != t ::
      Effort(s.threads[j], WorkStep(s, t).value.table) == Effort(s.threads[j], s.table)
  {
    hide Count, Legal, Replay, Owned, WorkStep, Meaning, AllOk;
    if ClassOf(s.threads[t]) == Writing {
      Alone(s, t);
    }
  }

  lemma WorkShrinks(s: State, t: nat)
    requires |s.table.buckets| == HB_MAX_SIZE && t < |s.threads| && WorkStep(s, t).Some?
    requires ThreadOk(s.threads[t], t, s.table, s.hist)
    ensures var s' := WorkStep(s, t).value;
      && t < |s'.threads| && |s'.table.buckets| == HB_MAX_SIZE
      && Effort(s'.threads[t], s'.table) < Effort(s.threads[t], s.table)
  {
    hide Meaning, Replay;
    var th := s.threads[t];
    if th.Dumping? {
      DumpShrinks(s.table, th);
    }
  }

  lemma DumpShrinks(table: Table, th: Thread)
    requires |table.buckets| == HB_MAX_SIZE && th.Dumping?
    ensures Effort(DumpStep(table, th), table) < Effort(th, table)
  {
    var b := th.bucket;
    if b + 1 < HB_MAX_SIZE {
      assert table.buckets[b + 1..][0] == table.buckets[b + 1];
      assert table.buckets[b + 1..][1..] == table.buckets[b + 2..];
    }
  }

  lemma LeaveNow(s: State, t: nat) returns (a: Action)
    requires Inv(s) && t < |s.threads| && ClassOf(s.threads[t]) in {Reading, Writing} && WorkStep(s, t).None?
    ensures a.Leave? && Next(s, a).Some? && Next(s, a).value.table == s.table
    ensures Pending(Next(s, a).value) == Pending(s)
    ensures TotalEffort(Next(s, a).value.threads, s.table) < TotalEffort(s.threads, s.table)
  {
    hide Count, TotalEffort, ThreadOk, Legal, Replay, NotifyAll, Meaning, Owned;
    var th, ts := s.threads[t], s.threads[t := Idle];
    assert ThreadOk(th, t, s.table, s.hist);
    DoneNow(s, t);
    EffortUpdate(s.threads, t, Idle, s.table, s.table);
    CountsAfter(s.threads, t, Idle);
    if ClassOf(th) == Writing {
      a := Leave(t, t);
      EffortNotifyAll(ts, s.table);
      CountNotifyAll(ts, Wait);
    } else if w :| 0 <= w < |s.threads| && s.threads[w].Waiting? {
      a := Leave(t, w);
      var x := Notified(ts[w].op, ts[w].called);
      CountsAfter(ts, w, x);
      EffortUpdate(ts, w, x, s.table, s.table);
    } else {
      a := Leave(t, t);
    }
  }

  // A thread inside without work left holds its result.
  lemma DoneNow(s: State, t: nat)
    requires |s.table.buckets| == HB_MAX_SIZE && t < |s.threads| && ThreadOk(s.threads[t], t, s.table, s.hist)
    requires ClassOf(s.threads[t]) in {Reading, Writing} && WorkStep(s, t).None?
    ensures if ClassOf(s.threads[t]) == Writing then s.threads[t].Stored? else s.threads[t].Got?
  {
    hide Meaning, Replay;
  }

  // Nobody inside: by NoLostWakeup a notified thread can enter, unless everybody is idle.
  lemma OutsideMoves(s: State) returns (a: Action)
    requires Inv(s) && s.active == 0 && !AllIdle(s)
    ensures a.Retest? && Next(s, a).Some? && Pending(Next(s, a).value) < Pending(s)
  {
    hide Count, AllOk, Legal, Replay, RepliesOk, Meaning, Owned;
    NoneInClass(s.threads, Writing);
    NoneInClass(s.threads, Reading);
    var i :| 0 <= i < |s.threads| && !s.threads[i].Idle?;
    assert ClassOf(s.threads[i]) in {Wait, Note};
    CountPositive(s.threads, Wait);
    CountPositive(s.threads, Note);
    var t :| 0 <= t < |s.threads| && ClassOf(s.threads[t]) == Note;
    a := Retest(t);
    CountsAfter(s.threads, t, Next(s, a).value.threads[t]);
  }

  // No deadlock: from every reachable state the operations under way can all be completed, without
  // any new call.
  lemma {:induction false} AllCanFinish(s: State) returns (actions: seq<Action>)
    requires Inv(s)
    ensures forall a | a in actions :: !a.Call? && !a.Spurious?
    ensures RunFrom(s, actions).Some? && AllIdle(RunFrom(s, actions).value)
    decreases Pending(s), TotalEffort(s.threads, s.table)
  {
    if AllIdle(s) {
      return [];
    }
    var a: Action;
    if s.active == 0 {
      a := OutsideMoves(s);
    } else {
      var t := SomeoneInside(s);
      a := InsideMoves(s, t);
    }
    NextKeeps(s, a);
    hide ActiveOk, WakeOk, AllOk, Legal, RepliesOk, Owned, Replay, Next, Pending, TotalEffort;
    var s' := Next(s, a).value;
    var rest := AllCanFinish(s');
    actions := [a] + rest;
    assert actions[1..] == rest;
  }

  lemma SomeoneInside(s: State) returns (t: nat)
    requires ActiveOk(s) && s.active != 0
    ensures t < |s.threads| && ClassOf(s.threads[t]) in {Reading, Writing}
  {
    CountPositive(s.threads, Reading);
    CountPositive(s.threads, Writing);
    t :| t < |s.threads| && ClassOf(s.threads[t]) in {Reading, Writing};
  }

  // ---------- The bounded map behind the history ----------

  ghost function MapStep(m: map<Key, Val>, op: Op): map<Key, Val>
  {
    match op
    case OpWrite(k, v) => if k in m || |m| < TABLE_MAX then m[k := v] else m
    case OpDelete(k) => m - {k}
    case _ => m
  }

  // The results an operation may have on the bounded map; a dump may list it in any order.
  ghost predicate MapAnswers(m: map<Key, Val>, op: Op, r: Result)
  {
    match op
    case OpRead(k) => r == Value(if k in m then Some(m[k]) else None)
    case OpDump => r.Contents? && Lists(r.es, m)
    case OpWrite(k, _) => r == Status(if k in m || |m| < TABLE_MAX then 0 else 1)
    case OpDelete(_) => r == Done
  }

  ghost function MapReplay(h: seq<Event>): map<Key, Val>
  {
    if h == [] then map[] else MapStep(MapReplay(h[..|h| - 1]), h[|h| - 1].op)
  }

  // No delete of this history met its key at the head of a longer chain.
  ghost predicate Clean(h: seq<Event>)
  {
    forall i | 0 <= i < |h| :: CleanAt(h, i)
  }

  ghost predicate CleanAt(h: seq<Event>, i: nat)
    requires i < |h|
  {
    h[i].op.OpDelete? ==> !HeadWithSuccessor(Replay(h[..i]), h[i].op.key)
  }

  lemma CleanPrefix(h: seq<Event>, n: nat)
    requires n <= |h|
    ensures Clean(h[..n]) <==> forall i | 0 <= i < n :: CleanAt(h, i)
  {
    hide Replay, HeadWithSuccessor;
    var g := h[..n];
    forall i | 0 <= i < n ensures CleanAt(g, i) == CleanAt(h, i) {
      assert g[..i] == h[..i];
    }
  }

  // Whatever the history, the table stays well-formed and within its limit.
  lemma {:induction false} ReplayGood(h: seq<Event>)
    ensures WF(Replay(h)) && Bounded(Replay(h))
  {
    if h == [] {
      InitEmpty();
    } else {
      var init, op := h[..|h| - 1], h[|h| - 1].op;
      ReplayGood(init);
      match op
      case OpWrite(k, v) => WriteRefines(Replay(init), k, v);
      case OpDelete(k) => DeleteRefines(Replay(init), k);
      case _ =>
    }
  }

  lemma EmptyHistory()
    ensures Exact(Replay([])) && Abs(Replay([])) == map[]
  {
    InitEmpty();
  }

  // After a history the counter is exact if and only if the history was clean: the gap never shrinks,
  // and grows at the deletes that are not.
  lemma {:induction false} ExactIffClean(h: seq<Event>)
    ensures Gap(Replay(h)) >= 0 && (Exact(Replay(h)) <==> Clean(h))
  {
    hide WF, Bounded, Meaning, HeadWithSuccessor, Clean, CleanAt;
    if h == [] {
      EmptyHistory();
      CleanPrefix(h, 0);
      assert h[..0] == h;
    } else {
      var n := |h| - 1;
      ExactIffClean(h[..n]);
      ReplayGood(h[..n]);
      GapStep(Replay(h[..n]), h[n].op);
      CleanSnoc(h);
    }
  }

  lemma CleanSnoc(h: seq<Event>)
    requires h != []
    ensures var n := |h| - 1;
      Clean(h) <==> Clean(h[..n]) && (h[n].op.OpDelete? ==> !HeadWithSuccessor(Replay(h[..n]), h[n].op.key))
  {
    hide Replay, HeadWithSuccessor;
    CleanPrefix(h, |h| - 1);
    CleanPrefix(h, |h|);
    assert h[..|h|] == h;
    assert CleanAt(h, |h| - 1) <==> (h[|h| - 1].op.OpDelete? ==>
      !HeadWithSuccessor(Replay(h[..|h| - 1]), h[|h| - 1].op.key));
  }

  lemma GapStep(t: Table, op: Op)
    requires WF(t) && |t.buckets| == HB_MAX_SIZE
    ensures Gap(Meaning(t, op).1) >= Gap(t)
    ensures Gap(Meaning(t, op).1) == Gap(t) <==> !(op.OpDelete? && HeadWithSuccessor(t, op.key))
  {
    match op
    case OpWrite(k, v) => WriteKeepsGap(t, k, v);
    case OpDelete(k) => DeleteGap(t, k);
    case _ =>
  }

  // After any history a new key is refused with room to spare if and only if the counter is at its
  // limit and some earlier delete met its key at the head of a longer chain.
  lemma RefusedTooEarly(h: seq<Event>, k: Key, v: Val)
    ensures WF(Replay(h))
    ensures k !in Abs(Replay(h)) ==>
      (KvTable.Write(Replay(h), k, v).0 == 1 && |Abs(Replay(h))| < TABLE_MAX <==>
         Replay(h).size == TABLE_MAX && !Clean(h))
  {
    hide Replay, WF, Bounded, Clean, Abs, KvTable.Write;
    ReplayGood(h);
    ExactIffClean(h);
    if k !in Abs(Replay(h)) {
      KvTable.RefusedTooEarly(Replay(h), k, v);
    }
  }

  // A clean history is one of a map bounded at TABLE_MAX keys: the table stands for that map and the
  // counter is its size.
  lemma {:induction false} CleanHistoryIsMap(h: seq<Event>)
    requires Clean(h)
    ensures WF(Replay(h)) && Bounded(Replay(h)) && Exact(Replay(h)) && Abs(Replay(h)) == MapReplay(h)
    ensures Replay(h).size == |MapReplay(h)| <= TABLE_MAX
  {
    hide WF, Bounded, Exact, Meaning, MapStep, HeadWithSuccessor, Clean, Abs;
    ReplayGood(h);
    ExactIffClean(h);
    if h == [] {
      EmptyHistory();
    } else {
      var init, op := h[..|h| - 1], h[|h| - 1].op;
      CleanSnoc(h);
      CleanHistoryIsMap(init);
      MeaningIsMapStep(Replay(init), op);
    }
    SizeIsKeyCount(Replay(h));
  }

  lemma MeaningIsMapStep(t: Table, op: Op)
    requires WF(t) && Bounded(t) && Exact(t)
    requires op.OpDelete? ==> !HeadWithSuccessor(t, op.key)
    ensures WF(Meaning(t, op).1) && Abs(Meaning(t, op).1) == MapStep(Abs(t), op)
  {
    hide KvTable.Write, KvTable.Delete, WF, Bounded, Abs;
    SizeIsKeyCount(t);
    match op
    case OpWrite(k, v) => WriteRefines(t, k, v);
    case OpDelete(k) =>
      DeleteAsDocumented(t, k);
    case _ =>
  }

  // With an exact counter every operation answers as on the bounded map.
  lemma MeaningAnswers(t: Table, op: Op)
    requires WF(t) && Bounded(t) && Exact(t)
    ensures MapAnswers(Abs(t), op, Meaning(t, op).0)
  {
    hide KvTable.Write, KvTable.Delete, KvTable.Read, Lists, Flat;
    SizeIsKeyCount(t);
    if IsReader(op) {
      ReaderAnswers(t, op);
    } else if op.OpWrite? {
      WriteRefines(t, op.key, op.val);
    }
  }

  // In a legal and clean history every operation has a result of the bounded map.
  lemma CleanHistoryAnswers(h: seq<Event>, i: nat)
    requires Legal(h) && Clean(h) && i < |h|
    ensures MapAnswers(MapReplay(h[..i]), h[i].op, h[i].result)
  {
    hide Replay, MapReplay, Meaning, MapAnswers, HeadWithSuccessor, WF, Bounded, Exact, Abs, CleanAt;
    CleanPrefix(h, i);
    CleanHistoryIsMap(h[..i]);
    MeaningAnswers(Replay(h[..i]), h[i].op);
    assert LegalAt(h, i);
  }
}
