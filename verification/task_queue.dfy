/**
  The task queue between the listener and the worker threads: a linked list whose meaning is guarded
  by its count, and the monitor around it.
  A new task's next field and the head of an emptied queue hold whatever was there before.
  */
module TaskQueue {
  import opened Wrappers

  // task_t
  class Task {
    const id: nat
    const fd: int
    var next: Task?

    // malloc does not initialise next.
    constructor (id: nat, fd: int, garbage: Task?)
      ensures this.id == id && this.fd == fd && next == garbage
    {
      this.id, this.fd, next := id, fd, garbage;
    }
  }

  ghost function Successor(tasks: seq<Task>, i: nat): Task
    requires i + 1 < |tasks|
  {
    tasks[i + 1]
  }

  // queue_t
  class Queue {
    var head: Task?
    var tail: Task?
    var count: int
    ghost var tasks: seq<Task>
    ghost var nodes: set<Task>   // every task that was ever put in

    // Nothing is said about head and tail of an empty queue, nor about the last task's next.
    ghost predicate Valid()
      reads this, nodes
    {
      && count == |tasks|
      && (forall i | 0 <= i < |tasks| :: tasks[i] in nodes)
      && (tasks != [] ==> head == tasks[0] && tail == tasks[|tasks| - 1])
      && (forall i: nat | i + 1 < |tasks| :: tasks[i].next == Successor(tasks, i))
      && (forall i, j | 0 <= i < j < |tasks| :: tasks[i] != tasks[j])
    }

    constructor (head: Task?, tail: Task?)
      ensures Valid() && tasks == [] && nodes == {}
    {
      this.head, this.tail, count, tasks, nodes := head, tail, 0, [], {};
    }

    // enqueue between lock and broadcast
    method Enqueue(t: Task)
      requires Valid() && t !in tasks
      modifies this, nodes
      ensures Valid() && tasks == old(tasks) + [t] && nodes == old(nodes) + {t}
      ensures t.next == old(t.next)
    {
      if count == 0 {
        head := t;
        tail := t;
        count := count + 1;
      } else {
        tail.next := t;
        tail := t;
        count := count + 1;
      }
      tasks, nodes := tasks + [t], nodes + {t};
    }

    // dequeue after its wait loop
    method Dequeue() returns (t: Task)
      requires Valid() && count != 0
      modifies this
      ensures Valid() && [t] + tasks == old(tasks) && nodes == old(nodes)
    {
      var curHead := head;
      assert |tasks| > 1 ==> tasks[0].next == Successor(tasks, 0);
      head := curHead.next;
      count := count - 1;
      ghost var before := tasks;
      tasks := tasks[1..];
      assert forall i: nat | i + 1 < |tasks| :: Successor(tasks, i) == Successor(before, i + 1);
      t := curHead;
    }
  }

  // ---------- The monitor: any number of threads, one condition variable ----------

  // What a task stands for: its place in the order of creation, and its connection.
  datatype Item = Item(id: nat, fd: int)

  datatype Thread =
    | Free                // outside the monitor
    | Waiting             // in pthread_cond_wait inside dequeue
    | Notified            // woken, has to take the mutex and test the count again

  datatype Handover = Handover(tid: nat, item: Item)

  // enqueued and delivered record what happened; no step depends on delivered.
  datatype State = State(queue: seq<Item>, threads: seq<Thread>, enqueued: seq<Item>, delivered: seq<Handover>)

  // Each action is one uninterrupted stretch under the mutex.
  datatype Action =
    | Put(tid: nat, fd: int)    // malloc a task and enqueue it
    | Take(tid: nat)            // dequeue up to its wait or its return
    | Retest(tid: nat)          // a woken thread goes round the wait loop
    | Spurious(tid: nat)        // pthread_cond_wait may return without a broadcast

  predicate Enabled(s: State, a: Action)
  {
    a.tid < |s.threads| &&
    match a
    case Put(t, _) => s.threads[t].Free?
    case Take(t) => s.threads[t].Free?
    case Retest(t) => s.threads[t].Notified?
    case Spurious(t) => s.threads[t].Waiting?
  }

  function WakeAll(ts: seq<Thread>): (r: seq<Thread>)
    ensures |r| == |ts| && forall i | 0 <= i < |ts| :: r[i] == if ts[i].Waiting? then Notified else ts[i]
  {
    seq(|ts|, i requires 0 <= i < |ts| => if ts[i].Waiting? then Notified else ts[i])
  }

  // The wait loop's test, and what follows when it lets the thread through.
  function TryTake(s: State, t: nat): State
    requires t < |s.threads|
  {
    if s.queue == [] then s.(threads := s.threads[t := Waiting])
    else s.(queue := s.queue[1..], threads := s.threads[t := Free],
            delivered := s.delivered + [Handover(t, s.queue[0])])
  }

  function Next(s: State, a: Action): State
    requires Enabled(s, a)
  {
    match a
    case Put(t, fd) =>
      var item := Item(|s.enqueued|, fd);
      s.(queue := s.queue + [item], enqueued := s.enqueued + [item], threads := WakeAll(s.threads))
    case Take(t) => TryTake(s, t)
    case Retest(t) => TryTake(s, t)
    case Spurious(t) => s.(threads := s.threads[t := Notified])
  }

  // The state after a schedule; a schedule with a step that is not enabled has none.
  function Run(s: State, schedule: seq<Action>): Option<State>
    decreases |schedule|
  {
    if schedule == [] then Some(s)
    else if !Enabled(s, schedule[0]) then None
    else Run(Next(s, schedule[0]), schedule[1..])
  }

  function Start(n: nat): State { State([], seq(n, _ => Free), [], []) }

  function Items(d: seq<Handover>): (r: seq<Item>)
    ensures |r| == |d| && forall i | 0 <= i < |d| :: r[i] == d[i].item
  {
    seq(|d|, i requires 0 <= i < |d| => d[i].item)
  }

  ghost predicate Inv(s: State)
  {
    // conservation and order: handed over, then queued, is exactly what was put in
    && s.enqueued == Items(s.delivered) + s.queue
    && (forall i | 0 <= i < |s.enqueued| :: s.enqueued[i].id == i)
    // no lost wakeup: nobody sleeps unnotified beside a task
    && (s.queue != [] ==> forall t | 0 <= t < |s.threads| :: !s.threads[t].Waiting?)
  }

  lemma NextKeeps(s: State, a: Action)
    requires Inv(s) && Enabled(s, a)
    ensures Inv(Next(s, a))
    ensures s.enqueued <= Next(s, a).enqueued && s.delivered <= Next(s, a).delivered
  {
    var n := Next(s, a);
    if (a.Take? || a.Retest?) && s.queue != [] {
      assert Items(n.delivered) == Items(s.delivered) + [s.queue[0]];
      assert s.queue == [s.queue[0]] + n.queue;
    } else {
      assert Items(n.delivered) == Items(s.delivered);
    }
  }

  lemma {:induction false} RunKeeps(s: State, schedule: seq<Action>)
    requires Inv(s) && Run(s, schedule).Some?
    ensures Inv(Run(s, schedule).value)
    ensures s.enqueued <= Run(s, schedule).value.enqueued && s.delivered <= Run(s, schedule).value.delivered
    decreases |schedule|
  {
    hide Inv, Next, Enabled;
    if schedule != [] {
      NextKeeps(s, schedule[0]);
      RunKeeps(Next(s, schedule[0]), schedule[1..]);
    }
  }

  // In every run of any number of producers and workers: the i-th task handed over is the i-th task
  // put in, so tasks are served in order, each to exactly one worker, and none is lost.
  lemma FifoExactlyOnce(n: nat, schedule: seq<Action>, s: State)
    requires Run(Start(n), schedule) == Some(s)
    ensures |s.delivered| + |s.queue| == |s.enqueued|
    ensures forall i | 0 <= i < |s.delivered| :: s.delivered[i].item == s.enqueued[i]
    ensures forall i | 0 <= i < |s.queue| :: s.queue[i] == s.enqueued[|s.delivered| + i]
    ensures forall i, j | 0 <= i < j < |s.delivered| :: s.delivered[i].item.id != s.delivered[j].item.id
    ensures s.queue != [] ==> forall t | 0 <= t < |s.threads| :: !s.threads[t].Waiting?
  {
    StartInv(n);
    RunKeeps(Start(n), schedule);
  }

  // The connections that a schedule puts in, in order.
  function Puts(schedule: seq<Action>): seq<int>
  {
    if schedule == [] then []
    else (if schedule[0].Put? then [schedule[0].fd] else []) + Puts(schedule[1..])
  }

  function Fds(items: seq<Item>): (r: seq<int>)
    ensures |r| == |items| && forall i | 0 <= i < |r| :: r[i] == items[i].fd
  {
    seq(|items|, i requires 0 <= i < |items| => items[i].fd)
  }

  lemma {:induction false} RunPuts(s: State, schedule: seq<Action>)
    requires Run(s, schedule).Some?
    ensures Fds(Run(s, schedule).value.enqueued) == Fds(s.enqueued) + Puts(schedule)
    decreases |schedule|
  {
    if schedule != [] {
      var n := Next(s, schedule[0]);
      RunPuts(n, schedule[1..]);
      assert schedule[0].Put? ==> Fds(n.enqueued) == Fds(s.enqueued) + [schedule[0].fd];
      assert !schedule[0].Put? ==> n.enqueued == s.enqueued;
    }
  }

  // In every run the connections handed over and then the ones still queued are those that were put in,
  // in the order of the schedule.
  lemma ServedInOrder(n: nat, schedule: seq<Action>, s: State)
    requires Run(Start(n), schedule) == Some(s)
    ensures |s.delivered| + |s.queue| == |Puts(schedule)|
    ensures forall i | 0 <= i < |s.delivered| :: s.delivered[i].item.fd == Puts(schedule)[i]
    ensures forall i | 0 <= i < |s.queue| :: s.queue[i].fd == Puts(schedule)[|s.delivered| + i]
  {
    hide Run, Puts;
    FifoExactlyOnce(n, schedule, s);
    RunPuts(Start(n), schedule);
    assert Fds(s.enqueued) == Puts(schedule);
  }

  lemma StartInv(n: nat)
    ensures Inv(Start(n))
  {
    assert Start(n).enqueued == Items(Start(n).delivered) + Start(n).queue;
  }

  // ---------- Progress ----------

  // Taking k times in a row.
  function Takes(t: nat, k: nat): seq<Action> { seq(k, _ => Take(t)) }

  // From every reachable state any worker that is not asleep gets the waiting tasks, in order, and no
  // worker is asleep while there are any.
  lemma {:induction false} WorkerDrains(s: State, t: nat)
    requires Inv(s) && t < |s.threads| && s.threads[t].Free?
    ensures var r := Run(s, Takes(t, |s.queue|));
      && r.Some? && r.value.queue == [] && r.value.threads == s.threads && r.value.enqueued == s.enqueued
      && Items(r.value.delivered) == s.enqueued
      && forall i | |s.delivered| <= i < |r.value.delivered| :: r.value.delivered[i].tid == t
    decreases |s.queue|
  {
    var schedule := Takes(t, |s.queue|);
    if s.queue == [] {
      assert Items(s.delivered) + s.queue == Items(s.delivered);
    } else {
      var n := Next(s, Take(t));
      NextKeeps(s, Take(t));
      assert n.threads == s.threads;
      assert schedule[1..] == Takes(t, |n.queue|);
      WorkerDrains(n, t);
      assert schedule[0] == Take(t);
      assert n.delivered[|s.delivered|].tid == t;
      RunKeeps(n, schedule[1..]);
    }
  }

  // A worker that slept when a task arrived is woken, and if it is the first to test the count again
  // it gets that very task.
  lemma SleeperIsServed(s: State, a: Action, t: nat)
    requires Inv(s) && t < |s.threads| && s.threads[t].Waiting?
    requires a.Put? && a.tid < |s.threads| && s.threads[a.tid].Free?
    ensures s.queue == [] && Enabled(s, a)
    ensures var n := Next(s, a);
      Enabled(n, Retest(t)) && Next(n, Retest(t)).delivered == s.delivered + [Handover(t, Item(|s.enqueued|, a.fd))]
  {
  }

  // ---------- The monitor over the linked list ----------

  ghost function ItemsOf(tasks: seq<Task>): (r: seq<Item>)
    ensures |r| == |tasks| && forall i | 0 <= i < |tasks| :: r[i] == Item(tasks[i].id, tasks[i].fd)
  {
    seq(|tasks|, i requires 0 <= i < |tasks| => Item(tasks[i].id, tasks[i].fd))
  }

  class Monitor {
    const q: Queue
    var threads: seq<Thread>
    var enqueued: seq<Item>
    var delivered: seq<Handover>

    ghost predicate Valid()
      reads this, q, q.nodes
    {
      q.Valid()
    }

    ghost function View(): State
      reads this, q
    {
      State(ItemsOf(q.tasks), threads, enqueued, delivered)
    }

    constructor (n: nat, head: Task?, tail: Task?)
      ensures Valid() && View() == Start(n) && fresh(q)
    {
      q := new Queue(head, tail);
      threads, enqueued, delivered := seq(n, _ => Free), [], [];
    }

    method Produce(t: nat, fd: int, garbage: Task?)
      requires Valid() && Enabled(View(), Put(t, fd))
      modifies this, q, q.nodes
      ensures Valid() && View() == Next(old(View()), Put(t, fd))
      ensures fresh(q.nodes - old(q.nodes))
    {
      var task := new Task(|enqueued|, fd, garbage);
      q.Enqueue(task);
      enqueued := enqueued + [Item(task.id, fd)];
      threads := WakeAll(threads);
    }

    // One turn of dequeue: the test of the wait loop, and the removal if it lets the thread through.
    method Consume(t: nat) returns (task: Task?)
      requires Valid() && (Enabled(View(), Take(t)) || Enabled(View(), Retest(t)))
      modifies this, q
      ensures Valid() && View() == TryTake(old(View()), t) && q.nodes == old(q.nodes)
      ensures if old(q.tasks) == [] then task == null else [task] + q.tasks == old(q.tasks)
    {
      if q.count == 0 {
        threads := threads[t := Waiting];
        return null;
      }
      var got := q.Dequeue();
      threads := threads[t := Free];
      delivered := delivered + [Handover(t, Item(got.id, got.fd))];
      task := got;
    }

    // queue_count, between lock and unlock
    method Count() returns (n: int)
      requires Valid()
      ensures n == |View().queue|
    {
      n := q.count;
    }

    // One step if it is enabled.
    method Step(a: Action, garbage: Task?) returns (done: bool)
      requires Valid()
      modifies this, q, q.nodes
      ensures Valid() && done == old(Enabled(View(), a))
      ensures View() == if done then Next(old(View()), a) else old(View())
      ensures fresh(q.nodes - old(q.nodes))
    {
      done := a.tid < |threads| &&
        if a.Retest? then threads[a.tid].Notified? else if a.Spurious? then threads[a.tid].Waiting?
            else threads[a.tid].Free?;
      if !done {
        return;
      }
      if a.Put? {
        Produce(a.tid, a.fd, garbage);
      } else if a.Spurious? {
        threads := threads[a.tid := Notified];
      } else {
        var _ := Consume(a.tid);
      }
    }

    // The linked list under any schedule behaves as the abstract queue; garbage[i] is what malloc left
    // in the next field of a task that step i creates.
    method Execute(schedule: seq<Action>, garbage: seq<Task?>) returns (ran: bool)
      requires Valid() && |garbage| == |schedule|
      modifies this, q, q.nodes
      ensures Valid() && (ran <==> Run(old(View()), schedule).Some?)
      ensures ran ==> Run(old(View()), schedule) == Some(View())
    {
      hide Next, Enabled;
      var i := 0;
      ghost var start := View();
      while i < |schedule|
        invariant i <= |schedule| && Valid()
        invariant fresh(q.nodes - old(q.nodes))
        invariant Run(start, schedule) == Run(View(), schedule[i..])
      {
        assert schedule[i..][1..] == schedule[i + 1..] && schedule[i..][0] == schedule[i];
        var done := Step(schedule[i], garbage[i]);
        if !done {
          return false;
        }
        i := i + 1;
      }
      return true;
    }
  }
}
