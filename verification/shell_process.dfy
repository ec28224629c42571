/**
  The descriptor protocol of the executor: pipe, fork, dup2, open and close on a process's table,
  in the order in which the source performs them, proved against the table each child must have; and
  the pipe-end discipline that follows for the whole tree of processes.
  */
module ShellProcess {
  import opened Wrappers
  import opened ShellLexer
  import opened ShellGrammar
  import opened ShellParser
  import opened ShellRender
  import opened ShellExec

  // ---------- The table each child must have ----------

  predicate Standard(t: Table) { 0 in t && 1 in t && 2 in t }

  // A redirection replaces a descriptor when its file can be opened and leaves it otherwise.
  function Overlay(w: World, path: Path, n: nat, file: Option<string>, otherwise: Desc): Desc
  {
    if file.Some? && w.opens(path, n) then File(file.value) else otherwise
  }

  predicate IsPiped(cmds: seq<Command>, k: nat)
    requires k <= |cmds|
  {
    k > 0 && cmds[k - 1].controlop.CmdPipe?
  }

  // Child k: the shell's own table with only the three standard descriptors replaced.
  function ChildTable(w: World, path: Path, base: Table, cmds: seq<Command>, k: nat): (t: Table)
    requires Standard(base) && k < |cmds|
    ensures t.Keys == base.Keys
  {
    var c, me := cmds[k], path + [k];
    base[0 := Overlay(w, me, 0, c.redirIn, if IsPiped(cmds, k) then ReadEnd(path + [k - 1]) else base[0])]
        [1 := Overlay(w, me, 1, c.redirOut, if c.controlop.CmdPipe? then WriteEnd(me) else base[1])]
        [2 := Overlay(w, me, 2, c.redirErr, base[2])]
  }

  // The table right after the fork of command k: the previous pipe's read end at pass, and both ends
  // of the command's own pipe at r and out.
  function Forked(path: Path, cmds: seq<Command>, k: nat, pass: nat, r: nat, out: nat, base: Table): Table
    requires k < |cmds|
  {
    var own := if cmds[k].controlop.CmdPipe? then base[r := ReadEnd(path + [k])][out := WriteEnd(path + [k])] else base;
    if IsPiped(cmds, k) then own[pass := ReadEnd(path + [k - 1])] else own
  }

  // All processes below path, from the k-th command on, each with the table it starts its work with.
  function Spawned(w: World, path: Path, base: Table, cmds: seq<Command>, k: nat): seq<Proc>
    requires Standard(base) && k <= |cmds|
    decreases cmds, 1, |cmds| - k
  {
    if k == |cmds| then []
    else
      Family(w, path + [k], ChildTable(w, path, base, cmds, k), cmds[k]) +
      if Continues(w, path, cmds, k) then Spawned(w, path, base, cmds, k + 1) else []
  }

  // The child at path me with table t, and everything it forks in turn.
  function Family(w: World, me: Path, t: Table, c: Command): seq<Proc>
    requires Standard(t)
    decreases c, 0
  {
    [Proc(me, t)] + if c.subshell == [] then [] else Spawned(w, me, t, c.subshell, 0)
  }

  // ---------- System calls ----------

  // The lowest free descriptor from n on.
  function LowestFree(t: Table, n: nat): (fd: nat)
    ensures n <= fd && fd !in t && forall m | n <= m < fd :: m in t
    decreases |Upward(t, n)|
  {
    if n in t then
      UpwardShrinks(t, n);
      LowestFree(t, n + 1)
    else n
  }

  ghost function Upward(t: Table, n: nat): set<nat> { set m | m in t && m >= n }

  lemma UpwardShrinks(t: Table, n: nat)
    requires n in t
    ensures |Upward(t, n + 1)| < |Upward(t, n)|
  {
    assert Upward(t, n) == Upward(t, n + 1) + {n};
  }

  class Process {
    const path: Path
    var fds: Table

    constructor (path: Path, fds: Table)
      ensures this.path == path && this.fds == fds
    {
      this.path, this.fds := path, fds;
    }

    method Pipe(name: Path) returns (r: nat, w: nat)
      modifies this`fds
      ensures r !in old(fds) && w !in old(fds) && r != w
      ensures fds == old(fds)[r := ReadEnd(name)][w := WriteEnd(name)]
    {
      r := LowestFree(fds, 0);
      fds := fds[r := ReadEnd(name)];
      w := LowestFree(fds, 0);
      fds := fds[w := WriteEnd(name)];
    }

    method Close(fd: int)
      modifies this`fds
      ensures fds == map n | n in old(fds) && n != fd :: old(fds)[n]
    {
      fds := map n | n in fds && n != fd :: fds[n];
    }

    method Dup2(source: int, target: nat)
      modifies this`fds
      ensures fds == if source in old(fds) then old(fds)[target := old(fds)[source]] else old(fds)
    {
      if source in fds {
        fds := fds[target := fds[source]];
      }
    }

    // open returns the lowest free descriptor, or -1.
    method Open(name: string, succeeds: bool) returns (fd: int)
      modifies this`fds
      ensures if succeeds then fd >= 0 && fd !in old(fds) && fds == old(fds)[fd := File(name)]
              else fd == -1 && fds == old(fds)
    {
      fd := -1;
      if succeeds {
        fd := LowestFree(fds, 0);
        fds := fds[fd := File(name)];
      }
    }

    method Fork(child: Path) returns (p: Process)
      ensures fresh(p) && p.path == child && p.fds == fds
    {
      p := new Process(child, fds);
    }

    // One of the three redirections: open, dup2, close.
    method RedirectTo(w: World, n: nat, file: Option<string>)
      requires n in fds
      modifies this`fds
      ensures fds == old(fds)[n := Overlay(w, path, n, file, old(fds)[n])]
    {
      if file.Some? {
        var fd := Open(file.value, w.opens(path, n));
        Dup2(fd, n);
        Close(fd);
      }
    }

    // The child's first steps: the previous pipe's read end, open at pass, becomes descriptor 0, and
    // the write end of its own pipe (r, out) becomes descriptor 1; both pipes' spare ends are closed.
    method TakeInput(pass: nat, ghost base: Table, ghost source: Desc)
      requires Standard(base) && (if pass == 0 then source == base[0] else pass !in base)
      requires fds == base[pass := source]
      modifies this`fds
      ensures fds == base[0 := source]
    {
      Dup2(pass, 0);
      if pass != 0 {
        Close(pass);
      }
    }

    method TakeOutput(r: nat, out: nat, ghost base: Table, ghost unread: Desc, ghost sink: Desc)
      requires Standard(base) && r !in base && out !in base && r != out
      requires fds == base[r := unread][out := sink]
      modifies this`fds
      ensures fds == base[1 := sink]
    {
      Dup2(out, 1);
      Close(r);
      Close(out);
    }

    method Redirections(w: World, c: Command, ghost base: Table, ghost source: Desc, ghost sink: Desc)
      requires Standard(base) && fds == base[0 := source][1 := sink]
      modifies this`fds
      ensures fds == base[0 := Overlay(w, path, 0, c.redirIn, source)]
                         [1 := Overlay(w, path, 1, c.redirOut, sink)]
                         [2 := Overlay(w, path, 2, c.redirErr, base[2])]
    {
      RedirectTo(w, 0, c.redirIn);
      RedirectTo(w, 1, c.redirOut);
      RedirectTo(w, 2, c.redirErr);
    }

    method SetUp(w: World, cmds: seq<Command>, k: nat, shell: Path, pass: nat, r: nat, out: nat, ghost base: Table)
      requires k < |cmds| && Standard(base) && path == shell + [k]
      requires pass == 0 <==> !IsPiped(cmds, k)
      requires pass != 0 ==> pass !in base
      requires cmds[k].controlop.CmdPipe? ==> r !in base && out !in base && r != pass && out != pass && r != out
      requires fds == Forked(shell, cmds, k, pass, r, out, base)
      modifies this`fds
      ensures fds == ChildTable(w, shell, base, cmds, k)
    {
      var c := cmds[k];
      ghost var source := if IsPiped(cmds, k) then ReadEnd(shell + [k - 1]) else base[0];
      ghost var middle := if c.controlop.CmdPipe? then base[r := ReadEnd(path)][out := WriteEnd(path)] else base;
      assert fds == middle[pass := source];
      TakeInput(pass, middle, source);
      if c.controlop.CmdPipe? {
        assert fds == base[0 := source][r := ReadEnd(path)][out := WriteEnd(path)];
        TakeOutput(r, out, base[0 := source], ReadEnd(path), WriteEnd(path));
      } else {
        assert fds == base[0 := source][1 := base[1]];
      }
      Redirections(w, c, base, source, if c.controlop.CmdPipe? then WriteEnd(path) else base[1]);
    }

    // The shell's table between two commands: the read end of the last pipe, if there is one, at pass.
    ghost predicate Holds(base: Table, cmds: seq<Command>, k: nat, pass: nat)
      requires k <= |cmds|
      reads this
    {
      if IsPiped(cmds, k) then pass !in base && fds == base[pass := ReadEnd(path + [k - 1])]
      else pass == 0 && fds == base
    }

    // cmd_exec on the k-th command; exits reports that the command is an exit, which ends this process.
    method CmdExec(w: World, cmds: seq<Command>, k: nat, passPipe: nat, ghost base: Table)
        returns (status: nat, pass: nat, exits: bool, procs: seq<Proc>)
      requires Shaped(cmds) && k < |cmds| && Standard(base) && Holds(base, cmds, k, passPipe)
      modifies this`fds
      ensures Holds(base, cmds, k + 1, pass)
      ensures status == Status(w, path + [k], cmds[k]) && exits == IsExit(cmds[k])
      ensures procs == Family(w, path + [k], ChildTable(w, path, base, cmds, k), cmds[k])
      decreases cmds, 1
    {
      hide Shaped, ChildTable;
      var c := cmds[k];
      var r, out := 0, 0;
      if c.controlop.CmdPipe? {
        r, out := Pipe(path + [k]);
      }
      var child := Fork(path + [k]);
      child.SetUp(w, cmds, k, path, passPipe, r, out, base);
      status, procs := child.Work(w, cmds, k);
      ParentSide(cmds, k, passPipe, r, out, base);
      pass := if c.controlop.CmdPipe? then r else 0;
      exits := IsExit(c);
    }

    // The parent's side of cmd_exec; the next command is handed r if there is a pipe, and 0 otherwise.
    method ParentSide(cmds: seq<Command>, k: nat, passPipe: nat, r: nat, out: nat, ghost base: Table)
      requires k < |cmds| && Standard(base)
      requires passPipe == 0 <==> !IsPiped(cmds, k)
      requires passPipe != 0 ==> passPipe !in base
      requires cmds[k].controlop.CmdPipe? ==> r !in base && out !in base && r != passPipe && out != passPipe && r != out
      requires fds == Forked(path, cmds, k, passPipe, r, out, base)
      modifies this`fds
      ensures Holds(base, cmds, k + 1, if cmds[k].controlop.CmdPipe? then r else 0)
    {
      if passPipe != 0 {
        Close(passPipe);
      }
      if cmds[k].controlop.CmdPipe? {
        assert fds == base[r := ReadEnd(path + [k])][out := WriteEnd(path + [k])];
        Close(out);
      }
    }

    // What the child does after the set-up; a null command cannot occur in a list of the right shape.
    method Work(w: World, cmds: seq<Command>, k: nat) returns (status: nat, procs: seq<Proc>)
      requires Shaped(cmds) && k < |cmds| && Standard(fds)
      modifies this`fds
      ensures status == Status(w, path, cmds[k]) && procs == Family(w, path, old(fds), cmds[k])
      decreases cmds, 0
    {
      var c := cmds[k];
      procs := [Proc(path, fds)];
      if c.subshell != [] {
        var outcome, more := CmdLineExec(w, c.subshell);
        status := match outcome case Returned(s) => (if s == 0 then 0 else 5) case Exited(code) => code;
        procs := procs + more;
      } else if IsExit(c) {
        status := ExitCode(w, path, c);
      } else {
        status := w.exits(path);
      }
    }

    // cmd_line_exec
    method CmdLineExec(w: World, cmds: seq<Command>) returns (outcome: Outcome, procs: seq<Proc>)
      requires Shaped(cmds) && Standard(fds)
      modifies this`fds
      ensures outcome == Result(w, path, cmds)
      ensures outcome.Returned? ==> fds == old(fds)
      ensures procs == Spawned(w, path, old(fds), cmds, 0)
      decreases cmds, 2
    {
      var cmdStatus, pass := 0, 0;
      ghost var base := fds;
      procs := [];
      var k := 0;
      while k < |cmds|
        invariant k <= |cmds| && Holds(base, cmds, k, pass)
        invariant Result(w, path, cmds) == Outcomes(w, path, cmds, k, cmdStatus)
        invariant Spawned(w, path, base, cmds, 0) == procs + Spawned(w, path, base, cmds, k)
      {
        var op := cmds[k].controlop;
        var status, next, exits, family := CmdExec(w, cmds, k, pass, base);
        pass := next;
        procs := procs + family;
        if exits {
          return Exited(status), procs;
        }
        if op.CmdEnd? || op.CmdSemicolon? {
          cmdStatus := status;
        } else if op.CmdBackground? || op.CmdPipe? {
          cmdStatus := 0;
        } else if op.CmdAnd? {
          if status != 0 {
            return Returned(cmdStatus), procs;
          }
          cmdStatus := 0;
        } else {
          cmdStatus := status;
          if cmdStatus == 0 {
            return Returned(cmdStatus), procs;
          }
        }
        k := k + 1;
      }
      return Returned(cmdStatus), procs;
    }
  }

  // ---------- Who holds which end of which pipe ----------

  // A write end is held only by the child the pipe was made for and by what that child forks, and a
  // read end only by the next child and what that one forks.
  predicate MayHold(q: Path, d: Desc)
  {
    match d
    case WriteEnd(pipe) => pipe <= q
    case ReadEnd(pipe) => pipe != [] && pipe[..|pipe| - 1] + [pipe[|pipe| - 1] + 1] <= q
    case _ => true
  }

  predicate HoldsOnlyOwn(p: Proc) { forall n | n in p.fds :: MayHold(p.path, p.fds[n]) }

  lemma {:induction false} ChildHoldsOnlyOwn(w: World, path: Path, base: Table, cmds: seq<Command>, k: nat)
    requires Standard(base) && k < |cmds| && HoldsOnlyOwn(Proc(path, base))
    ensures HoldsOnlyOwn(Proc(path + [k], ChildTable(w, path, base, cmds, k)))
  {
    var t, q := ChildTable(w, path, base, cmds, k), path + [k];
    if k > 0 {
      assert (path + [k - 1])[..|path|] == path;
    }
    forall n | n in t ensures MayHold(q, t[n]) {
      assert MayHold(path, base[n]);
    }
  }

  // In the whole tree of processes that a list gives rise to, no process ever starts its work with an
  // end of a pipe that is not its own, nor with any descriptor the shell did not have at the start.
  lemma {:induction false} PipeEndsStayHome(w: World, path: Path, base: Table, cmds: seq<Command>, k: nat)
    requires Standard(base) && k <= |cmds| && HoldsOnlyOwn(Proc(path, base))
    ensures forall p | p in Spawned(w, path, base, cmds, k) ::
      path < p.path && HoldsOnlyOwn(p) && p.fds.Keys == base.Keys
    decreases cmds, 1, |cmds| - k
  {
    hide ChildTable, HoldsOnlyOwn;
    if k < |cmds| {
      var me, t := path + [k], ChildTable(w, path, base, cmds, k);
      ChildHoldsOnlyOwn(w, path, base, cmds, k);
      FamilyStaysHome(w, me, t, cmds[k]);
      if Continues(w, path, cmds, k) {
        PipeEndsStayHome(w, path, base, cmds, k + 1);
      }
      assert path < me;
    }
  }

  lemma {:induction false} FamilyStaysHome(w: World, me: Path, t: Table, c: Command)
    requires Standard(t) && HoldsOnlyOwn(Proc(me, t))
    ensures forall p | p in Family(w, me, t, c) :: me <= p.path && HoldsOnlyOwn(p) && p.fds.Keys == t.Keys
    decreases c, 0
  {
    hide ChildTable, HoldsOnlyOwn;
    if c.subshell != [] {
      PipeEndsStayHome(w, me, t, c.subshell, 0);
    }
  }

  // No two processes of a run share a path, so a pipe has one owner.
  predicate Distinct(procs: seq<Proc>)
  {
    forall i, j | 0 <= i < j < |procs| :: procs[i].path != procs[j].path
  }

  // The processes forked from command k on lie below children numbered k or more.
  predicate From(path: Path, k: nat, q: Path) { path < q && q[|path|] >= k }

  lemma {:induction false} SpawnedFrom(w: World, path: Path, base: Table, cmds: seq<Command>, k: nat)
    requires Standard(base) && k <= |cmds|
    ensures forall p | p in Spawned(w, path, base, cmds, k) :: From(path, k, p.path)
    decreases cmds, 1, |cmds| - k
  {
    hide ChildTable;
    if k < |cmds| {
      FamilyBelow(w, path + [k], ChildTable(w, path, base, cmds, k), cmds[k]);
      if Continues(w, path, cmds, k) {
        SpawnedFrom(w, path, base, cmds, k + 1);
      }
      forall p | p in Family(w, path + [k], ChildTable(w, path, base, cmds, k), cmds[k]) ensures From(path, k, p.path) {
        assert (path + [k])[|path|] == k;
      }
    }
  }

  lemma {:induction false} FamilyBelow(w: World, me: Path, t: Table, c: Command)
    requires Standard(t)
    ensures forall p | p in Family(w, me, t, c) :: me <= p.path
    decreases c, 0
  {
    hide ChildTable;
    if c.subshell != [] {
      SpawnedFrom(w, me, t, c.subshell, 0);
    }
  }

  lemma {:induction false} OneOwner(w: World, path: Path, base: Table, cmds: seq<Command>, k: nat)
    requires Standard(base) && k <= |cmds|
    ensures Distinct(Spawned(w, path, base, cmds, k))
    decreases cmds, 1, |cmds| - k
  {
    hide ChildTable;
    if k < |cmds| {
      var family := Family(w, path + [k], ChildTable(w, path, base, cmds, k), cmds[k]);
      OneOwnerFamily(w, path + [k], ChildTable(w, path, base, cmds, k), cmds[k]);
      FamilyBelow(w, path + [k], ChildTable(w, path, base, cmds, k), cmds[k]);
      if Continues(w, path, cmds, k) {
        OneOwner(w, path, base, cmds, k + 1);
        SpawnedFrom(w, path, base, cmds, k + 1);
        Apart(path, k, family, Spawned(w, path, base, cmds, k + 1));
      } else {
        assert family + [] == family;
      }
    }
  }

  lemma Apart(path: Path, k: nat, a: seq<Proc>, b: seq<Proc>)
    requires Distinct(a) && Distinct(b)
    requires forall p | p in a :: path + [k] <= p.path
    requires forall p | p in b :: From(path, k + 1, p.path)
    ensures Distinct(a + b)
  {
    forall i, j | 0 <= i < |a| && 0 <= j < |b| ensures a[i].path != b[j].path {
      assert a[i] in a && b[j] in b;
      assert (path + [k])[|path|] == k;
    }
  }

  lemma {:induction false} OneOwnerFamily(w: World, me: Path, t: Table, c: Command)
    requires Standard(t)
    ensures Distinct(Family(w, me, t, c))
    decreases c, 0
  {
    hide ChildTable;
    if c.subshell != [] {
      OneOwner(w, me, t, c.subshell, 0);
      SpawnedFrom(w, me, t, c.subshell, 0);
      var more := Spawned(w, me, t, c.subshell, 0);
      forall j | 0 <= j < |more| ensures more[j].path != me {
        assert more[j] in more;
      }
    }
  }

  // The executor forks exactly the commands that the operators let it reach: there is a process for
  // command j if and only if every earlier command lets the list go on.
  lemma SpawnsExactly(w: World, path: Path, base: Table, cmds: seq<Command>, j: nat)
    requires Standard(base) && j < |cmds|
    ensures (exists p :: p in Spawned(w, path, base, cmds, 0) && p.path == path + [j]) <==> IsRun(w, path, cmds, j)
    ensures IsRun(w, path, cmds, j) <==> j < RunCount(w, path, cmds)
  {
    SpawnsFrom(w, path, base, cmds, 0, j);
  }

  // In a list of ordinary commands there is a process for command j if and only if every && before it
  // follows a command that exits with 0 and every || one that does not.
  lemma SpawnsByStatus(w: World, path: Path, base: Table, cmds: seq<Command>, j: nat)
    requires Standard(base) && j < |cmds| && forall i | 0 <= i < j :: Ordinary(cmds[i])
    ensures (exists p :: p in Spawned(w, path, base, cmds, 0) && p.path == path + [j]) <==>
              forall i | 0 <= i < j ::
                && (cmds[i].controlop.CmdAnd? ==> w.exits(path + [i]) == 0)
                && (cmds[i].controlop.CmdOr? ==> w.exits(path + [i]) != 0)
  {
    SpawnsExactly(w, path, base, cmds, j);
    OrdinaryRuns(w, path, cmds, j);
    hide Spawned, IsRun, Ordinary;
    assert forall i: nat | i < j ::
        Goes(w, path, cmds, i) <==>
          && (cmds[i].controlop.CmdAnd? ==> w.exits(path + [i]) == 0)
          && (cmds[i].controlop.CmdOr? ==> w.exits(path + [i]) != 0);
  }

  predicate HasChild(procs: seq<Proc>, q: Path) { exists p :: p in procs && p.path == q }

  lemma {:induction false} SpawnsFrom(w: World, path: Path, base: Table, cmds: seq<Command>, k: nat, j: nat)
    requires Standard(base) && k <= j < |cmds| && forall i: nat | i < k :: Continues(w, path, cmds, i)
    ensures HasChild(Spawned(w, path, base, cmds, k), path + [j]) <==> IsRun(w, path, cmds, j)
    ensures IsRun(w, path, cmds, j) <==> j < RunFrom(w, path, cmds, k)
    decreases |cmds| - k
  {
    hide ChildTable, Continues;
    var t := ChildTable(w, path, base, cmds, k);
    var family := Family(w, path + [k], t, cmds[k]);
    FamilyBelow(w, path + [k], t, cmds[k]);
    assert (path + [k])[|path|] == k && (path + [j])[|path|] == j;
    if k == j {
      assert Proc(path + [j], t) in family;
    } else if Continues(w, path, cmds, k) {
      SpawnsFrom(w, path, base, cmds, k + 1, j);
      var more := Spawned(w, path, base, cmds, k + 1);
      assert forall p: Proc | p in family + more && p.path == path + [j] :: p in more;
    } else {
      assert !IsRun(w, path, cmds, j);
    }
  }

  // Among the children of one list: exactly child k gets the write end of pipe k, unless > replaces
  // it, and exactly child k + 1 its read end, unless < replaces it.
  lemma PipeEndsExactly(w: World, path: Path, base: Table, cmds: seq<Command>, k: nat, i: nat)
    requires Standard(base) && HoldsOnlyOwn(Proc(path, base)) && k < |cmds| && i < |cmds|
    ensures var t := ChildTable(w, path, base, cmds, i);
      && (WriteEnd(path + [k]) in t.Values <==>
            i == k && cmds[k].controlop.CmdPipe? && !(cmds[k].redirOut.Some? && w.opens(path + [k], 1)))
      && (ReadEnd(path + [k]) in t.Values <==>
            i == k + 1 && cmds[k].controlop.CmdPipe? && !(cmds[i].redirIn.Some? && w.opens(path + [i], 0)))
  {
    var t := ChildTable(w, path, base, cmds, i);
    var inherited := forall n | n in base :: base[n] != WriteEnd(path + [k]) && base[n] != ReadEnd(path + [k]);
    assert inherited by {
      assert (path + [k])[..|path|] == path;
      forall n | n in base ensures base[n] != WriteEnd(path + [k]) && base[n] != ReadEnd(path + [k]) {
        assert MayHold(path, base[n]);
      }
    }
    assert 0 in t && 1 in t;
    assert forall j: nat :: path + [k] == path + [j] <==> (path + [k])[|path|] == (path + [j])[|path|];
  }

  // What stands behind each descriptor of child k: the named file if the redirection names one that
  // opens; otherwise the pipe's end, or what the shell had there.
  lemma ChildDescriptors(w: World, path: Path, base: Table, cmds: seq<Command>, k: nat, name: string)
    requires Standard(base) && k < |cmds| && forall n | n in base :: base[n] != File(name)
    ensures var c, me, t := cmds[k], path + [k], ChildTable(w, path, base, cmds, k);
      && (t[0] == File(name) <==> c.redirIn == Some(name) && w.opens(me, 0))
      && (t[1] == File(name) <==> c.redirOut == Some(name) && w.opens(me, 1))
      && (t[2] == File(name) <==> c.redirErr == Some(name) && w.opens(me, 2))
    ensures var c, me, t := cmds[k], path + [k], ChildTable(w, path, base, cmds, k);
      && (!(c.redirIn.Some? && w.opens(me, 0)) && (k == 0 || !cmds[k - 1].controlop.CmdPipe?) ==> t[0] == base[0])
      && (!(c.redirOut.Some? && w.opens(me, 1)) && !c.controlop.CmdPipe? ==> t[1] == base[1])
      && (!(c.redirErr.Some? && w.opens(me, 2)) ==> t[2] == base[2])
      && (forall n | n in base && n > 2 :: t[n] == base[n])
  {
  }

  // ---------- One line of input ----------

  // What main does with a line: a syntax error leaves the shell alone; otherwise the list is run, and
  // no pipe is ever without a right-hand side because the parser never returns such a list.
  method RunLine(shell: Process, w: World, line: string) returns (outcome: Option<Outcome>, procs: seq<Proc>)
    requires !Lex(line).0.Error? && Standard(shell.fds)
    modifies shell`fds
    ensures outcome.None? <==> Parsed(line).None?
    ensures outcome.None? ==> shell.fds == old(shell.fds) && procs == []
    ensures outcome.Some? ==> outcome.value == Result(w, shell.path, Parsed(line).value)
    ensures outcome.Some? ==> procs == Spawned(w, shell.path, old(shell.fds), Parsed(line).value, 0)
    ensures outcome.Some? && outcome.value.Returned? ==> shell.fds == old(shell.fds)
  {
    var cmds := ParseLine(line);
    if cmds.None? {
      return None, [];
    }
    ParsedIsRenderable(line, cmds.value);
    var o, ps := shell.CmdLineExec(w, cmds.value);
    return Some(o), ps;
  }
}
