/**
  The interpreter for command lists: the operator semantics, and the protocol by which descriptors
  are opened, duplicated, inherited and closed around each fork.
  What the operating system decides is a World: the exit status of each simple command and whether
  each redirection can be opened. A process is named by its path: the shell is [], its k-th command
  [k], the j-th command of that subshell [k, j]. A pipe is named by the process it is created for.
  */
module ShellExec {
  import opened ShellGrammar

  type Path = seq<nat>

  datatype World = World(exits: Path -> nat, opens: (Path, nat) -> bool)

  datatype Desc = Std(n: nat) | File(name: string) | ReadEnd(pipe: Path) | WriteEnd(pipe: Path)

  type Table = map<nat, Desc>

  datatype Proc = Proc(path: Path, fds: Table)

  // How a run of cmd_line_exec ends: it returns a status, or an exit command ends the process in it.
  datatype Outcome = Returned(status: nat) | Exited(code: nat)

  // ---------- Operator semantics, as coded ----------

  // exit with at most one argument also ends the process that runs the list.
  predicate IsExit(c: Command) { c.argv != [] && c.argv[0] == "exit" && |c.argv| <= 2 }

  function ExitCode(w: World, path: Path, c: Command): nat
    requires IsExit(c)
  {
    if |c.argv| == 1 || c.argv[1] == "0" then 0 else w.exits(path)
  }

  // The exit status of the child that runs c: a subshell exits with 0 or 5, unless exit ends it.
  function Status(w: World, path: Path, c: Command): nat
    decreases c, 0
  {
    if c.subshell != [] then
      match Outcomes(w, path, c.subshell, 0, 0)
      case Returned(status) => if status == 0 then 0 else 5
      case Exited(code) => code
    else if c.argv == [] then 0
    else if IsExit(c) then ExitCode(w, path, c)
    else w.exits(path)
  }

  // cmd_line_exec from its k-th command on, with the value of cmd_status there.
  function Outcomes(w: World, path: Path, cmds: seq<Command>, k: nat, status: nat): Outcome
    requires k <= |cmds|
    decreases cmds, 1, |cmds| - k
  {
    if k == |cmds| then Returned(status)
    else
      var c := cmds[k];
      var s := Status(w, path + [k], c);
      if IsExit(c) then Exited(ExitCode(w, path + [k], c))
      else
        match c.controlop
        case CmdEnd => Outcomes(w, path, cmds, k + 1, s)
        case CmdSemicolon => Outcomes(w, path, cmds, k + 1, s)
        case CmdBackground => Outcomes(w, path, cmds, k + 1, 0)
        case CmdPipe => Outcomes(w, path, cmds, k + 1, 0)
        case CmdAnd => if s == 0 then Outcomes(w, path, cmds, k + 1, 0) else Returned(status)
        case CmdOr => if s == 0 then Returned(0) else Outcomes(w, path, cmds, k + 1, s)
  }

  function Result(w: World, path: Path, cmds: seq<Command>): Outcome { Outcomes(w, path, cmds, 0, 0) }

  // ---------- Operator semantics, as documented ----------

  // Whether the operator lets the list go on after a command with status s.
  predicate Passes(op: ControlOp, s: nat) { (op.CmdAnd? ==> s == 0) && (op.CmdOr? ==> s != 0) }

  predicate Continues(w: World, path: Path, cmds: seq<Command>, k: nat)
    requires k < |cmds|
  {
    !IsExit(cmds[k]) && Passes(cmds[k].controlop, Status(w, path + [k], cmds[k]))
  }

  // Command j is run exactly when every earlier one lets the list go on.
  predicate IsRun(w: World, path: Path, cmds: seq<Command>, j: nat)
  {
    j < |cmds| && forall i: nat | i < j :: Continues(w, path, cmds, i)
  }

  function RunFrom(w: World, path: Path, cmds: seq<Command>, k: nat): (n: nat)
    requires k <= |cmds|
    ensures k <= n <= |cmds|
    decreases |cmds| - k
  {
    if k == |cmds| then k
    else if Continues(w, path, cmds, k) then RunFrom(w, path, cmds, k + 1)
    else k + 1
  }

  // How many commands are run; they are the first ones.
  function RunCount(w: World, path: Path, cmds: seq<Command>): (n: nat)
    ensures n <= |cmds|
  {
    RunFrom(w, path, cmds, 0)
  }

  // The status that counts: background and pipe commands count as 0.
  function Counted(w: World, path: Path, cmds: seq<Command>, k: nat): nat
    requires k < |cmds|
  {
    if cmds[k].controlop.CmdBackground? || cmds[k].controlop.CmdPipe? then 0 else Status(w, path + [k], cmds[k])
  }

  // The exit status of the last completed command.
  function Documented(w: World, path: Path, cmds: seq<Command>): nat
  {
    var n := RunCount(w, path, cmds);
    if n == 0 then 0 else Counted(w, path, cmds, n - 1)
  }

  // The status left by the command before k.
  function Before(w: World, path: Path, cmds: seq<Command>, k: nat): nat
    requires k <= |cmds|
  {
    if k == 0 then 0 else Counted(w, path, cmds, k - 1)
  }

  predicate StopsAtAnd(w: World, path: Path, cmds: seq<Command>)
  {
    var n := RunCount(w, path, cmds);
    n > 0 && cmds[n - 1].controlop.CmdAnd? && Status(w, path + [n - 1], cmds[n - 1]) != 0
  }

  lemma {:induction false} OutcomesExact(w: World, path: Path, cmds: seq<Command>, k: nat)
    requires k <= |cmds| && forall i: nat | i < k :: Continues(w, path, cmds, i)
    requires RunCount(w, path, cmds) == RunFrom(w, path, cmds, k)
    ensures var n := RunCount(w, path, cmds);
      Outcomes(w, path, cmds, k, Before(w, path, cmds, k)) ==
        if n > 0 && IsExit(cmds[n - 1]) then Exited(ExitCode(w, path + [n - 1], cmds[n - 1]))
        else if StopsAtAnd(w, path, cmds) then Returned(Before(w, path, cmds, n - 1))
        else Returned(Documented(w, path, cmds))
    decreases |cmds| - k
  {
    if k == |cmds| {
      assert k > 0 ==> Continues(w, path, cmds, k - 1);
    } else if Continues(w, path, cmds, k) {
      OutcomesExact(w, path, cmds, k + 1);
    }
  }

  // A list ends the process that runs it exactly when the last command that is run is an exit.
  lemma ExitsExactly(w: World, path: Path, cmds: seq<Command>)
    ensures var n := RunCount(w, path, cmds);
      Result(w, path, cmds).Exited? <==> n > 0 && IsExit(cmds[n - 1])
  {
    OutcomesExact(w, path, cmds, 0);
  }

  // The returned status is the documented one, except when the list stops at a failing && command
  // whose status differs from the status before it: that older status is returned instead.
  lemma StatusAsDocumented(w: World, path: Path, cmds: seq<Command>)
    requires Result(w, path, cmds).Returned?
    ensures var n := RunCount(w, path, cmds);
      Result(w, path, cmds).status == Documented(w, path, cmds) <==>
        !(StopsAtAnd(w, path, cmds) && Status(w, path + [n - 1], cmds[n - 1]) != Before(w, path, cmds, n - 1))
  {
    OutcomesExact(w, path, cmds, 0);
  }

  // A subshell exits with 0 or 5 for the documented status of its list, except when the list stops
  // at a failing && with status 0 before it.
  lemma SubshellStatus(w: World, path: Path, c: Command)
    requires c.subshell != [] && Result(w, path, c.subshell).Returned?
    ensures var n := RunCount(w, path, c.subshell);
      Status(w, path, c) == (if Documented(w, path, c.subshell) == 0 then 0 else 5) <==>
        !(StopsAtAnd(w, path, c.subshell) && Before(w, path, c.subshell, n - 1) == 0)
  {
    OutcomesExact(w, path, c.subshell, 0);
  }

  // false && true: the documentation promises a failing status, the code returns 0.
  lemma FailingAndReturnsZero(w: World)
    requires w.exits([0]) != 0
    ensures
      var cmds := [NoCommand().(argv := ["false"], controlop := CmdAnd), NoCommand().(argv := ["true"])];
      Result(w, [], cmds) == Returned(0) && Documented(w, [], cmds) == w.exits([0])
  {
    var cmds := [NoCommand().(argv := ["false"], controlop := CmdAnd), NoCommand().(argv := ["true"])];
    assert [] + [0] == [0];
    assert !IsExit(cmds[0]);
    assert !Continues(w, [], cmds, 0);
    assert RunCount(w, [], cmds) == 1;
  }

  // ---------- What the answers of the world decide ----------

  // An ordinary command: not a subshell, not empty, and not an exit that ends the list.
  predicate Ordinary(c: Command)
  {
    c.subshell == [] && c.argv != [] && !(c.argv[0] == "exit" && |c.argv| <= 2)
  }

  // The operator after command i lets the list go on, by the command's exit status alone.
  predicate Goes(w: World, path: Path, cmds: seq<Command>, i: nat)
    requires i < |cmds|
  {
    (cmds[i].controlop.CmdAnd? ==> w.exits(path + [i]) == 0) && (cmds[i].controlop.CmdOr? ==> w.exits(path + [i]) != 0)
  }

  lemma OrdinaryGoes(w: World, path: Path, cmds: seq<Command>, i: nat)
    requires i < |cmds| && Ordinary(cmds[i])
    ensures Continues(w, path, cmds, i) <==> Goes(w, path, cmds, i)
    ensures Status(w, path + [i], cmds[i]) == w.exits(path + [i]) && !IsExit(cmds[i])
  {
  }

  // Among ordinary commands, command j is run exactly when every && before it follows a status of 0
  // and every || before it another status.
  lemma OrdinaryRuns(w: World, path: Path, cmds: seq<Command>, j: nat)
    requires j < |cmds| && forall i | 0 <= i < j :: Ordinary(cmds[i])
    ensures IsRun(w, path, cmds, j) <==> forall i: nat | i < j :: Goes(w, path, cmds, i)
  {
    hide Continues, Goes, Ordinary;
    forall i: nat | i < j ensures Continues(w, path, cmds, i) <==> Goes(w, path, cmds, i) {
      OrdinaryGoes(w, path, cmds, i);
    }
  }

  // Command n - 1 is the last one that is run.
  predicate LastRun(w: World, path: Path, cmds: seq<Command>, n: nat)
  {
    && 0 < n <= |cmds| && (forall i: nat | i < n - 1 :: Ordinary(cmds[i]) && Goes(w, path, cmds, i))
    && (Ordinary(cmds[n - 1]) ==> n == |cmds| || !Goes(w, path, cmds, n - 1))
  }

  // The status left by a list of ordinary commands before command k.
  function Left(w: World, path: Path, cmds: seq<Command>, k: nat): nat
    requires k <= |cmds|
  {
    if k == 0 || cmds[k - 1].controlop in {CmdBackground, CmdPipe} then 0 else w.exits(path + [k - 1])
  }

  lemma {:induction false} RunsUpTo(w: World, path: Path, cmds: seq<Command>, n: nat, k: nat)
    requires k < n <= |cmds| && forall i: nat | i < n - 1 :: Ordinary(cmds[i]) && Goes(w, path, cmds, i)
    ensures Outcomes(w, path, cmds, k, Left(w, path, cmds, k)) ==
              Outcomes(w, path, cmds, n - 1, Left(w, path, cmds, n - 1))
    decreases n - k
  {
    if k < n - 1 {
      OrdinaryGoes(w, path, cmds, k);
      hide Status, Ordinary;
      RunsUpTo(w, path, cmds, n, k + 1);
    }
  }

  // The list returns the exit status of the last command that is run, 0 if that is in the background or
  // in front of a pipe, and for a failing && the status left before it.
  lemma OrdinaryReturns(w: World, path: Path, cmds: seq<Command>, n: nat)
    requires LastRun(w, path, cmds, n) && Ordinary(cmds[n - 1])
    ensures Result(w, path, cmds) == Returned(
      if cmds[n - 1].controlop.CmdAnd? && w.exits(path + [n - 1]) != 0 then Left(w, path, cmds, n - 1)
      else Left(w, path, cmds, n))
  {
    RunsUpTo(w, path, cmds, n, 0);
    OrdinaryGoes(w, path, cmds, n - 1);
    hide Status;
  }

  // An exit with at most one argument ends the list's process, with 0 if it has none or the argument 0.
  lemma ExitEnds(w: World, path: Path, cmds: seq<Command>, n: nat)
    requires LastRun(w, path, cmds, n)
    requires var a := cmds[n - 1].argv; a == ["exit"] || (|a| == 2 && a[0] == "exit")
    ensures var a := cmds[n - 1].argv;
      Result(w, path, cmds) == Exited(if a == ["exit"] || a == ["exit", "0"] then 0 else w.exits(path + [n - 1]))
    ensures forall j | n <= j < |cmds| :: !IsRun(w, path, cmds, j)
  {
    RunsUpTo(w, path, cmds, n, 0);
    hide Status;
    assert !Continues(w, path, cmds, n - 1);
  }

  // A subshell of ordinary commands exits with 0 if its list returns 0, and with 5 otherwise.
  lemma OrdinarySubshell(w: World, path: Path, c: Command, n: nat)
    requires LastRun(w, path, c.subshell, n) && Ordinary(c.subshell[n - 1])
    ensures var cmds := c.subshell;
      Status(w, path, c) ==
        if (if cmds[n - 1].controlop.CmdAnd? && w.exits(path + [n - 1]) != 0 then Left(w, path, cmds, n - 1)
            else Left(w, path, cmds, n)) == 0
        then 0 else 5
  {
    hide Ordinary, Left;
    OrdinaryReturns(w, path, c.subshell, n);
  }
}
