/**
  The two mutually recursive parsing procedures, with their one-token rollback, proved against the
  reader of token streams. A rollback after a lexical error rewinds over a token that has already
  been consumed and replays it; the contracts say how far back that can go and that no such replay
  survives to a top-level success.
  */
module ShellParser {
  import opened Wrappers
  import opened ShellLexer
  import opened ShellGrammar

  // ---------- The whole parse, as a function of the line ----------

  function Parsed(line: string): Option<seq<Command>>
  {
    if !Clean(line) then None
    else
      match ReadLine(Toks(line), false)
      case None => None
      case Some((cmds, _)) => Some(cmds)
  }

  // Reading a list from here and putting the commands read before in front of it.
  function Prepend(cmds: seq<Command>, r: Option<(seq<Command>, seq<Tok>)>): Option<(seq<Command>, seq<Tok>)>
  {
    match r
    case None => None
    case Some((more, rest)) => Some((cmds + more, rest))
  }

  // ---------- Facts about one token ----------

  // Whether the line is clean does not depend on where in it one looks.
  lemma SameClean(q: string)
    requires !Lex(q).0.Error?
    ensures Clean(Lex(q).1) == Clean(q)
  {
    if !Lex(q).0.End? {
      CleanStep(q);
    }
  }

  lemma HeadIsLex(s: string)
    ensures Toks(s) != [] && Head(Toks(s)) == Lex(s).0
    ensures !Lex(s).0.Error? && !Lex(s).0.End? ==> Tail(Toks(s)) == Toks(Lex(s).1) && |Lex(s).1| < |s|
    ensures Lex(s).0.Error? ==> !Clean(s)
    ensures Lex(s).0.End? ==> Clean(s) && Toks(s) == [End]
  {
    if !Lex(s).0.End? && !Lex(s).0.Error? {
      LexProgress(s);
    }
  }

  // Where a parse that began at start may stand: strictly further on, or back at a first word.
  predicate Advanced(start: string, p: string)
  {
    |p| < |start| || (p == start && Lex(start).0.Normal?)
  }

  predicate Joins(t: Tok) { t.AndAnd? || t.OrOr? || t.Pipe? }
  predicate Separates(t: Tok) { t.Semi? || t.Amp? }
  predicate Closes(t: Tok) { t.End? || t.Close? }

  // What follows one command decides whether the list goes on, ends or fails.
  lemma GoesOn(here: string, after: string, c: Command, inParens: bool)
    requires Clean(after) && ReadCommand(NoCommand(), Toks(here)) == Some((c, Toks(after)))
    requires Joins(Lex(after).0) || (Separates(Lex(after).0) && !Closes(Lex(Lex(after).1).0))
    ensures ReadLine(Toks(here), inParens) ==
      Prepend([c.(controlop := ControlOf(Lex(after).0))], ReadLine(Toks(Lex(after).1), inParens))
  {
    hide ReadCommand, Lex, Toks, Clean;
    HeadIsLex(after);
    HeadIsLex(Lex(after).1);
  }

  lemma GoesToTheEnd(here: string, after: string, c: Command, inParens: bool)
    requires Clean(after) && ReadCommand(NoCommand(), Toks(here)) == Some((c, Toks(after)))
    requires Closes(Lex(after).0)
    ensures ReadLine(Toks(here), inParens) ==
      if Lex(after).0 == Terminator(inParens) then Some(([c], Tail(Toks(after)))) else None
  {
    hide ReadCommand, Lex, Toks, Clean;
    HeadIsLex(after);
  }

  lemma GoesToTheEndSeparated(here: string, after: string, c: Command, inParens: bool)
    requires Clean(after) && ReadCommand(NoCommand(), Toks(here)) == Some((c, Toks(after)))
    requires Separates(Lex(after).0) && Closes(Lex(Lex(after).1).0)
    ensures ReadLine(Toks(here), inParens) ==
      if Lex(Lex(after).1).0 == Terminator(inParens)
      then Some(([c.(controlop := ControlOf(Lex(after).0))], Tail(Toks(Lex(after).1)))) else None
  {
    hide ReadCommand, Lex, Toks, Clean;
    HeadIsLex(after);
    HeadIsLex(Lex(after).1);
  }

  lemma GoesWrong(here: string, after: string, c: Command, inParens: bool)
    requires ReadCommand(NoCommand(), Toks(here)) == Some((c, Toks(after)))
    requires var t := Lex(after).0; !Joins(t) && !Separates(t) && !Closes(t)
    ensures ReadLine(Toks(here), inParens) == None
  {
    hide ReadCommand, Lex, Toks, Clean;
    HeadIsLex(after);
  }

  lemma NoCommandNoLine(here: string, inParens: bool)
    requires ReadCommand(NoCommand(), Toks(here)) == None
    ensures ReadLine(Toks(here), inParens) == None
  {
  }

  lemma PrependTwice(cmds: seq<Command>, cmd: Command, r: Option<(seq<Command>, seq<Tok>)>)
    ensures Prepend(cmds, Prepend([cmd], r)) == Prepend(cmds + [cmd], r)
    ensures Prepend([], r) == r
  {
    if r.Some? {
      assert cmds + ([cmd] + r.value.0) == cmds + [cmd] + r.value.0;
      assert [] + r.value.0 == r.value.0;
    }
  }

  // ---------- The procedures ----------

  // cmd_parse
  method CmdParse(ps: ParseState) returns (r: Option<Command>)
    requires ps.Valid()
    modifies ps
    ensures ps.Valid()
    ensures r.Some? ==> ps.last == None && Advanced(old(ps.position), ps.position)
    ensures r.Some? ==> !IsEmpty(r.value) && r.value.controlop == CmdEnd
    ensures r.Some? ==> Clean(ps.position) == Clean(old(ps.position))
    ensures Clean(old(ps.position)) ==>
      ReadCommand(NoCommand(), Toks(old(ps.position))) == if r.None? then None else Some((r.value, Toks(ps.position)))
    decreases |ps.position|, 0
  {
    ghost var start := ps.position;
    var cmd := NoCommand();
    while true
      invariant ps.Valid() && Clean(ps.position) == Clean(start) && cmd.controlop == CmdEnd
      invariant if IsEmpty(cmd) then ps.position == start else |ps.position| < |start|
      invariant !IsEmpty(cmd) ==> ps.last.Some? && Advanced(start, ps.last.value)
      invariant Clean(start) ==> ReadCommand(NoCommand(), Toks(start)) == ReadCommand(cmd, Toks(ps.position))
      decreases |ps.position|
    {
      var here := ps.position;
      HeadIsLex(here);
      var token := ps.GetToken();
      if token.Normal? {
        SameClean(here);
        if |cmd.argv| >= MAXTOKENS || cmd.subshell != [] { return None; }
        cmd := cmd.(argv := cmd.argv + [token.text]);
      } else if IsRedir(token) {
        SameClean(here);
        if cmd.argv == [] && cmd.subshell == [] { return None; }
        ghost var next := ps.position;
        HeadIsLex(next);
        var file := ps.GetToken();
        if !file.Normal? { return None; }
        SameClean(next);
        cmd := Redirect(cmd, token, file.text);
      } else if token.Open? {
        SameClean(here);
        if cmd.subshell != [] || cmd.argv != [] { return None; }
        ghost var next := ps.position;
        var body := CmdLineParse(ps, true);
        if body.None? { return None; }
        cmd := cmd.(subshell := body.value);
      } else {
        ps.UngetToken();
        if cmd.argv == [] && cmd.subshell == [] { return None; }
        return Some(cmd);
      }
    }
  }

  // cmd_line_parse; the list under construction is a sequence, so head, prev_cmd and next are one.
  method CmdLineParse(ps: ParseState, inParens: bool) returns (r: Option<seq<Command>>)
    requires ps.Valid()
    modifies ps
    ensures ps.Valid()
    ensures r.Some? ==> r.value != [] && Clean(ps.position) == Clean(old(ps.position))
    ensures r.Some? ==>
      && ps.last.Some? && Lex(ps.last.value).0 == Terminator(inParens)
      && |ps.last.value| <= |old(ps.position)|
    ensures Clean(old(ps.position)) && r.None? ==> ReadLine(Toks(old(ps.position)), inParens) == None
    ensures Clean(old(ps.position)) && r.Some? ==>
      ReadLine(Toks(old(ps.position)), inParens) == Some((r.value, if inParens then Toks(ps.position) else []))
    decreases |ps.position|, 1
  {
    hide ReadLine, ReadCommand, Lex, Toks, Clean;
    ghost var start := ps.position;
    var cmds: seq<Command> := [];
    PrependTwice([], NoCommand(), ReadLine(Toks(start), inParens));
    while true
      invariant ps.Valid() && Clean(ps.position) == Clean(start) && |ps.position| <= |start|
      invariant Clean(start) ==>
        ReadLine(Toks(start), inParens) == Prepend(cmds, ReadLine(Toks(ps.position), inParens))
      decreases |ps.position|
    {
      ghost var here := ps.position;
      var c := CmdParse(ps);
      if c.None? {
        if Clean(start) { NoCommandNoLine(here, inParens); }
        return None;
      }
      var cmd, done := FollowCommand(ps, c.value, inParens, here);
      if done.None? {
        return None;
      }
      PrependTwice(cmds, cmd, ReadLine(Toks(ps.position), inParens));
      cmds := cmds + [cmd];
      if done.value {
        // The test that the last command is joined by END, ; or & cannot fail.
        assert cmd.controlop in {CmdEnd, CmdSemicolon, CmdBackground};
        return Some(cmds);
      }
    }
  }

  // The rest of cmd_line_parse's loop body: how the command is joined to the next, and whether the
  // list ends here; None is the jump to error.
  method FollowCommand(ps: ParseState, c: Command, inParens: bool, ghost here: string)
      returns (cmd: Command, done: Option<bool>)
    requires ps.Valid() && ps.last == None && c.controlop == CmdEnd
    requires Advanced(here, ps.position) && Clean(ps.position) == Clean(here)
    requires Clean(here) ==> ReadCommand(NoCommand(), Toks(here)) == Some((c, Toks(ps.position)))
    modifies ps
    ensures ps.Valid() && (done.Some? ==> Clean(ps.position) == Clean(here))
    ensures done == Some(false) ==> |ps.position| < |here|
    ensures done == Some(true) ==> cmd.controlop in {CmdEnd, CmdSemicolon, CmdBackground}
    ensures done == Some(true) ==>
      ps.last.Some? && Lex(ps.last.value).0 == Terminator(inParens) && |ps.last.value| <= |here|
    ensures Clean(here) ==>
      ReadLine(Toks(here), inParens) ==
        if done.None? then None
        else if done.value then Some(([cmd], if inParens then Toks(ps.position) else []))
        else Prepend([cmd], ReadLine(Toks(ps.position), inParens))
  {
    hide ReadLine, ReadCommand, Lex, Toks, Clean, Prepend;
    cmd := c;
    ghost var after := ps.position;
    HeadIsLex(after);
    SameClean(after);
    var token := ps.GetToken();
    if Joins(token) {
      cmd := cmd.(controlop := ControlOf(token));
      if Clean(here) { GoesOn(here, after, c, inParens); }
      return cmd, Some(false);
    }
    if Separates(token) {
      cmd := cmd.(controlop := ControlOf(token));
      ghost var next := ps.position;
      HeadIsLex(next);
      token := ps.GetToken();
      if Closes(token) {
        SameClean(next);
        if Clean(here) { GoesToTheEndSeparated(here, after, c, inParens); }
        return cmd, if token.End? == inParens then None else Some(true);
      }
      if Clean(here) { GoesOn(here, after, c, inParens); }
      ps.UngetToken();
      return cmd, Some(false);
    }
    if Closes(token) {
      if Clean(here) { GoesToTheEnd(here, after, c, inParens); }
      return cmd, if token.End? == inParens then None else Some(true);
    }
    if Clean(here) { GoesWrong(here, after, c, inParens); }
    return cmd, None;
  }

  // A line as process_line hands it to the parser: everything about cmd_line_parse at the top level.
  method ParseLine(line: string) returns (r: Option<seq<Command>>)
    requires !Lex(line).0.Error?
    ensures r == Parsed(line)
  {
    var ps := new ParseState(line);
    r := CmdLineParse(ps, false);
    if r.Some? {
      HeadIsLex(ps.last.value);
      SameClean(ps.last.value);
    }
  }

  lemma {:induction false} EndIsLast(s: string, i: nat)
    requires i < |Toks(s)| && Toks(s)[i].End?
    ensures i == |Toks(s)| - 1
    decreases |s|
  {
    HeadIsLex(s);
    if !Lex(s).0.End? && !Lex(s).0.Error? {
      EndIsLast(Lex(s).1, i - 1);
    }
  }

  lemma NothingLeft(line: string)
    requires ReadLine(Toks(line), false).Some?
    ensures ReadLine(Toks(line), false).value.1 == []
  {
    hide ReadLine, LineTokens, CommandsOf, LineOk, Toks;
    var l := LineSound(Toks(line), false);
    EndIsLast(line, |LineTokens(l)|);
  }

  // The whole parser accepts a line exactly when the line lexes without error into a sentence of the
  // command language, and returns what that sentence means.
  lemma ParsedIsTheLanguage(line: string, cmds: seq<Command>)
    ensures Parsed(line) == Some(cmds) <==>
              exists l :: LineOk(l) && CommandsOf(l) == cmds && Toks(line) == LineTokens(l) + [End]
  {
    hide ReadLine, LineTokens, CommandsOf, LineOk;
    if Parsed(line) == Some(cmds) {
      NothingLeft(line);
      ReadsExactlyTheLanguage(Toks(line), false, cmds, []);
      var l :| LineOk(l) && CommandsOf(l) == cmds && Toks(line) == Full(l, false, []);
      assert Toks(line) == LineTokens(l) + [End];
    }
    if l :| LineOk(l) && CommandsOf(l) == cmds && Toks(line) == LineTokens(l) + [End] {
      assert Toks(line) == Full(l, false, []);
      ReadsExactlyTheLanguage(Toks(line), false, cmds, []);
      assert Toks(line)[|LineTokens(l)|] == End;
    }
  }
}
