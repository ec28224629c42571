/**
  The command-line language: concrete syntax, the tokens it is spelled with and the command list it
  stands for; a recursive-descent reader of token streams without rollback; and the proof that the
  reader accepts exactly the language.
  */
module ShellGrammar {
  import opened Wrappers
  import opened ShellLexer

  const MAXTOKENS := 512

  // controlop_t
  datatype ControlOp = CmdEnd | CmdSemicolon | CmdBackground | CmdPipe | CmdAnd | CmdOr

  // command_t; the next pointer is adjacency in a command list, and an empty subshell list is NULL.
  datatype Command = Command(
    argv: seq<string>,
    redirIn: Option<string>, redirOut: Option<string>, redirErr: Option<string>,
    subshell: seq<Command>,
    controlop: ControlOp)

  function NoCommand(): Command { Command([], None, None, None, [], CmdEnd) }

  predicate IsRedir(t: Tok) { t.Less? || t.Greater? || t.TwoGreater? }

  // The last redirection of a descriptor counts.
  function Redirect(c: Command, t: Tok, file: string): Command
    requires IsRedir(t)
  {
    match t
    case Less => c.(redirIn := Some(file))
    case Greater => c.(redirOut := Some(file))
    case _ => c.(redirErr := Some(file))
  }

  // ---------- Concrete syntax ----------

  datatype Item = Word(text: string) | Redir(kind: Tok, file: string)
  datatype Syntax = Simple(items: seq<Item>) | Sub(body: Line, redirs: seq<Item>)
  datatype Line = Only(cmd: Syntax, trail: Tok) | Then(cmd: Syntax, op: Tok, rest: Line)

  predicate ItemOk(i: Item) { i.Redir? ==> IsRedir(i.kind) }

  function Words(items: seq<Item>): seq<string>
  {
    if items == [] then []
    else if items[0].Word? then [items[0].text] + Words(items[1..])
    else Words(items[1..])
  }

  // The well-formed spellings: a command starts with a word and has at most 512 of them, or is a
  // parenthesised line followed by redirections only; a trailing ; or & is allowed and nothing else.
  predicate SyntaxOk(c: Syntax)
    decreases c, 0
  {
    match c
    case Simple(items) =>
      && items != [] && items[0].Word? && |Words(items)| <= MAXTOKENS
      && (forall i | i in items :: ItemOk(i))
    case Sub(body, redirs) =>
      LineOk(body) && forall i | i in redirs :: i.Redir? && IsRedir(i.kind)
  }

  predicate LineOk(l: Line)
    decreases l, 1
  {
    match l
    case Only(c, trail) => SyntaxOk(c) && (trail.End? || trail.Semi? || trail.Amp?)
    case Then(c, op, rest) =>
      SyntaxOk(c) && (op.AndAnd? || op.OrOr? || op.Pipe? || op.Semi? || op.Amp?) && LineOk(rest)
  }

  function Spelling(i: Item): seq<Tok>
  {
    match i
    case Word(text) => [Normal(text)]
    case Redir(kind, file) => [kind, Normal(file)]
  }

  function ItemTokens(items: seq<Item>): seq<Tok>
  {
    if items == [] then [] else Spelling(items[0]) + ItemTokens(items[1..])
  }

  function SyntaxTokens(c: Syntax): seq<Tok>
    decreases c, 0
  {
    match c
    case Simple(items) => ItemTokens(items)
    case Sub(body, redirs) => [Open] + LineTokens(body) + [Close] + ItemTokens(redirs)
  }

  // Every token of the line, once, in order; a trailing operator of End is no token.
  function LineTokens(l: Line): seq<Tok>
    decreases l, 1
  {
    match l
    case Only(c, trail) => SyntaxTokens(c) + (if trail.End? then [] else [trail])
    case Then(c, op, rest) => SyntaxTokens(c) + [op] + LineTokens(rest)
  }

  function Terminator(inParens: bool): Tok { if inParens then Close else End }

  // The tokens of a whole line together with what follows it.
  function Full(l: Line, inParens: bool, rest: seq<Tok>): seq<Tok>
  {
    LineTokens(l) + [Terminator(inParens)] + rest
  }

  // ---------- Meaning ----------

  // A later redirection of the same descriptor supersedes an earlier one.
  function AddItems(c: Command, items: seq<Item>): Command
    decreases |items|
  {
    if items == [] then c
    else if items[0].Word? then AddItems(c.(argv := c.argv + [items[0].text]), items[1..])
    else if IsRedir(items[0].kind) then AddItems(Redirect(c, items[0].kind, items[0].file), items[1..])
    else c
  }

  function ControlOf(t: Tok): ControlOp
  {
    match t
    case Semi => CmdSemicolon
    case Amp => CmdBackground
    case Pipe => CmdPipe
    case AndAnd => CmdAnd
    case OrOr => CmdOr
    case _ => CmdEnd
  }

  function CommandOf(c: Syntax): Command
    decreases c, 0
  {
    match c
    case Simple(items) => AddItems(NoCommand(), items)
    case Sub(body, redirs) => AddItems(NoCommand().(subshell := CommandsOf(body)), redirs)
  }

  function CommandsOf(l: Line): (cmds: seq<Command>)
    ensures cmds != []
    decreases l, 1
  {
    match l
    case Only(c, trail) => [CommandOf(c).(controlop := ControlOf(trail))]
    case Then(c, op, rest) => [CommandOf(c).(controlop := ControlOf(op))] + CommandsOf(rest)
  }

  // ---------- Reading a token stream ----------

  function Head(ts: seq<Tok>): Tok { if ts == [] then End else ts[0] }
  function Tail(ts: seq<Tok>): seq<Tok> { if ts == [] then [] else ts[1..] }

  predicate IsEmpty(c: Command) { c.argv == [] && c.subshell == [] }

  // The rest of one command, given what has been read of it.
  function ReadCommand(c: Command, ts: seq<Tok>): (r: Option<(Command, seq<Tok>)>)
    ensures r.Some? ==> |r.value.1| <= |ts| && (r.value.1 == ts ==> r.value.0 == c)
    decreases |ts|, 0
  {
    var t := Head(ts);
    if t.Normal? then
      if |c.argv| >= MAXTOKENS || c.subshell != [] then None
      else ReadCommand(c.(argv := c.argv + [t.text]), Tail(ts))
    else if IsRedir(t) then
      if IsEmpty(c) || !Head(Tail(ts)).Normal? then None
      else ReadCommand(Redirect(c, t, Head(Tail(ts)).text), Tail(Tail(ts)))
    else if t.Open? then
      if c.subshell != [] || c.argv != [] then None
      else
        match ReadLine(Tail(ts), true)
        case None => None
        case Some((body, rest)) => ReadCommand(c.(subshell := body), rest)
    else if IsEmpty(c) then None
    else Some((c, ts))
  }

  // A command list up to and including its terminator: ) inside parentheses and End outside.
  function ReadLine(ts: seq<Tok>, inParens: bool): (r: Option<(seq<Command>, seq<Tok>)>)
    ensures r.Some? ==> r.value.0 != []
    ensures r.Some? ==> |r.value.1| < |ts|
    decreases |ts|, 1
  {
    if ts == [] then None
    else
      match ReadCommand(NoCommand(), ts)
      case None => None
      case Some((c, rest)) =>
        var t := Head(rest);
        if t.AndAnd? || t.OrOr? || t.Pipe? then ReadMore(c, ControlOf(t), Tail(rest), inParens)
        else if t.Semi? || t.Amp? then
          if Ends(Tail(rest)) then Finish(c.(controlop := ControlOf(t)), Tail(rest), inParens)
          else ReadMore(c, ControlOf(t), Tail(rest), inParens)
        else if Ends(rest) then Finish(c, rest, inParens)
        else None
  }

  function ReadMore(c: Command, op: ControlOp, ts: seq<Tok>, inParens: bool): (r: Option<(seq<Command>, seq<Tok>)>)
    ensures r.Some? ==> r.value.0 != [] && |r.value.1| < |ts|
    decreases |ts|, 2
  {
    match ReadLine(ts, inParens)
    case None => None
    case Some((cmds, rest)) => Some(([c.(controlop := op)] + cmds, rest))
  }

  predicate Ends(ts: seq<Tok>) { ts != [] && (ts[0].End? || ts[0].Close?) }

  function Finish(c: Command, ts: seq<Tok>, inParens: bool): (r: Option<(seq<Command>, seq<Tok>)>)
    requires Ends(ts)
  {
    if ts[0].End? == inParens then None else Some(([c], ts[1..]))
  }

  // ---------- Soundness: what is read was spelled ----------

  ghost predicate ItemsFit(c: Command, items: seq<Item>)
  {
    && (forall i | i in items :: ItemOk(i))
    && (c.subshell != [] ==> forall i | i in items :: i.Redir?)
    && |c.argv| + |Words(items)| <= MAXTOKENS
  }

  lemma ItemTokensCons(i: Item, more: seq<Item>, rest: seq<Tok>)
    ensures ItemTokens([i] + more) + rest == Spelling(i) + (ItemTokens(more) + rest)
  {
    assert ([i] + more)[1..] == more;
  }

  lemma AddItemsCons(c: Command, i: Item, more: seq<Item>)
    requires ItemOk(i)
    ensures AddItems(c, [i] + more) ==
      if i.Word? then AddItems(c.(argv := c.argv + [i.text]), more) else AddItems(Redirect(c, i.kind, i.file), more)
  {
    assert ([i] + more)[1..] == more;
  }

  lemma ItemsFitCons(c: Command, i: Item, more: seq<Item>)
    requires ItemOk(i) && (c.subshell != [] ==> i.Redir?)
    requires ItemsFit(if i.Word? then c.(argv := c.argv + [i.text]) else Redirect(c, i.kind, i.file), more)
    ensures ItemsFit(c, [i] + more)
  {
    assert ([i] + more)[1..] == more;
    assert forall x | x in [i] + more :: x == i || x in more;
  }

  lemma NoItems(c: Command)
    requires |c.argv| <= MAXTOKENS
    ensures ItemsFit(c, []) && AddItems(c, []) == c && ItemTokens([]) == []
  {
  }

  lemma {:induction false} ItemsSound(c: Command, ts: seq<Tok>) returns (items: seq<Item>)
    requires !IsEmpty(c) && |c.argv| <= MAXTOKENS && ReadCommand(c, ts).Some?
    ensures ItemsFit(c, items) && ReadCommand(c, ts).value.0 == AddItems(c, items)
    ensures ts == ItemTokens(items) + ReadCommand(c, ts).value.1
    decreases |ts|
  {
    hide AddItems, ItemTokens, ItemsFit, ReadLine;
    var t := Head(ts);
    if t.Normal? {
      var more := ItemsSound(c.(argv := c.argv + [t.text]), Tail(ts));
      items := [Word(t.text)] + more;
      ItemTokensCons(Word(t.text), more, ReadCommand(c, ts).value.1);
      AddItemsCons(c, Word(t.text), more);
      ItemsFitCons(c, Word(t.text), more);
      assert ts == [t] + Tail(ts);
    } else if IsRedir(t) {
      var file := Head(Tail(ts)).text;
      var more := ItemsSound(Redirect(c, t, file), Tail(Tail(ts)));
      items := [Redir(t, file)] + more;
      ItemTokensCons(Redir(t, file), more, ReadCommand(c, ts).value.1);
      AddItemsCons(c, Redir(t, file), more);
      ItemsFitCons(c, Redir(t, file), more);
      assert ts == [t, Head(Tail(ts))] + Tail(Tail(ts));
    } else {
      items := [];
      NoItems(c);
      assert ts == [] + ts;
    }
  }

  lemma {:induction false} CommandSound(ts: seq<Tok>) returns (syn: Syntax)
    requires ReadCommand(NoCommand(), ts).Some?
    ensures SyntaxOk(syn) && CommandOf(syn) == ReadCommand(NoCommand(), ts).value.0
    ensures ts == SyntaxTokens(syn) + ReadCommand(NoCommand(), ts).value.1
    decreases |ts|, 1
  {
    if Head(ts).Normal? {
      syn := SimpleSound(ts);
    } else {
      syn := SubSound(ts);
    }
  }

  lemma SimpleSound(ts: seq<Tok>) returns (syn: Syntax)
    requires ReadCommand(NoCommand(), ts).Some? && Head(ts).Normal?
    ensures SyntaxOk(syn) && CommandOf(syn) == ReadCommand(NoCommand(), ts).value.0
    ensures ts == SyntaxTokens(syn) + ReadCommand(NoCommand(), ts).value.1
  {
    hide AddItems, ItemTokens, ReadLine, LineOk, LineTokens, CommandsOf;
    var word := Word(ts[0].text);
    var more := ItemsSound(NoCommand().(argv := [] + [ts[0].text]), Tail(ts));
    syn := Simple([word] + more);
    ItemTokensCons(word, more, ReadCommand(NoCommand(), ts).value.1);
    AddItemsCons(NoCommand(), word, more);
    ItemsFitCons(NoCommand(), word, more);
    assert ts == [ts[0]] + Tail(ts);
  }

  lemma {:induction false} SubSound(ts: seq<Tok>) returns (syn: Syntax)
    requires ReadCommand(NoCommand(), ts).Some? && !Head(ts).Normal?
    ensures SyntaxOk(syn) && CommandOf(syn) == ReadCommand(NoCommand(), ts).value.0
    ensures ts == SyntaxTokens(syn) + ReadCommand(NoCommand(), ts).value.1
    decreases |ts|, 0
  {
    hide AddItems, ItemTokens, ReadLine, LineOk, LineTokens, CommandsOf;
    var body := LineSound(Tail(ts), true);
    var (cmds, after) := ReadLine(Tail(ts), true).value;
    var redirs := ItemsSound(NoCommand().(subshell := cmds), after);
    syn := Sub(body, redirs);
    SubTokens(ts, LineTokens(body), ItemTokens(redirs), ReadCommand(NoCommand(), ts).value.1);
  }

  lemma SubTokens(ts: seq<Tok>, body: seq<Tok>, redirs: seq<Tok>, rest: seq<Tok>)
    requires ts != [] && ts[0].Open? && ts[1..] == body + [Close] + (redirs + rest)
    ensures ts == [Open] + body + [Close] + redirs + rest
  {
    assert ts == [Open] + ts[1..];
  }

  lemma {:induction false} LineSound(ts: seq<Tok>, inParens: bool) returns (l: Line)
    requires ReadLine(ts, inParens).Some?
    ensures LineOk(l) && CommandsOf(l) == ReadLine(ts, inParens).value.0
    ensures ts == Full(l, inParens, ReadLine(ts, inParens).value.1)
    decreases |ts|, 2
  {
    hide SyntaxOk, CommandOf, SyntaxTokens, ReadCommand, Full;
    var syn := CommandSound(ts);
    var (c, rest) := ReadCommand(NoCommand(), ts).value;
    var t := Head(rest);
    ControlKept(NoCommand(), ts);
    if (t.Semi? || t.Amp?) && Ends(Tail(rest)) {
      l := Only(syn, t);
      OnlyTokens(syn, t, inParens, rest[2..]);
      assert rest == [t, Terminator(inParens)] + rest[2..];
    } else if Ends(rest) {
      l := Only(syn, End);
      OnlyTokens(syn, End, inParens, rest[1..]);
      assert rest == [Terminator(inParens)] + rest[1..];
    } else {
      var more := LineSound(Tail(rest), inParens);
      l := Then(syn, t, more);
      ThenTokens(syn, t, more, inParens, ReadLine(ts, inParens).value.1);
      assert rest == [t] + Tail(rest);
    }
  }

  lemma OnlyTokens(syn: Syntax, trail: Tok, inParens: bool, rest: seq<Tok>)
    ensures Full(Only(syn, trail), inParens, rest) ==
      SyntaxTokens(syn) + (if trail.End? then [Terminator(inParens)] + rest else [trail, Terminator(inParens)] + rest)
  {
    hide SyntaxTokens;
  }

  lemma ThenTokens(syn: Syntax, op: Tok, more: Line, inParens: bool, rest: seq<Tok>)
    ensures Full(Then(syn, op, more), inParens, rest) == SyntaxTokens(syn) + ([op] + Full(more, inParens, rest))
  {
    hide SyntaxTokens;
  }

  lemma {:induction false} ControlKept(c: Command, ts: seq<Tok>)
    requires ReadCommand(c, ts).Some?
    ensures ReadCommand(c, ts).value.0.controlop == c.controlop
    decreases |ts|
  {
    var t := Head(ts);
    if t.Normal? {
      ControlKept(c.(argv := c.argv + [t.text]), Tail(ts));
    } else if IsRedir(t) {
      ControlKept(Redirect(c, t, Head(Tail(ts)).text), Tail(Tail(ts)));
    } else if t.Open? {
      var (body, rest) := ReadLine(Tail(ts), true).value;
      ControlKept(c.(subshell := body), rest);
    }
  }

  // ---------- Completeness: what is spelled is read ----------

  // Tokens that end a command without belonging to it.
  predicate Stops(t: Tok) { !t.Normal? && !IsRedir(t) && !t.Open? }

  lemma NothingSpelled(c: Command)
    ensures AddItems(c, []) == c && ItemTokens([]) == []
  {
  }

  lemma ItemsFitFirst(c: Command, items: seq<Item>)
    requires items != [] && ItemsFit(c, items)
    ensures ItemOk(items[0]) && (items[0].Word? ==> |c.argv| < MAXTOKENS && c.subshell == [])
    ensures ItemsFit(if items[0].Word? then c.(argv := c.argv + [items[0].text])
        else Redirect(c, items[0].kind, items[0].file), items[1..])
  {
    assert items[0] in items;
  }

  lemma {:induction false} ItemsComplete(c: Command, items: seq<Item>, rest: seq<Tok>)
    requires !IsEmpty(c) && ItemsFit(c, items) && Stops(Head(rest))
    ensures ReadCommand(c, ItemTokens(items) + rest) == Some((AddItems(c, items), rest))
    decreases |items|
  {
    hide AddItems, ItemTokens, ItemsFit, ReadLine;
    var ts := ItemTokens(items) + rest;
    if items == [] {
      NothingSpelled(c);
      assert ts == rest;
    } else {
      var i, more := items[0], items[1..];
      assert items == [i] + more;
      ItemTokensCons(i, more, rest);
      ItemsFitFirst(c, items);
      AddItemsCons(c, i, more);
      var after := ItemTokens(more) + rest;
      if i.Word? {
        assert ts == [Normal(i.text)] + after && Tail(ts) == after;
        ItemsComplete(c.(argv := c.argv + [i.text]), more, rest);
      } else {
        assert ts == [i.kind, Normal(i.file)] + after && Tail(Tail(ts)) == after;
        ItemsComplete(Redirect(c, i.kind, i.file), more, rest);
      }
    }
  }

  lemma {:induction false} CommandComplete(syn: Syntax, rest: seq<Tok>)
    requires SyntaxOk(syn) && Stops(Head(rest))
    ensures ReadCommand(NoCommand(), SyntaxTokens(syn) + rest) == Some((CommandOf(syn), rest))
    decreases syn, 0
  {
    hide AddItems, ItemTokens, ReadLine, LineOk, LineTokens, CommandsOf;
    match syn
    case Simple(items) =>
      var word, more := items[0], items[1..];
      assert items == [word] + more;
      ItemTokensCons(word, more, rest);
      AddItemsCons(NoCommand(), word, more);
      var ts := [Normal(word.text)] + (ItemTokens(more) + rest);
      assert Tail(ts) == ItemTokens(more) + rest;
      ItemsComplete(NoCommand().(argv := [] + [word.text]), more, rest);
    case Sub(body, redirs) =>
      var after := ItemTokens(redirs) + rest;
      var ts := [Open] + Full(body, true, after);
      assert Tail(ts) == Full(body, true, after);
      assert SyntaxTokens(syn) + rest == ts;
      LineComplete(body, true, after);
      OnlyRedirs(redirs);
      ItemsComplete(NoCommand().(subshell := CommandsOf(body)), redirs, rest);
  }

  lemma {:induction false} OnlyRedirs(items: seq<Item>)
    requires forall i | i in items :: i.Redir?
    ensures Words(items) == []
  {
    if items != [] {
      assert items[0] in items;
      OnlyRedirs(items[1..]);
    }
  }

  lemma {:induction false} LineComplete(l: Line, inParens: bool, rest: seq<Tok>)
    requires LineOk(l)
    ensures ReadLine(Full(l, inParens, rest), inParens) == Some((CommandsOf(l), rest))
    decreases l, 1
  {
    hide SyntaxOk, CommandOf, SyntaxTokens, ReadCommand, Full;
    match l
    case Only(syn, trail) =>
      var end := [Terminator(inParens)] + rest;
      var after := if trail.End? then end else [trail] + end;
      OnlyTokens(syn, trail, inParens, rest);
      assert [trail, Terminator(inParens)] + rest == [trail] + end;
      CommandComplete(syn, after);
      ControlOfSyntax(syn);
      assert !trail.End? ==> Tail(after) == end;
      assert end[1..] == rest;
    case Then(syn, op, more) =>
      var after := [op] + Full(more, inParens, rest);
      ThenTokens(syn, op, more, inParens, rest);
      CommandComplete(syn, after);
      LineComplete(more, inParens, rest);
      assert Tail(after) == Full(more, inParens, rest);
      StartsCommand(more, inParens, rest);
  }

  lemma ControlOfSyntax(syn: Syntax)
    ensures CommandOf(syn).controlop == CmdEnd
  {
    match syn
    case Simple(items) => AddKeepsControl(NoCommand(), items);
    case Sub(body, redirs) => AddKeepsControl(NoCommand().(subshell := CommandsOf(body)), redirs);
  }

  lemma {:induction false} AddKeepsControl(c: Command, items: seq<Item>)
    ensures AddItems(c, items).controlop == c.controlop
    decreases |items|
  {
    if items != [] {
      if items[0].Word? {
        AddKeepsControl(c.(argv := c.argv + [items[0].text]), items[1..]);
      } else if IsRedir(items[0].kind) {
        AddKeepsControl(Redirect(c, items[0].kind, items[0].file), items[1..]);
      }
    }
  }

  // A line starts with a word or an open parenthesis, never with a terminator.
  lemma StartsCommand(l: Line, inParens: bool, rest: seq<Tok>)
    requires LineOk(l)
    ensures !Ends(Full(l, inParens, rest))
  {
    var syn := l.cmd;
    if syn.Sub? {
      assert SyntaxTokens(syn)[0] == Open;
    } else {
      assert SyntaxTokens(syn)[0] == Normal(syn.items[0].text);
    }
    assert LineTokens(l)[0] == SyntaxTokens(syn)[0];
  }

  // The reader accepts exactly the language, and returns the meaning of the one spelling.
  lemma ReadsExactlyTheLanguage(ts: seq<Tok>, inParens: bool, cmds: seq<Command>, rest: seq<Tok>)
    ensures ReadLine(ts, inParens) == Some((cmds, rest)) <==>
              exists l :: LineOk(l) && CommandsOf(l) == cmds && ts == Full(l, inParens, rest)
  {
    if ReadLine(ts, inParens) == Some((cmds, rest)) {
      var l := LineSound(ts, inParens);
    }
    if l :| LineOk(l) && CommandsOf(l) == cmds && ts == Full(l, inParens, rest) {
      LineComplete(l, inParens, rest);
    }
  }

  // ---------- The shape of every list that is returned ----------

  // Only the last command may be joined by END; it and no other ends the list, at every depth.
  predicate Shaped(cmds: seq<Command>)
  {
    && (forall i | 0 <= i < |cmds| :: (cmds[i].argv != [] || cmds[i].subshell != []) && |cmds[i].argv| <= MAXTOKENS)
    && (forall i | 0 <= i < |cmds| :: cmds[i].argv == [] || cmds[i].subshell == [])
    && (forall i | 0 <= i < |cmds| - 1 :: cmds[i].controlop != CmdEnd)
    && (cmds != [] ==> cmds[|cmds| - 1].controlop in {CmdEnd, CmdSemicolon, CmdBackground})
    && (forall i | 0 <= i < |cmds| :: Shaped(cmds[i].subshell))
  }

  // The shape of a single command inside a list of the right shape.
  predicate CommandShaped(c: Command)
  {
    && (c.argv != [] || c.subshell != []) && |c.argv| <= MAXTOKENS && (c.argv == [] || c.subshell == [])
    && Shaped(c.subshell)
  }

  lemma {:induction false} AddItemsShape(c: Command, items: seq<Item>)
    requires ItemsFit(c, items)
    ensures AddItems(c, items).subshell == c.subshell && AddItems(c, items).argv == c.argv + Words(items)
    decreases |items|
  {
    if items != [] {
      assert items[0] in items;
      if items[0].Word? {
        AddItemsShape(c.(argv := c.argv + [items[0].text]), items[1..]);
      } else {
        AddItemsShape(Redirect(c, items[0].kind, items[0].file), items[1..]);
      }
    }
  }

  lemma {:induction false} LineShaped(l: Line)
    requires LineOk(l)
    ensures Shaped(CommandsOf(l))
    decreases l, 1
  {
    hide CommandOf, SyntaxOk, Shaped;
    SyntaxShaped(l.cmd);
    if l.Then? {
      LineShaped(l.rest);
      ShapedCons(CommandOf(l.cmd).(controlop := ControlOf(l.op)), CommandsOf(l.rest));
    } else {
      ShapedOne(CommandOf(l.cmd).(controlop := ControlOf(l.trail)));
    }
  }

  lemma ShapedOne(c: Command)
    requires CommandShaped(c) && c.controlop in {CmdEnd, CmdSemicolon, CmdBackground}
    ensures Shaped([c])
  {
  }

  lemma ShapedCons(c: Command, more: seq<Command>)
    requires CommandShaped(c) && c.controlop != CmdEnd && more != [] && Shaped(more)
    ensures Shaped([c] + more)
  {
    var cmds := [c] + more;
    assert forall i | 0 < i < |cmds| :: cmds[i] == more[i - 1];
    assert cmds[|cmds| - 1] == more[|more| - 1];
  }

  lemma {:induction false} SyntaxShaped(syn: Syntax)
    requires SyntaxOk(syn)
    ensures forall op :: CommandShaped(CommandOf(syn).(controlop := op))
    decreases syn, 0
  {
    match syn
    case Simple(items) =>
      AddItemsShape(NoCommand(), items);
    case Sub(body, redirs) =>
      LineShaped(body);
      OnlyRedirs(redirs);
      AddItemsShape(NoCommand().(subshell := CommandsOf(body)), redirs);
  }

  lemma ReadLineShaped(ts: seq<Tok>, inParens: bool)
    requires ReadLine(ts, inParens).Some?
    ensures Shaped(ReadLine(ts, inParens).value.0)
  {
    var l := LineSound(ts, inParens);
    LineShaped(l);
  }

  // ---------- cmd_print ----------

  function Digits(n: nat): string
  {
    if n < 10 then [('0' as int + n) as char] else Digits(n / 10) + [('0' as int + n % 10) as char]
  }

  function Indent(n: nat): string { seq(n, _ => ' ') }

  function Args(argv: seq<string>): string
  {
    if argv == [] then "" else " \"" + argv[0] + "\"" + Args(argv[1..])
  }

  function Shown(mark: string, file: Option<string>): string
  {
    if file.Some? then mark + file.value else ""
  }

  function OpText(op: ControlOp): string
  {
    match op
    case CmdSemicolon => ";"
    case CmdBackground => "&"
    case CmdPipe => "|"
    case CmdAnd => "&&"
    case CmdOr => "||"
    case CmdEnd => "."
  }

  // cmd_print on a list: None stands for a failed assertion.
  function Print(cmds: seq<Command>, indent: nat): Option<string>
    decreases cmds, 0
  {
    if cmds == [] then Some("")
    else
      var c := cmds[0];
      if |c.argv| > MAXTOKENS then None
      else
        var sub := if c.subshell == [] then Some("") else Print(c.subshell, indent + 2);
        var last := |cmds| == 1;
        if sub.None? then None
        else if last && c.controlop !in {CmdEnd, CmdSemicolon, CmdBackground} then None
        else
          var rest := Print(cmds[1..], indent);
          if rest.None? then None
          else
            Some(Indent(indent) + "[" + Digits(|c.argv|) + " args" + Args(c.argv)
                 + Shown(" <", c.redirIn) + Shown(" >", c.redirOut) + Shown(" 2>", c.redirErr)
                 + (if c.subshell == [] then "" else "\n" + sub.value)
                 + "] " + OpText(c.controlop) + "\n" + rest.value)
  }

  // On every list of the right shape all of cmd_print's assertions hold.
  lemma {:induction false} ShapedPrints(cmds: seq<Command>, indent: nat)
    requires Shaped(cmds)
    ensures Print(cmds, indent).Some?
    decreases cmds, 0
  {
    if cmds != [] {
      var c := cmds[0];
      if c.subshell != [] {
        ShapedPrints(c.subshell, indent + 2);
      }
      var rest := cmds[1..];
      assert rest != [] ==> rest[|rest| - 1] == cmds[|cmds| - 1];
      ShapedPrints(rest, indent);
    }
  }

  lemma PrintStep(cmds: seq<Command>, indent: nat)
    requires cmds != []
    ensures Print(cmds, indent).Some? <==>
      && |cmds[0].argv| <= 512 && (cmds[0].subshell != [] ==> Print(cmds[0].subshell, indent + 2).Some?)
      && (|cmds| == 1 ==> cmds[0].controlop in {CmdEnd, CmdSemicolon, CmdBackground})
      && Print(cmds[1..], indent).Some?
  {
    hide Args, Shown, Digits, OpText, Indent;
  }

  // And they hold on no other list: too many arguments, or a last operator that wants more, fail one.
  lemma {:induction false} PrintsExactly(cmds: seq<Command>, indent: nat)
    ensures Print(cmds, indent).Some? <==>
      && (forall i | 0 <= i < |cmds| ::
            |cmds[i].argv| <= 512 && (cmds[i].subshell != [] ==> Print(cmds[i].subshell, indent + 2).Some?))
      && (cmds != [] ==> cmds[|cmds| - 1].controlop in {CmdEnd, CmdSemicolon, CmdBackground})
    decreases |cmds|
  {
    if cmds != [] {
      var rest := cmds[1..];
      PrintStep(cmds, indent);
      PrintsExactly(rest, indent);
      hide Print;
      assert rest != [] ==> rest[|rest| - 1] == cmds[|cmds| - 1];
      assert forall i | 0 < i < |cmds| :: cmds[i] == rest[i - 1];
      assert forall i | 0 <= i < |rest| :: rest[i] == cmds[i + 1];
    }
  }
}
