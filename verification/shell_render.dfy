/**
  Rendering a command list back into a line: every argument and file name in double quotes, the
  redirections in the order <, >, 2>, each token followed by a space. Parsing inverts rendering, and
  the lists that the parser can return are exactly the well-shaped lists of lexable words.
  */
module ShellRender {
  import opened Wrappers
  import opened ShellLexer
  import opened ShellGrammar
  import opened ShellParser

  // ---------- One canonical spelling for each command list ----------

  function WordItems(argv: seq<string>): seq<Item>
  {
    if argv == [] then [] else [Word(argv[0])] + WordItems(argv[1..])
  }

  function RedirItem(kind: Tok, file: Option<string>): seq<Item>
  {
    match file
    case None => []
    case Some(name) => [Redir(kind, name)]
  }

  function RedirItems(c: Command): seq<Item>
  {
    RedirItem(Less, c.redirIn) + (RedirItem(Greater, c.redirOut) + RedirItem(TwoGreater, c.redirErr))
  }

  function OperatorOf(op: ControlOp): Tok
  {
    match op
    case CmdSemicolon => Semi
    case CmdBackground => Amp
    case CmdPipe => Pipe
    case CmdAnd => AndAnd
    case CmdOr => OrOr
    case CmdEnd => End
  }

  function SyntaxFor(c: Command): Syntax
    decreases c, 0
  {
    if c.subshell == [] then Simple(WordItems(c.argv) + RedirItems(c))
    else Sub(LineFor(c.subshell), RedirItems(c))
  }

  function LineFor(cmds: seq<Command>): Line
    requires cmds != []
    decreases cmds, 1
  {
    if |cmds| == 1 then Only(SyntaxFor(cmds[0]), OperatorOf(cmds[0].controlop))
    else Then(SyntaxFor(cmds[0]), OperatorOf(cmds[0].controlop), LineFor(cmds[1..]))
  }

  function Piece(t: Tok): string
  {
    match t
    case Normal(text) => "\"" + text + "\""
    case Less => "<"
    case Greater => ">"
    case TwoGreater => "2>"
    case Semi => ";"
    case Amp => "&"
    case Pipe => "|"
    case AndAnd => "&&"
    case OrOr => "||"
    case Open => "("
    case Close => ")"
    case _ => ""
  }

  function Spell(ts: seq<Tok>): string
  {
    if ts == [] then "" else Piece(ts[0]) + (" " + Spell(ts[1..]))
  }

  function Render(cmds: seq<Command>): string
    requires cmds != []
  {
    Spell(LineTokens(LineFor(cmds)))
  }

  // ---------- The lexer inverts spelling ----------

  predicate Sayable(t: Tok) { !t.End? && !t.Error? && (t.Normal? ==> Wordlike(t.text)) }

  lemma {:induction false} ScanQuoted(w: string, buf: string, bq: bool, tail: string)
    requires Plain(w) && |buf + w| <= TOKENSIZE - 1
    requires (Backquotes(buf) % 2 == 1 <==> bq) && Backquotes(buf + w) % 2 == 0
    ensures Scan(w + ("\" " + tail), buf, true, bq, true) == Good(buf + w, " " + tail, true)
    decreases |w|
  {
    hide Scan, Backquotes;
    var s := w + ("\" " + tail);
    if w == [] {
      assert buf + w == buf && s == "\" " + tail;
      ScanQuote(buf, tail);
    } else {
      assert s[1..] == w[1..] + ("\" " + tail);
      assert buf + w == (buf + [w[0]]) + w[1..];
      ScanInside(s, buf, bq);
      OneMoreCharacter(buf, w[0]);
      ScanQuoted(w[1..], buf + [w[0]], if w[0] == '`' then !bq else bq, tail);
    }
  }

  lemma ScanQuote(buf: string, tail: string)
    ensures Scan("\" " + tail, buf, true, false, true) == Good(buf, " " + tail, true)
  {
    assert ("\" " + tail)[1..] == " " + tail;
  }

  lemma ScanInside(s: string, buf: string, bq: bool)
    requires s != [] && s[0] != '"' && s[0] != '\0' && |buf| < TOKENSIZE - 1
    ensures Scan(s, buf, true, bq, true) == Scan(s[1..], buf + [s[0]], true, if s[0] == '`' then !bq else bq, true)
  {
  }

  lemma LexQuoted(w: string, tail: string)
    requires Wordlike(w)
    ensures Lex("\"" + w + "\"" + (" " + tail)) == (Normal(w), " " + tail)
  {
    var s := "\"" + w + "\"" + (" " + tail);
    assert s[1..] == w + ("\" " + tail);
    assert [] + w == w;
    ScanQuoted(w, [], false, tail);
  }

  lemma ScanOne(c: char, tail: string)
    requires c != '"' && c != '`' && c != '\0' && !IsSpace(c)
    ensures Scan([c] + (" " + tail), [], false, false, false) == Good([c], " " + tail, false)
  {
    var s := [c] + (" " + tail);
    assert s[1..] == " " + tail;
    assert [] + [c] == [c];
  }

  lemma ScanTwo(c: char, d: char, tail: string)
    requires c != '"' && c != '`' && c != '\0' && !IsSpace(c) && !IsBreak(c)
    requires d != '"' && d != '`' && d != '\0' && !IsSpace(d) && !IsBreak(d)
    ensures Scan([c, d] + (" " + tail), [], false, false, false) == Good([c, d], " " + tail, false)
  {
    var s := [c, d] + (" " + tail);
    assert s[1..] == [d] + (" " + tail);
    assert s[1..][1..] == " " + tail;
    assert [] + [c] == [c];
    assert Scan(s, [], false, false, false) == Scan(s[1..], [c], false, false, false);
    assert [c] + [d] == [c, d];
  }

  lemma LexPiece(t: Tok, tail: string)
    requires Sayable(t)
    ensures Lex(Piece(t) + (" " + tail)) == (t, " " + tail)
  {
    hide Scan;
    var p := Piece(t);
    if t.Normal? {
      LexQuoted(t.text, tail);
    } else if |p| == 1 {
      assert p == [p[0]];
      ScanOne(p[0], tail);
    } else {
      assert p == [p[0], p[1]];
      ScanTwo(p[0], p[1], tail);
    }
  }

  lemma LeadingSpace(s: string)
    ensures Toks(" " + s) == Toks(s)
  {
    hide Scan;
    assert (" " + s)[1..] == s;
    assert SkipSpace(" " + s) == SkipSpace(s);
  }

  lemma {:induction false} ToksOfSpell(ts: seq<Tok>)
    requires forall i | 0 <= i < |ts| :: Sayable(ts[i])
    ensures Toks(Spell(ts)) == ts + [End]
    decreases |ts|
  {
    hide Lex, Piece;
    if ts == [] {
      LexEmpty();
    } else {
      ToksOfSpell(ts[1..]);
      LexPiece(ts[0], Spell(ts[1..]));
      LeadingSpace(Spell(ts[1..]));
    }
  }

  lemma LexEmpty()
    ensures Lex("") == (End, "")
  {
  }

  // ---------- Every word of a parsed list can be spelled ----------

  predicate FileOk(file: Option<string>) { file.Some? ==> Wordlike(file.value) }

  predicate WordsOk(c: Command)
  {
    (forall w | w in c.argv :: Wordlike(w)) && FileOk(c.redirIn) && FileOk(c.redirOut) && FileOk(c.redirErr)
    && forall d | d in c.subshell :: WordsOk(d)
  }

  predicate AllWordsOk(cmds: seq<Command>) { forall c | c in cmds :: WordsOk(c) }

  lemma {:induction false} ItemsWordsOk(c: Command, items: seq<Item>)
    requires WordsOk(c) && (forall i | i in items :: ItemOk(i))
    requires forall t | t in ItemTokens(items) :: Sayable(t)
    ensures WordsOk(AddItems(c, items))
    decreases |items|
  {
    if items != [] {
      var i, more := items[0], items[1..];
      assert i in items;
      assert forall t | t in ItemTokens(more) :: t in ItemTokens(items);
      if i.Word? {
        assert Normal(i.text) in ItemTokens(items);
        ItemsWordsOk(c.(argv := c.argv + [i.text]), more);
      } else {
        assert Normal(i.file) in ItemTokens(items);
        ItemsWordsOk(Redirect(c, i.kind, i.file), more);
      }
    }
  }

  lemma {:induction false} SyntaxWordsOk(syn: Syntax)
    requires SyntaxOk(syn) && forall t | t in SyntaxTokens(syn) :: Sayable(t)
    ensures WordsOk(CommandOf(syn))
    decreases syn, 0
  {
    hide AddItems, ItemTokens, LineTokens, CommandsOf;
    match syn
    case Simple(items) =>
      ItemsWordsOk(NoCommand(), items);
    case Sub(body, redirs) =>
      assert forall t | t in LineTokens(body) :: t in SyntaxTokens(syn);
      assert forall t | t in ItemTokens(redirs) :: t in SyntaxTokens(syn);
      LineWordsOk(body);
      ItemsWordsOk(NoCommand().(subshell := CommandsOf(body)), redirs);
  }

  lemma {:induction false} LineWordsOk(l: Line)
    requires LineOk(l) && forall t | t in LineTokens(l) :: Sayable(t)
    ensures AllWordsOk(CommandsOf(l))
    decreases l, 1
  {
    hide SyntaxTokens, CommandOf;
    assert forall t | t in SyntaxTokens(l.cmd) :: t in LineTokens(l);
    SyntaxWordsOk(l.cmd);
    if l.Then? {
      assert forall t | t in LineTokens(l.rest) :: t in LineTokens(l);
      LineWordsOk(l.rest);
    }
  }

  lemma {:induction false} ToksSayable(s: string)
    ensures forall i | 0 <= i < |Toks(s)| - 1 :: Sayable(Toks(s)[i])
    decreases |s|
  {
    HeadIsLex(s);
    var t := Lex(s).0;
    if t.Normal? {
      NormalIsWordlike(s);
    }
    if !t.End? && !t.Error? {
      ToksSayable(Lex(s).1);
      assert Toks(s) == [t] + Toks(Lex(s).1);
    }
  }

  // ---------- The canonical spelling means the list ----------

  lemma FirstWord(argv: seq<string>, more: seq<Item>)
    requires argv != []
    ensures WordItems(argv) + more == [Word(argv[0])] + (WordItems(argv[1..]) + more)
  {
  }

  lemma Regroup(a: seq<string>, b: seq<string>)
    requires b != []
    ensures a + [b[0]] + b[1..] == a + b
  {
  }

  lemma {:induction false} AddWords(c: Command, argv: seq<string>, more: seq<Item>)
    ensures AddItems(c, WordItems(argv) + more) == AddItems(c.(argv := c.argv + argv), more)
    decreases |argv|
  {
    hide AddItems;
    if argv == [] {
      assert c.argv + argv == c.argv && WordItems(argv) + more == more;
    } else {
      var items := WordItems(argv[1..]) + more;
      FirstWord(argv, more);
      AddItemsCons(c, Word(argv[0]), items);
      Regroup(c.argv, argv);
      AddWords(c.(argv := c.argv + [argv[0]]), argv[1..], more);
    }
  }

  lemma AddRedir(c: Command, kind: Tok, file: Option<string>, more: seq<Item>)
    requires IsRedir(kind)
    ensures AddItems(c, RedirItem(kind, file) + more) == AddItems(if file.None? then c
        else Redirect(c, kind, file.value), more)
  {
    if file.None? {
      assert RedirItem(kind, file) + more == more;
    } else {
      assert (RedirItem(kind, file) + more)[1..] == more;
    }
  }

  lemma AddRedirs(b: Command, c: Command)
    requires b.redirIn == None && b.redirOut == None && b.redirErr == None
    ensures AddItems(b, RedirItems(c)) == b.(redirIn := c.redirIn, redirOut := c.redirOut, redirErr := c.redirErr)
  {
    AddRedir(b, Less, c.redirIn, RedirItem(Greater, c.redirOut) + RedirItem(TwoGreater, c.redirErr));
    var b1 := b.(redirIn := c.redirIn);
    AddRedir(b1, Greater, c.redirOut, RedirItem(TwoGreater, c.redirErr));
    var b2 := b1.(redirOut := c.redirOut);
    AddRedir(b2, TwoGreater, c.redirErr, []);
    assert RedirItem(TwoGreater, c.redirErr) + [] == RedirItem(TwoGreater, c.redirErr);
  }

  lemma {:induction false} WordsOfItems(argv: seq<string>, redirs: seq<Item>)
    requires forall i | i in redirs :: i.Redir?
    ensures Words(WordItems(argv) + redirs) == argv
    ensures forall i | i in WordItems(argv) :: i.Word?
    decreases |argv|
  {
    if argv == [] {
      assert WordItems(argv) + redirs == redirs;
      OnlyRedirs(redirs);
    } else {
      assert (WordItems(argv) + redirs)[1..] == WordItems(argv[1..]) + redirs;
      WordsOfItems(argv[1..], redirs);
    }
  }

  lemma RedirsAreRedirs(c: Command)
    ensures forall i | i in RedirItems(c) :: i.Redir? && IsRedir(i.kind)
  {
  }

  lemma {:induction false} SyntaxForMeans(c: Command)
    requires CommandShaped(c)
    ensures SyntaxOk(SyntaxFor(c)) && CommandOf(SyntaxFor(c)) == c.(controlop := CmdEnd)
    decreases c, 0
  {
    hide AddItems, RedirItems;
    RedirsAreRedirs(c);
    if c.subshell == [] {
      var items := WordItems(c.argv) + RedirItems(c);
      WordsOfItems(c.argv, RedirItems(c));
      AddWords(NoCommand(), c.argv, RedirItems(c));
      assert [] + c.argv == c.argv;
      AddRedirs(NoCommand().(argv := c.argv), c);
      assert items[0] == Word(c.argv[0]);
    } else {
      LineForMeans(c.subshell);
      AddRedirs(NoCommand().(subshell := c.subshell), c);
    }
  }

  lemma {:induction false} LineForMeans(cmds: seq<Command>)
    requires cmds != [] && Shaped(cmds)
    ensures LineOk(LineFor(cmds)) && CommandsOf(LineFor(cmds)) == cmds
    decreases cmds, 1
  {
    hide SyntaxFor, CommandOf, SyntaxOk, Shaped, CommandShaped;
    var c := cmds[0];
    ShapedHead(cmds);
    SyntaxForMeans(c);
    assert c.(controlop := CmdEnd).(controlop := c.controlop) == c;
    if |cmds| == 1 {
      assert cmds == [c];
    } else {
      ShapedTail(cmds);
      LineForMeans(cmds[1..]);
      assert cmds == [c] + cmds[1..];
    }
  }

  lemma ShapedHead(cmds: seq<Command>)
    requires cmds != [] && Shaped(cmds)
    ensures CommandShaped(cmds[0])
    ensures if |cmds| == 1 then cmds[0].controlop in {CmdEnd, CmdSemicolon, CmdBackground}
        else cmds[0].controlop != CmdEnd
  {
  }

  lemma ShapedTail(cmds: seq<Command>)
    requires |cmds| > 1 && Shaped(cmds)
    ensures Shaped(cmds[1..])
  {
    var rest := cmds[1..];
    assert rest[|rest| - 1] == cmds[|cmds| - 1];
  }

  // ---------- The canonical spelling can be said ----------

  lemma {:induction false} WordItemsSayable(argv: seq<string>)
    requires forall w | w in argv :: Wordlike(w)
    ensures forall t | t in ItemTokens(WordItems(argv)) :: Sayable(t)
  {
    if argv != [] {
      assert argv[0] in argv;
      WordItemsSayable(argv[1..]);
      assert WordItems(argv)[1..] == WordItems(argv[1..]);
    }
  }

  lemma {:induction false} ItemTokensAppend(a: seq<Item>, b: seq<Item>)
    ensures ItemTokens(a + b) == ItemTokens(a) + ItemTokens(b)
  {
    if a == [] {
      assert a + b == b;
    } else {
      assert (a + b)[1..] == a[1..] + b;
      ItemTokensAppend(a[1..], b);
    }
  }

  lemma RedirItemSayable(kind: Tok, file: Option<string>)
    requires IsRedir(kind) && FileOk(file)
    ensures forall t | t in ItemTokens(RedirItem(kind, file)) :: Sayable(t)
  {
    if file.Some? {
      assert ItemTokens(RedirItem(kind, file)) == [kind, Normal(file.value)];
    }
  }

  lemma RedirItemsSayable(c: Command)
    requires WordsOk(c)
    ensures forall t | t in ItemTokens(RedirItems(c)) :: Sayable(t)
  {
    RedirItemSayable(Less, c.redirIn);
    RedirItemSayable(Greater, c.redirOut);
    RedirItemSayable(TwoGreater, c.redirErr);
    ItemTokensAppend(RedirItem(Greater, c.redirOut), RedirItem(TwoGreater, c.redirErr));
    ItemTokensAppend(RedirItem(Less, c.redirIn), RedirItem(Greater, c.redirOut) + RedirItem(TwoGreater, c.redirErr));
  }

  lemma {:induction false} SyntaxForSayable(c: Command)
    requires WordsOk(c) && Shaped(c.subshell)
    ensures forall t | t in SyntaxTokens(SyntaxFor(c)) :: Sayable(t)
    decreases c, 0
  {
    hide ItemTokens, WordItems, RedirItems;
    RedirItemsSayable(c);
    if c.subshell == [] {
      WordItemsSayable(c.argv);
      ItemTokensAppend(WordItems(c.argv), RedirItems(c));
    } else {
      LineForSayable(c.subshell);
    }
  }

  lemma {:induction false} LineForSayable(cmds: seq<Command>)
    requires cmds != [] && Shaped(cmds) && AllWordsOk(cmds)
    ensures forall t | t in LineTokens(LineFor(cmds)) :: Sayable(t)
    decreases cmds, 1
  {
    hide SyntaxFor, SyntaxTokens, WordsOk;
    SyntaxForSayable(cmds[0]);
    if |cmds| > 1 {
      ShapedTail(cmds);
      LineForSayable(cmds[1..]);
    }
  }

  // ---------- Round trip ----------

  // Any well-shaped list of lexable words comes back from its rendering.
  lemma RenderParses(cmds: seq<Command>)
    requires cmds != [] && Shaped(cmds) && AllWordsOk(cmds)
    ensures Parsed(Render(cmds)) == Some(cmds) && !Lex(Render(cmds)).0.Error?
  {
    hide LineFor, LineTokens, CommandsOf, LineOk, Shaped, Spell, Toks, Parsed, Lex;
    var l := LineFor(cmds);
    LineForMeans(cmds);
    LineForSayable(cmds);
    ToksOfSpell(LineTokens(l));
    ParsedIsTheLanguage(Render(cmds), cmds);
    HeadIsLex(Render(cmds));
    NoErrorHead(LineTokens(l));
  }

  lemma NoErrorHead(ts: seq<Tok>)
    requires forall t | t in ts :: Sayable(t)
    ensures !Head(ts + [End]).Error?
  {
    if ts != [] {
      assert (ts + [End])[0] == ts[0];
      assert ts[0] in ts;
    }
  }

  // What the parser returns has the right shape and only lexable words.
  lemma ParsedIsRenderable(line: string, cmds: seq<Command>)
    requires Parsed(line) == Some(cmds)
    ensures cmds != [] && Shaped(cmds) && AllWordsOk(cmds)
  {
    hide LineTokens, CommandsOf, LineOk, Shaped, Toks, Parsed;
    ParsedIsTheLanguage(line, cmds);
    var l :| LineOk(l) && CommandsOf(l) == cmds && Toks(line) == LineTokens(l) + [End];
    LineShaped(l);
    ToksSayable(line);
    forall t | t in LineTokens(l) ensures Sayable(t) {
      var i :| 0 <= i < |LineTokens(l)| && LineTokens(l)[i] == t;
      assert Toks(line)[i] == t;
    }
    LineWordsOk(l);
  }

  // Parsing, rendering and parsing again gives the same list.
  lemma ParseRenderParse(line: string, cmds: seq<Command>)
    requires Parsed(line) == Some(cmds)
    ensures cmds != [] && Parsed(Render(cmds)) == Some(cmds)
  {
    ParsedIsRenderable(line, cmds);
    RenderParses(cmds);
  }

  // The lists the parser can return, exactly; cmd_print's assertions hold on each of them.
  lemma ParserImage(cmds: seq<Command>)
    ensures (exists line :: Parsed(line) == Some(cmds)) <==> cmds != [] && Shaped(cmds) && AllWordsOk(cmds)
  {
    if line :| Parsed(line) == Some(cmds) {
      ParsedIsRenderable(line, cmds);
    }
    if cmds != [] && Shaped(cmds) && AllWordsOk(cmds) {
      RenderParses(cmds);
    }
  }

  lemma ParsedPrints(line: string, cmds: seq<Command>, indent: nat)
    requires Parsed(line) == Some(cmds)
    ensures Print(cmds, indent).Some?
  {
    ParsedIsRenderable(line, cmds);
    ShapedPrints(cmds, indent);
  }
}
