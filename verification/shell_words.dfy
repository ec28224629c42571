/**
  Which stretch of the line a token is, and which text it has, said of the characters of the line:
  double quotes and backquotes counted from the token's start, without the scanning loop.
  */
module ShellWords {
  import opened Wrappers
  import opened ShellLexer
  import opened ShellGrammar
  import opened ShellParser
  import opened ShellRender

  // ---------- Quotes ----------

  // c occurs an odd number of times.
  predicate Odd(s: string, c: char) { s != [] && Odd(s[1..], c) != (s[0] == c) }

  function Unquoted(s: string): string
  {
    if s == [] then [] else (if s[0] == '"' then [] else [s[0]]) + Unquoted(s[1..])
  }

  predicate HasQuote(s: string) { '"' in s || '`' in s }

  // Position i is outside all quotes when both kinds have been opened as often as closed; dq and bq say
  // which are open at the start.
  predicate Outside(w: string, i: nat, dq: bool, bq: bool)
    requires i <= |w|
  {
    Odd(w[..i], '"') == dq && Odd(w[..i], '`') == bq
  }

  // The token ends with a break that has nothing but double quotes before it.
  predicate Lone(w: string, buf: string, dq: bool, bq: bool)
  {
    w != [] && IsBreak(w[|w| - 1]) && Outside(w, |w| - 1, dq, bq) && buf + Unquoted(w[..|w| - 1]) == []
  }

  // No space and no break outside quotes, but for a last break if that is the whole token.
  ghost predicate Unbroken(w: string, lone: bool, dq: bool, bq: bool)
  {
    forall i | 0 <= i < |w| && Outside(w, i, dq, bq) :: !IsSpace(w[i]) && (IsBreak(w[i]) ==> i == |w| - 1 && lone)
  }

  // w is the rest of a token whose text so far is buf: quotes are closed at its end, no space and no
  // other break stands outside them, and what follows ends the token.
  ghost predicate SpanFrom(w: string, next: string, buf: string, dq: bool, bq: bool)
  {
    && (forall i | 0 <= i < |w| :: w[i] != '\0')
    && Outside(w, |w|, dq, bq)
    && Unbroken(w, Lone(w, buf, dq, bq), dq, bq)
    && |buf + Unquoted(w)| <= 1023
    && (Lone(w, buf, dq, bq) || AtEnd(next) || IsSpace(next[0])
        || (IsBreak(next[0]) && 0 < |buf + Unquoted(w)| <= 1022))
  }

  lemma OddCons(s: string, i: nat, c: char)
    requires 0 < i <= |s|
    ensures Odd(s[..i], c) == (Odd(s[1..][..i - 1], c) != (s[0] == c))
  {
    assert s[..i][1..] == s[1..][..i - 1];
  }

  lemma OutsideCons(w: string, i: nat, dq: bool, bq: bool)
    requires 0 < i <= |w|
    ensures Outside(w, i, dq, bq) == Outside(w[1..], i - 1, dq != (w[0] == '"'), bq != (w[0] == '`'))
  {
    OddCons(w, i, '"');
    OddCons(w, i, '`');
  }

  lemma OutsideStart(w: string, dq: bool, bq: bool)
    ensures Outside(w, 0, dq, bq) == (!dq && !bq)
  {
  }

  function Longer(buf: string, c: char): string { if c == '"' then buf else buf + [c] }

  lemma UnquotedCons(w: string, n: nat, buf: string)
    requires 0 < n <= |w|
    ensures buf + Unquoted(w[..n]) == Longer(buf, w[0]) + Unquoted(w[1..][..n - 1])
  {
    TextCons(w[..n], buf);
    assert w[..n][1..] == w[1..][..n - 1];
  }

  lemma LoneCons(w: string, buf: string, dq: bool, bq: bool)
    requires |w| > 1
    ensures Lone(w, buf, dq, bq) == Lone(w[1..], Longer(buf, w[0]), dq != (w[0] == '"'), bq != (w[0] == '`'))
  {
    OutsideCons(w, |w| - 1, dq, bq);
    UnquotedCons(w, |w| - 1, buf);
    hide Outside;
    assert w[1..][|w[1..]| - 1] == w[|w| - 1];
    assert w[1..][..|w| - 2] == w[1..][..|w[1..]| - 1];
  }

  lemma LoneOne(w: string, buf: string, dq: bool, bq: bool)
    requires |w| == 1
    ensures Lone(w, buf, dq, bq) == (IsBreak(w[0]) && !dq && !bq && buf == [])
  {
    OutsideStart(w, dq, bq);
    assert buf + [] == buf;
  }

  // No token is left.
  lemma SpanNil(next: string, buf: string, dq: bool, bq: bool)
    ensures SpanFrom([], next, buf, dq, bq) <==>
      && !dq && !bq && |buf| <= 1023
      && (AtEnd(next) || IsSpace(next[0]) || (IsBreak(next[0]) && 0 < |buf| <= 1022))
  {
    assert buf + [] == buf;
  }

  lemma UnbrokenCons(w: string, lone: bool, dq: bool, bq: bool)
    requires w != []
    ensures var c := w[0];
      Unbroken(w, lone, dq, bq) <==>
        && (!dq && !bq ==> !IsSpace(c) && (IsBreak(c) ==> |w| == 1 && lone))
        && Unbroken(w[1..], lone, dq != (c == '"'), bq != (c == '`'))
  {
    var c, v := w[0], w[1..];
    var dq', bq' := dq != (c == '"'), bq != (c == '`');
    OutsideStart(w, dq, bq);
    forall i | 0 < i < |w|
      ensures w[i] == v[i - 1] && Outside(w, i, dq, bq) == Outside(v, i - 1, dq', bq')
    {
      OutsideCons(w, i, dq, bq);
    }
    hide Outside;
    if Unbroken(w, lone, dq, bq) {
      forall i | 0 <= i < |v| && Outside(v, i, dq', bq')
        ensures !IsSpace(v[i]) && (IsBreak(v[i]) ==> i == |v| - 1 && lone)
      {
        assert Outside(w, i + 1, dq, bq);
      }
    }
  }

  // One character more in front.
  lemma SpanCons(w: string, next: string, buf: string, dq: bool, bq: bool)
    requires w != []
    ensures var c := w[0];
      SpanFrom(w, next, buf, dq, bq) <==>
        && c != '\0' && (!dq && !bq ==> !IsSpace(c))
        && if !dq && !bq && IsBreak(c) then |w| == 1 && buf == []
           else SpanFrom(w[1..], next, Longer(buf, c), dq != (c == '"'), bq != (c == '`'))
  {
    var c, v := w[0], w[1..];
    OutsideStart(w, dq, bq);
    OutsideCons(w, |w|, dq, bq);
    UnquotedCons(w, |w|, buf);
    UnbrokenCons(w, Lone(w, buf, dq, bq), dq, bq);
    assert w[..|w|] == w && v[..|v|] == v;
    assert (forall i | 0 <= i < |w| :: w[i] != '\0') <==> c != '\0' && forall i | 0 <= i < |v| :: v[i] != '\0';
    if |w| == 1 {
      LoneOne(w, buf, dq, bq);
      if !dq && !bq && IsBreak(c) && buf == [] {
        SpanOne(w, next);
      }
    } else {
      LoneCons(w, buf, dq, bq);
      hide Outside, Lone, Unquoted, Unbroken;
    }
  }

  lemma SpanOne(w: string, next: string)
    requires |w| == 1 && IsBreak(w[0])
    ensures SpanFrom(w, next, [], false, false)
  {
    LoneOne(w, [], false, false);
    OutsideStart(w, false, false);
    OutsideCons(w, 1, false, false);
    OutsideStart(w[1..], false, false);
    assert w[1..] == [] && [] + Unquoted(w) == [w[0]];
    hide Outside, Lone, Odd;
  }

  // ---------- The scan finds exactly such a stretch ----------

  lemma QuotesCons(w: string)
    requires w != []
    ensures HasQuote(w) == (w[0] == '"' || w[0] == '`' || HasQuote(w[1..]))
  {
    assert w == [w[0]] + w[1..];
  }

  lemma TextCons(w: string, buf: string)
    requires w != []
    ensures buf + Unquoted(w) == Longer(buf, w[0]) + Unquoted(w[1..])
  {
    var head: string := if w[0] == '"' then [] else [w[0]];
    assert Unquoted(w) == head + Unquoted(w[1..]);
    hide Unquoted;
    Assoc(buf, head, Unquoted(w[1..]));
    assert buf + head == Longer(buf, w[0]);
  }

  lemma Assoc(a: string, b: string, c: string)
    ensures a + (b + c) == a + b + c
  {
  }

  lemma SpanLength(w: string, next: string, buf: string, dq: bool, bq: bool)
    requires SpanFrom(w, next, buf, dq, bq)
    ensures |buf| + |Unquoted(w)| <= 1023
  {
  }

  lemma {:induction false} SpanScan(w: string, next: string, buf: string, dq: bool, bq: bool, quoted: bool)
    requires SpanFrom(w, next, buf, dq, bq)
    ensures Scan(w + next, buf, dq, bq, quoted) == Good(buf + Unquoted(w), next, quoted || HasQuote(w))
    decreases |w|
  {
    hide SpanFrom, Unquoted;
    if w == [] {
      SpanNil(next, buf, dq, bq);
      Nothing(buf);
      assert w + next == next;
    } else {
      var c, v := w[0], w[1..];
      SpanCons(w, next, buf, dq, bq);
      SpanLength(w, next, buf, dq, bq);
      QuotesCons(w);
      TextCons(w, buf);
      hide HasQuote;
      assert (w + next)[0] == c && (w + next)[1..] == v + next;
      if !dq && !bq && IsBreak(c) {
        Nothing([c]);
        assert v == [] && v + next == next;
      } else {
        SpanScan(v, next, Longer(buf, c), dq != (c == '"'), bq != (c == '`'), quoted || c == '"' || c == '`');
      }
    }
  }

  lemma Nothing(buf: string)
    ensures buf + Unquoted([]) == buf && !HasQuote([])
  {
  }

  lemma {:induction false} ScanSpan(s: string, buf: string, dq: bool, bq: bool, quoted: bool) returns (w: string)
    requires Scan(s, buf, dq, bq, quoted).Good? && |buf| <= 1023
    ensures s == w + Scan(s, buf, dq, bq, quoted).rest
    ensures SpanFrom(w, Scan(s, buf, dq, bq, quoted).rest, buf, dq, bq)
    decreases |s|
  {
    hide SpanFrom;
    var rest := Scan(s, buf, dq, bq, quoted).rest;
    if AtEnd(s) || (!dq && !bq && IsSpace(s[0])) {
      w := [];
      SpanNil(s, buf, dq, bq);
    } else if s[0] == '"' {
      var v := ScanSpan(s[1..], buf, !dq, bq, true);
      w := Prefixed(s, v, rest);
      SpanCons(w, rest, buf, dq, bq);
    } else if s[0] == '`' {
      var v := ScanSpan(s[1..], buf + [s[0]], dq, !bq, true);
      w := Prefixed(s, v, rest);
      SpanCons(w, rest, buf, dq, bq);
    } else if IsBreak(s[0]) && !dq && !bq {
      if buf == [] {
        w := Prefixed(s, [], rest);
        SpanCons(w, rest, buf, dq, bq);
      } else {
        w := [];
        SpanNil(s, buf, dq, bq);
      }
    } else {
      var v := ScanSpan(s[1..], buf + [s[0]], dq, bq, quoted);
      w := Prefixed(s, v, rest);
      SpanCons(w, rest, buf, dq, bq);
    }
  }

  lemma Prefixed(s: string, v: string, rest: string) returns (w: string)
    requires s != [] && s[1..] == v + rest
    ensures w != [] && w[0] == s[0] && w[1..] == v && s == w + rest
  {
    w := [s[0]] + v;
    assert s == [s[0]] + s[1..];
  }

  // ---------- The tokens of a line ----------

  // The token that these characters of the line make.
  function TokenOf(w: string): Tok
  {
    if w == "<" then Less
    else if w == ">" then Greater
    else if w == "2>" then TwoGreater
    else if w == "&" then Amp
    else if w == ";" then Semi
    else if w == "|" then Pipe
    else if w == "&&" then AndAnd
    else if w == "||" then OrOr
    else if w == "(" then Open
    else if w == ")" then Close
    else Normal(Unquoted(w))
  }

  ghost predicate Spaces(s: string) { forall i | 0 <= i < |s| :: IsSpace(s[i]) }

  // After leading space, the characters from k up to n make one token.
  ghost predicate TokenAt(s: string, k: nat, n: nat)
  {
    k < n <= |s| && Spaces(s[..k]) && SpanFrom(s[k..n], s[n..], [], false, false)
  }

  lemma {:induction false} Unspaced(s: string, k: nat)
    requires k <= |s| && Spaces(s[..k]) && (k == |s| || !IsSpace(s[k]))
    ensures SkipSpace(s) == s[k..]
    decreases k
  {
    if k > 0 {
      assert s[..k][0] == s[0];
      assert s[1..][..k - 1] == s[..k][1..] && s[1..][k - 1..] == s[k..];
      Unspaced(s[1..], k - 1);
    }
  }

  lemma {:induction false} SpacesSkipped(s: string) returns (k: nat)
    ensures k <= |s| && Spaces(s[..k]) && SkipSpace(s) == s[k..] && (k < |s| ==> !IsSpace(s[k]))
    decreases |s|
  {
    k := 0;
    if s != [] && IsSpace(s[0]) {
      var j := SpacesSkipped(s[1..]);
      k := j + 1;
      assert s[..k] == [s[0]] + s[1..][..j];
    }
  }

  lemma {:induction false} UnquotedPlain(w: string)
    requires !HasQuote(w)
    ensures Unquoted(w) == w
  {
    if w != [] {
      QuotesCons(w);
      UnquotedPlain(w[1..]);
      assert w == [w[0]] + w[1..];
    }
  }

  lemma ClassifySpan(w: string)
    ensures Classify(Unquoted(w), HasQuote(w)) == TokenOf(w)
  {
    if !HasQuote(w) {
      UnquotedPlain(w);
    } else {
      hide Unquoted;
    }
  }

  // A stretch of the line that looks like a token is the token that is delivered, with its quotes
  // removed, and the position moves behind it.
  lemma TokenIsLexed(s: string, k: nat, n: nat)
    requires TokenAt(s, k, n)
    ensures Lex(s) == (TokenOf(s[k..n]), s[n..])
  {
    var w, next := s[k..n], s[n..];
    assert s[k..] == w + next && s[k] == w[0];
    SpanCons(w, next, [], false, false);
    Unspaced(s, k);
    SpanScan(w, next, [], false, false, false);
    assert [] + Unquoted(w) == Unquoted(w);
    ClassifySpan(w);
  }

  lemma EndExact(s: string)
    ensures Lex(s).0.End? <==> exists k :: 0 <= k <= |s| && Spaces(s[..k]) && AtEnd(s[k..])
  {
    hide Spaces, TokenOf;
    EndIsEnd(s);
    if Lex(s).0.End? {
      var k := SpacesSkipped(s);
      assert Spaces(s[..k]) && AtEnd(s[k..]);
    }
    if j :| 0 <= j <= |s| && Spaces(s[..j]) && AtEnd(s[j..]) {
      assert j < |s| ==> s[j..][0] == s[j];
      Unspaced(s, j);
    }
  }

  lemma EndIsEnd(s: string)
    ensures Lex(s).0.End? <==> AtEnd(SkipSpace(s))
  {
  }

  lemma TokenFound(s: string) returns (k: nat, n: nat)
    requires !Lex(s).0.End? && !Lex(s).0.Error?
    ensures TokenAt(s, k, n)
  {
    hide Scan, SpanFrom, Spaces;
    k := SpacesSkipped(s);
    EndIsEnd(s);
    var w := ScanSpan(s[k..], [], false, false, false);
    n := k + |w|;
    assert s[k..n] == w && s[n..] == s[k..][|w|..];
    if w == [] {
      SpanNil(s[k..], [], false, false);
    }
  }

  // And the lexer delivers nothing else: End exactly when only space is left, Error exactly when what
  // is left does not begin with a token.
  lemma LexExact(s: string)
    ensures Lex(s).0.End? <==> exists k :: 0 <= k <= |s| && Spaces(s[..k]) && AtEnd(s[k..])
    ensures !Lex(s).0.End? && !Lex(s).0.Error? <==> exists k: nat, n: nat :: TokenAt(s, k, n)
    ensures forall k: nat, n: nat | TokenAt(s, k, n) :: Lex(s) == (TokenOf(s[k..n]), s[n..])
  {
    hide Lex, TokenOf, TokenAt, Spaces, AtEnd;
    EndExact(s);
    forall k: nat, n: nat | TokenAt(s, k, n)
      ensures k < n <= |s| && Lex(s) == (TokenOf(s[k..n]), s[n..]) && !Lex(s).0.End? && !Lex(s).0.Error?
    {
      TokenRange(s, k, n);
      TokenIsLexed(s, k, n);
      NotTheEnd(s[k..n]);
    }
    if !Lex(s).0.End? && !Lex(s).0.Error? {
      var k, n := TokenFound(s);
    }
  }

  lemma TokenRange(s: string, k: nat, n: nat)
    requires TokenAt(s, k, n)
    ensures k < n <= |s|
  {
  }

  lemma NotTheEnd(w: string)
    ensures !TokenOf(w).End? && !TokenOf(w).Error?
  {
  }

  // ---------- Bare words ----------

  predicate BareChar(c: char)
  {
    c != ' ' && !(9 <= c as int <= 13) && c !in {'\0', '"', '`', '(', ')', ';'}
  }

  predicate BareChars(w: string) { forall i | 0 <= i < |w| :: BareChar(w[i]) }

  lemma {:induction false} OddAbsent(s: string, c: char)
    requires c !in s
    ensures !Odd(s, c)
  {
    if s != [] {
      OddAbsent(s[1..], c);
    }
  }

  // What ends a bare word without being part of it.
  predicate Stopped(w: string, next: string)
  {
    next == "" || next[0] == '\0' || next[0] == ' ' || 9 <= next[0] as int <= 13
    || (next[0] in {'(', ')', ';'} && |w| <= 1022)
  }

  lemma BareSpan(w: string, next: string)
    requires BareChars(w) && 1 <= |w| <= 1023 && Stopped(w, next)
    ensures SpanFrom(w, next, [], false, false) && Unquoted(w) == w
  {
    hide Odd, Unquoted;
    assert w[..|w|] == w && [] + Unquoted(w) == Unquoted(w);
    OddAbsent(w, '"');
    OddAbsent(w, '`');
    UnquotedPlain(w);
    assert !IsBreak(w[|w| - 1]);
    hide Outside;
  }

  // A word without spaces, quotes and breaks is read as it stands; the longest one must not be
  // followed by a break.
  lemma BareWordLexes(w: string, next: string)
    requires BareChars(w) && 1 <= |w| <= 1023 && Stopped(w, next)
    ensures Lex(w + next) == (TokenOf(w), next)
    ensures w !in {"<", ">", "2>", "&", "|", "&&", "||"} ==> Lex(w + next) == (Normal(w), next)
  {
    BareSpan(w, next);
    LexedWhole(w, next);
    hide Lex, SpanFrom, Unquoted;
    assert BareChar(w[0]);
  }

  lemma LexedWhole(w: string, next: string)
    requires w != "" && SpanFrom(w, next, [], false, false)
    ensures Lex(w + next) == (TokenOf(w), next)
  {
    var s := w + next;
    assert s[0..|w|] == w && s[|w|..] == next && s[..0] == [];
    hide SpanFrom, TokenOf, Lex;
    assert TokenAt(s, 0, |w|);
    TokenIsLexed(s, 0, |w|);
  }

  // ---------- A list as it is typed ----------

  // A word that is read as itself.
  predicate Bare(w: string)
  {
    BareChars(w) && 1 <= |w| <= 1023 && w !in {"<", ">", "2>", "&", "|", "&&", "||"}
  }

  predicate BareFile(file: Option<string>) { file.Some? ==> Bare(file.value) }

  // The lists a user can type without quotes, at every depth.
  predicate TypableCommand(c: Command)
    decreases c, 0
  {
    && (c.argv == [] <==> c.subshell != []) && |c.argv| <= 512 && (forall w | w in c.argv :: Bare(w))
    && BareFile(c.redirIn) && BareFile(c.redirOut) && BareFile(c.redirErr)
    && (c.subshell != [] ==> Typable(c.subshell))
  }

  predicate Typable(cmds: seq<Command>)
    decreases cmds, 1
  {
    && cmds != []
    && (forall i | 0 <= i < |cmds| :: TypableCommand(cmds[i]))
    && (forall i | 0 <= i < |cmds| - 1 :: cmds[i].controlop != CmdEnd)
    && cmds[|cmds| - 1].controlop in {CmdEnd, CmdSemicolon, CmdBackground}
  }

  function Typed(words: seq<string>): string
  {
    if words == [] then "" else words[0] + " " + Typed(words[1..])
  }

  function TypedFile(mark: string, file: Option<string>): string
  {
    if file.None? then "" else mark + " " + file.value + " "
  }

  function TypedOp(op: ControlOp): string
  {
    match op
    case CmdSemicolon => ";" + " "
    case CmdBackground => "&" + " "
    case CmdPipe => "|" + " "
    case CmdAnd => "&&" + " "
    case CmdOr => "||" + " "
    case CmdEnd => ""
  }

  function TypedCommand(c: Command): string
    decreases c, 0
  {
    (if c.subshell == [] then Typed(c.argv) else "( " + TypedList(c.subshell) + ") ")
    + TypedFile("<", c.redirIn) + TypedFile(">", c.redirOut) + TypedFile("2>", c.redirErr)
  }

  function TypedList(cmds: seq<Command>): string
    decreases cmds, 1
  {
    if cmds == [] then ""
    else TypedCommand(cmds[0]) + TypedOp(cmds[0].controlop) + TypedList(cmds[1..])
  }

  lemma TokenToks(w: string, tail: string)
    requires w != "" && SpanFrom(w, " " + tail, [], false, false)
    ensures Toks(w + " " + tail) == [TokenOf(w)] + Toks(tail)
  {
    hide SpanFrom, TokenOf, Lex;
    LexedWhole(w, " " + tail);
    NotTheEnd(w);
    assert w + " " + tail == w + (" " + tail);
    CleanStep(w + " " + tail);
    LeadingSpace(tail);
  }

  lemma WordToks(w: string, tail: string)
    requires Bare(w)
    ensures Toks(w + " " + tail) == [Normal(w)] + Toks(tail)
  {
    BareSpan(w, " " + tail);
    TokenToks(w, tail);
    hide SpanFrom, Unquoted, Toks;
    assert BareChar(w[0]);
  }

  lemma OperatorToks(w: string, tail: string)
    requires w in {"<", ">", "2>", "&", ";", "|", "&&", "||", "(", ")"}
    ensures Toks(w + " " + tail) == [TokenOf(w)] + Toks(tail)
  {
    if w in {";", "(", ")"} {
      SpanOne(w, " " + tail);
    } else {
      BareSpan(w, " " + tail);
    }
    TokenToks(w, tail);
  }

  lemma {:induction false} TypedToks(words: seq<string>, tail: string)
    requires forall w | w in words :: Bare(w)
    ensures Toks(Typed(words) + tail) == ItemTokens(WordItems(words)) + Toks(tail)
    decreases |words|
  {
    hide Bare, Toks;
    if words == [] {
      assert Typed(words) + tail == tail;
    } else {
      var w, rest := words[0], words[1..];
      assert w in words;
      TypedToks(rest, tail);
      WordToks(w, Typed(rest) + tail);
      assert Typed(words) + tail == w + " " + (Typed(rest) + tail);
      ItemTokensCons(Word(w), WordItems(rest), Toks(tail));
      FirstWord(words, []);
    }
  }

  lemma TypedFileToks(mark: string, file: Option<string>, tail: string)
    requires mark in {"<", ">", "2>"} && BareFile(file)
    ensures Toks(TypedFile(mark, file) + tail) == ItemTokens(RedirItem(TokenOf(mark), file)) + Toks(tail)
  {
    hide Bare, Toks, TokenOf;
    if file.None? {
      assert TypedFile(mark, file) + tail == tail;
    } else {
      WordToks(file.value, tail);
      OperatorToks(mark, file.value + " " + tail);
      assert TypedFile(mark, file) + tail == mark + " " + (file.value + " " + tail);
      ItemTokensCons(Redir(TokenOf(mark), file.value), [], Toks(tail));
      assert ItemTokens([]) + Toks(tail) == Toks(tail);
    }
  }

  lemma TypedFilesToks(c: Command, tail: string)
    requires BareFile(c.redirIn) && BareFile(c.redirOut) && BareFile(c.redirErr)
    ensures Toks(TypedFile("<", c.redirIn) + (TypedFile(">", c.redirOut) + (TypedFile("2>", c.redirErr) + tail)))
         == ItemTokens(RedirItems(c)) + Toks(tail)
  {
    hide Toks, TypedFile, BareFile;
    TypedFileToks("2>", c.redirErr, tail);
    TypedFileToks(">", c.redirOut, TypedFile("2>", c.redirErr) + tail);
    TypedFileToks("<", c.redirIn, TypedFile(">", c.redirOut) + (TypedFile("2>", c.redirErr) + tail));
    var a, b, d := RedirItem(Less, c.redirIn), RedirItem(Greater, c.redirOut), RedirItem(TwoGreater, c.redirErr);
    hide RedirItem;
    ItemTokensAppend(b, d);
    ItemTokensAppend(a, b + d);
  }

  lemma TypedOpToks(op: ControlOp, tail: string)
    ensures Toks(TypedOp(op) + tail) == (if op.CmdEnd? then [] else [OperatorOf(op)]) + Toks(tail)
  {
    hide Toks;
    match op
    case CmdEnd => assert TypedOp(op) + tail == tail;
    case CmdSemicolon => OperatorToks(";", tail);
    case CmdBackground => OperatorToks("&", tail);
    case CmdPipe => OperatorToks("|", tail);
    case CmdAnd => OperatorToks("&&", tail);
    case CmdOr => OperatorToks("||", tail);
  }

  lemma TypableRest(cmds: seq<Command>)
    requires Typable(cmds) && |cmds| > 1
    ensures Typable(cmds[1..])
  {
    hide TypableCommand;
    var rest := cmds[1..];
    assert rest[|rest| - 1] == cmds[|cmds| - 1];
  }

  lemma {:induction false} TypableShaped(cmds: seq<Command>)
    requires Typable(cmds)
    ensures Shaped(cmds)
    decreases cmds
  {
    hide BareFile, Bare;
    forall i | 0 <= i < |cmds|
      ensures Shaped(cmds[i].subshell)
    {
      assert TypableCommand(cmds[i]);
      if cmds[i].subshell != [] {
        TypableShaped(cmds[i].subshell);
      }
    }
    assert forall i | 0 <= i < |cmds| :: TypableCommand(cmds[i]);
  }

  lemma {:induction false} TypedCommandToks(c: Command, tail: string)
    requires TypableCommand(c)
    ensures Toks(TypedCommand(c) + tail) == SyntaxTokens(SyntaxFor(c)) + Toks(tail)
    decreases c, 0
  {
    hide Toks, Typed, TypedFile, TypedList, Bare, BareFile, RedirItems, Typable, ItemTokens, LineFor, LineTokens;
    var in0, out, err := TypedFile("<", c.redirIn), TypedFile(">", c.redirOut), TypedFile("2>", c.redirErr);
    var files := in0 + (out + (err + tail));
    TypedFilesToks(c, tail);
    if c.subshell == [] {
      TypedToks(c.argv, files);
      assert TypedCommand(c) + tail == Typed(c.argv) + files;
      ItemTokensAppend(WordItems(c.argv), RedirItems(c));
    } else {
      var body := TypedList(c.subshell);
      OperatorToks(")", files);
      TypedListToks(c.subshell, ")" + " " + files);
      OperatorToks("(", body + (")" + " " + files));
      Brackets(body, in0, out, err, tail);
      assert TypedCommand(c) + tail == "(" + " " + (body + (")" + " " + files));
    }
  }

  lemma Brackets(body: string, a: string, b: string, d: string, tail: string)
    ensures "( " + body + ") " + a + b + d + tail == "(" + " " + (body + (")" + " " + (a + (b + (d + tail)))))
  {
    assert "( " == "(" + " " && ") " == ")" + " ";
    assert "( " + body + ") " + a + b + d + tail == "( " + (body + (") " + (a + (b + (d + tail)))));
  }

  lemma {:induction false} TypedListToks(cmds: seq<Command>, tail: string)
    requires Typable(cmds)
    ensures Toks(TypedList(cmds) + tail) == LineTokens(LineFor(cmds)) + Toks(tail)
    decreases cmds, 1
  {
    hide Toks, TypedCommand, TypedOp, SyntaxFor, SyntaxTokens, TypableCommand;
    var c := cmds[0];
    var rest := TypedList(cmds[1..]) + tail;
    TypedCommandToks(c, TypedOp(c.controlop) + rest);
    TypedOpToks(c.controlop, rest);
    assert TypedList(cmds) + tail == TypedCommand(c) + (TypedOp(c.controlop) + rest);
    if |cmds| == 1 {
      assert rest == tail;
    } else {
      TypableRest(cmds);
      TypedListToks(cmds[1..], tail);
    }
  }

  // Every list typed in the plain way is parsed into that list: words, files, operators and subshells
  // as they stand.
  lemma TypedParses(cmds: seq<Command>)
    requires Typable(cmds)
    ensures Parsed(TypedList(cmds)) == Some(cmds)
  {
    TypableShaped(cmds);
    LineForMeans(cmds);
    TypedListToks(cmds, "");
    hide Toks, TypedList, Typable, Shaped, LineFor, LineOk, CommandsOf, LineTokens, Parsed;
    assert TypedList(cmds) + "" == TypedList(cmds);
    LexEmpty();
    NothingToks();
    ParsedIsTheLanguage(TypedList(cmds), cmds);
  }

  lemma NothingToks()
    ensures Toks("") == [End]
  {
  }
}
