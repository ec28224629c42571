/**
  The quote-aware lexer of the shell with its one-token rollback.
  A position in the input line is represented by the part of the line that is left from there.
  */
module ShellLexer {
  import opened Wrappers

  const TOKENSIZE := 1024

  datatype Tok =
    | Error | End
    | Normal(text: string)
    | Less | Greater | TwoGreater
    | Semi | Amp | Pipe | AndAnd | OrOr
    | Open | Close

  // isspace in the C locale
  predicate IsSpace(c: char) { c == ' ' || 9 <= c as int <= 13 }

  predicate IsBreak(c: char) { c == '(' || c == ')' || c == ';' }

  // A C string ends at its first NUL, whatever lies behind.
  predicate AtEnd(s: string) { s == [] || s[0] == '\0' }

  function SkipSpace(s: string): (r: string)
    ensures |r| <= |s| && (r == [] || !IsSpace(r[0]))
  {
    if s != [] && IsSpace(s[0]) then SkipSpace(s[1..]) else s
  }

  datatype Scanned = Bad | Good(buf: string, rest: string, quoted: bool)

  // The token loop: dq and bq say whether the scan is inside double quotes and inside backquotes.
  function Scan(s: string, buf: string, dq: bool, bq: bool, quoted: bool): (r: Scanned)
    ensures r.Good? ==> |r.rest| <= |s|
    decreases |s|
  {
    if AtEnd(s) || (!dq && !bq && IsSpace(s[0])) then
      if dq || bq then Bad else Good(buf, s, quoted)
    else if s[0] == '"' then Scan(s[1..], buf, !dq, bq, true)
    else if |buf| >= TOKENSIZE - 1 then Bad
    else if s[0] == '`' then Scan(s[1..], buf + [s[0]], dq, !bq, true)
    else if IsBreak(s[0]) && !dq && !bq then
      if buf == [] then Good([s[0]], s[1..], quoted) else Good(buf, s, quoted)
    else Scan(s[1..], buf + [s[0]], dq, bq, quoted)
  }

  function Classify(buf: string, quoted: bool): Tok
  {
    if quoted then Normal(buf)
    else if buf == "<" then Less
    else if buf == ">" then Greater
    else if buf == "2>" then TwoGreater
    else if buf == "&" then Amp
    else if buf == ";" then Semi
    else if buf == "|" then Pipe
    else if buf == "&&" then AndAnd
    else if buf == "||" then OrOr
    else if buf == "(" then Open
    else if buf == ")" then Close
    else Normal(buf)
  }

  // One token and the position after it; at the end or on an error the position stays.
  function Lex(s: string): (r: (Tok, string))
    ensures |r.1| <= |s|
    ensures r.0.Error? || r.0.End? ==> r.1 == s
  {
    var t := SkipSpace(s);
    if AtEnd(t) then (End, s)
    else
      match Scan(t, [], false, false, false)
      case Bad => (Error, s)
      case Good(buf, rest, quoted) => (Classify(buf, quoted), rest)
  }

  // ---------- What tokens look like ----------

  lemma {:induction false} ScanProgress(s: string, buf: string, dq: bool, bq: bool, quoted: bool)
    requires Scan(s, buf, dq, bq, quoted).Good? && !AtEnd(s) && (buf == [] || dq || bq)
    requires dq || bq || !IsSpace(s[0])
    ensures |Scan(s, buf, dq, bq, quoted).rest| < |s|
  {
  }

  // Every token but the last one consumes input.
  lemma LexProgress(s: string)
    requires !Lex(s).0.Error? && !Lex(s).0.End?
    ensures |Lex(s).1| < |s|
  {
    ScanProgress(SkipSpace(s), [], false, false, false);
  }

  predicate Plain(s: string) { forall i | 0 <= i < |s| :: s[i] != '"' && s[i] != '\0' }

  function Backquotes(s: string): nat
  {
    if s == [] then 0 else Backquotes(s[..|s| - 1]) + (if s[|s| - 1] == '`' then 1 else 0)
  }

  // The texts that the lexer can deliver in a normal token.
  predicate Wordlike(s: string) { Plain(s) && Backquotes(s) % 2 == 0 && |s| <= TOKENSIZE - 1 }

  lemma OneMoreCharacter(buf: string, c: char)
    ensures Backquotes(buf + [c]) == Backquotes(buf) + (if c == '`' then 1 else 0)
  {
    assert (buf + [c])[..|buf|] == buf;
  }

  lemma FewCharacters(c: char)
    requires c != '`'
    ensures Backquotes([]) == 0 && Backquotes([c]) == 0
  {
    assert [c][..0] == [];
  }

  lemma {:induction false} ScanWordlike(s: string, buf: string, dq: bool, bq: bool, quoted: bool)
    requires Plain(buf) && |buf| <= TOKENSIZE - 1 && (Backquotes(buf) % 2 == 1 <==> bq)
    requires Scan(s, buf, dq, bq, quoted).Good?
    ensures Wordlike(Scan(s, buf, dq, bq, quoted).buf)
    decreases |s|
  {
    hide Backquotes;
    if AtEnd(s) || (!dq && !bq && IsSpace(s[0])) {
    } else if s[0] == '"' {
      ScanWordlike(s[1..], buf, !dq, bq, true);
    } else {
      OneMoreCharacter(buf, s[0]);
      if s[0] == '`' {
        ScanWordlike(s[1..], buf + [s[0]], dq, !bq, true);
      } else if IsBreak(s[0]) && !dq && !bq {
        FewCharacters(s[0]);
      } else {
        ScanWordlike(s[1..], buf + [s[0]], dq, bq, quoted);
      }
    }
  }

  // A normal token holds no double quote and no NUL, an even number of backquotes and at most 1023 characters.
  lemma NormalIsWordlike(s: string)
    requires Lex(s).0.Normal?
    ensures Wordlike(Lex(s).0.text)
  {
    hide Backquotes, Scan;
    FewCharacters('.');
    ScanWordlike(SkipSpace(s), [], false, false, false);
  }

  // ---------- Token streams ----------

  // All tokens from here on; the last one is End or Error.
  function Toks(s: string): (ts: seq<Tok>)
    ensures ts != []
    decreases |s|
  {
    var (tok, rest) := Lex(s);
    if tok.End? || tok.Error? then [tok] else (LexProgress(s); [tok] + Toks(rest))
  }

  // Whether the rest of the line ends in End rather than in a lexical error.
  function Clean(s: string): bool
  {
    Toks(s)[|Toks(s)| - 1].End?
  }

  lemma CleanStep(s: string)
    requires !Lex(s).0.End? && !Lex(s).0.Error?
    ensures Toks(s) == [Lex(s).0] + Toks(Lex(s).1) && Clean(Lex(s).1) == Clean(s)
  {
    LexProgress(s);
    var ts := Toks(Lex(s).1);
    assert ([Lex(s).0] + ts)[|ts|] == ts[|ts| - 1];
  }

  // ---------- The parser's input state ----------

  class ParseState {
    var position: string
    var last: Option<string>

    // parse_init
    constructor (line: string)
      ensures position == line && last == None
    {
      position, last := line, None;
    }

    // A rollback lands on a token that has been read before, so it cannot land on an error.
    ghost predicate Valid()
      reads this
    {
      match last
      case None => !Lex(position).0.Error?
      case Some(q) => !Lex(q).0.Error? && Lex(q).1 == position
    }

    // parse_gettoken
    method GetToken() returns (token: Tok)
      modifies this
      ensures token == Lex(old(position)).0
      ensures token.Error? ==> position == old(position) && last == old(last)
      ensures !token.Error? ==> position == Lex(old(position)).1 && last == Some(old(position))
      ensures old(Valid()) || !token.Error? ==> Valid()
    {
      var str := position;
      while !AtEnd(str) && IsSpace(str[0])
        invariant SkipSpace(str) == SkipSpace(position)
        decreases |str|
      {
        str := str[1..];
      }
      if AtEnd(str) {
        last := Some(position);
        return End;
      }
      var buffer: string, dq, bq, quoted := [], false, false, false;
      while !AtEnd(str) && (dq || bq || !IsSpace(str[0]))
        invariant Scan(str, buffer, dq, bq, quoted) == Scan(SkipSpace(position), [], false, false, false)
        invariant position == old(position) && last == old(last)
        decreases |str|
      {
        if str[0] == '"' {
          dq, quoted := !dq, true;
        } else {
          if |buffer| >= TOKENSIZE - 1 {
            return Error;
          }
          if str[0] == '`' {
            bq, quoted := !bq, true;
            buffer := buffer + [str[0]];
          } else if IsBreak(str[0]) && !dq && !bq {
            if buffer == [] {
              buffer, str := [str[0]], str[1..];
            }
            last, position := Some(position), str;
            return Classify(buffer, quoted);
          } else {
            buffer := buffer + [str[0]];
          }
        }
        str := str[1..];
      }
      if dq || bq {
        return Error;
      }
      last, position := Some(position), str;
      return Classify(buffer, quoted);
    }

    // parse_ungettoken: the precondition is the C assertion.
    method UngetToken()
      requires Valid() && last.Some?
      modifies this
      ensures Valid() && position == old(last).value && last == None
    {
      position := last.value;
      last := None;
    }
  }
}
