/**
  Path strings: strtok splitting with the ten-component limit, and the parent path that the
  namespace operations cut out of the string they were given.
  */
module Paths {
  import opened Wrappers
  import opened Layout

  const SLASH: byte := 47
  const MAX_DEPTH := 10

  type Name = seq<byte>
  predicate IsToken(s: Name) { s != [] && SLASH !in s && 0 !in s }

  // Length of the run of non-delimiters at the front.
  function TokenLen(s: seq<byte>): (k: nat)
    ensures k <= |s| && SLASH !in s[..k] && (k < |s| ==> s[k] == SLASH)
  {
    if s == [] || s[0] == SLASH then 0 else 1 + TokenLen(s[1..])
  }

  // Everything that repeated strtok(path, "/") calls return.
  function Tokens(s: seq<byte>): seq<Name>
    decreases |s|
  {
    if s == [] then []
    else if s[0] == SLASH then Tokens(s[1..])
    else [s[..TokenLen(s)]] + Tokens(s[TokenLen(s)..])
  }

  // The names of a path, or None when there are more than MAX_DEPTH of them.
  function Split(s: seq<byte>): Option<seq<Name>>
  {
    if |Tokens(s)| <= MAX_DEPTH then Some(Tokens(s)) else None
  }

  function Cat(names: seq<Name>): seq<byte>
  {
    if names == [] then [] else [SLASH] + names[0] + Cat(names[1..])
  }

  // The canonical spelling of a list of names.
  function Join(names: seq<Name>): seq<byte>
  {
    if names == [] then [SLASH] else Cat(names)
  }

  predicate Canonical(path: seq<byte>)
  {
    0 !in path && path == Join(Tokens(path))
  }

  // The path cut after as many characters as all names but the last take up when spelled, and a slash.
  function Parent(names: seq<Name>, src: seq<byte>): seq<byte>
  {
    var len := if names == [] then 0 else |Cat(names[..|names| - 1])|;
    if len <= |src| then src[..len] + [SLASH] else src + [SLASH]
  }

  // ---------- Splitting inverts spelling ----------

  lemma {:induction false} TokenLenAt(a: Name, rest: seq<byte>)
    requires SLASH !in a && (rest == [] || rest[0] == SLASH)
    ensures TokenLen(a + rest) == |a|
  {
    if a != [] {
      assert (a + rest)[1..] == a[1..] + rest;
      TokenLenAt(a[1..], rest);
    } else {
      assert a + rest == rest;
    }
  }

  lemma SlashFirst(names: seq<Name>, tail: seq<byte>)
    requires tail == [] || tail == [SLASH]
    ensures Cat(names) + tail == [] || (Cat(names) + tail)[0] == SLASH
  {
    if names == [] {
      assert Cat(names) + tail == tail;
    }
  }

  // Any canonical spelling, with or without a trailing slash, splits back into its names.
  lemma {:induction false} TokensCat(names: seq<Name>, tail: seq<byte>)
    requires forall n | n in names :: IsToken(n)
    requires tail == [] || tail == [SLASH]
    ensures Tokens(Cat(names) + tail) == names
  {
    hide IsToken;
    if names == [] {
      assert Cat(names) + tail == tail;
      assert tail != [] ==> tail[1..] == [];
    } else {
      assert names[0] in names;
      var rest := Cat(names[1..]) + tail;
      assert Cat(names) + tail == [SLASH] + (names[0] + rest);
      SlashFirst(names[1..], tail);
      TokensCons(names[0], rest);
      LeadingSlash(names[0] + rest);
      TokensCat(names[1..], tail);
      assert names == [names[0]] + names[1..];
    }
  }

  lemma LeadingSlash(s: seq<byte>)
    ensures Tokens([SLASH] + s) == Tokens(s)
  {
    assert ([SLASH] + s)[1..] == s;
  }

  lemma TokensCons(a: Name, rest: seq<byte>)
    requires IsToken(a) && (rest == [] || rest[0] == SLASH)
    ensures Tokens(a + rest) == [a] + Tokens(rest)
  {
    TokenLenAt(a, rest);
    assert (a + rest)[..|a|] == a && (a + rest)[|a|..] == rest;
  }

  lemma {:induction false} TokensAreTokens(s: seq<byte>)
    requires 0 !in s
    ensures forall n | n in Tokens(s) :: IsToken(n)
    decreases |s|
  {
    if s != [] {
      if s[0] == SLASH {
        TokensAreTokens(s[1..]);
      } else {
        TokensAreTokens(s[TokenLen(s)..]);
        assert 0 !in s[..TokenLen(s)];
      }
    }
  }

  lemma {:induction false} CatPrefix(names: seq<Name>, k: nat)
    requires k <= |names|
    ensures Cat(names[..k]) <= Cat(names)
  {
    if k > 0 {
      CatPrefix(names[1..], k - 1);
      assert names[..k][1..] == names[1..][..k - 1];
    }
  }

  // The parent path of a canonical path splits into all names but the last.
  lemma ParentTokens(path: seq<byte>)
    requires Canonical(path) && Tokens(path) != []
    ensures Tokens(Parent(Tokens(path), path)) == Tokens(path)[..|Tokens(path)| - 1]
    ensures |Parent(Tokens(path), path)| > 0 && Parent(Tokens(path), path)[0] == SLASH
    ensures 0 !in Parent(Tokens(path), path)
  {
    var names := Tokens(path);
    var par := names[..|names| - 1];
    TokensAreTokens(path);
    CatPrefix(names, |names| - 1);
    assert Parent(names, path) == Cat(par) + [SLASH];
    TokensCat(par, [SLASH]);
  }

  // ---------- The loops ----------

  // sep_path: collect strtok results while there are fewer than max of them; None stands for -1.
  method SepPath(path: seq<byte>) returns (r: Option<seq<Name>>)
    ensures r == Split(path)
  {
    var names: seq<Name> := [];
    var rest := path;
    var token: Option<Name>;
    token, rest := StrTok(rest);
    while token.Some? && |names| < MAX_DEPTH
      invariant |names| <= MAX_DEPTH
      invariant Tokens(path) == names + (if token.Some? then [token.value] + Tokens(rest) else [])
      decreases MAX_DEPTH - |names|
    {
      names := names + [token.value];
      token, rest := StrTok(rest);
    }
    assert token.None? ==> names + [] == names;
    r := if token.Some? then None else Some(names);
  }

  method StrTok(s: seq<byte>) returns (token: Option<Name>, rest: seq<byte>)
    ensures token.None? ==> Tokens(s) == []
    ensures token.Some? ==> Tokens(s) == [token.value] + Tokens(rest)
  {
    rest := s;
    while rest != [] && rest[0] == SLASH
      invariant Tokens(rest) == Tokens(s)
    {
      rest := rest[1..];
    }
    if rest == [] {
      return None, rest;
    }
    var k := 0;
    while k < |rest| && rest[k] != SLASH
      invariant k <= |rest| && TokenLen(rest) == k + TokenLen(rest[k..])
    {
      k := k + 1;
    }
    return Some(rest[..k]), rest[k..];
  }

  // par_path: sum the lengths of all names but the last, then cut the source there.
  method ParPath(names: seq<Name>, src: seq<byte>) returns (par: seq<byte>)
    requires src == Join(names)
    ensures par == Parent(names, src)
  {
    var len, i := 0, 0;
    while i < |names| - 1
      invariant 0 <= i && (names != [] ==> i <= |names| - 1) && (names == [] ==> i == 0)
      invariant len == |Cat(names[..i])|
    {
      CatSnoc(names[..i], names[i]);
      assert names[..i + 1] == names[..i] + [names[i]];
      len := len + |names[i]| + 1;
      i := i + 1;
    }
    if names != [] {
      CatPrefix(names, |names| - 1);
    }
    par := src[..len] + [SLASH];
  }

  lemma {:induction false} CatSnoc(names: seq<Name>, n: Name)
    ensures Cat(names + [n]) == Cat(names) + [SLASH] + n
  {
    if names == [] {
      assert names + [n] == [n];
      assert Cat([n][1..]) == [];
    } else {
      CatSnoc(names[1..], n);
      assert (names + [n])[1..] == names[1..] + [n];
    }
  }
}
