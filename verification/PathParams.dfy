/**
 * cli/internal/agentops/execute.go, BuildRequest: path parameters go into the upstream URL one after
 * another. Strings are bytes, so a char stands for a code below 256.
 */
module PathParams {
  import opened Prelude
  import opened Text

  datatype Param = Param(key: string, value: string)

  // ----- Escaping one path segment (net/url) -----

  predicate IsAlnum(c: char) {
    'a' <= c <= 'z' || 'A' <= c <= 'Z' || '0' <= c <= '9'
  }

  /** What `url.PathEscape` leaves alone. */
  predicate Plain(c: char) {
    IsAlnum(c) || c in "-_.~$&+:=@"
  }

  function HexDigit(n: nat): (c: char)
    requires n < 16
    ensures IsAlnum(c) && HexValue(c) == Some(n)
  {
    if n < 10 then '0' + n as char else 'A' + (n - 10) as char
  }

  function HexValue(c: char): Option<nat> {
    if '0' <= c <= '9' then Some(c as int - '0' as int)
    else if 'A' <= c <= 'F' then Some(c as int - 'A' as int + 10)
    else if 'a' <= c <= 'f' then Some(c as int - 'a' as int + 10)
    else None
  }

  function EscapeChar(c: char): (r: string)
    ensures forall x <- r :: Plain(x) || x == '%'
    ensures r != ""
  {
    if Plain(c) then [c] else ['%', HexDigit(c as int / 16 % 16), HexDigit(c as int % 16)]
  }

  function PathEscape(s: string): (r: string)
    ensures forall x <- r :: Plain(x) || x == '%'
  {
    if s == "" then "" else EscapeChar(s[0]) + PathEscape(s[1..])
  }

  /** `url.PathUnescape`: what the other side reads from the segment. */
  function PathUnescape(s: string): Option<string> {
    if s == "" then Some("")
    else if s[0] == '%' then
      if |s| < 3 || HexValue(s[1]).None? || HexValue(s[2]).None? then None
      else
        var rest := PathUnescape(s[3..]);
        if rest.None? then None else Some([(HexValue(s[1]).value * 16 + HexValue(s[2]).value) as char] + rest.value)
    else
      var rest := PathUnescape(s[1..]);
      if rest.None? then None else Some([s[0]] + rest.value)
  }

  /** A byte is left alone exactly if a path segment may hold it; any other is its two upper-case hex digits. */
  lemma EscapesExactly(c: char)
    requires c as int < 256
    ensures EscapeChar(c) == [c] <==>
            || 'a' <= c <= 'z' || 'A' <= c <= 'Z' || '0' <= c <= '9' || c == '-' || c == '_' || c == '.' || c == '~'
            || c == '$' || c == '&' || c == '+' || c == ':' || c == '=' || c == '@'
    ensures EscapeChar(c) != [c] ==>
              EscapeChar(c) == ['%', "0123456789ABCDEF"[c as int / 16], "0123456789ABCDEF"[c as int % 16]]
  {
    HexDigitIs(c as int / 16);
    HexDigitIs(c as int % 16);
  }

  lemma HexDigitIs(n: nat)
    requires n < 16
    ensures HexDigit(n) == "0123456789ABCDEF"[n]
  {
  }

  /** An escape is read only if both its characters are hex digits, in either case. */
  lemma HexValueExactly(c: char)
    ensures HexValue(c).Some? <==> '0' <= c <= '9' || 'a' <= c <= 'f' || 'A' <= c <= 'F'
    ensures HexValue(c).Some? ==>
              c == "0123456789ABCDEF"[HexValue(c).value] || c == "0123456789abcdef"[HexValue(c).value]
  {
  }

  lemma HexPair(c: char)
    requires c as int < 256
    ensures (c as int / 16 % 16 * 16 + c as int % 16) as char == c
  {
  }

  lemma PlainIsNotPercent(c: char)
    ensures Plain(c) ==> c != '%'
  {
  }

  lemma UnescapeChar(c: char, tail: string)
    requires c as int < 256
    ensures PathUnescape(EscapeChar(c) + tail) ==
            match PathUnescape(tail) case None => None case Some(rest) => Some([c] + rest)
  {
    hide Plain, HexDigit, HexValue;
    PlainIsNotPercent(c);
    var all := EscapeChar(c) + tail;
    if Plain(c) {
      assert all[1..] == tail;
    } else {
      assert all[3..] == tail;
      HexPair(c);
    }
  }

  /** Any value travels whole, whatever bytes it has. */
  lemma {:induction false} UnescapeUndoesEscape(s: string)
    requires forall c <- s :: c as int < 256
    ensures PathUnescape(PathEscape(s)) == Some(s)
  {
    hide EscapeChar, PathUnescape;
    if s == "" {
      UnescapeNothing();
    } else {
      assert s[0] in s && forall c <- s[1..] :: c in s;
      UnescapeUndoesEscape(s[1..]);
      UnescapeChar(s[0], PathEscape(s[1..]));
      assert [s[0]] + s[1..] == s;
    }
  }

  lemma UnescapeNothing()
    ensures PathUnescape("") == Some("")
  {
  }

  // ----- The reference: parse the template, fill every hole at once -----

  datatype Token = Lit(c: char) | Hole(name: string)

  predicate IsBrace(c: char) {
    c == '{' || c == '}'
  }

  predicate BraceFree(s: string) {
    forall c <- s :: !IsBrace(c)
  }

  /** How far the text goes on without a brace. */
  function NameLength(s: string): (n: nat)
    ensures n <= |s| && BraceFree(s[..n]) && (n < |s| ==> IsBrace(s[n]))
  {
    if s == "" || IsBrace(s[0]) then 0 else 1 + NameLength(s[1..])
  }

  /** An opening brace, text without braces, a closing brace. */
  predicate OpensHole(t: string) {
    t != "" && t[0] == '{' &&
    var n := NameLength(t[1..]);
    n + 1 < |t| && t[n + 1] == '}'
  }

  /** The innermost pairs of braces are holes; every other character is literal. */
  function Parse(t: string): seq<Token>
    decreases |t|
  {
    if t == "" then []
    else if OpensHole(t) then
      var n := NameLength(t[1..]);
      [Hole(t[1..n + 1])] + Parse(t[n + 2..])
    else [Lit(t[0])] + Parse(t[1..])
  }

  function RenderToken(token: Token, bound: map<string, string>): string {
    match token
    case Lit(c) => [c]
    case Hole(name) => if name in bound then PathEscape(bound[name]) else "{" + name + "}"
  }

  function Render(tokens: seq<Token>, bound: map<string, string>): string {
    if tokens == [] then "" else RenderToken(tokens[0], bound) + Render(tokens[1..], bound)
  }

  /** The text the tokens stand for. */
  function Unparse(tokens: seq<Token>): string {
    Render(tokens, map[])
  }

  /** The first binding of each key. */
  function FirstBindings(params: seq<Param>): map<string, string> {
    if params == [] then map[] else FirstBindings(params[1..])[params[0].key := params[0].value]
  }

  function Placeholder(key: string): string {
    "{" + key + "}"
  }

  /** One replacement after another, as the loop does it. */
  function Sequentially(t: string, params: seq<Param>): string
    decreases params
  {
    if params == [] then t
    else Sequentially(ReplaceAll(t, Placeholder(params[0].key), PathEscape(params[0].value)), params[1..])
  }

  /** Filling one hole by literal text. */
  function FillOne(tokens: seq<Token>, key: string, text: string): seq<Token> {
    if tokens == [] then []
    else (if tokens[0] == Hole(key) then Literal(text) else [tokens[0]]) + FillOne(tokens[1..], key, text)
  }

  function Literal(text: string): seq<Token> {
    if text == "" then [] else [Lit(text[0])] + Literal(text[1..])
  }

  predicate NamesAreBraceFree(tokens: seq<Token>) {
    forall k <- tokens :: k.Hole? ==> BraceFree(k.name)
  }

  // ----- Rendering -----

  lemma Regroup(a: string, b: string, c: string)
    ensures a + (b + c) == (a + b) + c
  {
  }

  lemma {:induction false} RenderJoins(a: seq<Token>, b: seq<Token>, bound: map<string, string>)
    ensures Render(a + b, bound) == Render(a, bound) + Render(b, bound)
  {
    hide RenderToken;
    if a == [] {
      assert a + b == b;
    } else {
      RenderJoins(a[1..], b, bound);
      assert (a + b)[1..] == a[1..] + b && (a + b)[0] == a[0];
      Regroup(RenderToken(a[0], bound), Render(a[1..], bound), Render(b, bound));
    }
  }

  lemma RenderOne(token: Token, bound: map<string, string>)
    ensures Render([token], bound) == RenderToken(token, bound)
  {
    assert [token][1..] == [];
  }

  lemma {:induction false} RenderLiteral(u: string, bound: map<string, string>)
    ensures Render(Literal(u), bound) == u
  {
    if u != "" {
      RenderLiteral(u[1..], bound);
      assert Literal(u)[1..] == Literal(u[1..]);
      assert u == [u[0]] + u[1..];
    }
  }

  lemma ParseEmpty()
    ensures Parse("") == []
  {
  }

  lemma ParseChar(t: string)
    requires t != "" && !OpensHole(t)
    ensures Parse(t) == [Lit(t[0])] + Parse(t[1..])
  {
  }

  lemma ParseHole(t: string) returns (name: string, rest: string)
    requires OpensHole(t)
    ensures t == "{" + name + "}" + rest && BraceFree(name)
    ensures Parse(t) == [Hole(name)] + Parse(rest)
  {
    var n := NameLength(t[1..]);
    name, rest := t[1..n + 1], t[n + 2..];
    assert t[1..][..n] == name;
    TakeApart(t, n);
  }

  lemma TakeApart(t: string, n: nat)
    requires n + 1 < |t| && t[0] == '{' && t[n + 1] == '}'
    ensures t == "{" + t[1..n + 1] + "}" + t[n + 2..]
  {
  }

  lemma {:induction false} UnparseParses(t: string)
    ensures Unparse(Parse(t)) == t && NamesAreBraceFree(Parse(t))
    decreases |t|
  {
    hide Parse, OpensHole, NameLength;
    if t == "" {
      ParseEmpty();
    } else if OpensHole(t) {
      var name, rest := ParseHole(t);
      UnparseParses(rest);
      RenderCons(Hole(name), Parse(rest));
      assert forall k <- [Hole(name)] + Parse(rest) :: k == Hole(name) || k in Parse(rest);
    } else {
      ParseChar(t);
      UnparseParses(t[1..]);
      RenderCons(Lit(t[0]), Parse(t[1..]));
      assert forall k <- [Lit(t[0])] + Parse(t[1..]) :: k == Lit(t[0]) || k in Parse(t[1..]);
      assert t == [t[0]] + t[1..];
    }
  }

  /** A token is at least one character, and a name is shorter than its hole. */
  lemma {:induction false} TokensFit(tokens: seq<Token>)
    ensures |tokens| <= |Unparse(tokens)|
    ensures forall k <- tokens :: k.Hole? ==> |k.name| < |Unparse(tokens)|
  {
    if tokens != [] {
      TokensFit(tokens[1..]);
      assert forall k <- tokens :: k == tokens[0] || k in tokens[1..];
    }
  }

  // ----- Braces that stay literal -----

  /**
   * No literal opening brace is followed, among the literal braces, by a closing one. `open`: the last literal
   * brace was an opening one.
   */
  predicate Settled(tokens: seq<Token>, open: bool) {
    tokens == [] || (!(open && tokens[0] == Lit('}')) && Settled(tokens[1..], OpenAfter(tokens[0], open)))
  }

  predicate OpenAfter(token: Token, open: bool) {
    if token == Lit('{') then true else if token == Lit('}') then false else open
  }

  /** The next brace is an opening one, or at least `n` characters away. */
  predicate RunsOn(tokens: seq<Token>, n: nat) {
    n == 0 || tokens == [] ||
    match tokens[0]
    case Lit(c) => c == '{' || (c != '}' && RunsOn(tokens[1..], n - 1))
    case Hole(_) => true
  }

  /** A literal opening brace is not closed within fewer than `n` characters. */
  predicate Loose(tokens: seq<Token>, n: nat) {
    tokens == [] || (Loose(tokens[1..], n) && (tokens[0] == Lit('{') ==> RunsOn(tokens[1..], n)))
  }

  lemma SettledCons(token: Token, rest: seq<Token>, open: bool)
    ensures Settled([token] + rest, open) <==> !(open && token == Lit('}')) && Settled(rest, OpenAfter(token, open))
  {
    assert ([token] + rest)[1..] == rest;
  }

  lemma RunsOnCons(token: Token, rest: seq<Token>, n: nat)
    ensures RunsOn([token] + rest, n) <==>
            n == 0 || token.Hole? || token == Lit('{') || (token != Lit('}') && RunsOn(rest, n - 1))
  {
    assert ([token] + rest)[1..] == rest;
  }

  lemma LooseCons(token: Token, rest: seq<Token>, n: nat)
    ensures Loose([token] + rest, n) <==> Loose(rest, n) && (token == Lit('{') ==> RunsOn(rest, n))
  {
    hide RunsOn;
    assert ([token] + rest)[1..] == rest;
  }

  lemma NothingRunsOn(n: nat)
    ensures RunsOn([], n)
  {
  }

  lemma RunsOnNothing(tokens: seq<Token>)
    ensures RunsOn(tokens, 0)
  {
  }

  lemma NothingIsLoose(n: nat)
    ensures Loose([], n)
  {
  }

  lemma NameStops(u: string)
    requires u != "" && IsBrace(u[0])
    ensures NameLength(u) == 0
  {
  }

  lemma NotAHole(t: string)
    requires t != "" && t[0] == '{' && !OpensHole(t)
    ensures var m := NameLength(t[1..]); m == |t| - 1 || t[1..][m] == '{'
  {
  }

  lemma NameGoesOn(u: string)
    requires u != "" && !IsBrace(u[0])
    ensures NameLength(u) == 1 + NameLength(u[1..]) && !OpensHole(u)
  {
  }

  lemma {:induction false} ParseRunsOn(u: string, n: nat)
    requires var m := NameLength(u); m == |u| || u[m] == '{'
    ensures RunsOn(Parse(u), n)
    decreases |u|
  {
    hide Parse, OpensHole, NameLength, RunsOn;
    if u == "" {
      ParseEmpty();
      assert RunsOn([], n) by { NothingRunsOn(n); }
    } else if OpensHole(u) {
      var name, rest := ParseHole(u);
      RunsOnCons(Hole(name), Parse(rest), n);
    } else {
      ParseChar(u);
      RunsOnCons(Lit(u[0]), Parse(u[1..]), n);
      if IsBrace(u[0]) {
        NameStops(u);
      } else if n > 0 {
        NameGoesOn(u);
        ParseRunsOn(u[1..], n - 1);
      }
    }
  }

  /** In a parsed template no literal brace is closed at once: it would be a hole. */
  lemma {:induction false} ParseIsLoose(t: string, n: nat)
    ensures Loose(Parse(t), n)
    decreases |t|
  {
    hide Parse, OpensHole, NameLength, Loose, RunsOn;
    if t == "" {
      ParseEmpty();
      assert Loose([], n) by { NothingIsLoose(n); }
    } else if OpensHole(t) {
      var name, rest := ParseHole(t);
      ParseIsLoose(rest, n);
      LooseCons(Hole(name), Parse(rest), n);
    } else {
      ParseChar(t);
      ParseIsLoose(t[1..], n);
      LooseCons(Lit(t[0]), Parse(t[1..]), n);
      if t[0] == '{' {
        NotAHole(t);
        ParseRunsOn(t[1..], n);
      }
    }
  }

  lemma {:induction false} SettledCloses(tokens: seq<Token>, n: nat)
    requires Settled(tokens, true)
    ensures Settled(tokens, false) && RunsOn(tokens, n)
  {
    if tokens != [] && tokens[0] != Lit('{') {
      SettledCloses(tokens[1..], if n == 0 then 0 else n - 1);
    }
  }

  lemma {:induction false} SettledIsLoose(tokens: seq<Token>, open: bool, n: nat)
    requires Settled(tokens, open)
    ensures Loose(tokens, n)
  {
    if tokens != [] {
      SettledIsLoose(tokens[1..], OpenAfter(tokens[0], open), n);
      if tokens[0] == Lit('{') {
        SettledCloses(tokens[1..], n);
      }
    }
  }

  // ----- One replacement -----

  lemma {:induction false} ReplacePasses(u: string, s: string, sub: string, repl: string)
    requires sub != "" && sub[0] !in u
    ensures ReplaceAll(u + s, sub, repl) == u + ReplaceAll(s, sub, repl)
  {
    if u == "" {
      assert u + s == s;
    } else {
      ReplacePasses(u[1..], s, sub, repl);
      assert u + s == [u[0]] + (u[1..] + s);
      ReplaceSkips(u[0], u[1..] + s, sub, repl);
      assert u + ReplaceAll(s, sub, repl) == [u[0]] + (u[1..] + ReplaceAll(s, sub, repl));
    }
  }

  /** Two names that both end at the first closing brace are one. */
  lemma SameName(a: string, b: string, s: string, r: string)
    requires BraceFree(a) && BraceFree(b) && a + "}" + s == b + "}" + r
    ensures a == b
  {
    var x := a + "}" + s;
    assert x[..|a|] == a && (b + "}" + r)[..|b|] == b;
    SameLength(x, |a|);
    SameLength(b + "}" + r, |b|);
  }

  lemma SkipBrace(s: string, key: string, text: string)
    requires !(key + "}" <= s)
    ensures ReplaceAll("{" + s, Placeholder(key), text) == "{" + ReplaceAll(s, Placeholder(key), text)
  {
    var t, sub := "{" + s, Placeholder(key);
    assert t[1..] == s && sub[1..] == key + "}";
    if |t| >= |sub| {
      assert t[..|sub|][1..] == s[..|sub| - 1];
    } else {
      assert |s| < |sub|;
    }
  }

  lemma ReplaceOtherHole(name: string, s: string, key: string, text: string)
    requires BraceFree(name) && BraceFree(key) && name != key
    ensures ReplaceAll("{" + name + "}" + s, Placeholder(key), text) ==
        "{" + name + "}" + ReplaceAll(s, Placeholder(key), text)
  {
    hide ReplaceAll;
    var tail := name + "}" + s;
    assert "{" + name + "}" + s == "{" + tail;
    if key + "}" <= tail {
      var r := tail[|key| + 1..];
      assert tail == key + "}" + r;
      SameName(name, key, s, r);
    }
    SkipBrace(tail, key, text);
    assert '{' !in name + "}";
    ReplacePasses(name + "}", s, Placeholder(key), text);
    Regroup("{", name + "}", ReplaceAll(s, Placeholder(key), text));
    assert "{" + (name + "}") == "{" + name + "}";
  }

  /** While the run lasts no key that is shorter than it can close. */
  lemma {:induction false} NoKeyCloses(tokens: seq<Token>, key: string, n: nat)
    requires RunsOn(tokens, n) && |key| < n && BraceFree(key)
    ensures !(key + "}" <= Unparse(tokens))
    decreases tokens
  {
    var k, t := key + "}", Unparse(tokens);
    assert k <= t ==> t != "" && k[0] == t[0] && k[1..] <= t[1..];
    assert key != "" ==> k[0] == key[0] && key[0] in key && k[1..] == key[1..] + "}";
    if tokens != [] && tokens[0].Lit? {
      assert t[0] == tokens[0].c && t[1..] == Unparse(tokens[1..]);
      if key != "" && tokens[0].c != '{' {
        assert forall c <- key[1..] :: c in key;
        NoKeyCloses(tokens[1..], key[1..], n - 1);
      }
    }
  }

  /** Replacing the placeholder in the text fills the holes of that name and leaves every other token alone. */
  lemma {:induction false} ReplaceFills(tokens: seq<Token>, key: string, text: string, n: nat)
    requires NamesAreBraceFree(tokens) && Loose(tokens, n) && BraceFree(key) && |key| < n
    ensures ReplaceAll(Unparse(tokens), Placeholder(key), text) == Unparse(FillOne(tokens, key, text))
  {
    hide ReplaceAll, RunsOn;
    var sub := Placeholder(key);
    if tokens == [] {
      ReplaceInEmpty(sub, text);
    } else {
      var rest, filled := tokens[1..], FillOne(tokens[1..], key, text);
      assert tokens[0] in tokens && forall k <- rest :: k in tokens;
      ReplaceFills(rest, key, text, n);
      match tokens[0] {
        case Lit(c) =>
          RenderCons(tokens[0], filled);
          if c == '{' {
            NoKeyCloses(rest, key, n);
            SkipBrace(Unparse(rest), key, text);
          } else {
            ReplaceSkips(c, Unparse(rest), sub, text);
          }
        case Hole(name) =>
          if name == key {
            ReplaceHits(Unparse(rest), sub, text);
            RenderJoins(Literal(text), filled, map[]);
            RenderLiteral(text, map[]);
          } else {
            ReplaceOtherHole(name, Unparse(rest), key, text);
            RenderCons(tokens[0], filled);
          }
      }
    }
  }

  lemma ReplaceInEmpty(sub: string, text: string)
    requires sub != ""
    ensures ReplaceAll("", sub, text) == ""
  {
  }

  lemma RenderCons(token: Token, rest: seq<Token>)
    ensures Unparse([token] + rest) == RenderToken(token, map[]) + Unparse(rest)
  {
    assert ([token] + rest)[1..] == rest;
  }

  // What filling a hole keeps.

  lemma {:induction false} LiteralSettled(text: string, rest: seq<Token>, open: bool)
    requires BraceFree(text)
    ensures Settled(Literal(text) + rest, open) == Settled(rest, open)
  {
    hide Settled;
    if text == "" {
      assert Literal(text) + rest == rest;
    } else {
      assert text[0] in text && forall c <- text[1..] :: c in text;
      LiteralSettled(text[1..], rest, open);
      assert Literal(text) + rest == [Lit(text[0])] + (Literal(text[1..]) + rest);
      SettledCons(Lit(text[0]), Literal(text[1..]) + rest, open);
    }
  }

  lemma {:induction false} FillSettled(tokens: seq<Token>, key: string, text: string, open: bool)
    requires BraceFree(text)
    ensures Settled(FillOne(tokens, key, text), open) == Settled(tokens, open)
    decreases tokens
  {
    if tokens != [] {
      var rest := FillOne(tokens[1..], key, text);
      FillSettled(tokens[1..], key, text, OpenAfter(tokens[0], open));
      if tokens[0] == Hole(key) {
        LiteralSettled(text, rest, open);
      } else {
        assert ([tokens[0]] + rest)[1..] == rest;
      }
    }
  }

  lemma {:induction false} LiteralLoose(text: string, rest: seq<Token>, n: nat, m: nat)
    requires BraceFree(text) && Loose(rest, n)
    ensures Loose(Literal(text) + rest, n)
    ensures |text| >= m ==> RunsOn(Literal(text) + rest, m)
  {
    hide Loose, RunsOn;
    if text == "" {
      assert Literal(text) + rest == rest;
      assert RunsOn(rest, 0) by { RunsOnNothing(rest); }
    } else {
      assert text[0] in text && forall c <- text[1..] :: c in text;
      LiteralLoose(text[1..], rest, n, if m == 0 then 0 else m - 1);
      assert Literal(text) + rest == [Lit(text[0])] + (Literal(text[1..]) + rest);
      LooseCons(Lit(text[0]), Literal(text[1..]) + rest, n);
      RunsOnCons(Lit(text[0]), Literal(text[1..]) + rest, m);
    }
  }

  lemma {:induction false} FillRunsOn(tokens: seq<Token>, key: string, text: string, n: nat, m: nat)
    requires BraceFree(text) && |text| >= n >= m && Loose(tokens, n)
    ensures Loose(FillOne(tokens, key, text), n)
    ensures RunsOn(tokens, m) ==> RunsOn(FillOne(tokens, key, text), m)
    decreases tokens, m
  {
    if tokens != [] {
      var rest := FillOne(tokens[1..], key, text);
      FillRunsOn(tokens[1..], key, text, n, if m == 0 then 0 else m - 1);
      FillRunsOn(tokens[1..], key, text, n, n);
      if tokens[0] == Hole(key) {
        LiteralLoose(text, rest, n, m);
      } else {
        assert ([tokens[0]] + rest)[1..] == rest && ([tokens[0]] + rest)[0] == tokens[0];
      }
    }
  }

  lemma {:induction false} FillNames(tokens: seq<Token>, key: string, text: string)
    requires NamesAreBraceFree(tokens)
    ensures NamesAreBraceFree(FillOne(tokens, key, text))
  {
    if tokens != [] {
      assert tokens[0] in tokens && forall k <- tokens[1..] :: k in tokens;
      FillNames(tokens[1..], key, text);
      LiteralHasNoHole(text);
    }
  }

  lemma {:induction false} LiteralHasNoHole(text: string)
    ensures forall k <- Literal(text) :: k.Lit?
  {
    if text != "" {
      LiteralHasNoHole(text[1..]);
    }
  }

  lemma EscapedIsBraceFree(s: string)
    ensures BraceFree(PathEscape(s))
  {
    hide PathEscape;
    forall c <- PathEscape(s)
      ensures !IsBrace(c)
    {
      assert Plain(c) || c == '%';
    }
  }

  // ----- All of them -----

  /** Filling one hole first and the others after it is filling them together, this binding before any later one. */
  lemma {:induction false} FillThenRender(tokens: seq<Token>, p: Param, later: map<string, string>)
    ensures Render(FillOne(tokens, p.key, PathEscape(p.value)), later) == Render(tokens, later[p.key := p.value])
  {
    hide PathEscape;
    if tokens != [] {
      FillThenRender(tokens[1..], p, later);
      var head := if tokens[0] == Hole(p.key) then Literal(PathEscape(p.value)) else [tokens[0]];
      RenderJoins(head, FillOne(tokens[1..], p.key, PathEscape(p.value)), later);
      RenderLiteral(PathEscape(p.value), later);
      RenderOne(tokens[0], later);
    }
  }

  lemma {:induction false} SettledSequence(tokens: seq<Token>, params: seq<Param>)
    requires NamesAreBraceFree(tokens) && Settled(tokens, false) && forall p <- params :: BraceFree(p.key)
    ensures Sequentially(Unparse(tokens), params) == Render(tokens, FirstBindings(params))
    decreases params
  {
    hide ReplaceAll, PathEscape, Settled, Loose, NamesAreBraceFree, BraceFree, Render, FillOne;
    if params != [] {
      var p := params[0];
      var text := PathEscape(p.value);
      EscapedIsBraceFree(p.value);
      SettledIsLoose(tokens, false, |p.key| + 1);
      ReplaceFills(tokens, p.key, text, |p.key| + 1);
      FillSettled(tokens, p.key, text, false);
      FillNames(tokens, p.key, text);
      SettledSequence(FillOne(tokens, p.key, text), params[1..]);
      FillThenRender(tokens, p, FirstBindings(params[1..]));
    }
  }

  /** Values longer than every key keep new pairs of braces from being taken for a placeholder. */
  lemma {:induction false} LooseSequence(tokens: seq<Token>, params: seq<Param>, n: nat)
    requires NamesAreBraceFree(tokens) && Loose(tokens, n)
    requires forall p <- params :: BraceFree(p.key) && |p.key| < n <= |PathEscape(p.value)|
    ensures Sequentially(Unparse(tokens), params) == Render(tokens, FirstBindings(params))
    decreases params
  {
    hide ReplaceAll, PathEscape, Loose, NamesAreBraceFree, BraceFree, Render, FillOne;
    if params != [] {
      var p := params[0];
      var text := PathEscape(p.value);
      EscapedIsBraceFree(p.value);
      ReplaceFills(tokens, p.key, text, n);
      FillRunsOn(tokens, p.key, text, n, 0);
      FillNames(tokens, p.key, text);
      LooseSequence(FillOne(tokens, p.key, text), params[1..], n);
      FillThenRender(tokens, p, FirstBindings(params[1..]));
    }
  }

  // ----- Nested braces -----

  /** Every brace has its partner; `depth` opening ones still wait for theirs. */
  predicate Balanced(s: string, depth: nat) {
    if s == "" then depth == 0
    else if s[0] == '{' then Balanced(s[1..], depth + 1)
    else if s[0] == '}' then depth > 0 && Balanced(s[1..], depth - 1)
    else Balanced(s[1..], depth)
  }

  /** A matched pair of braces contains another pair. */
  predicate NestedAt(t: string, i: nat, j: nat) {
    i < j < |t| && t[i] == '{' && t[j] == '}' && Balanced(t[i + 1..j], 0) && '{' in t[i + 1..j]
  }

  predicate Nested(t: string) {
    exists i, j | 0 <= i < j < |t| :: NestedAt(t, i, j)
  }

  /** Neither an opening nor a closing brace of its own. */
  predicate Bare(tokens: seq<Token>) {
    forall k <- tokens :: k != Lit('{') && k != Lit('}')
  }

  lemma {:induction false} FindClose(tokens: seq<Token>) returns (q: nat)
    requires Settled(tokens, false) && !Settled(tokens, true)
    ensures q < |tokens| && tokens[q] == Lit('}') && Bare(tokens[..q])
  {
    if tokens[0] == Lit('}') {
      q := 0;
    } else {
      var m := FindClose(tokens[1..]);
      q := m + 1;
      assert tokens[..q] == [tokens[0]] + tokens[1..][..m];
    }
  }

  lemma SliceOfTail(tokens: seq<Token>, from: nat, to: nat)
    requires tokens != [] && from <= to < |tokens|
    ensures tokens[1..][from..to] == tokens[from + 1..to + 1]
  {
  }

  /** A literal opening brace and the literal closing one next to it. */
  lemma {:induction false} FindPair(tokens: seq<Token>) returns (p: nat, q: nat)
    requires !Settled(tokens, false)
    ensures p < q < |tokens| && tokens[p] == Lit('{') && tokens[q] == Lit('}') && Bare(tokens[p + 1..q])
  {
    var rest := tokens[1..];
    if !Settled(rest, false) {
      var a, b := FindPair(rest);
      p, q := a + 1, b + 1;
      SliceOfTail(tokens, a + 1, b);
    } else {
      assert tokens[0] == Lit('{');
      var m := FindClose(rest);
      p, q := 0, m + 1;
      assert rest[..m] == rest[0..m];
      SliceOfTail(tokens, 0, m);
    }
  }

  /** The tokens around a pair. */
  lemma RenderPair(tokens: seq<Token>, p: nat, q: nat, bound: map<string, string>)
    requires p < q < |tokens| && tokens[p] == Lit('{') && tokens[q] == Lit('}')
    ensures Render(tokens, bound) ==
            Render(tokens[..p], bound) + Placeholder(Render(tokens[p + 1..q], bound)) + Render(tokens[q + 1..], bound)
  {
    hide Render;
    var mid := tokens[p + 1..q];
    assert tokens == tokens[..p] + ([Lit('{')] + (mid + ([Lit('}')] + tokens[q + 1..])));
    RenderJoins(tokens[..p], [Lit('{')] + (mid + ([Lit('}')] + tokens[q + 1..])), bound);
    RenderJoins([Lit('{')], mid + ([Lit('}')] + tokens[q + 1..]), bound);
    RenderJoins(mid, [Lit('}')] + tokens[q + 1..], bound);
    RenderJoins([Lit('}')], tokens[q + 1..], bound);
    RenderOne(Lit('{'), bound);
    RenderOne(Lit('}'), bound);
    Regroup5(Render(tokens[..p], bound), "{", Render(mid, bound), "}", Render(tokens[q + 1..], bound));
  }

  lemma Regroup5(a: string, b: string, c: string, d: string, e: string)
    ensures a + (b + (c + (d + e))) == a + (b + c + d) + e
  {
  }

  lemma LooseAt(tokens: seq<Token>, n: nat, p: nat)
    requires Loose(tokens, n) && p < |tokens| && tokens[p] == Lit('{')
    ensures RunsOn(tokens[p + 1..], n)
    decreases p
  {
    if p > 0 {
      LooseAt(tokens[1..], n, p - 1);
      assert tokens[1..][p..] == tokens[p + 1..];
    }
  }

  /** A run that ends sooner than it may ends past a hole. */
  lemma {:induction false} RunHasHole(tokens: seq<Token>, q: nat, n: nat)
    requires q < |tokens| && tokens[q] == Lit('}') && Bare(tokens[..q]) && RunsOn(tokens, n) && q < n
    ensures exists k <- tokens[..q] :: k.Hole?
    decreases q
  {
    assert q > 0 ==> tokens[0] in tokens[..q];
    if tokens[0].Lit? {
      assert tokens[1..][..q - 1] == tokens[..q][1..];
      assert forall k <- tokens[..q][1..] :: k in tokens[..q];
      RunHasHole(tokens[1..], q - 1, n - 1);
    }
  }

  lemma {:induction false} NameIsLevel(name: string, s: string, depth: nat)
    requires BraceFree(name)
    ensures Balanced(name + s, depth) == Balanced(s, depth)
  {
    if name == "" {
      assert name + s == s;
    } else {
      assert name[0] in name && forall c <- name[1..] :: c in name;
      NameIsLevel(name[1..], s, depth);
      assert (name + s)[1..] == name[1..] + s;
    }
  }

  lemma HoleIsLevel(name: string, s: string, depth: nat)
    requires BraceFree(name)
    ensures Balanced("{" + name + "}" + s, depth) == Balanced(s, depth)
  {
    var t := "{" + name + "}" + s;
    assert t[1..] == name + ("}" + s) && ("}" + s)[1..] == s;
    NameIsLevel(name, "}" + s, depth + 1);
  }

  lemma {:induction false} BareIsBalanced(tokens: seq<Token>)
    requires Bare(tokens) && NamesAreBraceFree(tokens)
    ensures Balanced(Unparse(tokens), 0)
    ensures (exists k <- tokens :: k.Hole?) ==> '{' in Unparse(tokens)
  {
    if tokens != [] {
      assert tokens[0] in tokens && forall k <- tokens[1..] :: k in tokens;
      BareIsBalanced(tokens[1..]);
      assert forall k <- tokens :: k == tokens[0] || k in tokens[1..];
      var rest := Unparse(tokens[1..]);
      match tokens[0] {
        case Lit(c) =>
          assert ([c] + rest)[1..] == rest;
          assert '{' in rest ==> '{' in [c] + rest;
        case Hole(name) =>
          HoleIsLevel(name, rest, 0);
          assert ("{" + name + "}" + rest)[0] == '{';
      }
    }
  }

  /** Where the tokens leave a literal pair open, the text has a pair around a pair. */
  lemma UnsettledIsNested(t: string)
    requires !Settled(Parse(t), false)
    ensures Nested(t)
  {
    hide Parse, Settled, Loose, RunsOn, Balanced, Render, NamesAreBraceFree, Bare;
    var tokens := Parse(t);
    UnparseParses(t);
    var p, q := FindPair(tokens);
    var mid := tokens[p + 1..q];
    RenderPair(tokens, p, q, map[]);
    ParseIsLoose(t, |t| + 1);
    LooseAt(tokens, |t| + 1, p);
    TokensFit(tokens);
    var after := tokens[p + 1..];
    assert after[..q - p - 1] == mid && after[q - p - 1] == Lit('}');
    RunHasHole(after, q - p - 1, |t| + 1);
    assert NamesAreBraceFree(mid) by { NamesInside(tokens, p + 1, q); }
    BareIsBalanced(mid);
    var i := |Unparse(tokens[..p])|;
    var j := i + 1 + |Unparse(mid)|;
    PairAt(Unparse(tokens[..p]), Unparse(mid), Unparse(tokens[q + 1..]));
    assert NestedAt(t, i, j);
  }

  lemma NamesInside(tokens: seq<Token>, from: nat, to: nat)
    requires NamesAreBraceFree(tokens) && from <= to <= |tokens|
    ensures NamesAreBraceFree(tokens[from..to])
  {
    assert forall k <- tokens[from..to] :: k in tokens;
  }

  lemma PairAt(a: string, b: string, c: string)
    ensures var t := a + Placeholder(b) + c; var i, j := |a|, |a| + 1 + |b|;
            j < |t| && t[i] == '{' && t[j] == '}' && t[i + 1..j] == b
  {
  }

  /** No brace lies inside a hole. */
  lemma BraceIsPastHole(t: string, name: string, rest: string, i: nat)
    requires t == "{" + name + "}" + rest && BraceFree(name) && 0 < i < |t| && IsBrace(t[i]) && i != |name| + 1
    ensures i >= |name| + 2 && t[i..] == rest[i - |name| - 2..] && t[i] == rest[i - |name| - 2]
  {
    forall k | 1 <= k < |name| + 1
      ensures !IsBrace(t[k])
    {
      assert t[k] == name[k - 1] && name[k - 1] in name;
    }
  }

  /** The parser stands at every brace it does not take into a hole before. */
  lemma {:induction false} ParseReaches(t: string, i: nat) returns (before: seq<Token>)
    requires i < |t| && t[i] == '{'
    ensures Parse(t) == before + Parse(t[i..])
    decreases |t|
  {
    hide Parse, OpensHole, NameLength;
    if i == 0 {
      before := [];
      assert t[0..] == t;
    } else if OpensHole(t) {
      var name, rest := ParseHole(t);
      BraceIsPastHole(t, name, rest, i);
      var more := ParseReaches(rest, i - |name| - 2);
      before := [Hole(name)] + more;
      assert before + Parse(t[i..]) == [Hole(name)] + (more + Parse(t[i..]));
    } else {
      ParseChar(t);
      assert t[1..][i - 1..] == t[i..];
      var more := ParseReaches(t[1..], i - 1);
      before := [Lit(t[0])] + more;
      assert before + Parse(t[i..]) == [Lit(t[0])] + (more + Parse(t[i..]));
    }
  }

  lemma {:induction false} SettledSuffix(a: seq<Token>, b: seq<Token>, open: bool)
    requires Settled(a + b, open)
    ensures Settled(b, false)
  {
    if a == [] {
      assert a + b == b;
      if open {
        SettledCloses(b, 0);
      }
    } else {
      assert (a + b)[1..] == a[1..] + b;
      SettledSuffix(a[1..], b, OpenAfter(a[0], open));
    }
  }

  lemma OpenNameIsUneven(u: string, name: string, depth: nat)
    requires u == "{" + name && BraceFree(name)
    ensures !Balanced(u, depth)
  {
    assert u[1..] == name + "";
    NameIsLevel(name, "", depth + 1);
  }

  /** A closing brace after balanced text is not a hole's, so an open literal brace meets it. */
  lemma {:induction false} OpenMeetsClose(u: string, m: nat, depth: nat)
    requires m < |u| && u[m] == '}' && Balanced(u[..m], depth)
    ensures !Settled(Parse(u), true)
    decreases |u|
  {
    hide Parse, OpensHole, NameLength;
    if OpensHole(u) {
      var name, rest := ParseHole(u);
      assert ([Hole(name)] + Parse(rest))[1..] == Parse(rest);
      if m == |name| + 1 {
        assert u[..m] == "{" + name;
        OpenNameIsUneven(u[..m], name, depth);
      } else {
        BraceIsPastHole(u, name, rest, m);
        var k := m - |name| - 2;
        assert u[..m] == "{" + name + "}" + rest[..k];
        HoleIsLevel(name, rest[..k], depth);
        OpenMeetsClose(rest, k, depth);
      }
    } else {
      ParseChar(u);
      assert ([Lit(u[0])] + Parse(u[1..]))[1..] == Parse(u[1..]);
      if m > 0 && u[0] != '}' {
        assert u[..m][1..] == u[1..][..m - 1] && u[..m][0] == u[0];
        OpenMeetsClose(u[1..], m - 1, if u[0] == '{' then depth + 1 else depth);
      }
    }
  }

  lemma {:induction false} FirstBraceOpens(s: string)
    requires Balanced(s, 0) && '{' in s
    ensures NameLength(s) < |s| && s[NameLength(s)] == '{'
  {
    if s[0] != '{' {
      assert s == [s[0]] + s[1..];
      FirstBraceOpens(s[1..]);
    }
  }

  lemma NestedIsUnsettled(t: string)
    requires Nested(t)
    ensures !Settled(Parse(t), false)
  {
    hide Balanced, Settled;
    hide Parse, NestedAt;
    var i, j :| 0 <= i < j < |t| && NestedAt(t, i, j);
    NestedSuffix(t, i, j);
    var before := ParseReaches(t, i);
    if Settled(Parse(t), false) {
      SettledSuffix(before, Parse(t[i..]), false);
    }
  }

  /** From the outer opening brace on, the template does not settle. */
  lemma NestedSuffix(t: string, i: nat, j: nat)
    requires NestedAt(t, i, j)
    ensures t[i] == '{' && !Settled(Parse(t[i..]), false)
  {
    hide Balanced, Settled, Parse;
    var content, u := t[i + 1..j], t[i + 1..];
    assert t[i..][1..j - i] == content;
    OuterIsLiteral(t[i..], j - i);
    assert t[i..][1..] == u && u[..j - i - 1] == content;
    OpenMeetsClose(u, j - i - 1, 0);
    OpenBefore(Parse(u));
  }

  lemma OpenBefore(tokens: seq<Token>)
    ensures Settled([Lit('{')] + tokens, false) == Settled(tokens, true)
  {
    assert ([Lit('{')] + tokens)[1..] == tokens;
  }

  lemma OuterIsLiteral(s: string, m: nat)
    requires 0 < m < |s| && s[0] == '{' && Balanced(s[1..m], 0) && '{' in s[1..m]
    ensures Parse(s) == [Lit('{')] + Parse(s[1..])
  {
    FirstBraceOpens(s[1..m]);
    var n := NameLength(s[1..m]);
    assert s[1..][..n] == s[1..m][..n] && s[1..][n] == '{';
    SameLength(s[1..], n);
  }

  lemma {:induction false} SameLength(s: string, n: nat)
    requires n < |s| && BraceFree(s[..n]) && IsBrace(s[n])
    ensures NameLength(s) == n
  {
    if n > 0 {
      assert s[0] == s[..n][0] && s[..n][0] in s[..n];
      assert s[1..][..n - 1] == s[..n][1..];
      assert forall c <- s[..n][1..] :: c in s[..n];
      SameLength(s[1..], n - 1);
    }
  }

  /**
   * Replacing one parameter after another is filling every hole of the template at once with the first
   * binding of its name, unless braces are nested: no value is ever taken for a placeholder.
   */
  lemma SequentialIsSimultaneous(t: string, params: seq<Param>)
    requires !Nested(t) && forall p <- params :: BraceFree(p.key)
    ensures Sequentially(t, params) == Render(Parse(t), FirstBindings(params))
  {
    hide Nested, Settled, Parse, Render;
    if !Settled(Parse(t), false) {
      UnsettledIsNested(t);
    }
    UnparseParses(t);
    SettledSequence(Parse(t), params);
  }

  // ----- Order -----

  predicate DistinctKeys(params: seq<Param>) {
    forall i, j | 0 <= i < j < |params| :: params[i].key != params[j].key
  }

  lemma {:induction false} BoundExactly(params: seq<Param>, p: Param)
    requires DistinctKeys(params)
    ensures p in params <==> p.key in FirstBindings(params) && FirstBindings(params)[p.key] == p.value
    ensures p.key in FirstBindings(params) <==> exists q <- params :: q.key == p.key
  {
    if params != [] {
      BoundExactly(params[1..], p);
      assert forall q <- params :: q == params[0] || q in params[1..];
      assert forall q <- params[1..] :: q in params && q.key != params[0].key;
      assert params[0] in params;
    }
  }

  lemma SameBinding(a: seq<Param>, b: seq<Param>, k: string)
    requires DistinctKeys(a) && DistinctKeys(b) && forall p :: p in a <==> p in b
    ensures var ma, mb := FirstBindings(a), FirstBindings(b);
            (k in ma <==> k in mb) && (k in ma ==> k in mb && ma[k] == mb[k])
  {
    hide FirstBindings, DistinctKeys;
    BoundExactly(a, Param(k, ""));
    BoundExactly(b, Param(k, ""));
    if p :| p in a && p.key == k {
      BoundExactly(a, p);
      BoundExactly(b, p);
    }
  }

  /** Without nested braces the order of parameters with distinct keys does not matter. */
  lemma OrderDoesNotMatter(t: string, a: seq<Param>, b: seq<Param>)
    requires !Nested(t) && forall p <- a :: BraceFree(p.key)
    requires DistinctKeys(a) && DistinctKeys(b) && forall p :: p in a <==> p in b
    ensures Sequentially(t, a) == Sequentially(t, b)
  {
    hide Nested, Sequentially, Parse, Render, FirstBindings, DistinctKeys, BraceFree;
    SequentialIsSimultaneous(t, a);
    SequentialIsSimultaneous(t, b);
    forall k: string
      ensures k in FirstBindings(a) <==> k in FirstBindings(b)
      ensures k in FirstBindings(a) ==> FirstBindings(a)[k] == FirstBindings(b)[k]
    {
      SameBinding(a, b, k);
    }
    assert FirstBindings(a) == FirstBindings(b);
  }

  // ----- When the order matters -----

  /** The same parameters, with brace-free keys, no key twice, in another order. */
  ghost predicate Reordered(a: seq<Param>, b: seq<Param>) {
    && DistinctKeys(a) && DistinctKeys(b)
    && (forall p :: p in a <==> p in b)
    && (forall p <- a :: BraceFree(p.key))
  }

  function NamesIn(tokens: seq<Token>): (names: seq<string>)
    ensures forall i, j | 0 <= i < j < |names| :: names[i] != names[j]
    ensures forall name :: name in names <==> Hole(name) in tokens
  {
    if tokens == [] then []
    else
      var rest := NamesIn(tokens[1..]);
      if tokens[0].Hole? && tokens[0].name !in rest then [tokens[0].name] + rest else rest
  }

  function BindAll(names: seq<string>, value: string): (params: seq<Param>)
    ensures |params| == |names| && forall i | 0 <= i < |names| :: params[i] == Param(names[i], value)
  {
    seq(|names|, i requires 0 <= i < |names| => Param(names[i], value))
  }

  function Long(n: nat): (s: string)
    ensures |s| == n && forall c <- s :: c == 'a'
  {
    seq(n, _ => 'a')
  }

  lemma {:induction false} EscapeLong(s: string)
    requires forall c <- s :: c == 'a'
    ensures PathEscape(s) == s
  {
    if s != "" {
      assert s[0] in s && forall c <- s[1..] :: c in s;
      EscapeLong(s[1..]);
      assert s == [s[0]] + s[1..];
    }
  }

  ghost predicate BoundTo(tokens: seq<Token>, bound: map<string, string>, value: string) {
    forall k <- tokens :: k.Hole? ==> k.name in bound && bound[k.name] == value
  }

  /** A bare stretch whose holes are all filled by long text is a brace-free text at least as long as the run. */
  lemma {:induction false} FilledRun(tokens: seq<Token>, q: nat, n: nat, bound: map<string, string>, value: string)
    requires q < |tokens| && tokens[q] == Lit('}') && Bare(tokens[..q]) && RunsOn(tokens, n)
    requires BoundTo(tokens[..q], bound, value) && BraceFree(value) && PathEscape(value) == value && |value| >= n
    ensures BraceFree(Render(tokens[..q], bound)) && |Render(tokens[..q], bound)| >= n
    decreases q
  {
    hide PathEscape;
    if q > 0 {
      var rest := tokens[..q][1..];
      assert tokens[1..][..q - 1] == rest && tokens[0] in tokens[..q];
      assert forall k <- rest :: k in tokens[..q];
      FilledRun(tokens[1..], q - 1, if n == 0 || tokens[0].Hole? then 0 else n - 1, bound, value);
      var head := RenderToken(tokens[0], bound);
      assert BraceFree(head + Render(rest, bound)) by {
        assert forall c <- head + Render(rest, bound) :: c in head || c in Render(rest, bound);
      }
    }
  }

  lemma {:induction false} SequentiallyAppend(t: string, a: seq<Param>, p: Param)
    ensures Sequentially(t, a + [p]) == ReplaceAll(Sequentially(t, a), Placeholder(p.key), PathEscape(p.value))
    decreases a
  {
    hide ReplaceAll, PathEscape;
    if a == [] {
      assert a + [p] == [p] && [p][1..] == [];
    } else {
      assert (a + [p])[1..] == a[1..] + [p] && (a + [p])[0] == a[0];
      SequentiallyAppend(ReplaceAll(t, Placeholder(a[0].key), PathEscape(a[0].value)), a[1..], p);
    }
  }

  lemma {:induction false} RemovingShrinks(s: string, sub: string)
    requires sub != ""
    ensures |ReplaceAll(s, sub, "")| <= |s|
    decreases |s|
  {
    if |s| >= |sub| {
      if s[..|sub|] == sub {
        RemovingShrinks(s[|sub|..], sub);
      } else {
        RemovingShrinks(s[1..], sub);
      }
    }
  }

  lemma {:induction false} RemovingOneShrinks(a: string, sub: string, b: string)
    requires sub != ""
    ensures |ReplaceAll(a + sub + b, sub, "")| < |a + sub + b|
    decreases |a|
  {
    var s := a + sub + b;
    if a == "" {
      assert s == sub + b && s[..|sub|] == sub;
      RemovingShrinks(s[|sub|..], sub);
    } else if s[..|sub|] == sub {
      RemovingShrinks(s[|sub|..], sub);
    } else {
      assert s[1..] == a[1..] + sub + b;
      RemovingOneShrinks(a[1..], sub, b);
    }
  }

  /**
   * Inside nested braces a value completes a placeholder, which a later parameter replaces again and an
   * earlier one does not: some parameters give two URLs in two orders.
   */
  lemma NestedBracesReplaceTwice(t: string) returns (a: seq<Param>, b: seq<Param>)
    requires Nested(t)
    ensures Reordered(a, b) && Sequentially(t, a) != Sequentially(t, b)
  {
    hide Nested, Settled, Parse, Render, Loose, RunsOn, ReplaceAll, PathEscape, Sequentially, Bare, BoundTo, BraceFree,
      NamesAreBraceFree, Reordered, FirstBindings;
    NestedIsUnsettled(t);
    UnparseParses(t);
    var tokens, n := Parse(t), |t| + 1;
    var value := Long(n);
    EscapeLong(value);
    var inner := BindAll(NamesIn(tokens), value);
    InnerBinds(tokens, t, inner, value);
    ParseIsLoose(t, n);
    LooseSequence(tokens, inner, n);
    var bound := FirstBindings(inner);
    var p, q := FindPair(tokens);
    var after := tokens[p + 1..];
    LooseAt(tokens, n, p);
    assert after[..q - p - 1] == tokens[p + 1..q];
    BoundInside(tokens, bound, value, p + 1, q);
    LongIsBraceFree(value);
    FilledRun(after, q - p - 1, n, bound, value);
    var outer := Param(Render(tokens[p + 1..q], bound), "");
    RenderPair(tokens, p, q, bound);
    a, b := inner + [outer], [outer] + inner;
    SequentiallyAppend(t, inner, outer);
    assert PathEscape("") == "" by { EscapeNothing(); }
    RemovingOneShrinks(Render(tokens[..p], bound), Placeholder(outer.key), Render(tokens[q + 1..], bound));
    OuterComesTooSoon(t, outer, inner);
    AddOuter(inner, outer, n);
  }

  lemma EscapeNothing()
    ensures PathEscape("") == ""
  {
  }

  lemma LongIsBraceFree(s: string)
    requires forall c <- s :: c == 'a'
    ensures BraceFree(s)
  {
  }

  lemma OuterComesTooSoon(t: string, outer: Param, inner: seq<Param>)
    requires |t| < |Placeholder(outer.key)|
    ensures Sequentially(t, [outer] + inner) == Sequentially(t, inner)
  {
    assert ([outer] + inner)[1..] == inner;
    assert ReplaceAll(t, Placeholder(outer.key), PathEscape(outer.value)) == t;
  }

  lemma AddOuter(inner: seq<Param>, outer: Param, n: nat)
    requires DistinctKeys(inner) && (forall p <- inner :: BraceFree(p.key) && |p.key| < n)
    requires BraceFree(outer.key) && |outer.key| >= n
    ensures Reordered(inner + [outer], [outer] + inner)
  {
    hide BraceFree;
    var a, b := inner + [outer], [outer] + inner;
    assert forall i | 0 <= i < |inner| :: inner[i] in inner;
    assert forall p <- a :: p in inner || p == outer;
  }

  /** Every name of the template is bound, to the long value. */
  lemma InnerBinds(tokens: seq<Token>, t: string, inner: seq<Param>, value: string)
    requires tokens == Parse(t) && inner == BindAll(NamesIn(tokens), value)
    requires PathEscape(value) == value && |value| > |t|
    ensures DistinctKeys(inner) && BoundTo(tokens, FirstBindings(inner), value)
    ensures forall p <- inner :: BraceFree(p.key) && |p.key| < |t| + 1 <= |PathEscape(p.value)|
  {
    hide Parse, PathEscape, BraceFree, FirstBindings;
    UnparseParses(t);
    TokensFit(tokens);
    var names := NamesIn(tokens);
    forall p <- inner
      ensures BraceFree(p.key) && |p.key| < |t| + 1 <= |PathEscape(p.value)|
    {
      var i :| 0 <= i < |inner| && inner[i] == p;
      assert names[i] in names && Hole(p.key) in tokens;
    }
    forall k <- tokens | k.Hole?
      ensures k.name in FirstBindings(inner) && FirstBindings(inner)[k.name] == value
    {
      assert k == Hole(k.name) && k.name in names;
      var i :| 0 <= i < |names| && names[i] == k.name;
      assert inner[i] == Param(k.name, value) && inner[i] in inner;
      BoundExactly(inner, Param(k.name, value));
    }
  }

  lemma BoundInside(tokens: seq<Token>, bound: map<string, string>, value: string, from: nat, to: nat)
    requires BoundTo(tokens, bound, value) && from <= to <= |tokens|
    ensures BoundTo(tokens[from..to], bound, value)
  {
    assert forall k <- tokens[from..to] :: k in tokens;
  }

  /** All orders of distinct brace-free keys give one URL exactly when no matched pair of braces contains another. */
  lemma OrderDoesNotMatterExactly(t: string)
    ensures (forall a, b | Reordered(a, b) :: Sequentially(t, a) == Sequentially(t, b)) <==> !Nested(t)
  {
    hide Nested, Sequentially;
    if Nested(t) {
      var a, b := NestedBracesReplaceTwice(t);
      assert Reordered(a, b);
    } else {
      forall a, b | Reordered(a, b)
        ensures Sequentially(t, a) == Sequentially(t, b)
      {
        OrderDoesNotMatter(t, a, b);
      }
    }
  }

  // ----- The shape of the URL -----

  /** The characters that end a path segment, the path and the query (RFC 3986, section 3.3). */
  function Delimiters(s: string): string {
    if s == "" then "" else DelimiterAt(s[0]) + Delimiters(s[1..])
  }

  function DelimiterAt(c: char): string {
    if c in "/?#" then [c] else ""
  }

  lemma DelimitersOfNothing()
    ensures Delimiters("") == ""
  {
  }

  lemma DelimitersCons(c: char, s: string)
    ensures Delimiters([c] + s) == DelimiterAt(c) + Delimiters(s)
  {
    assert ([c] + s)[1..] == s;
  }

  lemma {:induction false} DelimitersJoin(a: string, b: string)
    ensures Delimiters(a + b) == Delimiters(a) + Delimiters(b)
  {
    hide Delimiters;
    if a == "" {
      DelimitersOfNothing();
      assert a + b == b;
    } else {
      DelimitersJoin(a[1..], b);
      assert a + b == [a[0]] + (a[1..] + b) && a == [a[0]] + a[1..];
      DelimitersCons(a[0], a[1..] + b);
      DelimitersCons(a[0], a[1..]);
      Regroup(DelimiterAt(a[0]), Delimiters(a[1..]), Delimiters(b));
    }
  }

  lemma {:induction false} NoDelimiters(s: string)
    requires forall c <- s :: Plain(c) || c == '%'
    ensures Delimiters(s) == ""
  {
    if s != "" {
      NoDelimiters(s[1..]);
      assert s[0] in s;
    }
  }

  /** The bindings with every value blank. */
  function Blank(bound: map<string, string>): map<string, string> {
    map k | k in bound :: ""
  }

  lemma {:induction false} RenderAddsNoDelimiter(tokens: seq<Token>, bound: map<string, string>)
    ensures Delimiters(Render(tokens, bound)) == Delimiters(Render(tokens, Blank(bound)))
  {
    hide PathEscape;
    if tokens != [] {
      RenderAddsNoDelimiter(tokens[1..], bound);
      var rest, blank := Render(tokens[1..], bound), Render(tokens[1..], Blank(bound));
      match tokens[0] {
        case Lit(c) =>
          DelimitersJoin([c], rest);
          DelimitersJoin([c], blank);
        case Hole(name) =>
          if name in bound {
            NoDelimiters(PathEscape(bound[name]));
            NoDelimiters(PathEscape(""));
            DelimitersJoin(PathEscape(bound[name]), rest);
            DelimitersJoin(PathEscape(""), blank);
          } else {
            DelimitersJoin("{" + name + "}", rest);
            DelimitersJoin("{" + name + "}", blank);
          }
      }
    }
  }

  /** Whatever the values are, the path has the slashes, question marks and hashes of the template, and no more. */
  lemma ValuesAddNoDelimiter(t: string, params: seq<Param>)
    requires !Nested(t) && forall p <- params :: BraceFree(p.key)
    ensures Delimiters(Sequentially(t, params)) == Delimiters(Render(Parse(t), Blank(FirstBindings(params))))
  {
    SequentialIsSimultaneous(t, params);
    RenderAddsNoDelimiter(Parse(t), FirstBindings(params));
  }

  // ----- The loop -----

  /** The substitution loop of `BuildRequest`. */
  method SubstitutePathParams(target: string, params: seq<Param>) returns (upstream: string)
    ensures upstream == Sequentially(target, params)
    ensures !Nested(target) && (forall p <- params :: BraceFree(p.key)) ==>
              upstream == Render(Parse(target), FirstBindings(params))
  {
    hide ReplaceAll, Parse, Nested;
    upstream := target;
    for i := 0 to |params|
      invariant Sequentially(target, params) == Sequentially(upstream, params[i..])
    {
      assert params[i..][1..] == params[i + 1..];
      upstream := ReplaceAll(upstream, Placeholder(params[i].key), PathEscape(params[i].value));
    }
    if !Nested(target) && forall p <- params :: BraceFree(p.key) {
      SequentialIsSimultaneous(target, params);
    }
  }
}
