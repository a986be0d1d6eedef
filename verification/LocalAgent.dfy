/**
 * cli/internal/localagent/localagent.go: quoting for the teardown scripts, read back by the shell's own
 * rules, and the chain of directories a reset walks.
 */
module LocalAgent {
  import opened Prelude
  import opened Text

  // ----- Quoting -----

  /** `shellQuote`. */
  function ShellQuote(s: string): string {
    "'" + ReplaceAll(s, "'", "'\\''") + "'"
  }

  /** `LeafRevokeCmd`, the Linux script. */
  function LeafRevokeScript(agentUser: string, dir: string): string {
    "setfacl -R -x u:" + ShellQuote(agentUser) + " " + ShellQuote(dir) +
    " && setfacl -R -d -x u:" + ShellQuote(agentUser) + " " + ShellQuote(dir)
  }

  // ----- How a POSIX shell splits a command line -----

  datatype Token = Word(text: string) | AndIf

  /** Characters that stand for themselves outside quotes, wherever they are in a word. */
  predicate Bare(c: char) {
    'a' <= c <= 'z' || 'A' <= c <= 'Z' || '0' <= c <= '9' || c in "-_:/.,+@%"
  }

  function Flush(word: Option<string>): seq<Token> {
    if word.None? then [] else [Word(word.value)]
  }

  function Glue(word: Option<string>, more: string): Option<string> {
    Some(word.GetOr("") + more)
  }

  function Prepend(tokens: seq<Token>, rest: Option<seq<Token>>): Option<seq<Token>> {
    if rest.None? then None else Some(tokens + rest.value)
  }

  /**
   * Token recognition with quote removal, by sections 2.2.1 and 2.2.2 of the POSIX Shell Command Language.
   * `word` is the word being read, if one has begun. An expansion, any operator but `&&`, or a quote
   * that is not closed gives None.
   */
  function Lex(s: string, word: Option<string>): Option<seq<Token>>
    decreases |s|
  {
    if s == "" then Some(Flush(word))
    else if s[0] == ' ' || s[0] == '\t' then Prepend(Flush(word), Lex(s[1..], None))
    else if s[0] == '\'' then LexQuoted(s[1..], word.GetOr(""))
    else if s[0] == '\\' && |s| > 1 then
      if s[1] == '\n' then Lex(s[2..], word) else Lex(s[2..], Glue(word, [s[1]]))
    else if s[0] == '&' && |s| > 1 && s[1] == '&' then Prepend(Flush(word) + [AndIf], Lex(s[2..], None))
    else if Bare(s[0]) then Lex(s[1..], Glue(word, [s[0]]))
    else None
  }

  /** Inside single quotes every character is literal up to the next single quote. */
  function LexQuoted(s: string, word: string): Option<seq<Token>>
    decreases |s|
  {
    if s == "" then None
    else if s[0] == '\'' then Lex(s[1..], Some(word))
    else LexQuoted(s[1..], word + [s[0]])
  }

  function Split(script: string): Option<seq<Token>> {
    Lex(script, None)
  }

  /** Letters, digits and these marks stand for themselves; what the shell treats specially gives no reading. */
  lemma BareExactly(c: char, rest: string, word: Option<string>)
    ensures
      || 'a' <= c <= 'z' || 'A' <= c <= 'Z' || '0' <= c <= '9'
      || c == '-' || c == '_' || c == ':' || c == '/' || c == '.' || c == ',' || c == '+' || c == '@' || c == '%' ==>
        Lex([c] + rest, word) == Lex(rest, Glue(word, [c]))
    ensures
      || c == '$' || c == '`' || c == '"' || c == ';' || c == '|' || c == '<' || c == '>' || c == '(' || c == ')'
      || c == '*' || c == '?' || c == '[' || c == ']' || c == '{' || c == '}' || c == '#' || c == '~' || c == '!'
      || c == '=' || c == '\n' ==>
        Lex([c] + rest, word) == None
    ensures c == '&' && !("&" <= rest) ==> Lex([c] + rest, word) == None
  {
    var s := [c] + rest;
    assert s[1..] == rest;
    assert rest != "" && rest[0] == '&' ==> "&" <= rest;
  }

  // ----- What is quoted is read back -----

  lemma LexQuoteMark(s: string, word: Option<string>)
    ensures Lex("'" + s, word) == LexQuoted(s, word.GetOr(""))
  {
    assert ("'" + s)[1..] == s;
  }

  /** The quote, backslash, quote, quote that a single quote becomes. */
  lemma EscapedQuote(s: string, word: string)
    ensures LexQuoted("'\\''" + s, word) == LexQuoted(s, word + "'")
  {
    hide Bare;
    var t := "'\\''" + s;
    assert t == "'" + ("\\''" + s) && t[1..] == "\\''" + s;
    assert LexQuoted(t, word) == Lex("\\''" + s, Some(word));
    assert ("\\''" + s)[2..] == "'" + s;
    assert Lex("\\''" + s, Some(word)) == Lex("'" + s, Some(word + "'"));
    LexQuoteMark(s, Some(word + "'"));
  }

  lemma {:induction false} QuotedReadsBack(a: string, rest: string, word: string)
    ensures LexQuoted(ReplaceAll(a, "'", "'\\''") + "'" + rest, word) == Lex(rest, Some(word + a))
    decreases |a|
  {
    hide Lex, ReplaceAll;
    if a == "" {
      ReplaceInEmpty();
      assert ReplaceAll(a, "'", "'\\''") + "'" + rest == "'" + rest && ("'" + rest)[1..] == rest;
      assert word + a == word;
    } else {
      var c, tail := a[0], a[1..];
      var more := ReplaceAll(tail, "'", "'\\''");
      assert a == [c] + tail;
      QuotedReadsBack(tail, rest, word + [c]);
      assert word + [c] + tail == word + a;
      if c == '\'' {
        assert [c] == "'";
        ReplaceHits(tail, "'", "'\\''");
        assert "'\\''" + more + "'" + rest == "'\\''" + (more + "'" + rest);
        EscapedQuote(more + "'" + rest, word);
      } else {
        ReplaceSkips(c, tail, "'", "'\\''");
        var t := [c] + more + "'" + rest;
        assert t[1..] == more + "'" + rest && t[0] == c;
      }
    }
  }

  lemma ReplaceInEmpty()
    ensures ReplaceAll("", "'", "'\\''") == ""
  {
  }

  /** A quoted string joins the word before it, whole. */
  lemma QuoteReadsBack(a: string, rest: string, word: Option<string>)
    ensures Lex(ShellQuote(a) + rest, word) == Lex(rest, Glue(word, a))
  {
    hide Lex, LexQuoted, ReplaceAll;
    var quoted := ReplaceAll(a, "'", "'\\''");
    assert ShellQuote(a) + rest == "'" + (quoted + "'" + rest);
    LexQuoteMark(quoted + "'" + rest, word);
    QuotedReadsBack(a, rest, word.GetOr(""));
  }

  lemma {:induction false} BareReadsBack(u: string, rest: string, word: Option<string>)
    requires u != "" && forall c <- u :: Bare(c)
    ensures Lex(u + rest, word) == Lex(rest, Glue(word, u))
    decreases |u|
  {
    hide Bare, LexQuoted;
    BareIsPlain(u[0]);
    assert u[0] in u && (u + rest)[1..] == u[1..] + rest;
    assert Lex(u + rest, word) == Lex(u[1..] + rest, Glue(word, [u[0]]));
    if |u| == 1 {
      assert u[1..] + rest == rest && [u[0]] == u;
    } else {
      assert forall c <- u[1..] :: c in u;
      BareReadsBack(u[1..], rest, Glue(word, [u[0]]));
      assert word.GetOr("") + [u[0]] + u[1..] == word.GetOr("") + u;
    }
  }

  lemma BareIsPlain(c: char)
    ensures Bare(c) ==> c !in " \t'\\&"
  {
  }

  lemma SpaceEndsWord(rest: string, word: Option<string>)
    ensures Lex(" " + rest, word) == Prepend(Flush(word), Lex(rest, None))
  {
    assert (" " + rest)[1..] == rest;
  }

  /** One argument of a script: a bare prefix, which may be empty, with quoted text glued to it. */
  datatype Arg = Arg(prefix: string, text: string)

  function Written(a: Arg): string {
    a.prefix + ShellQuote(a.text)
  }

  function ScriptOf(args: seq<Arg>): string {
    if args == [] then "" else Written(args[0]) + if |args| == 1 then "" else " " + ScriptOf(args[1..])
  }

  function WordsOf(args: seq<Arg>): seq<Token> {
    if args == [] then [] else [Word(args[0].prefix + args[0].text)] + WordsOf(args[1..])
  }

  predicate BarePrefix(a: Arg) {
    forall c <- a.prefix :: Bare(c)
  }

  lemma ArgReadsBack(a: Arg, rest: string)
    requires BarePrefix(a)
    ensures Lex(Written(a) + rest, None) == Lex(rest, Some(a.prefix + a.text))
  {
    hide Lex, LexQuoted, ReplaceAll, Bare, ShellQuote;
    assert Written(a) + rest == a.prefix + (ShellQuote(a.text) + rest);
    if a.prefix == "" {
      assert a.prefix + (ShellQuote(a.text) + rest) == ShellQuote(a.text) + rest;
      QuoteReadsBack(a.text, rest, None);
    } else {
      BareReadsBack(a.prefix, ShellQuote(a.text) + rest, None);
      assert "" + a.prefix == a.prefix;
      QuoteReadsBack(a.text, rest, Some(a.prefix));
    }
    assert "" + a.text == a.text && (a.prefix == "" ==> a.prefix + a.text == a.text);
  }

  /**
   * Whatever the texts are - blanks, quotes, newlines, backslashes, dollar signs - the shell reads back one
   * word for each argument, with the text it was given.
   */
  lemma {:induction false} ScriptSplitsBack(args: seq<Arg>)
    requires forall a <- args :: BarePrefix(a)
    ensures Split(ScriptOf(args)) == Some(WordsOf(args))
    decreases |args|
  {
    hide Lex, LexQuoted, Written, BarePrefix;
    if args == [] {
      EmptyLine(None);
    } else {
      var rest := if |args| == 1 then "" else " " + ScriptOf(args[1..]);
      assert args[0] in args && forall a <- args[1..] :: a in args;
      var word := Some(args[0].prefix + args[0].text);
      ArgReadsBack(args[0], rest);
      assert ScriptOf(args) == Written(args[0]) + rest;
      if |args| == 1 {
        EmptyLine(word);
        assert args[1..] == [] && WordsOf(args) == Flush(word);
      } else {
        SpaceEndsWord(ScriptOf(args[1..]), word);
        ScriptSplitsBack(args[1..]);
      }
    }
  }

  lemma EmptyLine(word: Option<string>)
    ensures Lex("", word) == Some(Flush(word))
  {
  }

  /** Two different texts are never quoted the same way, alone or glued to a prefix. */
  lemma QuotingIsInjective(a: Arg, b: Arg)
    requires BarePrefix(a) && BarePrefix(b) && Written(a) == Written(b)
    ensures a.prefix + a.text == b.prefix + b.text
  {
    hide Lex, LexQuoted, Written, BarePrefix;
    ScriptSplitsBack([a]);
    ScriptSplitsBack([b]);
    assert Written(a) + "" == ScriptOf([a]) && Written(b) + "" == ScriptOf([b]);
    assert WordsOf([a]) == [Word(a.prefix + a.text)] && WordsOf([b]) == [Word(b.prefix + b.text)];
  }

  // ----- The revoke script -----

  /** A word that needs no quotes, and the blank after it. */
  lemma PlainWord(u: string, rest: string)
    requires u != "" && forall c <- u :: Bare(c)
    ensures Lex(u + " " + rest, None) == Prepend([Word(u)], Lex(rest, None))
  {
    hide Lex, Bare;
    assert u + " " + rest == u + (" " + rest);
    BareReadsBack(u, " " + rest, None);
    assert "" + u == u && Glue(None, u) == Some(u);
    SpaceEndsWord(rest, Some(u));
    assert Flush(Some(u)) == [Word(u)];
  }

  lemma AndIfSplits(rest: string, word: string)
    ensures Lex(" && " + rest, Some(word)) == Prepend([Word(word), AndIf], Lex(rest, None))
  {
    hide Bare, LexQuoted;
    var t := "&& " + rest;
    assert " && " + rest == " " + t;
    SpaceEndsWord(t, Some(word));
    AndIfToken(" " + rest);
    assert t == "&&" + (" " + rest);
    SpaceEndsWord(rest, None);
    PrependTwice([Word(word)], [AndIf], Lex(rest, None));
    assert [Word(word)] + [AndIf] == [Word(word), AndIf];
    PrependNothing(Lex(rest, None));
  }

  lemma AndIfToken(rest: string)
    ensures Lex("&&" + rest, None) == Prepend([AndIf], Lex(rest, None))
  {
    hide Bare, LexQuoted;
    var t := "&&" + rest;
    assert t[0] == '&' && t[1] == '&' && t[2..] == rest;
    assert Flush(None) + [AndIf] == [AndIf];
  }

  lemma PrependNothing(rest: Option<seq<Token>>)
    ensures Prepend([], rest) == rest
  {
    if rest.Some? {
      assert [] + rest.value == rest.value;
    }
  }

  lemma PrependTwice(a: seq<Token>, b: seq<Token>, rest: Option<seq<Token>>)
    ensures Prepend(a, Prepend(b, rest)) == Prepend(a + b, rest)
  {
    if rest.Some? {
      assert a + (b + rest.value) == a + b + rest.value;
    }
  }

  /** `setfacl -R [flags] -x u:'user' 'dir'` and what follows it. */
  function RevokeWords(flags: seq<string>, agentUser: string, dir: string): seq<Token> {
    Words(flags) + [Word("u:" + agentUser), Word(dir)]
  }

  function Words(texts: seq<string>): seq<Token> {
    if texts == [] then [] else [Word(texts[0])] + Words(texts[1..])
  }

  function Spaced(texts: seq<string>): string {
    if texts == [] then "" else texts[0] + " " + Spaced(texts[1..])
  }

  lemma {:induction false} SpacedSplits(texts: seq<string>, rest: string)
    requires forall u <- texts :: u != "" && forall c <- u :: Bare(c)
    ensures Lex(Spaced(texts) + rest, None) == Prepend(Words(texts), Lex(rest, None))
    decreases |texts|
  {
    hide Lex, Bare;
    if texts == [] {
      assert Spaced(texts) + rest == rest;
      var r := Lex(rest, None);
      if r.Some? {
        assert [] + r.value == r.value;
      }
    } else {
      assert texts[0] in texts && forall u <- texts[1..] :: u in texts;
      SpacedSplits(texts[1..], rest);
      assert Spaced(texts) + rest == texts[0] + " " + (Spaced(texts[1..]) + rest);
      PlainWord(texts[0], Spaced(texts[1..]) + rest);
      PrependTwice([Word(texts[0])], Words(texts[1..]), Lex(rest, None));
    }
  }

  /** The two quoted arguments at the end of a command, up to whatever follows. */
  lemma OperandsSplit(agentUser: string, dir: string, rest: string)
    ensures Lex("u:" + ShellQuote(agentUser) + " " + ShellQuote(dir) + rest, None) ==
            Prepend([Word("u:" + agentUser)], Lex(rest, Some(dir)))
  {
    hide Lex, Bare, ShellQuote;
    var user := Arg("u:", agentUser);
    assert BarePrefix(user) by { UserPrefixIsBare(); }
    var after := " " + ShellQuote(dir) + rest;
    assert "u:" + ShellQuote(agentUser) + " " + ShellQuote(dir) + rest == Written(user) + after;
    ArgReadsBack(user, after);
    assert after == " " + (ShellQuote(dir) + rest);
    SpaceEndsWord(ShellQuote(dir) + rest, Some("u:" + agentUser));
    QuoteReadsBack(dir, rest, None);
    assert "" + dir == dir;
  }

  lemma UserPrefixIsBare()
    ensures forall c <- "u:" :: Bare(c)
  {
  }

  const REVOKE := ["setfacl", "-R", "-x"]
  const REVOKE_DEFAULT := ["setfacl", "-R", "-d", "-x"]

  lemma FlagsAreBare()
    ensures forall u <- REVOKE + REVOKE_DEFAULT :: u != "" && forall c <- u :: Bare(c)
  {
  }

  lemma SpacedFlags()
    ensures Spaced(REVOKE) == "setfacl -R -x " && Spaced(REVOKE_DEFAULT) == "setfacl -R -d -x "
  {
    assert REVOKE[1..] == ["-R", "-x"] && ["-R", "-x"][1..] == ["-x"] && ["-x"][1..] == [];
    assert Spaced([]) == "" && Spaced(["-x"]) == "-x " && Spaced(["-R", "-x"]) == "-R -x ";
    assert REVOKE_DEFAULT[1..] == ["-R", "-d", "-x"] && ["-R", "-d", "-x"][1..] == ["-d", "-x"] &&
        ["-d", "-x"][1..] == ["-x"];
    assert Spaced(["-d", "-x"]) == "-d -x " && Spaced(["-R", "-d", "-x"]) == "-R -d -x ";
  }

  /** For any account name and any directory the script is exactly the two commands it is meant to be. */
  lemma RevokeScriptSplits(agentUser: string, dir: string)
    ensures Split(LeafRevokeScript(agentUser, dir)) ==
            Some(RevokeWords(REVOKE, agentUser, dir) + [AndIf] + RevokeWords(REVOKE_DEFAULT, agentUser, dir))
  {
    hide Lex, Bare, ShellQuote, Spaced, Words;
    SpacedFlags();
    FlagsAreBare();
    assert forall u <- REVOKE :: u in REVOKE + REVOKE_DEFAULT;
    assert forall u <- REVOKE_DEFAULT :: u in REVOKE + REVOKE_DEFAULT;
    var operands := "u:" + ShellQuote(agentUser) + " " + ShellQuote(dir);
    var second := Spaced(REVOKE_DEFAULT) + operands;
    var script := Spaced(REVOKE) + (operands + (" && " + second));
    ScriptShape(ShellQuote(agentUser), ShellQuote(dir));
    assert LeafRevokeScript(agentUser, dir) == script;
    SpacedSplits(REVOKE, operands + (" && " + second));
    OperandsSplit(agentUser, dir, " && " + second);
    AndIfSplits(second, dir);
    SpacedSplits(REVOKE_DEFAULT, operands);
    OperandsSplit(agentUser, dir, "");
    assert operands + "" == operands;
    EmptyLine(Some(dir));
    var user := Word("u:" + agentUser);
    var later := RevokeWords(REVOKE_DEFAULT, agentUser, dir);
    assert Lex(second, None) == Some(later) by {
      assert Words(REVOKE_DEFAULT) + ([user] + [Word(dir)]) == later;
    }
    assert Words(REVOKE) + ([user] + ([Word(dir), AndIf] + later)) ==
        RevokeWords(REVOKE, agentUser, dir) + [AndIf] + later;
  }

  lemma ScriptShape(user: string, dir: string)
    ensures "setfacl -R -x u:" + user + " " + dir + " && setfacl -R -d -x u:" + user + " " + dir ==
            "setfacl -R -x " + (("u:" + user + " " + dir) +
                (" && " + ("setfacl -R -d -x " + ("u:" + user + " " + dir))))
  {
    assert "setfacl -R -x u:" == "setfacl -R -x " + "u:";
    assert " && setfacl -R -d -x u:" == " && " + "setfacl -R -d -x " + "u:";
  }

  // ----- The chain of ancestors -----

  /** A cleaned absolute path, by components; the root has none. */
  type Path = seq<string>

  /** `filepath.Dir`: the root is its own parent. */
  function Dir(p: Path): Path {
    if p == [] then [] else p[..|p| - 1]
  }

  /** `IsUnderHome`: the prefix test appends a separator, so nothing but the root is under the root. */
  predicate IsUnderHome(home: Path, dir: Path) {
    dir == home || (home != [] && home < dir)
  }

  /** The first `n` prefixes of a path that have at least `lo` components. */
  function PrefixesFrom(p: Path, lo: nat, n: nat): (r: seq<Path>)
    requires lo + n <= |p| + 1
    ensures |r| == n && forall i | 0 <= i < n :: r[i] == p[..lo + i]
  {
    seq(n, i requires 0 <= i < n => p[..lo + i])
  }

  /**
   * `AncestorChain`: home first, then each directory down to the one above the leaf. For the home itself the
   * walk starts above it and never meets it, so the chain is every directory above home, from the root.
   */
  method AncestorChain(home: Path, leaf: Path) returns (chain: seq<Path>)
    ensures leaf != home && !(home != [] && home <= leaf) ==> chain == []
    ensures leaf != home && home != [] && home <= leaf ==> chain == PrefixesFrom(leaf, |home|, |leaf| - |home|)
    ensures leaf == home ==> chain == PrefixesFrom(home, 0, if home == [] then 1 else |home|)
  {
    if !IsUnderHome(home, leaf) {
      return [];
    }
    chain := [];
    var d := Dir(leaf);
    ghost var stop := if leaf == home then 0 else |home|;
    ghost var n := |Dir(leaf)| - stop + 1;
    while true
      invariant stop <= |d| && d == leaf[..|d|] && |chain| == |Dir(leaf)| - |d| && |d| <= |Dir(leaf)|
      invariant forall i | 0 <= i < |chain| :: chain[i] == leaf[..|Dir(leaf)| - i]
      decreases |d|
    {
      chain := chain + [d];
      if d == home || d == Dir(d) {
        break;
      }
      d := Dir(d);
    }
    chain := Reverse(chain);
    assert chain == PrefixesFrom(leaf, stop, n);
  }

  /** The swap loop that ends it. */
  method Reverse(walked: seq<Path>) returns (chain: seq<Path>)
    ensures |chain| == |walked| && forall k | 0 <= k < |chain| :: chain[k] == walked[|walked| - 1 - k]
  {
    chain := walked;
    var i, j := 0, |chain| - 1;
    while i < j
      invariant 0 <= i && j == |walked| - 1 - i && |chain| == |walked| && i <= j + 1
      invariant forall k | i <= k <= j :: chain[k] == walked[k]
      invariant forall k | 0 <= k < |walked| && !(i <= k <= j) :: chain[k] == walked[|walked| - 1 - k]
    {
      chain := chain[i := chain[j]][j := chain[i]];
      i, j := i + 1, j - 1;
    }
  }

  /** The walk begins with home exactly when the leaf is not home itself, or home is the root. */
  lemma ChainStartsAtHomeExactly(home: Path, leaf: Path)
    requires leaf == home || (home != [] && home <= leaf)
    ensures var chain := if leaf == home then PrefixesFrom(home, 0, if home == [] then 1 else |home|)
                         else PrefixesFrom(leaf, |home|, |leaf| - |home|);
            chain != [] && (chain[0] == home <==> leaf != home || home == []) &&
                (home in chain <==> leaf != home || home == [])
  {
    hide PrefixesFrom;
    if leaf == home && home != [] {
      var chain := PrefixesFrom(home, 0, |home|);
      assert forall i | 0 <= i < |chain| :: |chain[i]| == i;
    } else {
      assert leaf[..|home|] == home;
    }
  }
}
