/**
 * cli/internal/mcpcfg/toml.go: splicing the managed `[mcp_servers.jentic]` block into a Codex
 * config without touching a byte outside its markers, and reading the entry back.
 */
module CodexToml {
  import opened Prelude
  import opened Text

  const BEGIN_MARKER := "# BEGIN JENTIC MANAGED MCP" + " (do not edit inside;" + " regenerated by Jentic)"
  const END_MARKER := "# END JENTIC MANAGED MCP"
  const TABLE := "[mcp_servers.jentic]"

  datatype Entry = Entry(command: string, args: seq<string>)

  datatype Error = ManualTable | NoEndMarker | DuplicateTable
  datatype Merged = Ok(out: string, changed: bool) | Err(error: Error)

  // ----- Line anchoring -----

  predicate IsBreak(c: char) {
    c == '\n' || c == '\r'
  }

  predicate NoBreak(s: string) {
    forall i | 0 <= i < |s| :: !IsBreak(s[i])
  }

  /** `marker` occurs at `i` and begins a line there. */
  predicate AnchoredAt(s: string, marker: string, i: nat) {
    OccursAt(s, marker, i) && (i == 0 || IsBreak(s[i - 1]))
  }

  /** The first place from `from` on where the marker begins a line. */
  function FirstAnchoredFrom(s: string, marker: string, from: nat): (r: Option<nat>)
    requires from <= |s|
    ensures r.Some? ==>
              && from <= r.value && AnchoredAt(s, marker, r.value)
              && forall i: nat | from <= i < r.value :: !AnchoredAt(s, marker, i)
    ensures r.None? ==> forall i: nat | from <= i :: !AnchoredAt(s, marker, i)
    decreases |s| - from
  {
    if AnchoredAt(s, marker, from) then Some(from)
    else if from == |s| then None
    else FirstAnchoredFrom(s, marker, from + 1)
  }

  function FirstAnchored(s: string, marker: string): (r: Option<nat>)
    ensures r.Some? ==> r.value + |marker| <= |s|
  {
    FirstAnchoredFrom(s, marker, 0)
  }

  /** `lineAnchoredIndex`: plain occurrences one after another until one begins a line. */
  method LineAnchoredIndex(s: string, marker: string) returns (at: Option<nat>)
    requires marker != ""
    ensures at == FirstAnchored(s, marker)
  {
    var from := 0;
    while true
      invariant from <= |s|
      invariant forall i: nat | i < from :: !AnchoredAt(s, marker, i)
      decreases |s| - from
    {
      var i := IndexFrom(s, marker, from);
      if i.None? {
        return None;
      }
      var abs := i.value;
      if abs == 0 || s[abs - 1] == '\n' || s[abs - 1] == '\r' {
        assert AnchoredAt(s, marker, abs);
        return Some(abs);
      }
      from := abs + 1;
    }
  }

  // ----- Quoting -----

  function Escape(s: string): string {
    ReplaceAll(ReplaceAll(s, "\\", "\\\\"), "\"", "\\\"")
  }

  function Unescape(s: string): string {
    ReplaceAll(ReplaceAll(s, "\\\"", "\""), "\\\\", "\\")
  }

  function TomlString(s: string): string {
    "\"" + Escape(s) + "\""
  }

  function UnquoteTomlString(s: string): string {
    if |s| < 2 || s[0] != '"' || s[|s| - 1] != '"' then "" else Unescape(s[1..|s| - 1])
  }

  /** What one character is escaped to. */
  function EscapeChar(c: char): string {
    if c == '\\' then "\\\\" else if c == '"' then "\\\"" else [c]
  }

  function EscapeEach(s: string): string {
    if s == "" then "" else EscapeChar(s[0]) + EscapeEach(s[1..])
  }

  function DoubleBackslashes(s: string): string {
    ReplaceAll(s, "\\", "\\\\")
  }

  lemma DoubleStep(s: string)
    requires s != ""
    ensures DoubleBackslashes(s) == (if s[0] == '\\' then "\\\\" else [s[0]]) + DoubleBackslashes(s[1..])
  {
    assert s[..1] == [s[0]];
  }

  /** The two replacements of the quoting side escape every character on its own. */
  lemma {:induction false} EscapeIsEach(s: string)
    ensures Escape(s) == EscapeEach(s)
    decreases s
  {
    if s != "" {
      var d := DoubleBackslashes(s[1..]);
      EscapeIsEach(s[1..]);
      DoubleStep(s);
      if s[0] == '\\' {
        ReplaceSkips('\\', d, "\"", "\\\"");
        ReplaceSkips('\\', "\\" + d, "\"", "\\\"");
        assert "\\\\" + d == ['\\'] + ("\\" + d) && "\\" + d == ['\\'] + d;
        assert ['\\'] + (['\\'] + ReplaceAll(d, "\"", "\\\"")) == "\\\\" + ReplaceAll(d, "\"", "\\\"");
      } else if s[0] == '"' {
        ReplaceHits(d, "\"", "\\\"");
      } else {
        ReplaceSkips(s[0], d, "\"", "\\\"");
      }
    }
  }

  lemma EscapeEachOpens(s: string)
    ensures s != "" ==> EscapeEach(s) != "" && EscapeEach(s)[0] != '"'
  {
  }

  /** Undoing the quotes first leaves the doubled backslashes. */
  lemma {:induction false} UnquoteFirst(s: string)
    ensures ReplaceAll(EscapeEach(s), "\\\"", "\"") == DoubleBackslashes(s)
    decreases s
  {
    if s != "" {
      var e, rest := EscapeEach(s[1..]), s[1..];
      UnquoteFirst(rest);
      DoubleStep(s);
      if s[0] == '\\' {
        EscapeEachOpens(rest);
        BackslashStays("\\" + e);
        BackslashStays(e);
        assert "\\\\" + e == ['\\'] + ("\\" + e) && "\\" + e == ['\\'] + e;
        assert ['\\'] + (['\\'] + ReplaceAll(e, "\\\"", "\"")) == "\\\\" + ReplaceAll(e, "\\\"", "\"");
      } else if s[0] == '"' {
        ReplaceHits(e, "\\\"", "\"");
      } else {
        ReplaceSkips(s[0], e, "\\\"", "\"");
      }
    }
  }

  lemma BackslashStays(s: string)
    requires s == "" || s[0] != '"'
    ensures ReplaceAll(['\\'] + s, "\\\"", "\"") == ['\\'] + ReplaceAll(s, "\\\"", "\"")
  {
    var t := ['\\'] + s;
    assert t[1..] == s;
    if |t| >= 2 {
      assert t[..2][1] == s[0];
    }
  }

  lemma {:induction false} HalveBackslashes(s: string)
    ensures ReplaceAll(DoubleBackslashes(s), "\\\\", "\\") == s
    decreases s
  {
    if s != "" {
      var d := DoubleBackslashes(s[1..]);
      HalveBackslashes(s[1..]);
      DoubleStep(s);
      assert s == [s[0]] + s[1..];
      if s[0] == '\\' {
        ReplaceHits(d, "\\\\", "\\");
      } else {
        ReplaceSkips(s[0], d, "\\\\", "\\");
      }
    }
  }

  /** The two replacements of the reading side, in the same order, undo the two of the writing side. */
  lemma UnescapeUndoesEscape(s: string)
    ensures Unescape(Escape(s)) == s
  {
    EscapeIsEach(s);
    UnquoteFirst(s);
    HalveBackslashes(s);
  }

  lemma UnquoteUndoesQuote(s: string)
    ensures UnquoteTomlString(TomlString(s)) == s
  {
    var q := TomlString(s);
    assert q[0] == '"' && q[|q| - 1] == '"' && q[1..|q| - 1] == Escape(s);
    UnescapeUndoesEscape(s);
  }

  // ----- The splice -----

  function ArgList(args: seq<string>): string {
    if args == [] then ""
    else if |args| == 1 then TomlString(args[0])
    else ArgList(args[..|args| - 1]) + ", " + TomlString(args[|args| - 1])
  }

  function CommandLine(e: Entry): string {
    "command = " + TomlString(e.command)
  }

  function ArgsLine(e: Entry): string {
    "args = [" + ArgList(e.args) + "]"
  }

  /** The managed block without its closing marker: four lines, each with its terminator. */
  function BlockLines(e: Entry): string {
    (BEGIN_MARKER + "\n") + ((TABLE + "\n") + ((CommandLine(e) + "\n") + (ArgsLine(e) + "\n")))
  }

  function Render(e: Entry): string {
    BlockLines(e) + END_MARKER
  }

  /** `renderCodexBlock`. */
  method RenderCodexBlock(e: Entry) returns (b: string)
    ensures b == Render(e)
  {
    hide BEGIN_MARKER, END_MARKER, TABLE, TomlString;
    b := BEGIN_MARKER + "\n" + TABLE + "\n" + "command = " + TomlString(e.command) + "\n" + "args = [";
    b := AppendArgs(b, e.args);
    Regroup(BEGIN_MARKER, TABLE, "command = ", TomlString(e.command), "args = [", ArgList(e.args), END_MARKER, "\n",
        "]");
    b := b + "]" + "\n" + END_MARKER;
  }

  method AppendArgs(head: string, args: seq<string>) returns (b: string)
    ensures b == head + ArgList(args)
  {
    hide TomlString;
    b := head;
    for i := 0 to |args|
      invariant b == head + ArgList(args[..i])
    {
      assert args[..i + 1][..i] == args[..i];
      if i > 0 {
        b := b + ", ";
      }
      b := b + TomlString(args[i]);
    }
    assert args[..|args|] == args;
  }

  lemma Regroup(m: string, t: string, c: string, q: string, h: string, l: string, z: string, n: string, r: string)
    ensures (m + n) + ((t + n) + (((c + q) + n) + ((h + l + r) + n))) + z
         == m + n + t + n + c + q + n + h + l + r + n + z
  {
  }

  function TrimRightBreaks(s: string): string {
    if s != "" && IsBreak(s[|s| - 1]) then TrimRightBreaks(s[..|s| - 1]) else s
  }

  function TerminatorIfMissing(s: string): string {
    if s != "" && s[|s| - 1] == '\n' then "" else "\n"
  }

  datatype Span = Span(begin: nat, end: nat)

  /** Where the managed block sits: the begin marker's place and the end of the end marker. */
  function Region(content: string): (r: Option<Span>)
    ensures r.Some? ==> r.value.begin <= r.value.end <= |content|
  {
    match FirstAnchored(content, BEGIN_MARKER)
    case None => None
    case Some(begin) =>
      match FirstAnchored(content[begin..], END_MARKER)
      case None => None
      case Some(rel) => Some(Span(begin, begin + rel + |END_MARKER|))
  }

  /** `MergeCodexTOML`. */
  function MergeCodexToml(existing: string, e: Entry): Merged {
    if FirstAnchored(existing, BEGIN_MARKER).None? then
      if FirstAnchored(existing, TABLE).Some? then Err(ManualTable)
      else if TrimRightBreaks(existing) == "" then Ok(Render(e) + "\n", true)
      else Ok(existing + TerminatorIfMissing(existing) + "\n" + Render(e) + "\n", true)
    else
      match Region(existing)
      case None => Err(NoEndMarker)
      case Some(Span(begin, end)) =>
        if FirstAnchored(existing[..begin] + existing[end..], TABLE).Some? then Err(DuplicateTable)
        else
          var next := existing[..begin] + Render(e) + existing[end..];
          if next == existing then Ok(existing, false) else Ok(next, true)
  }

  /** A file without a block gets it at its end, with one empty line before it and its own last line ended. */
  lemma AppendedBlockStandsApart(existing: string, e: Entry)
    requires FirstAnchored(existing, BEGIN_MARKER).None? && FirstAnchored(existing, TABLE).None?
    requires exists c <- existing :: c != '\n' && c != '\r'
    ensures MergeCodexToml(existing, e) ==
            Ok(existing + (if existing[|existing| - 1] == '\n' then "\n" else "\n\n") + Render(e) + "\n", true)
  {
    hide Render, FirstAnchored;
    var c :| c in existing && c != '\n' && c != '\r';
    TrimKeepsText(existing, c);
    if existing[|existing| - 1] == '\n' {
      assert existing + "" + "\n" == existing + "\n";
    } else {
      assert existing + "\n" + "\n" == existing + "\n\n";
    }
  }

  lemma {:induction false} TrimKeepsText(s: string, c: char)
    requires c in s && !IsBreak(c)
    ensures TrimRightBreaks(s) != ""
    decreases s
  {
    var n := |s| - 1;
    assert s == s[..n] + [s[n]];
    if IsBreak(s[n]) {
      TrimKeepsText(s[..n], c);
    }
  }

  /** The block is these six pieces and nothing else. */
  lemma BlockText(e: Entry)
    ensures Render(e) ==
            "# BEGIN JENTIC MANAGED MCP" + " (do not edit inside;" + " regenerated by Jentic)" + "\n" +
            "[mcp_servers.jentic]" + "\n" +
            "command = " + TomlString(e.command) + "\n" +
            "args = [" + ArgList(e.args) + "]" + "\n" +
            "# END JENTIC MANAGED MCP"
  {
    var begin := "# BEGIN JENTIC MANAGED MCP" + " (do not edit inside;" + " regenerated by Jentic)";
    BlockOf(begin, "[mcp_servers.jentic]", "# END JENTIC MANAGED MCP", e);
    hide TomlString, ArgList;
    Regroup(begin, "[mcp_servers.jentic]", "command = ", TomlString(e.command), "args = [", ArgList(e.args),
        "# END JENTIC MANAGED MCP", "\n", "]");
  }

  lemma BlockOf(begin: string, table: string, end: string, e: Entry)
    requires begin == BEGIN_MARKER && table == TABLE && end == END_MARKER
    ensures Render(e) == (begin + "\n") + ((table + "\n") + ((("command = " + TomlString(e.command)) + "\n") +
                         (("args = [" + ArgList(e.args) + "]") + "\n"))) + end
  {
    hide BEGIN_MARKER, TABLE, END_MARKER, TomlString, ArgList;
  }

  /** What a merge splices its block between; the error it refuses with otherwise. */
  datatype Surroundings = Around(before: string, after: string) | Refused(error: Error)

  function SurroundingsOf(existing: string): Surroundings {
    if FirstAnchored(existing, BEGIN_MARKER).None? then
      if FirstAnchored(existing, TABLE).Some? then Refused(ManualTable)
      else if TrimRightBreaks(existing) == "" then Around("", "\n")
      else Around(existing + TerminatorIfMissing(existing) + "\n", "\n")
    else
      match Region(existing)
      case None => Refused(NoEndMarker)
      case Some(Span(begin, end)) =>
        if FirstAnchored(existing[..begin] + existing[end..], TABLE).Some? then Refused(DuplicateTable)
        else Around(existing[..begin], existing[end..])
  }

  predicate NewlineFree(e: Entry) {
    NoBreak(e.command) && forall a <- e.args :: NoBreak(a)
  }

  /** Ends at a line boundary. */
  predicate Complete(s: string) {
    s == "" || IsBreak(s[|s| - 1])
  }

  predicate Free(s: string, marker: string) {
    FirstAnchored(s, marker).None?
  }

  // Anchored occurrences, text by text.

  /** After a complete text, anchored occurrences are those of the two parts. */
  lemma AnchoredSplit(a: string, b: string, marker: string, i: nat)
    requires Complete(a) && NoBreak(marker) && marker != ""
    ensures i < |a| ==> (AnchoredAt(a + b, marker, i) <==> AnchoredAt(a, marker, i))
    ensures i >= |a| ==> (AnchoredAt(a + b, marker, i) <==> AnchoredAt(b, marker, i - |a|))
  {
    var s := a + b;
    if i < |a| {
      if i + |marker| <= |a| {
        assert s[i..i + |marker|] == a[i..i + |marker|];
      } else if i + |marker| <= |s| {
        assert s[i..i + |marker|][|a| - 1 - i] == a[|a| - 1];
      }
    } else if i + |marker| <= |s| {
      assert s[i..i + |marker|] == b[i - |a|..i - |a| + |marker|];
    }
  }

  lemma FirstInSecond(a: string, b: string, marker: string)
    requires Complete(a) && NoBreak(marker) && marker != "" && Free(a, marker)
    ensures FirstAnchored(a + b, marker) ==
            match FirstAnchored(b, marker) case None => None case Some(i) => Some(|a| + i)
  {
    hide FirstAnchoredFrom, AnchoredAt;
    var r := FirstAnchored(b, marker);
    forall i: nat | r.None? || i < |a| + r.value
      ensures !AnchoredAt(a + b, marker, i)
    {
      AnchoredSplit(a, b, marker, i);
    }
    if r.Some? {
      AnchoredSplit(a, b, marker, |a| + r.value);
      FirstAnchoredIs(a + b, marker, |a| + r.value);
    }
  }

  lemma FirstAnchoredIs(s: string, marker: string, at: nat)
    requires AnchoredAt(s, marker, at) && forall i: nat | i < at :: !AnchoredAt(s, marker, i)
    ensures FirstAnchored(s, marker) == Some(at)
  {
    hide FirstAnchoredFrom;
    var r := FirstAnchored(s, marker);
    assert r.Some? && !(r.value < at) && !(at < r.value);
  }

  lemma FreeSplit(a: string, b: string, marker: string)
    requires Complete(a) && NoBreak(marker) && marker != ""
    ensures Free(a + b, marker) <==> Free(a, marker) && Free(b, marker)
  {
    forall i: nat {
      AnchoredSplit(a, b, marker, i);
    }
    if Free(a + b, marker) {
      assert forall i: nat :: AnchoredAt(b, marker, i) ==> AnchoredAt(a + b, marker, |a| + i);
    }
  }

  /** A single line holds a marker only at its start. */
  lemma LineIsFree(line: string, marker: string)
    requires NoBreak(line) && NoBreak(marker) && marker != "" && !(marker <= line)
    ensures Free(line + "\n", marker)
  {
    var s := line + "\n";
    forall i: nat
      ensures !AnchoredAt(s, marker, i)
    {
      if i == 0 && |marker| <= |s| {
        assert |marker| == |s| ==> s[..|marker|][|line|] == '\n';
        assert |marker| <= |line| ==> s[..|marker|] == line[..|marker|];
      }
    }
  }

  lemma MarkerFacts()
    ensures NoBreak(BEGIN_MARKER) && NoBreak(END_MARKER) && NoBreak(TABLE)
    ensures |BEGIN_MARKER| > 2 && |END_MARKER| > 2 && |TABLE| > 2
    ensures BEGIN_MARKER[0] == '#' && END_MARKER[0] == '#' && TABLE[0] == '['
    ensures BEGIN_MARKER[2] == 'B' && END_MARKER[2] == 'E'
  {
    var b := "# BEGIN JENTIC MANAGED MCP";
    assert NoBreak(b) && |b| > 2 && b[0] == '#' && b[2] == 'B';
    JoinedLine(b, " (do not edit inside;", " regenerated by Jentic)");
  }

  lemma NotPrefix(marker: string, line: string, k: nat)
    requires k < |marker| && (k < |line| ==> marker[k] != line[k])
    ensures !(marker <= line)
  {
  }

  lemma {:induction false} EscapedKeepsLine(s: string)
    requires NoBreak(s)
    ensures NoBreak(EscapeEach(s))
    decreases s
  {
    if s != "" {
      EscapedKeepsLine(s[1..]);
    }
  }

  lemma QuotedKeepsLine(s: string)
    requires NoBreak(s)
    ensures NoBreak(TomlString(s))
  {
    EscapeIsEach(s);
    EscapedKeepsLine(s);
  }

  lemma {:induction false} ArgListKeepsLine(args: seq<string>)
    requires forall a <- args :: NoBreak(a)
    ensures NoBreak(ArgList(args))
    decreases args
  {
    hide NoBreak, TomlString;
    EmptyLine();
    if args != [] {
      var n := |args| - 1;
      QuotedKeepsLine(args[n]);
      if n > 0 {
        ArgListKeepsLine(args[..n]);
        JoinedLine(ArgList(args[..n]), ", ", TomlString(args[n]));
      }
    }
  }

  lemma EmptyLine()
    ensures NoBreak("") && NoBreak(", ") && NoBreak("command = ") && NoBreak("args = [") && NoBreak("]")
  {
  }

  lemma JoinedLine(a: string, b: string, c: string)
    requires NoBreak(a) && NoBreak(b) && NoBreak(c)
    ensures NoBreak(a + b + c)
  {
  }

  lemma EntryLines(e: Entry)
    requires NewlineFree(e)
    ensures NoBreak(CommandLine(e)) && CommandLine(e) != "" && CommandLine(e)[0] == 'c'
    ensures NoBreak(ArgsLine(e)) && ArgsLine(e) != "" && ArgsLine(e)[0] == 'a'
  {
    hide NoBreak, TomlString, ArgList;
    QuotedKeepsLine(e.command);
    ArgListKeepsLine(e.args);
    EmptyLine();
    JoinedLine("command = ", TomlString(e.command), "");
    assert "command = " + TomlString(e.command) + "" == CommandLine(e);
    JoinedLine("args = [", ArgList(e.args), "]");
  }

  lemma LineIsComplete(line: string)
    ensures Complete(line + "\n")
  {
  }

  lemma CompleteJoin(a: string, b: string)
    requires Complete(a) && Complete(b)
    ensures Complete(a + b)
  {
    if b == "" {
      assert a + b == a;
    }
  }

  /** The rendered lines hold no end marker, and end where the next line may begin. */
  lemma BlockLinesFacts(e: Entry)
    requires NewlineFree(e)
    ensures Complete(BlockLines(e)) && Free(BlockLines(e), END_MARKER)
  {
    hide BEGIN_MARKER, END_MARKER, TABLE, CommandLine, ArgsLine, NoBreak, Complete, Free;
    MarkerFacts();
    EntryLines(e);
    var c, a := CommandLine(e), ArgsLine(e);
    LineIsComplete(BEGIN_MARKER);
    LineIsComplete(TABLE);
    LineIsComplete(c);
    LineIsComplete(a);
    CompleteJoin(c + "\n", a + "\n");
    CompleteJoin(TABLE + "\n", (c + "\n") + (a + "\n"));
    CompleteJoin(BEGIN_MARKER + "\n", (TABLE + "\n") + ((c + "\n") + (a + "\n")));
    NotPrefix(END_MARKER, BEGIN_MARKER, 2);
    NotPrefix(END_MARKER, TABLE, 0);
    NotPrefix(END_MARKER, c, 0);
    NotPrefix(END_MARKER, a, 0);
    LineIsFree(BEGIN_MARKER, END_MARKER);
    LineIsFree(TABLE, END_MARKER);
    LineIsFree(c, END_MARKER);
    LineIsFree(a, END_MARKER);
    FreeSplit(c + "\n", a + "\n", END_MARKER);
    FreeSplit(TABLE + "\n", (c + "\n") + (a + "\n"), END_MARKER);
    FreeSplit(BEGIN_MARKER + "\n", (TABLE + "\n") + ((c + "\n") + (a + "\n")), END_MARKER);
  }

  lemma OpensAtZero(marker: string, rest: string)
    ensures FirstAnchored(marker + rest, marker) == Some(0)
  {
    assert (marker + rest)[0..0 + |marker|] == marker;
    assert AnchoredAt(marker + rest, marker, 0);
  }

  /** A spliced block is found again where it was put, whatever surrounds it. */
  lemma RegionOfSpliced(before: string, e: Entry, after: string)
    requires Complete(before) && Free(before, BEGIN_MARKER) && NewlineFree(e)
    ensures Region(before + Render(e) + after) == Some(Span(|before|, |before| + |Render(e)|))
  {
    hide BEGIN_MARKER, END_MARKER, TABLE, NoBreak, Complete, CommandLine, ArgsLine, FirstAnchored, NewlineFree;
    MarkerFacts();
    BlockLinesFacts(e);
    var tail := END_MARKER + after;
    var rest := BlockLines(e) + tail;
    var content := before + Render(e) + after;
    assert content == before + rest;
    FirstInSecond(before, rest, BEGIN_MARKER);
    assert rest == BEGIN_MARKER + rest[|BEGIN_MARKER|..];
    OpensAtZero(BEGIN_MARKER, rest[|BEGIN_MARKER|..]);
    assert content[|before|..] == rest;
    FirstInSecond(BlockLines(e), tail, END_MARKER);
    OpensAtZero(END_MARKER, after);
  }

  lemma FreeWithBreak(s: string, marker: string)
    requires NoBreak(marker) && marker != "" && Free(s, marker)
    ensures Free(s + "\n", marker)
  {
    var t := s + "\n";
    forall i: nat
      ensures !AnchoredAt(t, marker, i)
    {
      if i + |marker| == |t| {
        assert t[i..i + |marker|][|marker| - 1] == '\n';
      } else if i + |marker| <= |s| {
        assert t[i..i + |marker|] == s[i..i + |marker|];
        assert !AnchoredAt(s, marker, i);
      }
    }
  }

  lemma SurroundingsFacts(existing: string)
    requires SurroundingsOf(existing).Around?
    ensures
      var (before, after) := (SurroundingsOf(existing).before, SurroundingsOf(existing).after);
      Complete(before) && Free(before, BEGIN_MARKER) && Free(before + after, TABLE)
  {
    hide BEGIN_MARKER, END_MARKER, TABLE, NoBreak, TrimRightBreaks;
    MarkerFacts();
    var before, after := SurroundingsOf(existing).before, SurroundingsOf(existing).after;
    if FirstAnchored(existing, BEGIN_MARKER).None? {
      NothingIsFree(BEGIN_MARKER);
      NothingIsFree(TABLE);
      if before == "" {
        FreeWithBreak("", TABLE);
        assert "" + "\n" == before + after;
      } else {
        var t := existing + TerminatorIfMissing(existing);
        if TerminatorIfMissing(existing) == "" {
          assert t == existing;
        } else {
          FreeWithBreak(existing, BEGIN_MARKER);
          FreeWithBreak(existing, TABLE);
        }
        FreeWithBreak(t, BEGIN_MARKER);
        FreeWithBreak(t, TABLE);
        FreeWithBreak(before, TABLE);
      }
    } else {
      PrefixIsFree(existing, BEGIN_MARKER);
    }
  }

  lemma NothingIsFree(marker: string)
    requires marker != ""
    ensures Free("", marker)
  {
  }

  lemma PrefixIsFree(s: string, marker: string)
    requires FirstAnchored(s, marker).Some? && NoBreak(marker) && marker != ""
    ensures Complete(s[..FirstAnchored(s, marker).value]) && Free(s[..FirstAnchored(s, marker).value], marker)
  {
    var n := FirstAnchored(s, marker).value;
    var p := s[..n];
    forall i: nat
      ensures !AnchoredAt(p, marker, i)
    {
      if i + |marker| <= n {
        assert p[i..i + |marker|] == s[i..i + |marker|];
        assert !AnchoredAt(s, marker, i);
      }
    }
  }

  /** A merge succeeds exactly when the file leaves room for the block, whatever the entry. */
  lemma MergeIsSplice(existing: string, e: Entry)
    ensures
      match SurroundingsOf(existing)
      case Refused(error) => MergeCodexToml(existing, e) == Err(error)
      case Around(before, after) =>
        MergeCodexToml(existing, e) == Ok(before + Render(e) + after, before + Render(e) + after != existing)
  {
    hide FirstAnchored, TrimRightBreaks, CommandLine, ArgsLine, BEGIN_MARKER, END_MARKER, TABLE;
    if FirstAnchored(existing, BEGIN_MARKER).None? && SurroundingsOf(existing).Around? {
      var out := SurroundingsOf(existing).before + Render(e) + SurroundingsOf(existing).after;
      assert out == MergeCodexToml(existing, e).out;
      OpensAtZero(BEGIN_MARKER, out[|BEGIN_MARKER|..]);
      assert TrimRightBreaks(existing) == "" ==> out == BEGIN_MARKER + out[|BEGIN_MARKER|..];
    }
  }

  /** The spliced file leaves room for a block exactly where this one is. */
  lemma SplicedSurroundings(existing: string, e: Entry)
    requires SurroundingsOf(existing).Around? && NewlineFree(e)
    ensures
      var (before, after) := (SurroundingsOf(existing).before, SurroundingsOf(existing).after);
      SurroundingsOf(before + Render(e) + after) == Around(before, after)
  {
    hide Render, FirstAnchored, NoBreak, BEGIN_MARKER, END_MARKER, TABLE;
    var before, after := SurroundingsOf(existing).before, SurroundingsOf(existing).after;
    SurroundingsFacts(existing);
    RegionOfSpliced(before, e, after);
    BackInTheRegion(before, Render(e), after);
  }

  /** Between surroundings that allow it, the region is exactly what was put there. */
  lemma BackInTheRegion(before: string, block: string, after: string)
    requires Free(before + after, TABLE)
    requires Region(before + block + after) == Some(Span(|before|, |before| + |block|))
    ensures SurroundingsOf(before + block + after) == Around(before, after)
  {
    hide FirstAnchored;
    var out := before + block + after;
    assert out[..|before|] == before && out[|before| + |block|..] == after;
  }

  /** Merging the same entry again changes nothing. */
  lemma MergeTwiceIsOnce(existing: string, e: Entry)
    requires NewlineFree(e) && MergeCodexToml(existing, e).Ok?
    ensures
      var out := MergeCodexToml(existing, e).out;
      MergeCodexToml(out, e) == Ok(out, false)
  {
    hide SurroundingsOf, MergeCodexToml, Render;
    MergeIsSplice(existing, e);
    SplicedSurroundings(existing, e);
    MergeIsSplice(MergeCodexToml(existing, e).out, e);
  }

  /**
   * A later entry overrides an earlier one: the file is byte for byte the one it would have been
   * had the later entry been merged first.
   */
  lemma LaterEntryOverrides(existing: string, first: Entry, second: Entry)
    requires NewlineFree(first) && MergeCodexToml(existing, first).Ok?
    ensures MergeCodexToml(existing, second).Ok?
    ensures MergeCodexToml(MergeCodexToml(existing, first).out, second).Ok?
    ensures MergeCodexToml(MergeCodexToml(existing, first).out, second).out == MergeCodexToml(existing, second).out
  {
    hide SurroundingsOf, MergeCodexToml, Render;
    MergeIsSplice(existing, first);
    MergeIsSplice(existing, second);
    SplicedSurroundings(existing, first);
    MergeIsSplice(MergeCodexToml(existing, first).out, second);
  }

  /**
   * Every byte outside the managed region is kept: the region is replaced, or the block is added
   * after the whole file - except that a file of nothing but line breaks is replaced.
   */
  lemma OutsideIsUntouched(existing: string, e: Entry)
    requires MergeCodexToml(existing, e).Ok?
    ensures
      var out := MergeCodexToml(existing, e).out;
      var region := Region(existing);
      if region.Some? then out == existing[..region.value.begin] + Render(e) + existing[region.value.end..]
      else
        || out == existing + "\n" + Render(e) + "\n"
        || out == existing + "\n\n" + Render(e) + "\n"
        || (TrimRightBreaks(existing) == "" && out == Render(e) + "\n")
  {
    hide FirstAnchored, Render, TrimRightBreaks;
    if Region(existing).None? && TrimRightBreaks(existing) != "" {
      var gap := TerminatorIfMissing(existing) + "\n";
      assert gap == "\n" || gap == "\n\n";
      assert existing + TerminatorIfMissing(existing) + "\n" + Render(e) + "\n" == existing + gap + Render(e) + "\n";
    }
  }

  lemma SuffixTable(after: string, i: nat)
    requires Free(after, TABLE)
    ensures !AnchoredAt(END_MARKER + after, TABLE, i)
  {
    hide TABLE, END_MARKER;
    MarkerFacts();
    var s := END_MARKER + after;
    if i + |TABLE| <= |s| {
      if i == 0 {
        assert s[0..|TABLE|][0] == '#';
      } else if i > |END_MARKER| {
        assert s[i..i + |TABLE|] == after[i - |END_MARKER|..i - |END_MARKER| + |TABLE|];
        assert !AnchoredAt(after, TABLE, i - |END_MARKER|);
      }
    }
  }

  lemma LineAnchors(line: string, marker: string, i: nat)
    requires NoBreak(line) && NoBreak(marker) && marker != "" && i > 0
    ensures !AnchoredAt(line + "\n", marker, i)
  {
  }

  /** A successful merge leaves exactly one line that opens the jentic table: the block's second. */
  lemma ExactlyOneTable(existing: string, e: Entry, i: nat)
    requires NewlineFree(e) && MergeCodexToml(existing, e).Ok?
    ensures SurroundingsOf(existing).Around?
    ensures AnchoredAt(MergeCodexToml(existing, e).out, TABLE, i) <==>
            i == |SurroundingsOf(existing).before| + |BEGIN_MARKER| + 1
  {
    hide SurroundingsOf, MergeCodexToml, BEGIN_MARKER, END_MARKER, TABLE, NoBreak, Complete, CommandLine, ArgsLine,
      FirstAnchored, NewlineFree;
    MarkerFacts();
    MergeIsSplice(existing, e);
    SurroundingsFacts(existing);
    EntryLines(e);
    var before, after := SurroundingsOf(existing).before, SurroundingsOf(existing).after;
    FreeSplit(before, after, TABLE);
    var l1, l2, l3, l4 := BEGIN_MARKER + "\n", TABLE + "\n", CommandLine(e) + "\n", ArgsLine(e) + "\n";
    var tail := END_MARKER + after;
    assert before + Render(e) + after == before + (l1 + (l2 + (l3 + (l4 + tail))));
    LineIsComplete(BEGIN_MARKER);
    LineIsComplete(TABLE);
    LineIsComplete(CommandLine(e));
    LineIsComplete(ArgsLine(e));
    NotPrefix(TABLE, BEGIN_MARKER, 0);
    NotPrefix(TABLE, CommandLine(e), 0);
    NotPrefix(TABLE, ArgsLine(e), 0);
    LineIsFree(BEGIN_MARKER, TABLE);
    LineIsFree(CommandLine(e), TABLE);
    LineIsFree(ArgsLine(e), TABLE);
    TableAt(before, l1, l2, l3, l4, tail, after, i);
  }

  /** A complete text without the marker only shifts where it begins a line. */
  lemma ShiftsPast(a: string, b: string, marker: string, i: nat)
    requires Complete(a) && Free(a, marker) && NoBreak(marker) && marker != ""
    ensures AnchoredAt(a + b, marker, i) <==> i >= |a| && AnchoredAt(b, marker, i - |a|)
  {
    hide NoBreak, Complete;
    AnchoredSplit(a, b, marker, i);
    assert i < |a| ==> !AnchoredAt(a, marker, i);
  }

  lemma TableAt(before: string, l1: string, l2: string, l3: string, l4: string, tail: string, after: string, i: nat)
    requires Complete(before) && Complete(l1) && Complete(l2) && Complete(l3) && Complete(l4)
    requires Free(before, TABLE) && Free(l1, TABLE) && l2 == TABLE + "\n" && Free(l3, TABLE) && Free(l4, TABLE)
    requires tail == END_MARKER + after && Free(after, TABLE)
    ensures AnchoredAt(before + (l1 + (l2 + (l3 + (l4 + tail)))), TABLE, i) <==> i == |before| + |l1|
  {
    hide BEGIN_MARKER, END_MARKER, TABLE, NoBreak, Complete, Free, AnchoredAt;
    MarkerFacts();
    var r4, r3 := l4 + tail, l3 + (l4 + tail);
    var r2 := l2 + r3;
    ShiftsPast(before, l1 + r2, TABLE, i);
    if i >= |before| {
      ShiftsPast(l1, r2, TABLE, i - |before|);
      if i >= |before| + |l1| {
        var k := i - |before| - |l1|;
        TableFirst(l2, r3, k);
        if k >= |l2| {
          ShiftsPast(l3, r4, TABLE, k - |l2|);
          if k >= |l2| + |l3| {
            ShiftsPast(l4, tail, TABLE, k - |l2| - |l3|);
            if k >= |l2| + |l3| + |l4| {
              SuffixTable(after, k - |l2| - |l3| - |l4|);
            }
          }
        }
      }
    }
  }

  lemma TableFirst(l2: string, rest: string, k: nat)
    requires l2 == TABLE + "\n" && Complete(l2)
    ensures k < |l2| ==> (AnchoredAt(l2 + rest, TABLE, k) <==> k == 0)
    ensures k >= |l2| ==> (AnchoredAt(l2 + rest, TABLE, k) <==> AnchoredAt(rest, TABLE, k - |l2|))
  {
    hide TABLE, NoBreak, Complete;
    MarkerFacts();
    AnchoredSplit(l2, rest, TABLE, k);
    if k == 0 {
      OpensAtZero(TABLE, "\n");
    } else {
      LineAnchors(TABLE, TABLE, k);
    }
  }

  // ----- Reading the entry back -----

  function FirstBreak(s: string): (i: nat)
    ensures i <= |s| && NoBreak(s[..i]) && (i < |s| ==> IsBreak(s[i]))
  {
    if s == "" || IsBreak(s[0]) then 0 else 1 + FirstBreak(s[1..])
  }

  /** The non-empty lines. */
  function Lines(s: string): seq<string> {
    var i := FirstBreak(s);
    if i == |s| then (if s == "" then [] else [s])
    else (if i == 0 then [] else [s[..i]]) + Lines(s[i + 1..])
  }

  /** A text without a break is one line, unless it is empty. */
  lemma OneLine(s: string)
    requires NoBreak(s)
    ensures Lines(s) == if s == "" then [] else [s]
  {
    assert FirstBreak(s) == |s| && s[..|s|] == s;
  }

  lemma LinesStep(s: string)
    requires FirstBreak(s) < |s|
    ensures
      var i := FirstBreak(s);
      Lines(s) == (if i == 0 then [] else [s[..i]]) + Lines(s[i + 1..])
  {
  }

  lemma {:induction false} FirstBreakAround(a: string, c: char, b: string)
    requires IsBreak(c)
    ensures FirstBreak(a + [c] + b) == FirstBreak(a)
    decreases |a|
  {
    var s := a + [c] + b;
    if a != "" && !IsBreak(a[0]) {
      assert s[1..] == a[1..] + [c] + b;
      FirstBreakAround(a[1..], c, b);
    }
  }

  /** Around any break the lines are those of the two sides. */
  lemma {:induction false} LinesAround(a: string, c: char, b: string)
    requires IsBreak(c)
    ensures Lines(a + [c] + b) == Lines(a) + Lines(b)
    decreases |a|
  {
    hide Lines, FirstBreak, NoBreak;
    var s, i := a + [c] + b, FirstBreak(a);
    FirstBreakAround(a, c, b);
    assert s[..i] == a[..i];
    LinesStep(s);
    if i == |a| {
      assert a[..i] == a && s[i + 1..] == b;
      OneLine(a);
    } else {
      LinesStep(a);
      LinesAround(a[i + 1..], c, b);
      assert s[i + 1..] == a[i + 1..] + [c] + b;
      var first := if i == 0 then [] else [a[..i]];
      assert first + (Lines(a[i + 1..]) + Lines(b)) == first + Lines(a[i + 1..]) + Lines(b);
    }
  }

  /** `strings.Split`. */
  function SplitOn(s: string, sep: string): seq<string>
    requires sep != ""
    decreases |s|
  {
    match IndexFrom(s, sep, 0)
    case None => [s]
    case Some(i) => [s[..i]] + SplitOn(s[i + |sep|..], sep)
  }

  function TrimBracket(s: string): string {
    if s != "" && s[|s| - 1] == ']' then s[..|s| - 1] else s
  }

  function ReadItem(item: string): seq<string> {
    var s := UnquoteTomlString(TrimSpace(item));
    if s == "" then [] else [s]
  }

  function ReadItems(items: seq<string>): seq<string> {
    if items == [] then [] else ReadItems(items[..|items| - 1]) + ReadItem(items[|items| - 1])
  }

  function ReadArgs(v: string): seq<string> {
    ReadItems(SplitOn(TrimBracket(v), ", "))
  }

  function ReadLine(e: Entry, raw: string): Entry {
    var line := TrimSpace(raw);
    var e1 := if "command = " <= line then e.(command := UnquoteTomlString(line[|"command = "|..])) else e;
    if "args = [" <= line then e1.(args := e1.args + ReadArgs(line[|"args = ["|..])) else e1
  }

  function ReadLines(lines: seq<string>): Entry {
    if lines == [] then Entry("", []) else ReadLine(ReadLines(lines[..|lines| - 1]), lines[|lines| - 1])
  }

  function ReadEntry(content: string): Option<Entry> {
    var begin := FirstAnchored(content, BEGIN_MARKER);
    if begin.None? then None
    else
      var rel := FirstAnchored(content[begin.value..], END_MARKER);
      if rel.None? then None
      else
        var e := ReadLines(Lines(content[begin.value..begin.value + rel.value]));
        if e.command == "" then None else Some(e)
  }

  /** `ReadCodexEntry` on the file's contents. */
  method ReadCodexEntry(content: string) returns (entry: Entry, ok: bool)
    ensures ok <==> ReadEntry(content).Some?
    ensures ok ==> ReadEntry(content) == Some(entry)
  {
    hide TrimSpace, UnquoteTomlString, SplitOn, FirstAnchored, Lines;
    MarkerFacts();
    entry, ok := Entry("", []), false;
    var begin := LineAnchoredIndex(content, BEGIN_MARKER);
    if begin.None? {
      return;
    }
    var rel := LineAnchoredIndex(content[begin.value..], END_MARKER);
    if rel.None? {
      return;
    }
    var lines := Lines(content[begin.value..begin.value + rel.value]);
    for i := 0 to |lines|
      invariant entry == ReadLines(lines[..i])
    {
      assert lines[..i + 1][..i] == lines[..i];
      var line := TrimSpace(lines[i]);
      if "command = " <= line {
        entry := entry.(command := UnquoteTomlString(line[|"command = "|..]));
      }
      if "args = [" <= line {
        var args := AppendItems(entry.args, SplitOn(TrimBracket(line[|"args = ["|..]), ", "));
        entry := entry.(args := args);
      }
    }
    assert lines[..|lines|] == lines;
    ok := entry.command != "";
  }

  method AppendItems(before: seq<string>, items: seq<string>) returns (args: seq<string>)
    ensures args == before + ReadItems(items)
  {
    hide TrimSpace, UnquoteTomlString;
    args := before;
    for j := 0 to |items|
      invariant args == before + ReadItems(items[..j])
    {
      assert items[..j + 1][..j] == items[..j];
      var s := UnquoteTomlString(TrimSpace(items[j]));
      if s != "" {
        args := args + [s];
      }
    }
    assert items[..|items|] == items;
  }

  // What a written block reads as.

  lemma LinesCons(line: string, rest: string)
    requires NoBreak(line) && line != ""
    ensures Lines(line + "\n" + rest) == [line] + Lines(rest)
  {
    var s := line + "\n" + rest;
    var i := FirstBreak(s);
    assert forall j | 0 <= j < |line| :: s[j] == line[j];
    assert forall j | 0 <= j < i :: s[j] == s[..i][j];
    assert s[|line|] == '\n';
    assert i == |line| && s[..i] == line && s[i + 1..] == rest;
  }

  lemma TrimNothing(s: string)
    requires s != "" && !IsSpace(s[0]) && !IsSpace(s[|s| - 1])
    ensures TrimSpace(s) == s
  {
  }

  lemma BlockReads(e: Entry)
    requires NewlineFree(e)
    ensures ReadLines(Lines(BlockLines(e))) == Entry(e.command, ReadArgs(ArgList(e.args) + "]"))
  {
    hide TrimSpace, Lines, NoBreak, TomlString, ArgList, ReadArgs, UnquoteTomlString;
    BlockHasFourLines(e);
    EntryLines(e);
    MarkersTrim();
    var c, a := CommandLine(e), ArgsLine(e);
    CommandEnds(e);
    TrimNothing(c);
    TrimNothing(a);
    assert c[|"command = "|..] == TomlString(e.command);
    assert a[|"args = ["|..] == ArgList(e.args) + "]";
    UnquoteUndoesQuote(e.command);
    var none := Entry("", []);
    NotPrefix("args = [", c, 0);
    NotPrefix("command = ", a, 0);
    assert ReadLine(none, BEGIN_MARKER) == none && ReadLine(none, TABLE) == none;
    assert ReadLine(none, c) == Entry(e.command, []);
    assert ReadLine(Entry(e.command, []), a) == Entry(e.command, ReadArgs(ArgList(e.args) + "]"));
    ReadFour(BEGIN_MARKER, TABLE, c, a);
  }

  lemma ReadFour(a: string, b: string, c: string, d: string)
    ensures ReadLines([a, b, c, d]) == ReadLine(ReadLine(ReadLine(ReadLine(Entry("", []), a), b), c), d)
  {
    hide ReadLine;
    var l := [a, b, c, d];
    assert l[..3] == [a, b, c] && l[..3][..2] == [a, b] && l[..3][..2][..1] == [a];
    assert ReadLines([a]) == ReadLine(Entry("", []), a);
    assert ReadLines([a, b]) == ReadLine(ReadLines([a]), b);
    assert ReadLines([a, b, c]) == ReadLine(ReadLines([a, b]), c);
  }

  lemma CommandEnds(e: Entry)
    ensures CommandLine(e) != "" && CommandLine(e)[|CommandLine(e)| - 1] == '"'
    ensures ArgsLine(e) != "" && ArgsLine(e)[|ArgsLine(e)| - 1] == ']'
  {
    hide Escape, ArgList;
  }

  lemma MarkersTrim()
    ensures TrimSpace(BEGIN_MARKER) == BEGIN_MARKER && TrimSpace(TABLE) == TABLE
    ensures !("command = " <= BEGIN_MARKER) && !("args = [" <= BEGIN_MARKER)
    ensures !("command = " <= TABLE) && !("args = [" <= TABLE)
  {
    hide TrimSpace;
    MarkerFacts();
    var z := " regenerated by Jentic)";
    assert z[|z| - 1] == ')' && BEGIN_MARKER[|BEGIN_MARKER| - 1] == z[|z| - 1];
    TrimNothing(BEGIN_MARKER);
    TrimNothing(TABLE);
    NotPrefix("command = ", BEGIN_MARKER, 0);
    NotPrefix("args = [", BEGIN_MARKER, 0);
    NotPrefix("command = ", TABLE, 0);
    NotPrefix("args = [", TABLE, 0);
  }

  lemma BlockHasFourLines(e: Entry)
    requires NewlineFree(e)
    ensures Lines(BlockLines(e)) == [BEGIN_MARKER, TABLE, CommandLine(e), ArgsLine(e)]
  {
    hide BEGIN_MARKER, TABLE, NoBreak, CommandLine, ArgsLine, Lines;
    MarkerFacts();
    EntryLines(e);
    var c, a := CommandLine(e), ArgsLine(e);
    NoLines();
    LinesCons(a, "");
    assert a + "\n" + "" == a + "\n";
    LinesCons(c, a + "\n");
    assert c + "\n" + (a + "\n") == (c + "\n") + (a + "\n");
    LinesCons(TABLE, (c + "\n") + (a + "\n"));
    LinesCons(BEGIN_MARKER, (TABLE + "\n") + ((c + "\n") + (a + "\n")));
  }

  lemma NoLines()
    ensures Lines("") == []
  {
  }

  // Items: how the written argument list falls apart again.

  predicate HasComma(s: string) {
    IndexFrom(s, ", ", 0).Some?
  }

  lemma SplitWhole(s: string)
    requires !HasComma(s)
    ensures SplitOn(s, ", ") == [s]
  {
  }

  /** A text cut at its first separator. */
  lemma SplitFirst(a: string, b: string)
    requires !HasComma(a)
    ensures SplitOn(a + ", " + b, ", ") == [a] + SplitOn(b, ", ")
  {
    var s := a + ", " + b;
    assert s[|a|..|a| + 2] == ", ";
    assert OccursAt(s, ", ", |a|);
    forall i: nat | i < |a|
      ensures !OccursAt(s, ", ", i)
    {
      if i + 2 <= |a| {
        assert s[i..i + 2] == a[i..i + 2];
        assert !OccursAt(a, ", ", i);
      } else {
        assert s[i..i + 2][1] == ',';
      }
    }
    assert IndexFrom(s, ", ", 0) == Some(|a|);
    assert s[..|a|] == a && s[|a| + 2..] == b;
  }

  /** Cutting a text that has a separator: a first piece without one, and the rest. */
  lemma CommaCut(s: string) returns (j: nat)
    requires HasComma(s)
    ensures j + 2 <= |s| && s == s[..j] + ", " + s[j + 2..] && !HasComma(s[..j])
  {
    j := IndexFrom(s, ", ", 0).value;
    var a := s[..j];
    forall i: nat
      ensures !OccursAt(a, ", ", i)
    {
      if i + 2 <= j {
        assert a[i..i + 2] == s[i..i + 2];
        assert !OccursAt(s, ", ", i);
      }
    }
    assert s[j..j + 2] == ", ";
  }

  lemma Regroup3(a: string, b: string, c: string, d: string, e: string)
    ensures a + b + c + d + e == a + b + (c + d + e)
    ensures a + (b + c + d) == a + b + c + d
  {
  }

  lemma {:induction false} SplitJoin(x: string, y: string)
    ensures SplitOn(x + ", " + y, ", ") == SplitOn(x, ", ") + SplitOn(y, ", ")
    decreases |x|
  {
    hide SplitOn;
    if HasComma(x) {
      var j := CommaCut(x);
      hide HasComma;
      var a, b := x[..j], x[j + 2..];
      SplitJoin(b, y);
      Regroup3(a, ", ", b, ", ", y);
      SplitFirst(a, b + ", " + y);
      SplitFirst(a, b);
      Prepend([a], SplitOn(b, ", "), SplitOn(y, ", "));
    } else {
      SplitFirst(x, y);
      SplitWhole(x);
    }
  }

  lemma Prepend(a: seq<string>, b: seq<string>, c: seq<string>)
    ensures a + (b + c) == a + b + c
  {
  }

  lemma {:induction false} ReadItemsConcat(a: seq<string>, b: seq<string>)
    ensures ReadItems(a + b) == ReadItems(a) + ReadItems(b)
    decreases b
  {
    hide ReadItem;
    if b == [] {
      assert a + b == a;
    } else {
      var n := |b| - 1;
      ReadItemsConcat(a, b[..n]);
      assert (a + b)[..|a + b| - 1] == a + b[..n];
    }
  }

  /** What one written argument reads as: nothing, itself, or a wreck. */
  function Contribution(a: string): seq<string> {
    ReadItems(SplitOn(TomlString(a), ", "))
  }

  function Contributions(args: seq<string>): seq<string> {
    if args == [] then [] else Contributions(args[..|args| - 1]) + Contribution(args[|args| - 1])
  }

  lemma {:induction false} ArgListReads(args: seq<string>)
    ensures ReadItems(SplitOn(ArgList(args), ", ")) == Contributions(args)
    decreases args
  {
    hide TomlString, SplitOn, ReadItem;
    if args == [] {
      NothingReads();
    } else {
      var n := |args| - 1;
      ArgListReads(args[..n]);
      if n == 0 {
        assert Contributions(args[..0]) == [];
        assert Contributions(args) == [] + Contribution(args[0]);
      } else {
        SplitJoin(ArgList(args[..n]), TomlString(args[n]));
        ReadItemsConcat(SplitOn(ArgList(args[..n]), ", "), SplitOn(TomlString(args[n]), ", "));
      }
    }
  }

  lemma NothingReads()
    ensures ReadItems(SplitOn("", ", ")) == []
  {
    assert SplitOn("", ", ") == [""];
    assert ReadItems([""]) == ReadItems([]) + ReadItem("");
  }

  lemma ReadsOne(item: string)
    ensures ReadItems([item]) == ReadItem(item)
  {
    assert [item][..0] == [];
    assert ReadItems([item]) == [] + ReadItem(item);
  }

  lemma {:induction false} EscapeConcat(a: string, b: string)
    ensures EscapeEach(a + b) == EscapeEach(a) + EscapeEach(b)
    decreases a
  {
    if a == "" {
      assert a + b == b;
    } else {
      EscapeConcat(a[1..], b);
      assert (a + b)[1..] == a[1..] + b;
    }
  }

  lemma EscapesOne(c: char)
    ensures EscapeEach([c]) == EscapeChar(c)
  {
    hide EscapeChar;
    assert [c][1..] == "";
    assert EscapeEach([c]) == EscapeChar(c) + EscapeEach("");
  }

  lemma EscapeSnoc(s: string)
    requires s != ""
    ensures EscapeEach(s) == EscapeEach(s[..|s| - 1]) + EscapeChar(s[|s| - 1])
  {
    hide EscapeEach, EscapeChar;
    var n := |s| - 1;
    EscapeConcat(s[..n], [s[n]]);
    assert s == s[..n] + [s[n]];
    EscapesOne(s[n]);
  }

  lemma ShiftComma(c: char, t: string)
    ensures HasComma([c] + t) <==> (c == ',' && t != "" && t[0] == ' ') || HasComma(t)
  {
    var s := [c] + t;
    forall i: nat
      ensures i > 0 ==> (OccursAt(s, ", ", i) <==> OccursAt(t, ", ", i - 1))
    {
      if i > 0 && i + 2 <= |s| {
        assert s[i..i + 2] == t[i - 1..i + 1];
      }
    }
    if |s| >= 2 {
      assert s[0..2] == [c, t[0]];
    }
    assert OccursAt(s, ", ", 0) <==> c == ',' && t != "" && t[0] == ' ';
    if HasComma(t) {
      var i := IndexFrom(t, ", ", 0).value;
      assert OccursAt(s, ", ", i + 1);
    }
  }

  lemma ShortHasNoComma(s: string)
    requires |s| < 2
    ensures !HasComma(s)
  {
  }

  lemma EscapeStep(s: string, tail: string)
    requires s != ""
    ensures
      var t := EscapeEach(s[1..]) + tail;
      EscapeEach(s) + tail == if s[0] == '\\' || s[0] == '"' then ['\\'] + ([s[0]] + t) else [s[0]] + t
  {
  }

  lemma {:induction false} EscapedHasComma(s: string, tail: string)
    requires tail == "" || tail == "\""
    ensures HasComma(EscapeEach(s) + tail) <==> HasComma(s)
    decreases s
  {
    hide HasComma, EscapeEach;
    if s == "" {
      EscapesNothing();
      assert EscapeEach(s) + tail == tail;
      ShortHasNoComma(tail);
      ShortHasNoComma("");
    } else {
      var t := EscapeEach(s[1..]) + tail;
      EscapedHasComma(s[1..], tail);
      ShiftComma(s[0], s[1..]);
      assert s == [s[0]] + s[1..];
      EscapedOpens(s[1..], tail);
      EscapeStep(s, tail);
      ShiftComma(s[0], t);
      ShiftComma('\\', [s[0]] + t);
    }
  }

  lemma EscapedOpens(s: string, tail: string)
    requires tail == "" || tail == "\""
    ensures
      var t := EscapeEach(s) + tail;
      (t != "" && t[0] == ' ') <==> (s != "" && s[0] == ' ')
  {
  }

  /** An argument without a comma followed by a space reads as itself - as nothing, when empty. */
  lemma WholeArgReads(a: string)
    requires !HasComma(a)
    ensures Contribution(a) == if a == "" then [] else [a]
  {
    hide SplitOn, ReadItem, UnquoteTomlString;
    EscapeIsEach(a);
    EscapedHasComma(a, "\"");
    ShiftComma('"', EscapeEach(a) + "\"");
    var q := TomlString(a);
    assert q == ['"'] + (EscapeEach(a) + "\"");
    SplitWhole(q);
    ReadsOne(q);
    TrimNothing(q);
    UnquoteUndoesQuote(a);
    ReadItemUnfolds(q);
  }

  lemma ReadItemUnfolds(item: string)
    ensures ReadItem(item) ==
            if UnquoteTomlString(TrimSpace(item)) == "" then [] else [UnquoteTomlString(TrimSpace(item))]
  {
  }

  // An argument that is torn apart.

  lemma {:induction false} TrimEscaped(s: string)
    ensures TrimRight(EscapeEach(s)) == EscapeEach(TrimRight(s))
    decreases |s|
  {
    if s != "" {
      EscapeSnoc(s);
      var n, c := |s| - 1, s[|s| - 1];
      if IsSpace(c) {
        TrimEscaped(s[..n]);
        assert EscapeEach(s)[..|EscapeEach(s)| - 1] == EscapeEach(s[..n]);
      }
    }
  }

  lemma {:induction false} TrimRightAfter(c: char, s: string)
    requires !IsSpace(c)
    ensures TrimRight([c] + s) == [c] + TrimRight(s)
    decreases |s|
  {
    if s == "" {
      assert [c] + s == [c];
    } else if IsSpace(s[|s| - 1]) {
      TrimRightAfter(c, s[..|s| - 1]);
      assert ([c] + s)[..|s|] == [c] + s[..|s| - 1];
    } else {
      assert ([c] + s)[|s|] == s[|s| - 1];
    }
  }

  lemma TrimRightShortens(s: string)
    ensures |TrimRight(s)| <= |s| && (TrimRight(s) != "" ==> !IsSpace(TrimRight(s)[|TrimRight(s)| - 1]))
  {
  }

  /** Undoing the escapes of a text cut after a backslash keeps that backslash. */
  lemma {:induction false} UnescapeCut(s: string)
    ensures Unescape(EscapeEach(s) + "\\") == s + "\\"
    decreases s
  {
    UnquoteFirstCut(s);
    HalveCut(s);
  }

  lemma {:induction false} UnquoteFirstCut(s: string)
    ensures ReplaceAll(EscapeEach(s) + "\\", "\\\"", "\"") == DoubleBackslashes(s) + "\\"
    decreases s
  {
    if s == "" {
      assert EscapeEach(s) + "\\" == "\\" && DoubleBackslashes(s) + "\\" == "\\";
    } else {
      var e, rest := EscapeEach(s[1..]) + "\\", s[1..];
      UnquoteFirstCut(rest);
      DoubleStep(s);
      assert EscapeEach(s) + "\\" == EscapeChar(s[0]) + e;
      if s[0] == '\\' {
        EscapeEachOpens(rest);
        BackslashStays("\\" + e);
        BackslashStays(e);
        assert "\\\\" + e == ['\\'] + ("\\" + e) && "\\" + e == ['\\'] + e;
        assert ['\\'] + (['\\'] + ReplaceAll(e, "\\\"", "\"")) == "\\\\" + ReplaceAll(e, "\\\"", "\"");
      } else if s[0] == '"' {
        ReplaceHits(e, "\\\"", "\"");
      } else {
        ReplaceSkips(s[0], e, "\\\"", "\"");
      }
    }
  }

  lemma {:induction false} HalveCut(s: string)
    ensures ReplaceAll(DoubleBackslashes(s) + "\\", "\\\\", "\\") == s + "\\"
    decreases s
  {
    if s == "" {
      assert DoubleBackslashes(s) + "\\" == "\\";
    } else {
      var d := DoubleBackslashes(s[1..]) + "\\";
      HalveCut(s[1..]);
      DoubleStep(s);
      assert s == [s[0]] + s[1..];
      if s[0] == '\\' {
        assert DoubleBackslashes(s) + "\\" == "\\\\" + d;
        ReplaceHits(d, "\\\\", "\\");
      } else {
        assert DoubleBackslashes(s) + "\\" == [s[0]] + d;
        ReplaceSkips(s[0], d, "\\\\", "\\");
      }
    }
  }

  /** The first piece of a torn argument reads as at most one text, shorter than the argument. */
  lemma FirstPieceReads(b: string)
    ensures |ReadItem("\"" + EscapeEach(b))| <= 1
    ensures forall v <- ReadItem("\"" + EscapeEach(b)) :: |v| <= |b|
  {
    hide UnquoteTomlString;
    var item := "\"" + EscapeEach(b);
    assert TrimLeft(item) == item;
    TrimRightAfter('"', EscapeEach(b));
    assert item == ['"'] + EscapeEach(b);
    TrimEscaped(b);
    TrimRightShortens(b);
    var t := TrimRight(b);
    assert TrimSpace(item) == ['"'] + EscapeEach(t);
    PieceUnquotes(t);
  }

  lemma PieceUnquotes(t: string)
    ensures |UnquoteTomlString(['"'] + EscapeEach(t))| <= |t|
  {
    hide EscapeEach, Unescape;
    var s := ['"'] + EscapeEach(t);
    if t == "" {
      assert EscapeEach("") == "" by { EscapesNothing(); }
    } else {
      EscapeSnoc(t);
      var n := |t| - 1;
      var head, last := EscapeEach(t[..n]), EscapeChar(t[n]);
      assert s == ['"'] + head + last;
      if t[n] == '"' {
        assert s[1..|s| - 1] == head + "\\";
        UnescapeCut(t[..n]);
      } else {
        assert s[|s| - 1] == last[|last| - 1] != '"';
      }
    }
  }

  lemma EscapesNothing()
    ensures EscapeEach("") == ""
  {
  }

  /** A text every quote of which follows a backslash, with at most one bare quote at its end. */
  predicate Guarded(s: string) {
    forall i | 0 <= i < |s| - 1 && s[i] == '"' :: i > 0 && s[i - 1] == '\\'
  }

  lemma {:induction false} EscapedIsGuarded(s: string, tail: string)
    requires tail == "" || tail == "\""
    ensures Guarded(EscapeEach(s) + tail)
    decreases s
  {
    var t := EscapeEach(s) + tail;
    if s != "" {
      EscapedIsGuarded(s[1..], tail);
      var r := EscapeEach(s[1..]) + tail;
      assert t == EscapeChar(s[0]) + r;
      EscapeEachOpens(s[1..]);
      var k := |EscapeChar(s[0])|;
      forall i | 0 <= i < |t| - 1 && t[i] == '"'
        ensures i > 0 && t[i - 1] == '\\'
      {
        if i >= k {
          assert r[i - k] == '"';
        }
      }
    }
  }

  lemma {:induction false} GuardedReadsNothing(s: string)
    requires Guarded(s)
    ensures ReadItem(s) == []
    decreases |s|
  {
    if s != "" && IsSpace(s[0]) {
      assert Guarded(s[1..]) by {
        assert forall i | 0 <= i < |s| - 1 :: s[1..][i] == s[i + 1];
      }
      GuardedReadsNothing(s[1..]);
    } else {
      assert TrimLeft(s) == s;
      TrimRightPrefix(s);
    }
  }

  lemma TrimRightPrefix(s: string)
    ensures TrimRight(s) <= s
  {
  }

  /** The later pieces of a torn argument read as nothing. */
  lemma {:induction false} LaterPiecesReadNothing(b: string)
    ensures ReadItems(SplitOn(EscapeEach(b) + "\"", ", ")) == []
    decreases |b|
  {
    hide ReadItem, SplitOn;
    var s := EscapeEach(b) + "\"";
    if HasComma(b) {
      var j := CommaCut(b);
      var a, rest := b[..j], b[j + 2..];
      EscapedCut(a, rest);
      EscapedHasComma(a, "");
      assert EscapeEach(a) + "" == EscapeEach(a);
      SplitFirst(EscapeEach(a), EscapeEach(rest) + "\"");
      LaterPiecesReadNothing(rest);
      EscapedIsGuarded(a, "");
      GuardedReadsNothing(EscapeEach(a));
      ReadsOne(EscapeEach(a));
      ReadItemsConcat([EscapeEach(a)], SplitOn(EscapeEach(rest) + "\"", ", "));
    } else {
      EscapedHasComma(b, "\"");
      SplitWhole(s);
      EscapedIsGuarded(b, "\"");
      GuardedReadsNothing(s);
      ReadsOne(s);
    }
  }

  lemma EscapedCut(a: string, rest: string)
    ensures EscapeEach(a + ", " + rest) + "\"" == EscapeEach(a) + ", " + (EscapeEach(rest) + "\"")
  {
    hide EscapeEach;
    EscapeConcat(a + ", ", rest);
    EscapeConcat(a, ", ");
    EscapedSeparator();
  }

  lemma EscapedSeparator()
    ensures EscapeEach(", ") == ", "
  {
    assert EscapeEach(" ") == " " by { assert EscapeEach(" ") == " " + EscapeEach(""); }
    assert ", "[1..] == " " && EscapeEach(", ") == "," + EscapeEach(" ");
  }

  /** An argument with a comma followed by a space never reads as itself. */
  lemma TornArgReads(a: string)
    requires HasComma(a)
    ensures |Contribution(a)| <= 1 && forall v <- Contribution(a) :: v != a
  {
    hide ReadItem, SplitOn;
    EscapeIsEach(a);
    var j := CommaCut(a);
    var b, rest := a[..j], a[j + 2..];
    EscapedCut(b, rest);
    var first, later := "\"" + EscapeEach(b), EscapeEach(rest) + "\"";
    assert TomlString(a) == "\"" + (EscapeEach(a) + "\"");
    Regroup3("\"", EscapeEach(b), ", ", later, "");
    assert TomlString(a) == first + ", " + later;
    EscapedHasComma(b, "");
    assert EscapeEach(b) + "" == EscapeEach(b);
    ShiftComma('"', EscapeEach(b));
    assert first == ['"'] + EscapeEach(b);
    SplitFirst(first, later);
    ReadsOne(first);
    ReadItemsConcat([first], SplitOn(later, ", "));
    LaterPiecesReadNothing(rest);
    FirstPieceReads(b);
    assert Contribution(a) == ReadItem(first);
    assert |b| < |a|;
  }

  predicate Readable(a: string) {
    a != "" && !HasComma(a)
  }

  lemma ArgReads(a: string)
    ensures |Contribution(a)| <= 1 && (Contribution(a) == [a] <==> Readable(a))
  {
    hide Contribution;
    if HasComma(a) {
      TornArgReads(a);
      assert a in [a];
    } else {
      WholeArgReads(a);
    }
  }

  lemma {:induction false} ArgsReadBack(args: seq<string>)
    ensures |Contributions(args)| <= |args|
    ensures Contributions(args) == args <==> forall a <- args :: Readable(a)
    decreases args
  {
    hide Contribution, Readable;
    if args != [] {
      var init, last := args[..|args| - 1], args[|args| - 1];
      ArgsReadBack(init);
      ArgReads(last);
      assert args == init + [last];
      if Contributions(args) == args {
        assert |Contributions(init)| == |init| && |Contribution(last)| == 1;
        assert Contributions(args)[..|init|] == Contributions(init) && args[..|init|] == init;
        assert Contributions(args)[|init|..] == Contribution(last) && args[|init|..] == [last];
      }
    }
  }

  /** The argument line, up to its bracket, reads as what each written argument contributes. */
  lemma WrittenArgsRead(args: seq<string>)
    ensures ReadArgs(ArgList(args) + "]") == Contributions(args)
  {
    hide ArgList, SplitOn, ReadItems, Contributions;
    var list := ArgList(args);
    assert TrimBracket(list + "]") == list;
    ArgListReads(args);
  }

  /**
   * What a merge wrote reads back as the same entry exactly when its command and every argument
   * are non-empty and no argument holds a comma followed by a space.
   */
  lemma WrittenEntryReadsBackExactly(existing: string, e: Entry)
    requires NewlineFree(e) && MergeCodexToml(existing, e).Ok?
    ensures ReadEntry(MergeCodexToml(existing, e).out) == Some(e) <==>
            e.command != "" && forall a <- e.args :: Readable(a)
  {
    hide SurroundingsOf, MergeCodexToml, Readable, ReadLines, Lines, BlockLines, FirstAnchored, ArgList, ReadArgs,
      Contributions;
    MergeIsSplice(existing, e);
    SurroundingsFacts(existing);
    var before, after := SurroundingsOf(existing).before, SurroundingsOf(existing).after;
    var out := before + Render(e) + after;
    SplicedParts(before, e, after);
    BlockReads(e);
    WrittenArgsRead(e.args);
    ArgsReadBack(e.args);
  }

  lemma SplicedParts(before: string, e: Entry, after: string)
    requires Complete(before) && Free(before, BEGIN_MARKER) && NewlineFree(e)
    ensures
      var out := before + Render(e) + after;
      && FirstAnchored(out, BEGIN_MARKER) == Some(|before|)
      && FirstAnchored(out[|before|..], END_MARKER) == Some(|BlockLines(e)|)
      && out[|before|..|before| + |BlockLines(e)|] == BlockLines(e)
  {
    hide BEGIN_MARKER, END_MARKER, TABLE, NoBreak, Complete, CommandLine, ArgsLine, FirstAnchored, NewlineFree, Free,
      BlockLines;
    RegionOfSpliced(before, e, after);
    assert before + Render(e) + after == before + (BlockLines(e) + (END_MARKER + after));
  }
}
