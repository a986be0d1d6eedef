/**
 * cli/internal/install/compose_image.go: pointing the app and broker services of a compose file at an
 * image, one line at a time, everything else left as the operator wrote it.
 */
module ComposeImage {
  import opened Prelude
  import ImageRef
  import Text

  // ----- Runs of characters -----

  /** The length of the longest prefix of such characters. */
  function Span(s: string, of: char -> bool): (n: nat)
    ensures n <= |s| && (forall i | 0 <= i < n :: of(s[i])) && (n < |s| ==> !of(s[n]))
  {
    if s != "" && of(s[0]) then 1 + Span(s[1..], of) else 0
  }

  lemma {:induction false} SpanAtLeast(a: string, b: string, of: char -> bool)
    requires forall c <- a :: of(c)
    ensures Span(a + b, of) == |a| + Span(b, of)
  {
    if a == "" {
      assert a + b == b;
    } else {
      assert a[0] in a && forall c <- a[1..] :: c in a;
      SpanAtLeast(a[1..], b, of);
      assert (a + b)[1..] == a[1..] + b;
    }
  }

  lemma SpanIs(a: string, b: string, of: char -> bool)
    requires (forall c <- a :: of(c)) && (b != "" ==> !of(b[0]))
    ensures Span(a + b, of) == |a|
  {
    SpanAtLeast(a, b, of);
  }

  /** The regular expression's \s. */
  function Space(): char -> bool {
    c => c in " \t\n\r" || c as int == 0x0C
  }

  function Blank(): char -> bool {
    c => c in " \t"
  }

  /** What `[^\s#]` matches. */
  function ValueChar(): char -> bool {
    c => !(c in " \t\n\r" || c as int == 0x0C) && c != '#'
  }

  function NonSpace(): char -> bool {
    c => !(c in " \t\n\r" || c as int == 0x0C)
  }

  /** The classes fit together: a character is a blank, another space, a hash, or part of a value. */
  lemma ClassesPartition(c: char)
    ensures Space()(c) <==> c == ' ' || c == '\t' || c == '\n' || c == '\r' || c == '\U{C}'
    ensures Blank()(c) ==> Space()(c)
    ensures NonSpace()(c) <==> !Space()(c)
    ensures ValueChar()(c) <==> !Space()(c) && c != '#'
  {
  }

  // ----- The line, as the regular expression takes it apart -----

  /** indentation, `image:`, blanks, and the rest, which does not begin with a blank. */
  datatype Keyed = Keyed(indent: string, gap: string, rest: string) {
    function Text(): string {
      indent + "image:" + gap + rest
    }

    predicate Valid() {
      && (forall c <- indent :: Space()(c))
      && (forall c <- gap :: Blank()(c))
      && (rest != "" ==> !Blank()(rest[0]))
    }
  }

  function SplitKey(body: string): (k: Option<Keyed>)
    ensures k.Some? ==> k.value.Valid() && k.value.Text() == body
  {
    var i := Span(body, Space());
    var tail := body[i..];
    if |tail| < 6 || tail[..6] != "image:" then None
    else
      var j := Span(tail[6..], Blank());
      var k := Keyed(body[..i], tail[6..6 + j], tail[6 + j..]);
      KeyAssembles(body, i, j);
      Some(k)
  }

  lemma KeyAssembles(body: string, i: nat, j: nat)
    requires i + 6 + j <= |body| && body[i..][..6] == "image:"
    ensures body == body[..i] + "image:" + body[i..][6..6 + j] + body[i..][6 + j..]
  {
    assert body[i..][..6] == body[i..i + 6];
  }

  lemma CutAt(a: string, b: string)
    ensures (a + b)[..|a|] == a && (a + b)[|a|..] == b
  {
  }

  lemma KeyStarts(gap: string, rest: string)
    ensures !Space()(("image:" + gap + rest)[0]) && "image:" + gap + rest == "image:" + (gap + rest)
  {
  }

  /** The line splits one way only. */
  lemma SplitKeyIs(k: Keyed)
    requires k.Valid()
    ensures SplitKey(k.Text()) == Some(k)
  {
    hide Span, Space, Blank;
    var after := "image:" + k.gap + k.rest;
    KeyStarts(k.gap, k.rest);
    assert k.Text() == k.indent + after;
    SpanIs(k.indent, after, Space());
    CutAt(k.indent, after);
    CutAt("image:", k.gap + k.rest);
    SpanIs(k.gap, k.rest, Blank());
    CutAt(k.gap, k.rest);
    GapBetween(after, k.gap, k.rest);
  }

  lemma GapBetween(after: string, gap: string, rest: string)
    requires after == "image:" + (gap + rest)
    ensures after[6..6 + |gap|] == gap && after[6 + |gap|..] == rest
  {
  }

  /** Where the quote that opens this text closes. */
  function Close(s: string): (at: nat)
    requires s != ""
    ensures 0 < at <= |s| && (forall i | 0 < i < at :: s[i] != s[0]) && (at < |s| ==> s[at] == s[0])
  {
    1 + Span(s[1..], c => c != s[0])
  }

  /** Blanks, then a comment or nothing. */
  predicate Tail(s: string) {
    var n := Span(s, Blank());
    n == |s| || s[n] == '#'
  }

  datatype Match = Match(pre: string, value: string, post: string)

  predicate Quoted(rest: string) {
    rest != "" && rest[0] in "\"'" && Close(rest) < |rest| && Tail(rest[Close(rest) + 1..])
  }

  /** `imageLine.FindStringSubmatch`: a quoted value if the line allows one, else a run without blanks and `#`. */
  function MatchLine(body: string): Option<Match> {
    match SplitKey(body)
    case None => None
    case Some(k) =>
      var pre := k.indent + "image:" + k.gap;
      if Quoted(k.rest) then Some(Match(pre, k.rest[..Close(k.rest) + 1], k.rest[Close(k.rest) + 1..]))
      else
        var n := Span(k.rest, ValueChar());
        if Tail(k.rest[n..]) then Some(Match(pre, k.rest[..n], k.rest[n..])) else None
  }

  // ----- One line rewritten -----

  datatype Line = Line(body: string, eol: string)

  /** `splitEOL`. */
  function SplitEOL(line: string): (l: Line)
    ensures l.body + l.eol == line && l.eol in {"", "\r"}
  {
    if line != "" && line[|line| - 1] == '\r' then Line(line[..|line| - 1], "\r") else Line(line, "")
  }

  function QuoteOf(value: string): string {
    if |value| >= 2 && value[0] in "\"'" then [value[0]] else ""
  }

  function Requoted(value: string, image: string): string {
    QuoteOf(value) + image + QuoteOf(value)
  }

  function RewriteBody(m: Match, image: string): string {
    m.pre + Requoted(m.value, image) + m.post
  }

  function RewriteLine(line: string, image: string): Option<string> {
    var l := SplitEOL(line);
    match MatchLine(l.body)
    case None => None
    case Some(m) => Some(RewriteBody(m, image) + l.eol)
  }

  // ----- The line, as a YAML parser reads it -----

  /** Characters a plain scalar does not begin with. */
  predicate Indicator(c: char) {
    c in "-?:,[]{}#&*!|>'\"%@`"
  }

  /** A comment needs a blank before it. */
  predicate SpacedTail(s: string) {
    Tail(s) && (s == "" || Blank()(s[0]))
  }

  /** The value of an `image:` entry on one line; None for anything this reader does not cover. */
  function ReadScalar(body: string): Option<string> {
    match SplitKey(body)
    case None => None
    case Some(k) =>
      if k.rest == "" || (k.gap != "" && k.rest[0] == '#') then Some("")
      else if k.gap == "" then None
      else if k.rest[0] in "\"'" then
        var at := Close(k.rest);
        if at < |k.rest| && SpacedTail(k.rest[at + 1..]) && '\\' !in k.rest[..at] then Some(k.rest[1..at]) else None
      else if Indicator(k.rest[0]) then None
      else
        var n := Span(k.rest, NonSpace());
        if SpacedTail(k.rest[n..]) then Some(k.rest[..n]) else None
  }

  /** What an image reference is made of. */
  predicate PlainImage(image: string) {
    image != "" && !Indicator(image[0]) && forall c <- image :: NonSpace()(c) && !Text.IsSpace(c) && c !in "#'\"\\"
  }

  /** Any reference of letters, digits and the usual separators is plain, if a letter or digit leads it. */
  lemma ReferenceIsPlain(image: string)
    requires image != "" && IsAlnum(image[0]) && forall c <- image :: IsAlnum(c) || c in "._-/:@"
    ensures PlainImage(image)
  {
  }

  predicate IsAlnum(c: char) {
    'a' <= c <= 'z' || 'A' <= c <= 'Z' || '0' <= c <= '9'
  }

  // ----- A rewritten line reads back -----

  /** Room for a value: a blank after the colon, and no comment glued to where the value ends. */
  predicate HasRoom(m: Match) {
    m.pre != "" && m.pre[|m.pre| - 1] in " \t" && (m.post == "" || m.post[0] in " \t")
  }

  lemma QuotedReads(k: Keyed, image: string, post: string, q: char)
    requires k.Valid() && q in "\"'" && k.rest == [q] + image + [q] + post
    requires PlainImage(image) && Tail(post)
    ensures MatchLine(k.Text()) == Some(Match(k.indent + "image:" + k.gap, [q] + image + [q], post))
    ensures ReadScalar(k.Text()) == Some(image) <==> k.gap != "" && (post == "" || post[0] in " \t")
  {
    hide Tail, SplitKey, Close, Span, PlainImage;
    SplitKeyIs(k);
    ClosesAfter(image, post, q);
    QuotedParts(image, post, q);
    NoBackslash(image, q);
  }

  lemma NoBackslash(image: string, q: char)
    requires PlainImage(image) && q in "\"'"
    ensures '\\' !in [q] + image
  {
  }

  lemma QuotedParts(image: string, post: string, q: char)
    ensures var rest := [q] + image + [q] + post; var at := |image| + 1;
            && |rest| == at + 1 + |post| && rest[0] == q
            && rest[at + 1..] == post && rest[..at + 1] == [q] + image + [q] && rest[1..at] == image &&
                rest[..at] == [q] + image
  {
  }

  lemma ClosesAfter(image: string, post: string, q: char)
    requires q in "\"'" && PlainImage(image)
    ensures Close([q] + image + [q] + post) == |image| + 1
  {
    var rest := [q] + image + [q] + post;
    assert rest[1..] == image + ([q] + post);
    SpanIs(image, [q] + post, c => c != rest[0]);
  }

  lemma PlainStarts(image: string)
    requires PlainImage(image)
    ensures image != "" && image[0] !in " \t\"'#"
    ensures (forall c <- image :: ValueChar()(c)) && forall c <- image :: NonSpace()(c)
  {
    assert image[0] in image;
  }

  lemma PlainMatches(k: Keyed, image: string, post: string)
    requires k.Valid() && k.rest == image + post
    requires PlainImage(image) && Tail(post)
    ensures MatchLine(k.Text()) == Some(Match(k.indent + "image:" + k.gap, image, post))
  {
    hide Tail, SplitKey, Span, PlainImage;
    SplitKeyIs(k);
    PlainStarts(image);
    TailStarts(post);
    SpanIs(image, post, ValueChar());
    assert k.rest[|image|..] == post && k.rest[..|image|] == image;
  }

  lemma PlainReads(k: Keyed, image: string, post: string)
    requires k.Valid() && k.rest == image + post
    requires PlainImage(image) && Tail(post)
    ensures ReadScalar(k.Text()) == Some(image) <==> k.gap != "" && (post == "" || post[0] in " \t")
  {
    hide Tail, SplitKey, Span, MatchLine;
    SplitKeyIs(k);
    PlainStarts(image);
    TailStarts(post);
    if post == "" || post[0] in " \t" {
      SpanIs(image, post, NonSpace());
      assert k.rest[|image|..] == post && k.rest[..|image|] == image;
    } else {
      SpanAtLeast(image, post, NonSpace());
      SpanAtLeast("#", post[1..], NonSpace());
      assert "#" + post[1..] == post;
      var n := Span(k.rest, NonSpace());
      assert n > |image| && |k.rest[..n]| == n;
    }
  }

  lemma TailStarts(s: string)
    requires Tail(s)
    ensures s == "" || s[0] in " \t" || s[0] == '#'
  {
  }

  lemma CutsBack(s: string, n: nat)
    requires n <= |s|
    ensures s[..n] + s[n..] == s
  {
  }

  lemma Regroup(a: string, b: string, c: string)
    ensures a + (b + c) == a + b + c
  {
  }

  lemma MatchShape(body: string)
    requires MatchLine(body).Some?
    ensures SplitKey(body).Some?
    ensures var m := MatchLine(body).value; var k := SplitKey(body).value;
            && k.Valid() && m.pre == k.indent + "image:" + k.gap && Tail(m.post) && m.pre + m.value + m.post == body
  {
    hide Tail, SplitKey, Span, Close;
    var k := SplitKey(body).value;
    var m := MatchLine(body).value;
    assert m.value + m.post == k.rest by {
      if Quoted(k.rest) {
        CutsBack(k.rest, Close(k.rest) + 1);
      } else {
        CutsBack(k.rest, Span(k.rest, ValueChar()));
      }
    }
    Regroup(m.pre, m.value, m.post);
  }

  lemma LastOfGap(indent: string, gap: string)
    ensures var pre := indent + "image:" + gap;
            pre != "" && pre[|pre| - 1] == if gap == "" then ':' else gap[|gap| - 1]
  {
  }

  /**
   * A rewritten line keeps its indentation, quoting, comment and ending, matches again with the image as its
   * value, and a parser reads the image off it exactly when the old line had room for a value.
   */
  lemma RewrittenReadsBackExactly(body: string, image: string)
    requires MatchLine(body).Some? && PlainImage(image)
    ensures var m := MatchLine(body).value;
            && MatchLine(RewriteBody(m, image)) == Some(Match(m.pre, Requoted(m.value, image), m.post))
            && (ReadScalar(RewriteBody(m, image)) == Some(image) <==> HasRoom(m))
  {
    hide MatchLine, ReadScalar, Tail, SplitKey, PlainImage, Keyed.Text;
    MatchShape(body);
    var m, k := MatchLine(body).value, SplitKey(body).value;
    var value := Requoted(m.value, image);
    var next := Keyed(k.indent, k.gap, value + m.post);
    assert RewriteBody(m, image) == next.Text() by {
      Regroup(m.pre, value, m.post);
      KeyedText(next);
    }
    PlainStarts(image);
    RoomIsGap(k, m);
    assert value != "" && next.rest[0] == value[0];
    assert next.Valid();
    if QuoteOf(m.value) == "" {
      assert value == image;
      PlainMatches(next, image, m.post);
      PlainReads(next, image, m.post);
    } else {
      var q := m.value[0];
      assert value == [q] + image + [q];
      QuotedReads(next, image, m.post, q);
    }
  }

  lemma KeyedText(k: Keyed)
    ensures k.Text() == k.indent + "image:" + k.gap + k.rest
  {
  }

  lemma RoomIsGap(k: Keyed, m: Match)
    requires k.Valid() && m.pre == k.indent + "image:" + k.gap
    ensures HasRoom(m) <==> k.gap != "" && (m.post == "" || m.post[0] in " \t")
  {
    LastOfGap(k.indent, k.gap);
    assert k.gap != "" ==> k.gap[|k.gap| - 1] in k.gap;
  }

  /** A value whose quotes, if any, are a pair around it can be replaced over and over. */
  lemma RequotedTwice(value: string, first: string, second: string)
    requires PlainImage(first)
    ensures Requoted(Requoted(value, first), second) == Requoted(value, second)
  {
    assert first[0] in first;
  }

  // ----- The file -----

  const SERVICES := ["app", "broker"]

  /**
   * Where the parser finds a service's image. A service without its own image, an alias and a block scalar
   * are refused. `other` is the value when it is not written plainly on the line.
   */
  datatype Shape = Inherited | Alias | Block | OnLine(line: int, other: string)

  type Layout = map<string, Shape>

  predicate LineExists(n: int, lines: seq<string>) {
    1 <= n <= |lines|
  }

  /** The parsed value. */
  function ValueOf(shape: Shape, lines: seq<string>): string
    requires shape.OnLine?
  {
    if LineExists(shape.line, lines) && ReadScalar(SplitEOL(lines[shape.line - 1]).body).Some?
    then ReadScalar(SplitEOL(lines[shape.line - 1]).body).value
    else shape.other
  }

  function Lines(raw: string): (lines: seq<string>)
    ensures lines != []
  {
    Text.SplitAt(raw, '\n')
  }

  function Join(lines: seq<string>): string {
    if lines == [] then "" else lines[0] + if |lines| == 1 then "" else "\n" + Join(lines[1..])
  }

  datatype Step = Refused | Kept(lines: seq<string>) | Moved(lines: seq<string>)

  /** One service: `parsed` are the lines the parser saw. */
  function SetOne(parsed: seq<string>, lines: seq<string>, layout: Layout, service: string, image: string): Step {
    if service !in layout then Kept(lines)
    else if !layout[service].OnLine? then Refused
    else if Text.TrimSpace(ValueOf(layout[service], parsed)) == image then Kept(lines)
    else if !LineExists(layout[service].line, lines) then Refused
    else
      var i := layout[service].line - 1;
      match RewriteLine(lines[i], image)
      case None => Refused
      case Some(line) => Moved(lines[i := line])
  }

  function SetAll(parsed: seq<string>, layout: Layout, image: string): Step {
    match SetOne(parsed, parsed, layout, SERVICES[0], image)
    case Refused => Refused
    case Kept(lines) => SetOne(parsed, lines, layout, SERVICES[1], image)
    case Moved(lines) =>
      match SetOne(parsed, lines, layout, SERVICES[1], image)
      case Refused => Refused
      case Kept(after) => Moved(after)
      case Moved(after) => Moved(after)
  }

  datatype SetResult = Failed | Done(changed: bool)

  /** The compose file on disk. */
  class ComposeFile {
    var raw: string

    constructor (contents: string)
      ensures raw == contents
    {
      raw := contents;
    }

    /** `setComposeAppImage`: a failure on either service, and a dry run, write nothing. */
    method SetImage(layout: Layout, image: string, dryRun: bool) returns (r: SetResult)
      modifies this
      ensures var step := SetAll(Lines(old(raw)), layout, image);
              && (r == Failed <==> step.Refused?)
              && (r.Done? ==> (r.changed <==> step.Moved? && !dryRun))
              && raw == if step.Moved? && !dryRun then Join(step.lines) else old(raw)
    {
      hide RewriteLine, Join, ValueOf, Text.TrimSpace, LineExists, Lines;
      var parsed := Lines(raw);
      var lines := new string[|parsed|](i requires 0 <= i < |parsed| => parsed[i]);
      var changed := false;
      assert lines[..] == parsed;
      for s := 0 to |SERVICES|
        invariant raw == old(raw)
        invariant lines.Length == |parsed|
        invariant s == 0 ==> !changed && lines[..] == parsed
        invariant s == 1 ==> SetOne(parsed, parsed, layout, SERVICES[0], image) ==
                             if changed then Moved(lines[..]) else Kept(lines[..])
        invariant s == 2 ==> SetAll(parsed, layout, image) == if changed then Moved(lines[..]) else Kept(lines[..])
      {
        var service := SERVICES[s];
        if service in layout {
          var shape := layout[service];
          if !shape.OnLine? {
            return Failed;
          }
          if Text.TrimSpace(ValueOf(shape, parsed)) != image {
            var written := SetImageOnLine(lines, shape.line, image);
            if !written {
              return Failed;
            }
            changed := true;
          }
        }
      }
      if !changed || dryRun {
        return Done(false);
      }
      raw := Join(lines[..]);
      return Done(true);
    }
  }

  lemma Regrouped(pre: string, quote: string, image: string, post: string)
    ensures pre + quote + image + quote + post == pre + (quote + image + quote) + post
  {
  }

  /** `setImageOnLine`: one element of the slice, in place. */
  method SetImageOnLine(lines: array<string>, line: int, image: string) returns (written: bool)
    modifies lines
    ensures written <==> LineExists(line, old(lines[..])) && RewriteLine(old(lines[..])[line - 1], image).Some?
    ensures lines[..] == if written then old(lines[..])[line - 1 := RewriteLine(old(lines[..])[line - 1], image).value]
                         else old(lines[..])
  {
    hide MatchLine, SplitEOL;
    if line < 1 || line > lines.Length {
      return false;
    }
    var i := line - 1;
    var split := SplitEOL(lines[i]);
    var m := MatchLine(split.body);
    if m.None? {
      return false;
    }
    var quote := "";
    if |m.value.value| >= 2 && m.value.value[0] in "\"'" {
      quote := m.value.value[..1];
    }
    lines[i] := m.value.pre + quote + image + quote + m.value.post + split.eol;
    ghost var was := old(lines[..]);
    assert quote == QuoteOf(m.value.value);
    Regrouped(m.value.pre, quote, image, m.value.post);
    assert RewriteLine(was[i], image) == Some(lines[i]);
    assert lines[..] == was[i := lines[i]];
    return true;
  }

  // ----- The file goes apart and together again -----

  lemma {:induction false} SplitHead(s: string)
    ensures (s == "" ==> Lines(s) == [""]) && (s != "" && s[0] == '\n' ==> Lines(s) == [""] + Lines(s[1..]))
    ensures s != "" && s[0] != '\n' ==> Lines(s) == [[s[0]] + Lines(s[1..])[0]] + Lines(s[1..])[1..]
  {
  }

  /** What is split on line feeds and joined again is the same bytes. */
  lemma {:induction false} JoinUndoesLines(raw: string)
    ensures Join(Lines(raw)) == raw
  {
    SplitHead(raw);
    if raw != "" {
      JoinUndoesLines(raw[1..]);
      var rest := Lines(raw[1..]);
      if raw[0] == '\n' {
        assert ([""] + rest)[1..] == rest;
        assert raw == "\n" + raw[1..];
      } else {
        var all := [[raw[0]] + rest[0]] + rest[1..];
        assert all[1..] == rest[1..] && |all| == |rest|;
        assert raw == [raw[0]] + raw[1..];
        JoinHead(rest[0], rest[1..]);
        JoinHead([raw[0]] + rest[0], rest[1..]);
        assert [rest[0]] + rest[1..] == rest;
        if rest[1..] != [] {
          assert [raw[0]] + rest[0] + ("\n" + Join(rest[1..])) == [raw[0]] + (rest[0] + ("\n" + Join(rest[1..])));
        }
      }
    }
  }

  lemma JoinHead(head: string, rest: seq<string>)
    ensures Join([head] + rest) == head + if rest == [] then "" else "\n" + Join(rest)
  {
    assert ([head] + rest)[1..] == rest;
  }

  lemma {:induction false} LinesOfJoined(head: string, tail: string)
    requires '\n' !in head
    ensures Lines(head + "\n" + tail) == [head] + Lines(tail) && Lines(head) == [head]
  {
    SplitHead(head + "\n" + tail);
    SplitHead(head);
    if head == "" {
      assert (head + "\n" + tail)[1..] == tail;
    } else {
      assert head[0] in head && forall c <- head[1..] :: c in head;
      LinesOfJoined(head[1..], tail);
      assert (head + "\n" + tail)[1..] == head[1..] + "\n" + tail;
      assert [head[0]] + head[1..] == head;
    }
  }

  lemma {:induction false} LinesUndoesJoin(lines: seq<string>)
    requires lines != [] && forall line <- lines :: '\n' !in line
    ensures Lines(Join(lines)) == lines
  {
    assert lines[0] in lines;
    if |lines| == 1 {
      LinesOfJoined(lines[0], "");
      assert lines[0] + "" == lines[0];
    } else {
      assert forall line <- lines[1..] :: line in lines;
      LinesUndoesJoin(lines[1..]);
      LinesOfJoined(lines[0], Join(lines[1..]));
      assert lines[0] + ("\n" + Join(lines[1..])) == lines[0] + "\n" + Join(lines[1..]);
      assert [lines[0]] + lines[1..] == lines;
    }
  }

  lemma {:induction false} LinesHaveNoBreak(raw: string)
    ensures forall line <- Lines(raw) :: '\n' !in line
  {
    SplitHead(raw);
    if raw != "" {
      LinesHaveNoBreak(raw[1..]);
      var rest := Lines(raw[1..]);
      assert rest[0] in rest && forall line <- rest[1..] :: line in rest;
    }
  }

  // ----- One line, again and again -----

  lemma RewrittenSplits(line: string, image: string)
    requires RewriteLine(line, image).Some? && PlainImage(image)
    ensures var l := SplitEOL(line); var m := MatchLine(l.body).value;
            SplitEOL(RewriteLine(line, image).value) == Line(RewriteBody(m, image), l.eol)
  {
    hide MatchLine, PlainImage, Requoted, RewriteBody;
    var l := SplitEOL(line);
    var m := MatchLine(l.body).value;
    var body := RewriteBody(m, image);
    LastOfImage(image);
    MatchShape(l.body);
    if l.eol == "" {
      EndsAlike(m, image, l.body);
      assert body + "" == body;
    } else {
      CutAt(body, "\r");
    }
  }

  lemma LastOfImage(image: string)
    requires PlainImage(image)
    ensures image != "" && image[|image| - 1] != '\r' && '\n' !in image && image[0] !in "\"'"
  {
    assert image[|image| - 1] in image && image[0] in image;
  }

  /** With nothing after the value the line ends in the image or its quote, else as it did before. */
  lemma EndsAlike(m: Match, image: string, body: string)
    requires image != "" && image[|image| - 1] != '\r'
    requires m.pre + m.value + m.post == body && (body == "" || body[|body| - 1] != '\r')
    ensures var b := RewriteBody(m, image); b == "" || b[|b| - 1] != '\r'
  {
    var b := RewriteBody(m, image);
    if m.post != "" {
      assert b[|b| - 1] == m.post[|m.post| - 1] == body[|body| - 1];
    } else {
      assert b == m.pre + Requoted(m.value, image);
      var q := QuoteOf(m.value);
      assert b[|b| - 1] == Requoted(m.value, image)[|Requoted(m.value, image)| - 1];
    }
  }

  /** The later image wins, whatever the line held in between. */
  lemma RewriteTwice(line: string, first: string, second: string)
    requires RewriteLine(line, first).Some? && PlainImage(first) && PlainImage(second)
    ensures RewriteLine(RewriteLine(line, first).value, second) == RewriteLine(line, second)
  {
    hide MatchLine, PlainImage, SplitEOL, ReadScalar;
    var l := SplitEOL(line);
    RewrittenSplits(line, first);
    RewrittenReadsBackExactly(l.body, first);
    RequotedTwice(MatchLine(l.body).value.value, first, second);
  }

  /** A line as the template renders it: a plain image, perhaps in quotes, with room around it. */
  predicate Tidy(line: string) {
    var body := SplitEOL(line).body;
    && MatchLine(body).Some? && ReadScalar(body).Some?
    && var m := MatchLine(body).value; var v := ReadScalar(body).value;
       HasRoom(m) && PlainImage(v) && m.value == Requoted(m.value, v)
  }

  lemma TidyIsKept(line: string, image: string)
    requires Tidy(line) && PlainImage(image)
    ensures RewriteLine(line, image).Some? && Tidy(RewriteLine(line, image).value)
    ensures ReadScalar(SplitEOL(RewriteLine(line, image).value).body) == Some(image)
    ensures ReadScalar(SplitEOL(line).body) == Some(image) ==> RewriteLine(line, image) == Some(line)
  {
    hide MatchLine, PlainImage, SplitEOL, ReadScalar;
    var l := SplitEOL(line);
    var m := MatchLine(l.body).value;
    RewrittenSplits(line, image);
    RewrittenReadsBackExactly(l.body, image);
    RequotedTwice(m.value, image, image);
    MatchShape(l.body);
    if ReadScalar(l.body) == Some(image) {
      assert RewriteBody(m, image) == l.body;
    }
  }

  // ----- The whole move -----

  /** The lines a move leaves; a refused move leaves them as they were. */
  function After(lines: seq<string>, layout: Layout, image: string): seq<string> {
    match SetAll(lines, layout, image)
    case Refused => lines
    case Kept(after) => after
    case Moved(after) => after
  }

  /** The line of the app's image or of the broker's. */
  predicate IsServiceLine(layout: Layout, i: int) {
    || ("app" in layout && layout["app"].OnLine? && layout["app"].line == i + 1)
    || ("broker" in layout && layout["broker"].OnLine? && layout["broker"].line == i + 1)
  }

  /** What a move is meant to make of the file: the services' lines rewritten, every other line as it is. */
  function Target(lines: seq<string>, layout: Layout, image: string): (r: seq<string>)
    ensures |r| == |lines|
    ensures forall i | 0 <= i < |lines| :: r[i] == TargetLine(lines[i], IsServiceLine(layout, i), image)
  {
    seq(|lines|, i requires 0 <= i < |lines| => TargetLine(lines[i], IsServiceLine(layout, i), image))
  }

  function TargetLine(line: string, ours: bool, image: string): string {
    if ours && RewriteLine(line, image).Some? then RewriteLine(line, image).value else line
  }

  /** Whatever the file is, a move changes no line that is not a service's image line, and adds or drops none. */
  lemma OtherLinesAreUntouched(parsed: seq<string>, layout: Layout, image: string)
    requires !SetAll(parsed, layout, image).Refused?
    ensures var after := SetAll(parsed, layout, image).lines;
            |after| == |parsed| && forall i | 0 <= i < |parsed| && !IsServiceLine(layout, i) :: after[i] == parsed[i]
  {
    hide RewriteLine, ValueOf;
    assert SERVICES[0] in SERVICES && SERVICES[1] in SERVICES;
  }

  predicate TidyServices(layout: Layout, lines: seq<string>) {
    forall s <- SERVICES :: s in layout ==>
      layout[s].OnLine? && LineExists(layout[s].line, lines) && Tidy(lines[layout[s].line - 1])
  }

  lemma TidyValue(shape: Shape, lines: seq<string>)
    requires shape.OnLine? && LineExists(shape.line, lines) && Tidy(lines[shape.line - 1])
    ensures var v := ReadScalar(SplitEOL(lines[shape.line - 1]).body);
            v.Some? && ValueOf(shape, lines) == v.value && PlainImage(v.value) && Text.TrimSpace(v.value) == v.value
  {
    hide MatchLine, ReadScalar, SplitEOL;
    var v := ReadScalar(SplitEOL(lines[shape.line - 1]).body).value;
    PlainHasNoSpace(v);
  }

  lemma PlainHasNoSpace(v: string)
    requires PlainImage(v)
    ensures Text.TrimSpace(v) == v
  {
    Text.NothingToTrim(v);
  }

  /** One service of a tidy file: its line is the rewritten one, whether or not it had to be touched. */
  lemma SetOneTidy(parsed: seq<string>, lines: seq<string>, layout: Layout, service: string, image: string)
    requires service in SERVICES && TidyServices(layout, parsed) && PlainImage(image) && |lines| == |parsed|
    requires forall i | 0 <= i < |parsed| :: lines[i] == parsed[i] || RewriteLine(parsed[i], image) == Some(lines[i])
    ensures var step := SetOne(parsed, lines, layout, service, image);
            && !step.Refused?
            && (service in layout ==>
                  var i := layout[service].line - 1; step.lines == lines[i := RewriteLine(parsed[i], image).GetOr("")])
            && (service !in layout ==> step == Kept(lines))
            && (step.Kept? <==> service !in layout || ValueOf(layout[service], parsed) == image)
  {
    hide RewriteLine, Tidy, ValueOf, PlainImage, ReadScalar;
    if service in layout {
      var i := layout[service].line - 1;
      TidyValue(layout[service], parsed);
      TidyIsKept(parsed[i], image);
      if lines[i] != parsed[i] {
        RewriteTwice(parsed[i], image, image);
      }
    }
  }

  /** The services' lines rewritten one after the other. */
  function Rewritten(parsed: seq<string>, lines: seq<string>, layout: Layout, service: string, image: string)
    : seq<string>
    requires TidyServices(layout, parsed) && service in SERVICES && |lines| == |parsed|
  {
    if service !in layout then lines
    else var i := layout[service].line - 1; lines[i := RewriteLine(parsed[i], image).GetOr("")]
  }

  lemma BothRewritten(parsed: seq<string>, layout: Layout, image: string)
    requires TidyServices(layout, parsed) && PlainImage(image)
    ensures Rewritten(parsed, Rewritten(parsed, parsed, layout, SERVICES[0], image), layout, SERVICES[1], image) ==
            Target(parsed, layout, image)
  {
    hide RewriteLine, Tidy, PlainImage, Target;
    var app, broker := SERVICES[0], SERVICES[1];
    assert forall s <- SERVICES :: s == app || s == broker;
    forall s <- SERVICES | s in layout
      ensures RewriteLine(parsed[layout[s].line - 1], image).Some?
    {
      TidyIsKept(parsed[layout[s].line - 1], image);
    }
    var after := Rewritten(parsed, Rewritten(parsed, parsed, layout, app, image), layout, broker, image);
    forall i | 0 <= i < |parsed|
      ensures after[i] == TargetLine(parsed[i], IsServiceLine(layout, i), image)
    {
    }
    assert after == Target(parsed, layout, image);
  }

  /**
   * On a tidy file the move is never refused, and its outcome is the target; nothing moves only if nothing would
   * change.
   */
  lemma MoveHitsTarget(parsed: seq<string>, layout: Layout, image: string)
    requires TidyServices(layout, parsed) && PlainImage(image)
    ensures var step := SetAll(parsed, layout, image); !step.Refused? && step.lines == Target(parsed, layout, image)
    ensures SetAll(parsed, layout, image).Kept? <==>
            forall s <- SERVICES :: s in layout ==> ValueOf(layout[s], parsed) == image
  {
    hide RewriteLine, Tidy, ValueOf, PlainImage, SetOne, Target, IsServiceLine;
    var app, broker := SERVICES[0], SERVICES[1];
    assert app in SERVICES && broker in SERVICES && forall s <- SERVICES :: s == app || s == broker;
    SetOneTidy(parsed, parsed, layout, app, image);
    var mid := SetOne(parsed, parsed, layout, app, image).lines;
    forall s <- SERVICES | s in layout
      ensures RewriteLine(parsed[layout[s].line - 1], image).Some?
    {
      TidyIsKept(parsed[layout[s].line - 1], image);
    }
    SetOneTidy(parsed, mid, layout, broker, image);
    BothRewritten(parsed, layout, image);
  }

  lemma TargetAt(lines: seq<string>, layout: Layout, image: string, service: string)
    requires TidyServices(layout, lines) && PlainImage(image) && service in SERVICES && service in layout
    ensures var i := layout[service].line - 1; var after := Target(lines, layout, image);
            && layout[service].OnLine? && 0 <= i < |after| == |lines|
            && Tidy(after[i]) && ReadScalar(SplitEOL(after[i]).body) == Some(image)
  {
    hide RewriteLine, Tidy, PlainImage, Target, ReadScalar, SplitEOL;
    var i := layout[service].line - 1;
    assert IsServiceLine(layout, i);
    TidyIsKept(lines[i], image);
  }

  lemma TargetIsTidy(lines: seq<string>, layout: Layout, image: string)
    requires TidyServices(layout, lines) && PlainImage(image)
    ensures TidyServices(layout, Target(lines, layout, image))
    ensures forall s <- SERVICES :: s in layout ==> ValueOf(layout[s], Target(lines, layout, image)) == image
  {
    hide Tidy, PlainImage, Target, ReadScalar, SplitEOL, TidyServices;
    var after := Target(lines, layout, image);
    forall s <- SERVICES | s in layout
      ensures layout[s].OnLine? && LineExists(layout[s].line, after) && Tidy(after[layout[s].line - 1])
      ensures ValueOf(layout[s], after) == image
    {
      TargetAt(lines, layout, image, s);
    }
    assert TidyServices(layout, after) by { TidyAll(layout, after); }
  }

  lemma TidyAll(layout: Layout, lines: seq<string>)
    requires forall s <- SERVICES | s in layout ::
               layout[s].OnLine? && LineExists(layout[s].line, lines) && Tidy(lines[layout[s].line - 1])
    ensures TidyServices(layout, lines)
  {
    hide Tidy;
  }

  /** After a move both services run exactly that image, and the same move again changes nothing. */
  lemma MoveReadsBackAndSettles(lines: seq<string>, layout: Layout, image: string)
    requires TidyServices(layout, lines) && PlainImage(image)
    ensures var after := After(lines, layout, image);
            && ("app" in layout ==> ValueOf(layout["app"], after) == image)
            && ("broker" in layout ==> ValueOf(layout["broker"], after) == image)
            && SetAll(after, layout, image) == Kept(after)
  {
    hide SetAll, Target, TidyServices, ValueOf, PlainImage, TargetLine;
    MoveHitsTarget(lines, layout, image);
    TargetIsTidy(lines, layout, image);
    var after := Target(lines, layout, image);
    MoveHitsTarget(after, layout, image);
    TargetTwice(lines, layout, image, image);
    assert "app" in SERVICES && "broker" in SERVICES;
  }

  lemma TargetTwice(lines: seq<string>, layout: Layout, first: string, second: string)
    requires TidyServices(layout, lines) && PlainImage(first) && PlainImage(second)
    ensures Target(Target(lines, layout, first), layout, second) == Target(lines, layout, second)
  {
    hide PlainImage, Target, TargetLine, TidyServices, IsServiceLine;
    var mid := Target(lines, layout, first);
    forall i | 0 <= i < |lines|
      ensures TargetLine(mid[i], IsServiceLine(layout, i), second) ==
          TargetLine(lines[i], IsServiceLine(layout, i), second)
    {
      TargetLineTwice(lines, layout, i, first, second);
    }
    assert Target(mid, layout, second) == Target(lines, layout, second);
  }

  lemma TargetLineTwice(lines: seq<string>, layout: Layout, i: nat, first: string, second: string)
    requires TidyServices(layout, lines) && PlainImage(first) && PlainImage(second) && i < |lines|
    ensures var ours := IsServiceLine(layout, i);
            TargetLine(TargetLine(lines[i], ours, first), ours, second) == TargetLine(lines[i], ours, second)
  {
    hide RewriteLine, Tidy, PlainImage, IsServiceLine, TidyServices;
    if IsServiceLine(layout, i) {
      ServiceLineIsTidy(lines, layout, i);
      TidyIsKept(lines[i], first);
      TidyIsKept(lines[i], second);
      RewriteTwice(lines[i], first, second);
    }
  }

  lemma ServiceLineIsTidy(lines: seq<string>, layout: Layout, i: nat)
    requires TidyServices(layout, lines) && IsServiceLine(layout, i) && i < |lines|
    ensures Tidy(lines[i])
  {
    hide Tidy;
  }

  /** A later move overrides an earlier one, as if the earlier one had never been made. */
  lemma LaterMoveWins(lines: seq<string>, layout: Layout, first: string, second: string)
    requires TidyServices(layout, lines) && PlainImage(first) && PlainImage(second)
    ensures After(After(lines, layout, first), layout, second) == After(lines, layout, second)
  {
    hide SetAll, Target, TidyServices, ValueOf, PlainImage, TargetLine;
    MoveHitsTarget(lines, layout, first);
    MoveHitsTarget(lines, layout, second);
    TargetIsTidy(lines, layout, first);
    MoveHitsTarget(Target(lines, layout, first), layout, second);
    TargetTwice(lines, layout, first, second);
  }

  lemma RewrittenHasNoBreak(line: string, image: string)
    requires RewriteLine(line, image).Some? && '\n' !in line && PlainImage(image)
    ensures '\n' !in RewriteLine(line, image).value
  {
    hide MatchLine, PlainImage;
    var l := SplitEOL(line);
    var m := MatchLine(l.body).value;
    MatchShape(l.body);
    LastOfImage(image);
    assert line == m.pre + m.value + m.post + l.eol;
    NoBreakIn(m.pre, m.value, m.post, l.eol);
    assert '\n' !in QuoteOf(m.value);
    NoBreakIn(m.pre, Requoted(m.value, image), m.post, l.eol);
  }

  lemma NoBreakIn(a: string, b: string, c: string, d: string)
    ensures '\n' !in a + b + c + d <==> '\n' !in a && '\n' !in b && '\n' !in c && '\n' !in d
  {
    var all := a + b + c + d;
    assert '\n' in a ==> '\n' in all;
    assert '\n' in b ==> '\n' in all;
    assert '\n' in c ==> '\n' in all;
    assert '\n' in d ==> '\n' in all;
  }

  /** The bytes written are the target's lines: read back, the file is that and nothing else. */
  lemma WrittenFileIsTheTarget(raw: string, layout: Layout, image: string)
    requires TidyServices(layout, Lines(raw)) && PlainImage(image)
    ensures var step := SetAll(Lines(raw), layout, image);
            Lines(if step.Moved? then Join(step.lines) else raw) == Target(Lines(raw), layout, image)
  {
    hide SetAll, Target, TidyServices, PlainImage, RewriteLine, Join, Lines, IsServiceLine;
    var lines := Lines(raw);
    MoveHitsTarget(lines, layout, image);
    var after := Target(lines, layout, image);
    LinesHaveNoBreak(raw);
    forall i | 0 <= i < |lines|
      ensures '\n' !in after[i]
    {
      assert lines[i] in lines;
      if RewriteLine(lines[i], image).Some? {
        RewrittenHasNoBreak(lines[i], image);
      }
    }
    LinesUndoesJoin(after);
    if SetAll(lines, layout, image).Kept? {
      KeptIsUnchanged(lines, layout, image);
    }
  }

  lemma KeptIsUnchanged(lines: seq<string>, layout: Layout, image: string)
    requires SetAll(lines, layout, image).Kept?
    ensures SetAll(lines, layout, image).lines == lines
  {
    hide RewriteLine, ValueOf;
  }

  // ----- Moving a stack to a release -----

  lemma TagIsPlain(c: char)
    requires ImageRef.TagChar(c) || c == ':'
    ensures NonSpace()(c) && !Text.IsSpace(c) && c !in "#'\"\\"
  {
  }

  lemma SwappedIsPlain(ref: string, version: string)
    requires PlainImage(ref) && ImageRef.SwapImageTag(ref, version).Swapped?
    ensures PlainImage(ImageRef.SwapImageTag(ref, version).ref)
  {
    hide ImageRef.ReleaseTag, ImageRef.TagChar, Text.IsSpace, Indicator;
    var repo, tag := ImageRef.SplitImageRef(ref).repo, ImageRef.ReleaseTag(version);
    ImageRef.BeforeIsPrefix(ref, {'@'});
    ImageRef.ReleaseTagIsATag(version);
    var image := repo + ":" + tag;
    assert repo <= ref && image[0] == repo[0] == ref[0];
    forall c | c in image
      ensures NonSpace()(c) && !Text.IsSpace(c) && c !in "#'\"\\"
    {
      if c in repo {
        assert c in ref;
      } else {
        assert c in tag || c == ':';
        TagIsPlain(c);
      }
    }
  }

  /**
   * An update that reads the app's image, swaps its tag and writes it back leaves app and broker on exactly
   * that release of the repository the stack already ran.
   */
  lemma StackMovesToRelease(lines: seq<string>, layout: Layout, version: string)
    requires TidyServices(layout, lines) && "app" in layout
    requires ImageRef.SwapImageTag(ValueOf(layout["app"], lines), version).Swapped?
    ensures var ref := ValueOf(layout["app"], lines);
            var after := After(lines, layout, ImageRef.SwapImageTag(ref, version).ref);
            var moved := ImageRef.Ref(ImageRef.SplitImageRef(ref).repo, ImageRef.ReleaseTag(version), "");
            && ImageRef.SplitImageRef(ValueOf(layout["app"], after)) == moved
            && ("broker" in layout ==> ImageRef.SplitImageRef(ValueOf(layout["broker"], after)) == moved)
  {
    hide PlainImage, Tidy, After, ValueOf, ImageRef.SplitImageRef, ImageRef.ReleaseTag, ImageRef.SwapImageTag;
    assert "app" in SERVICES && "broker" in SERVICES;
    TidyValue(layout["app"], lines);
    var ref := ValueOf(layout["app"], lines);
    SwappedIsPlain(ref, version);
    ImageRef.SwapKeepsRepository(ref, version);
    MoveReadsBackAndSettles(lines, layout, ImageRef.SwapImageTag(ref, version).ref);
  }
}
