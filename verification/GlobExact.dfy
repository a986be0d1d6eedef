/**
 * Where `glob_to_regex` and the segment meaning of a glob part: exactly at double stars that fill no whole
 * segment, unless a whole double star elsewhere in the glob hides the difference.
 */
module GlobExact {
  import opened Glob

  // ----- Counting segments -----

  function Slashes(s: string): nat {
    if s == "" then 0 else (if s[0] == '/' then 1 else 0) + Slashes(s[1..])
  }

  lemma {:induction false} SlashesOfSum(s: string, t: string)
    ensures Slashes(s + t) == Slashes(s) + Slashes(t)
    decreases |s|
  {
    if s == "" {
      assert s + t == t;
    } else {
      assert (s + t)[1..] == s[1..] + t;
      SlashesOfSum(s[1..], t);
    }
  }

  lemma {:induction false} NoSlashes(s: string)
    requires NoSlash(s)
    ensures Slashes(s) == 0
    decreases |s|
  {
    if s != "" {
      assert forall i | 0 <= i < |s| - 1 :: s[1..][i] == s[i + 1];
      NoSlashes(s[1..]);
    }
  }

  lemma {:induction false} SegmentCount(s: string)
    ensures |Split(s)| == Slashes(s) + 1
    decreases |s|
  {
    var i := FirstSlash(s);
    NoSlashes(s[..i]);
    if i == |s| {
      assert s[..i] == s;
    } else {
      assert s == s[..i] + ("/" + s[i + 1..]);
      SlashesOfSum(s[..i], "/" + s[i + 1..]);
      assert ("/" + s[i + 1..])[1..] == s[i + 1..];
      SegmentCount(s[i + 1..]);
    }
  }

  /** Without a whole double star every segment of the glob takes one of the path. */
  lemma {:induction false} SameLength(patterns: seq<string>, segments: seq<string>)
    requires "**" !in patterns && PathMatches(patterns, segments)
    ensures |patterns| == |segments|
    decreases |patterns|
  {
    hide SegmentMatches;
    if patterns != [] {
      assert patterns[0] in patterns && forall p <- patterns[1..] :: p in patterns;
      SameLength(patterns[1..], segments[1..]);
    }
  }

  // ----- A string the expression matches -----

  function FillOne(a: Atom, fill: string): string {
    match a
    case OptDirs | SegStar => ""
    case Anything => fill
    case SegOne => "x"
    case Literal(c) => [c]
  }

  /** The expression's plainest match, with `fill` for each partial double star that takes part in no slash. */
  function Fill(re: Regex, fill: string): string {
    if re == [] then "" else FillOne(re[0], fill) + Fill(re[1..], fill)
  }

  lemma {:induction false} FilledMatches(re: Regex, fill: string)
    requires NoNewline(fill)
    ensures Matches(re, Fill(re, fill))
    decreases |re|
  {
    if re != [] {
      var first, rest := FillOne(re[0], fill), Fill(re[1..], fill);
      var s := first + rest;
      assert s[..|first|] == first && s[|first|..] == rest;
      FilledMatches(re[1..], fill);
    }
  }

  lemma FillStep(a: Atom, re: Regex, fill: string)
    ensures Fill([a] + re, fill) == FillOne(a, fill) + Fill(re, fill)
  {
    assert ([a] + re)[1..] == re;
  }

  lemma {:induction false} FilledHasNoNewline(pattern: string, fill: string)
    requires NoNewline(pattern) && NoNewline(fill)
    ensures NoNewline(Fill(Compile(pattern), fill))
    decreases |pattern|
  {
    if pattern != "" {
      var a, n := FirstAtom(pattern);
      assert forall i | 0 <= i < |pattern| - n :: pattern[n..][i] == pattern[n + i];
      FilledHasNoNewline(pattern[n..], fill);
      FillStep(a, Compile(pattern[n..]), fill);
      assert NoNewline(FillOne(a, fill));
      Together(FillOne(a, fill), Fill(Compile(pattern[n..]), fill));
    }
  }

  lemma Together(s: string, t: string)
    requires NoNewline(s) && NoNewline(t)
    ensures NoNewline(s + t)
  {
  }

  /** How many characters of the pattern its first piece comes from. */
  lemma FirstAtom(pattern: string) returns (a: Atom, n: nat)
    requires pattern != ""
    ensures 0 < n <= |pattern| && Compile(pattern) == [a] + Compile(pattern[n..])
    ensures a.OptDirs? ==> pattern[..n] == "**/"
    ensures a.Anything? ==> pattern[..n] == "**" && OpensDoubleStar(pattern)
    ensures !a.OptDirs? && !a.Anything? ==>
              n == 1 && a == CompileChar(pattern[0]) && !OpensDoubleStar(pattern)
  {
    if OpensDirs(pattern) {
      a, n := OptDirs, 3;
    } else if OpensDoubleStar(pattern) {
      a, n := Anything, 2;
    } else {
      a, n := CompileChar(pattern[0]), 1;
    }
  }

  function Count(re: Regex, a: Atom): nat {
    if re == [] then 0 else (if re[0] == a then 1 else 0) + Count(re[1..], a)
  }

  lemma CountStep(a: Atom, re: Regex, b: Atom)
    ensures Count([a] + re, b) == (if a == b then 1 else 0) + Count(re, b)
  {
    assert ([a] + re)[1..] == re;
  }

  lemma {:induction false} Occurs(re: Regex, a: Atom)
    ensures Count(re, a) > 0 <==> a in re
    decreases |re|
  {
    if re != [] {
      Occurs(re[1..], a);
      assert re == [re[0]] + re[1..];
    }
  }

  /** Each `**` with its slash loses one slash of the glob; each other `**` adds those it is filled with. */
  ghost predicate SlashesAddUp(pattern: string, fill: string) {
    var re := Compile(pattern);
    Slashes(Fill(re, fill)) + Count(re, OptDirs) == Slashes(pattern) + Count(re, Anything) * Slashes(fill)
  }

  lemma NoSlashesToAdd(fill: string)
    ensures SlashesAddUp("", fill)
  {
  }

  lemma {:induction false} SlashesOfFilled(pattern: string, fill: string)
    ensures SlashesAddUp(pattern, fill)
    decreases |pattern|
  {
    hide Compile, Slashes, Fill, Count, SlashesAddUp;
    if pattern == "" {
      NoSlashesToAdd(fill);
    } else {
      var a, n := FirstAtom(pattern);
      SlashesOfFilled(pattern[n..], fill);
      assert pattern == pattern[..n] + pattern[n..];
      SlashesOfPiece(pattern[..n], a, fill);
      OnePieceMore(pattern[..n], a, pattern[n..], fill);
    }
  }

  lemma OnePieceMore(piece: string, a: Atom, rest: string, fill: string)
    requires Compile(piece + rest) == [a] + Compile(rest) && SlashesAddUp(rest, fill)
    requires Slashes(FillOne(a, fill)) + (if a.OptDirs? then 1 else 0) ==
             Slashes(piece) + if a.Anything? then Slashes(fill) else 0
    ensures SlashesAddUp(piece + rest, fill)
  {
    hide Compile, Slashes, Fill, Count, FillOne;
    var re, n := Compile(rest), Count(Compile(rest), Anything);
    FillStep(a, re, fill);
    SlashesOfSum(FillOne(a, fill), Fill(re, fill));
    CountStep(a, re, OptDirs);
    CountStep(a, re, Anything);
    SlashesOfSum(piece, rest);
    assert (n + 1) * Slashes(fill) == n * Slashes(fill) + Slashes(fill);
  }

  lemma SlashesOfPiece(piece: string, a: Atom, fill: string)
    requires
      || (piece == "**/" && a == OptDirs)
      || (piece == "**" && a == Anything)
      || (|piece| == 1 && a == CompileChar(piece[0]))
    ensures Slashes(FillOne(a, fill)) + (if a.OptDirs? then 1 else 0) ==
            Slashes(piece) + if a.Anything? then Slashes(fill) else 0
  {
    if |piece| == 1 {
      assert piece[1..] == "";
    } else {
      NoSlashes("**");
      SlashesOfSum("**", "/");
      assert piece == "**/" ==> piece == "**" + "/";
    }
  }

  // ----- Where double stars show -----

  lemma {:induction false} DoubleStarCompiles(pattern: string)
    requires HasDoubleStar(pattern)
    ensures OptDirs in Compile(pattern) || Anything in Compile(pattern)
    decreases |pattern|
  {
    var a, n := FirstAtom(pattern);
    if !a.OptDirs? && !a.Anything? {
      var i :| 0 <= i < |pattern| - 1 && pattern[i] == '*' && pattern[i + 1] == '*';
      assert i > 0 && pattern[1..][i - 1] == '*' && pattern[1..][i] == '*';
      DoubleStarCompiles(pattern[1..]);
    }
  }

  lemma {:induction false} SegmentInside(pattern: string, seg: string)
    requires seg in Split(pattern) && HasDoubleStar(seg)
    ensures HasDoubleStar(pattern)
    decreases |pattern|
  {
    var i := FirstSlash(pattern);
    if i == |pattern| {
    } else if seg == pattern[..i] {
      var j :| 0 <= j < |seg| - 1 && seg[j] == '*' && seg[j + 1] == '*';
      assert pattern[j] == '*' && pattern[j + 1] == '*';
    } else {
      var rest := pattern[i + 1..];
      SegmentInside(rest, seg);
      var j :| 0 <= j < |rest| - 1 && rest[j] == '*' && rest[j + 1] == '*';
      assert pattern[i + 1 + j] == '*' && pattern[i + 1 + j + 1] == '*';
    }
  }

  // ----- The exact condition -----

  ghost predicate AgreesOn(pattern: string, path: string) {
    Matches(Compile(pattern), path) <==> PathMatches(Split(pattern), Split(path))
  }

  /**
   * A path on which a glob with a partial double star goes wrong: a slash too few where one stands before a
   * slash, or else one too many.
   */
  function Witness(pattern: string): string {
    var re := Compile(pattern);
    Fill(re, if OptDirs in re then "" else "/")
  }

  /** The expression matches the witness, whose segments are not as many as the glob's. */
  lemma WitnessMatches(pattern: string)
    requires '\n' !in pattern && "**" !in Split(pattern) && !WellSegmented(pattern)
    ensures NoNewline(Witness(pattern)) && Matches(Compile(pattern), Witness(pattern))
    ensures !PathMatches(Split(pattern), Split(Witness(pattern)))
  {
    hide Compile, Matches, Split, Fill, Slashes, Count, PathMatches, HasDoubleStar;
    var re := Compile(pattern);
    var fill := if OptDirs in re then "" else "/";
    assert NoNewline(pattern);
    var seg :| seg in Split(pattern) && HasDoubleStar(seg);
    SegmentInside(pattern, seg);
    DoubleStarCompiles(pattern);
    FilledMatches(re, fill);
    FilledHasNoNewline(pattern, fill);
    SlashesOfFilled(pattern, fill);
    Occurs(re, OptDirs);
    Occurs(re, Anything);
    SegmentCount(pattern);
    SegmentCount(Fill(re, fill));
    OneSlash();
    if PathMatches(Split(pattern), Split(Fill(re, fill))) {
      SameLength(Split(pattern), Split(Fill(re, fill)));
    }
  }

  lemma OneSlash()
    ensures Slashes("") == 0 && Slashes("/") == 1
  {
    assert "/"[1..] == "";
  }

  // ----- A glob that names a newline -----

  lemma {:induction false} LiteralIsMatched(re: Regex, s: string, c: char)
    requires Literal(c) in re && Matches(re, s)
    ensures c in s
    decreases |re|
  {
    var j: nat := 1;
    if re[0] == Literal(c) {
      assert s[0] in s;
    } else {
      assert re == [re[0]] + re[1..];
      assert s[0..] == s;
      if re[0].OptDirs? && Matches(re[1..], s) {
        j := 0;
      } else if re[0].OptDirs? || re[0].Anything? || re[0].SegStar? {
        j :| 0 <= j <= |s| && Matches(re[1..], s[j..]);
      }
      LiteralIsMatched(re[1..], s[j..], c);
    }
  }

  lemma {:induction false} LiteralIsCompiled(pattern: string, c: char)
    requires c in pattern && c !in "*?/"
    ensures Literal(c) in Compile(pattern)
    decreases |pattern|
  {
    var a, n := FirstAtom(pattern);
    if c !in pattern[n..] {
      assert pattern == pattern[..n] + pattern[n..];
      assert n == 1 ==> pattern[..n] == [pattern[0]];
    } else {
      LiteralIsCompiled(pattern[n..], c);
    }
  }

  lemma {:induction false} SegmentKeeps(pattern: string, s: string, c: char)
    requires c in pattern && c !in "*?" && SegmentMatches(pattern, s)
    ensures c in s
    decreases |pattern|
  {
    assert pattern == [pattern[0]] + pattern[1..];
    if pattern[0] == c {
      assert s[0] in s;
    } else {
      var j: nat := 1;
      if pattern[0] == '*' {
        j :| 0 <= j <= |s| && SegmentMatches(pattern[1..], s[j..]);
      }
      SegmentKeeps(pattern[1..], s[j..], c);
    }
  }

  ghost predicate Holds(segments: seq<string>, c: char) {
    exists seg <- segments :: c in seg
  }

  lemma {:induction false} PathKeeps(patterns: seq<string>, segments: seq<string>, c: char)
    requires "**" !in patterns && Holds(patterns, c) && c !in "*?" && PathMatches(patterns, segments)
    ensures Holds(segments, c)
    decreases |patterns|
  {
    hide SegmentMatches;
    assert patterns == [patterns[0]] + patterns[1..];
    if c in patterns[0] {
      SegmentKeeps(patterns[0], segments[0], c);
      assert segments[0] in segments;
    } else {
      assert Holds(patterns[1..], c);
      PathKeeps(patterns[1..], segments[1..], c);
      var seg :| seg in segments[1..] && c in seg;
      assert seg in segments;
    }
  }

  lemma {:induction false} SplitHolds(s: string, c: char)
    requires c != '/'
    ensures Holds(Split(s), c) <==> c in s
    decreases |s|
  {
    var i := FirstSlash(s);
    if i == |s| {
      assert Split(s)[0] == s;
    } else {
      var rest := s[i + 1..];
      SplitHolds(rest, c);
      assert s == s[..i] + "/" + rest;
      var head, tail := s[..i], Split(rest);
      assert Split(s) == [head] + tail;
      assert Split(s)[0] == head && forall seg :: seg in Split(s) <==> seg == head || seg in tail;
      assert head in Split(s);
    }
  }

  /** Such a glob matches no newline-free path, whichever way it is read. */
  lemma NewlineAgrees(pattern: string, path: string)
    requires '\n' in pattern && "**" !in Split(pattern) && NoNewline(path)
    ensures AgreesOn(pattern, path)
  {
    hide Compile, Matches, Split, PathMatches, Holds;
    assert '\n' !in path;
    LiteralIsCompiled(pattern, '\n');
    SplitHolds(pattern, '\n');
    SplitHolds(path, '\n');
    if Matches(Compile(pattern), path) {
      LiteralIsMatched(Compile(pattern), path, '\n');
    }
    if PathMatches(Split(pattern), Split(path)) {
      PathKeeps(Split(pattern), Split(path), '\n');
    }
  }

  /**
   * Among the globs in which no double star fills a segment, exactly those with no double star at all match
   * every newline-free path as their segments do; a glob that names a newline matches none.
   */
  lemma AgreesEverywhereExactly(pattern: string)
    requires "**" !in Split(pattern)
    ensures (forall path | NoNewline(path) :: AgreesOn(pattern, path)) <==>
            WellSegmented(pattern) || '\n' in pattern
  {
    hide Compile, Matches, Split, PathMatches, WellSegmented, Witness;
    if WellSegmented(pattern) || '\n' in pattern {
      forall path | NoNewline(path)
        ensures AgreesOn(pattern, path)
      {
        if WellSegmented(pattern) {
          CompiledGlobMatchesBySegment(pattern, path);
        } else {
          NewlineAgrees(pattern, path);
        }
      }
    } else {
      WitnessMatches(pattern);
      assert !AgreesOn(pattern, Witness(pattern));
    }
  }

  /**
   * The other way to fail: before a slash a partial double star swallows it, so whatever the segments around
   * match is matched when written together.
   */
  lemma PartialDoubleStarDropsSlash(seg: string, tail: string, s: string, x: string)
    requires NoSlash(seg) && seg != "" && Closed(seg, "**/" + tail)
    requires NoSlash(tail) && Closed(tail, "")
    requires NoSlash(s) && NoSlash(x) && SegmentMatches(seg, s) && SegmentMatches(tail, x)
    ensures
      var pattern := seg + "**/" + tail;
      Matches(Compile(pattern), s + x) && !PathMatches(Split(pattern), Split(s + x))
  {
    hide Compile, Matches, SegmentMatches, CompileSegment, Closed;
    CompileSlashDropped(seg, tail);
    var path := s + x;
    assert path[..|s|] == s && path[|s|..] == x && x[..|x|] == x && x[|x|..] == "";
    NothingMatchesNothing("");
    SegmentPrefixIsMatched(tail, [], x, |x|);
    assert CompileSegment(tail) + [] == CompileSegment(tail);
    DirsMayBeNone(CompileSegment(tail), x);
    SegmentPrefixIsMatched(seg, [OptDirs] + CompileSegment(tail), path, |s|);
    var pattern := seg + "**/" + tail;
    assert path[..|path|] == path && tail[..|tail|] == tail;
    var n := |seg| + 2;
    assert pattern[..n] == seg + "**" && pattern[n] == '/' && pattern[n + 1..] == tail;
    SplitAtSlash(path, |path|);
    SplitAtSlash(tail, |tail|);
    SplitAtSlash(pattern, n);
    OneIsNotTwo(seg + "**", tail, path);
  }

  lemma OneIsNotTwo(first: string, second: string, segment: string)
    requires first != "**"
    ensures !PathMatches([first, second], [segment])
  {
    hide SegmentMatches;
    assert [first, second][1..] == [second] && [segment][1..] == [];
    NothingLeftNeverMatches([second]);
  }

  lemma DirsMayBeNone(re: Regex, s: string)
    requires Matches(re, s)
    ensures Matches([OptDirs] + re, s)
  {
    assert ([OptDirs] + re)[1..] == re;
  }

  lemma CompileSlashDropped(seg: string, tail: string)
    requires Closed(seg, "**/" + tail) && Closed(tail, "")
    ensures Compile(seg + "**/" + tail) == CompileSegment(seg) + ([OptDirs] + CompileSegment(tail))
  {
    hide CompileSegment, Closed;
    var dirs := "**/" + tail;
    CompileUpTo(seg, dirs);
    CompileUpTo(tail, "");
    assert dirs[3..] == tail && tail + "" == tail && seg + dirs == seg + "**/" + tail;
    CompileNothing();
    assert CompileSegment(tail) + [] == CompileSegment(tail);
    assert Compile(dirs) == [OptDirs] + Compile(tail);
  }

  // ----- Hidden by a whole double star -----

  /** Up to and with the last slash, and what follows it. */
  lemma {:induction false} LastSlash(s: string) returns (k: nat)
    ensures k <= |s| && Tail(s, k) && NoSlash(s[k..])
    decreases |s|
  {
    if s == "" {
      k := 0;
    } else if s[|s| - 1] == '/' {
      k := |s|;
    } else {
      var init := s[..|s| - 1];
      k := LastSlash(init);
      assert k > 0 ==> init[k - 1] == s[k - 1];
      assert forall i | 0 <= i < |s[k..]| :: s[k..][i] == if i < |init[k..]| then init[k..][i] else s[|s| - 1];
    }
  }

  lemma AnythingMatches(re: Regex, s: string)
    requires NoNewline(s)
    ensures Matches([Anything] + re, s) <==> exists k: nat | k <= |s| :: Matches(re, s[k..])
  {
    assert ([Anything] + re)[1..] == re;
    assert forall k: nat | k <= |s| :: NoNewline(s[..k]);
  }

  lemma StarMatches(re: Regex, s: string)
    ensures Matches([SegStar] + re, s) <==> exists k: nat | k <= |s| :: NoSlash(s[..k]) && Matches(re, s[k..])
  {
    assert ([SegStar] + re)[1..] == re;
  }

  /** After directories, anything and a run within a segment reach the same places. */
  lemma AnythingAfterDirs(re: Regex, s: string)
    requires NoNewline(s)
    ensures Matches([OptDirs] + ([Anything] + re), s) <==> Matches([OptDirs] + ([SegStar] + re), s)
  {
    hide Matches, NoSlash, Tail;
    OptDirsMatches([Anything] + re, s);
    OptDirsMatches([SegStar] + re, s);
    forall k: nat | k <= |s|
      ensures NoNewline(s[k..])
      ensures Matches([SegStar] + re, s[k..]) ==> Matches([Anything] + re, s[k..])
    {
      AnythingMatches(re, s[k..]);
      StarMatches(re, s[k..]);
    }
    if Matches([OptDirs] + ([Anything] + re), s) {
      var k: nat :| k <= |s| && Tail(s, k) && Matches([Anything] + re, s[k..]);
      AnythingMatches(re, s[k..]);
      var j: nat :| j <= |s[k..]| && Matches(re, s[k..][j..]);
      DropMore(s, k, j);
      var m := LastSlash(s[..k + j]);
      LastSlashReaches(s, k + j, m);
      StarMatches(re, s[m..]);
      DropMore(s, m, k + j - m);
      assert Matches([SegStar] + re, s[m..]);
    }
  }

  lemma LastSlashReaches(s: string, n: nat, m: nat)
    requires m <= n <= |s| && Tail(s[..n], m) && NoSlash(s[..n][m..])
    ensures Tail(s, m) && NoSlash(s[m..][..n - m])
  {
    assert s[..n][m..] == s[m..][..n - m];
  }

  /**
   * So with whole double stars a partial one need not show: after a whole one, it means what a star means, both
   * to the expression and to the segments.
   */
  lemma HiddenPartialAgrees(tail: string, path: string)
    requires NoSlash(tail) && !HasDoubleStar(tail) && NoNewline(path)
    requires tail != "" && tail[0] != '*'
    ensures !WellSegmented("**/**" + tail) && AgreesOn("**/**" + tail, path)
  {
    HiddenPartialCompiles(tail);
    HiddenPartialSplits(tail);
    hide Compile, Matches, Split, PathMatches, HasDoubleStar;
    AnythingAfterDirs(Compile(tail), path);
    CompiledGlobMatchesBySegment("**/*" + tail, path);
    forall segments: seq<string>
      ensures PathMatches(["**", "**" + tail], segments) <==> PathMatches(["**", "*" + tail], segments)
    {
      HiddenPartialPaths(tail, segments);
    }
  }

  lemma HiddenPartialCompiles(tail: string)
    requires tail != "" && tail[0] != '*' && NoSlash(tail)
    ensures Compile("**/**" + tail) == [OptDirs] + ([Anything] + Compile(tail))
    ensures Compile("**/*" + tail) == [OptDirs] + ([SegStar] + Compile(tail))
  {
    CompileDoubleStar(tail);
    assert ("**/**" + tail)[3..] == "**" + tail;
    assert ("**/*" + tail)[3..] == "*" + tail;
    CompileOne('*', tail);
  }

  lemma SplitOfDirs(seg: string)
    requires NoSlash(seg)
    ensures Split("**/" + seg) == ["**", seg]
  {
    var p := "**/" + seg;
    assert p[..2] == "**" && p[3..] == seg && seg[..|seg|] == seg;
    SplitAtSlash(p, 2);
    SplitAtSlash(seg, |seg|);
  }

  lemma StarsDoubled(tail: string)
    requires tail != "" && tail[0] != '*' && !HasDoubleStar(tail)
    ensures HasDoubleStar("**" + tail) && !HasDoubleStar("*" + tail)
  {
    var partial, star := "**" + tail, "*" + tail;
    assert partial[0] == '*' && partial[0 + 1] == '*';
    if HasDoubleStar(star) {
      var i :| 0 <= i < |star| - 1 && star[i] == '*' && star[i + 1] == '*';
      assert false;
    }
  }

  lemma HiddenPartialSplits(tail: string)
    requires tail != "" && tail[0] != '*' && NoSlash(tail) && !HasDoubleStar(tail)
    ensures Split("**/**" + tail) == ["**", "**" + tail] && !WellSegmented("**/**" + tail)
    ensures Split("**/*" + tail) == ["**", "*" + tail] && WellSegmented("**/*" + tail)
  {
    hide Split, HasDoubleStar;
    assert "**/**" + tail == "**/" + ("**" + tail) && "**/*" + tail == "**/" + ("*" + tail);
    SplitOfDirs("**" + tail);
    SplitOfDirs("*" + tail);
    StarsDoubled(tail);
    assert ["**", "**" + tail][1] == "**" + tail && |"**" + tail| > 2;
  }

  lemma HiddenPartialPaths(tail: string, segments: seq<string>)
    requires tail != "" && tail[0] != '*'
    ensures PathMatches(["**", "**" + tail], segments) <==> PathMatches(["**", "*" + tail], segments)
  {
    hide SegmentMatches;
    assert ["**", "**" + tail][1..] == ["**" + tail] && ["**", "*" + tail][1..] == ["*" + tail];
    forall k | 0 <= k <= |segments|
      ensures PathMatches(["**" + tail], segments[k..]) <==> PathMatches(["*" + tail], segments[k..])
    {
      assert |"**" + tail| > 2 && ("*" + tail)[1] == tail[0] && ["**" + tail][1..] == [] && ["*" + tail][1..] == [];
      if k < |segments| {
        TwoStarsAreOne(tail, segments[k]);
      }
    }
  }

  lemma TwoStarsAreOne(tail: string, s: string)
    ensures SegmentMatches("**" + tail, s) <==> SegmentMatches("*" + tail, s)
  {
    assert ("**" + tail)[1..] == "*" + tail && ("*" + tail)[1..] == tail;
    if SegmentMatches("**" + tail, s) {
      var k :| 0 <= k <= |s| && SegmentMatches("*" + tail, s[k..]);
      var j :| 0 <= j <= |s| - k && SegmentMatches(tail, s[k..][j..]);
      DropMore(s, k, j);
    }
    if SegmentMatches("*" + tail, s) {
      assert s[0..] == s;
    }
  }
}
