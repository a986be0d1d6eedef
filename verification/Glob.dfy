/**
 * tools/ci_pass_markers.py `glob_to_regex`: compiling a paths-filter glob to an anchored regular
 * expression, and what that expression means segment by segment.
 */
module Glob {
  /** The pieces a compiled glob is made of, with the regular expression each stands for. */
  datatype Atom =
    | OptDirs           // (?:.*/)?
    | Anything          // .*
    | SegStar           // [^/]*
    | SegOne            // [^/]
    | Literal(c: char)  // the escaped character

  type Regex = seq<Atom>

  // ----- Compilation -----

  predicate OpensDoubleStar(s: string) {
    |s| >= 2 && s[0] == '*' && s[1] == '*'
  }

  predicate OpensDirs(s: string) {
    OpensDoubleStar(s) && |s| >= 3 && s[2] == '/'
  }

  function Compile(pattern: string): Regex {
    if pattern == "" then []
    else if OpensDirs(pattern) then [OptDirs] + Compile(pattern[3..])
    else if OpensDoubleStar(pattern) then [Anything] + Compile(pattern[2..])
    else [CompileChar(pattern[0])] + Compile(pattern[1..])
  }

  function CompileChar(c: char): Atom {
    if c == '*' then SegStar else if c == '?' then SegOne else Literal(c)
  }

  /** `glob_to_regex`: one left-to-right scan that appends a piece at a time. */
  method GlobToRegex(pattern: string) returns (out: Regex)
    ensures out == Compile(pattern)
  {
    hide Compile;
    out := [];
    assert pattern[0..] == pattern;
    var i := 0;
    while i < |pattern|
      invariant i <= |pattern|
      invariant out + Compile(pattern[i..]) == Compile(pattern)
    {
      CompileStep(pattern, i);
      ghost var before := out;
      if OpensDirs(pattern[i..]) {
        out := out + [OptDirs];
        i := i + 3;
      } else if OpensDoubleStar(pattern[i..]) {
        out := out + [Anything];
        i := i + 2;
      } else if pattern[i] == '*' {
        out := out + [SegStar];
        i := i + 1;
      } else if pattern[i] == '?' {
        out := out + [SegOne];
        i := i + 1;
      } else {
        out := out + [Literal(pattern[i])];
        i := i + 1;
      }
      assert out == before + [out[|before|]];
    }
    assert pattern[i..] == "" && Compile("") == [] by { CompileNothing(); }
  }

  lemma CompileNothing()
    ensures Compile("") == []
  {
  }

  lemma CompileStep(pattern: string, i: nat)
    requires i < |pattern|
    ensures
      var rest := pattern[i..];
      && (OpensDirs(rest) ==> i + 3 <= |pattern| && Compile(rest) == [OptDirs] + Compile(pattern[i + 3..]))
      && (!OpensDirs(rest) && OpensDoubleStar(rest) ==>
            i + 2 <= |pattern| && Compile(rest) == [Anything] + Compile(pattern[i + 2..]))
      && (!OpensDoubleStar(rest) ==> Compile(rest) == [CompileChar(pattern[i])] + Compile(pattern[i + 1..]))
  {
    var rest := pattern[i..];
    assert rest[1..] == pattern[i + 1..];
    if OpensDoubleStar(rest) {
      assert rest[2..] == pattern[i + 2..];
    }
    if OpensDirs(rest) {
      assert rest[3..] == pattern[i + 3..];
    }
  }

  // ----- What the regular expression matches -----

  predicate NoSlash(s: string) {
    forall i | 0 <= i < |s| :: s[i] != '/'
  }

  /** A dot does not match a newline. */
  predicate NoNewline(s: string) {
    forall i | 0 <= i < |s| :: s[i] != '\n'
  }

  /** The expression matches the whole of `s`. */
  predicate Matches(re: Regex, s: string)
    decreases |re|
  {
    if re == [] then s == ""
    else
      match re[0]
      case OptDirs =>
        Matches(re[1..], s) ||
        exists k | 0 < k <= |s| :: s[k - 1] == '/' && NoNewline(s[..k - 1]) && Matches(re[1..], s[k..])
      case Anything => exists k | 0 <= k <= |s| :: NoNewline(s[..k]) && Matches(re[1..], s[k..])
      case SegStar => exists k | 0 <= k <= |s| :: NoSlash(s[..k]) && Matches(re[1..], s[k..])
      case SegOne => s != "" && s[0] != '/' && Matches(re[1..], s[1..])
      case Literal(c) => s != "" && s[0] == c && Matches(re[1..], s[1..])
  }

  // ----- What the glob means, segment by segment -----

  function FirstSlash(s: string): (i: nat)
    ensures i <= |s| && NoSlash(s[..i]) && (i < |s| ==> s[i] == '/')
  {
    if s == "" || s[0] == '/' then 0 else 1 + FirstSlash(s[1..])
  }

  function Split(s: string): (segments: seq<string>)
    ensures segments != []
  {
    var i := FirstSlash(s);
    if i == |s| then [s] else [s[..i]] + Split(s[i + 1..])
  }

  /** Inside one segment: a star is any run of characters, a question mark any one character. */
  predicate SegmentMatches(pattern: string, s: string)
    decreases |pattern|
  {
    if pattern == "" then s == ""
    else if pattern[0] == '*' then exists k | 0 <= k <= |s| :: SegmentMatches(pattern[1..], s[k..])
    else s != "" && (pattern[0] == '?' || s[0] == pattern[0]) && SegmentMatches(pattern[1..], s[1..])
  }

  /**
   * A double star before other segments covers any number of whole segments, none included; as
   * the last segment it covers what is left, which is at least one segment.
   */
  predicate PathMatches(patterns: seq<string>, segments: seq<string>)
    decreases |patterns|
  {
    if patterns == [] then segments == []
    else if patterns[0] == "**" then
      if |patterns| == 1 then segments != []
      else exists k | 0 <= k <= |segments| :: PathMatches(patterns[1..], segments[k..])
    else
      segments != [] && SegmentMatches(patterns[0], segments[0]) && PathMatches(patterns[1..], segments[1..])
  }

  predicate HasDoubleStar(s: string) {
    exists i | 0 <= i < |s| - 1 :: s[i] == '*' && s[i + 1] == '*'
  }

  /** Double stars fill whole segments. */
  predicate WellSegmented(pattern: string) {
    forall seg <- Split(pattern) :: seg == "**" || !HasDoubleStar(seg)
  }

  // ----- The two agree -----

  function CompileSegment(seg: string): Regex {
    seq(|seg|, i requires 0 <= i < |seg| => CompileChar(seg[i]))
  }

  lemma ShorterHasNoDoubleStar(seg: string)
    requires seg != "" && !HasDoubleStar(seg)
    ensures !HasDoubleStar(seg[1..])
  {
    assert forall i | 0 <= i < |seg| - 1 :: seg[1..][i] == seg[i + 1];
  }

  lemma CompileOne(c: char, rest: string)
    requires !OpensDoubleStar([c] + rest)
    ensures Compile([c] + rest) == [CompileChar(c)] + Compile(rest)
  {
    assert ([c] + rest)[1..] == rest;
  }

  /** No double star begins in the segment, not even across its end. */
  predicate Closed(seg: string, rest: string) {
    !HasDoubleStar(seg) && (seg != "" && rest != "" && rest[0] == '*' ==> seg[|seg| - 1] != '*')
  }

  /** Such a segment compiles character by character, whatever follows it. */
  lemma {:induction false} CompileUpTo(seg: string, rest: string)
    requires Closed(seg, rest)
    ensures Compile(seg + rest) == CompileSegment(seg) + Compile(rest)
    decreases seg
  {
    hide Compile, HasDoubleStar;
    if seg == "" {
      assert seg + rest == rest && CompileSegment(seg) + Compile(rest) == Compile(rest);
    } else {
      var c, tail := seg[0], seg[1..];
      ClosedTail(seg, rest);
      CompileUpTo(tail, rest);
      assert seg + rest == [c] + (tail + rest);
      CompileOne(c, tail + rest);
      assert CompileSegment(seg) == [CompileChar(c)] + CompileSegment(tail);
      assert [CompileChar(c)] + (CompileSegment(tail) + Compile(rest)) == CompileSegment(seg) + Compile(rest);
    }
  }

  lemma ClosedTail(seg: string, rest: string)
    requires Closed(seg, rest) && seg != ""
    ensures Closed(seg[1..], rest) && !OpensDoubleStar([seg[0]] + (seg[1..] + rest))
  {
    ShorterHasNoDoubleStar(seg);
    var p := [seg[0]] + (seg[1..] + rest);
    if |p| >= 2 {
      assert p[1] == if |seg| > 1 then seg[1] else rest[0];
    }
  }

  lemma TakeMore<T>(s: seq<T>, i: nat, j: nat)
    requires i + j <= |s|
    ensures s[..i + j] == s[..i] + s[i..][..j]
    ensures s[..i + j][i..] == s[i..][..j]
  {
  }

  lemma DropMore<T>(s: seq<T>, i: nat, j: nat)
    requires i + j <= |s|
    ensures s[i..][j..] == s[i + j..]
  {
  }

  /** The first `k` characters are the segment's, the others are left to `re`. */
  predicate PrefixAt(seg: string, re: Regex, s: string, k: nat) {
    k <= |s| && NoSlash(s[..k]) && SegmentMatches(seg, s[..k]) && Matches(re, s[k..])
  }

  lemma {:induction false} SegmentPrefixIsMatched(seg: string, re: Regex, s: string, k: nat)
    requires NoSlash(seg) && PrefixAt(seg, re, s, k)
    ensures Matches(CompileSegment(seg) + re, s)
    decreases seg
  {
    if seg == "" {
      assert CompileSegment(seg) + re == re && s[k..] == s;
    } else {
      var rest := seg[1..];
      var all := CompileSegment(seg) + re;
      assert all[1..] == CompileSegment(rest) + re && all[0] == CompileChar(seg[0]);
      if seg[0] == '*' {
        var j :| 0 <= j <= k && SegmentMatches(rest, s[..k][j..]);
        assert s[j..][..k - j] == s[..k][j..] && s[j..][k - j..] == s[k..] && NoSlash(s[..j]);
        SegmentPrefixIsMatched(rest, re, s[j..], k - j);
      } else {
        assert s[1..][..k - 1] == s[..k][1..] && s[1..][k - 1..] == s[k..];
        SegmentPrefixIsMatched(rest, re, s[1..], k - 1);
        assert s[0] == s[..k][0];
      }
    }
  }

  lemma {:induction false} MatchedSegmentPrefix(seg: string, re: Regex, s: string) returns (k: nat)
    requires NoSlash(seg) && Matches(CompileSegment(seg) + re, s)
    ensures PrefixAt(seg, re, s, k)
    decreases seg
  {
    if seg == "" {
      assert CompileSegment(seg) + re == re && s[0..] == s;
      k := 0;
    } else {
      var rest := seg[1..];
      var all := CompileSegment(seg) + re;
      assert all[1..] == CompileSegment(rest) + re && all[0] == CompileChar(seg[0]);
      var j := 1;
      if seg[0] == '*' {
        j :| 0 <= j <= |s| && NoSlash(s[..j]) && Matches(all[1..], s[j..]);
      }
      hide Matches;
      var m := MatchedSegmentPrefix(rest, re, s[j..]);
      PrefixGrows(seg, re, s, j, m);
      k := j + m;
    }
  }

  /** What the first piece of a segment takes, followed by what its other pieces take. */
  lemma PrefixGrows(seg: string, re: Regex, s: string, j: nat, m: nat)
    requires seg != "" && j <= |s| && PrefixAt(seg[1..], re, s[j..], m) && NoSlash(s[..j])
    requires seg[0] == '*' || (j == 1 && (seg[0] == '?' || s[0] == seg[0]))
    ensures PrefixAt(seg, re, s, j + m)
  {
    hide Matches;
    TakeMore(s, j, m);
    DropMore(s, j, m);
  }

  /** `Split` takes a string apart at its first slash. */
  lemma SplitAtSlash(s: string, k: nat)
    requires k <= |s| && NoSlash(s[..k]) && (k == |s| || s[k] == '/')
    ensures FirstSlash(s) == k
    ensures Split(s) == if k == |s| then [s] else [s[..k]] + Split(s[k + 1..])
  {
    var i := FirstSlash(s);
    assert forall j | 0 <= j < k :: s[j] == s[..k][j] != '/';
    assert forall j | 0 <= j < i :: s[j] == s[..i][j] != '/';
  }

  lemma NothingLeftNeverMatches(patterns: seq<string>)
    requires patterns != []
    ensures !PathMatches(patterns, [])
  {
    if patterns[0] == "**" && |patterns| > 1 {
      NothingLeftNeverMatches(patterns[1..]);
    }
  }

  /** Whole leading segments of `s` dropped: `s` itself, or what follows one of its slashes. */
  ghost predicate Tail(s: string, k: nat) {
    k == 0 || (k <= |s| && s[k - 1] == '/')
  }

  lemma SplitRest(s: string)
    requires FirstSlash(s) < |s|
    ensures Split(s) == [s[..FirstSlash(s)]] + Split(s[FirstSlash(s) + 1..])
    ensures Split(s)[1..] == Split(s[FirstSlash(s) + 1..])
  {
    hide FirstSlash, NoSlash;
    var rest := Split(s[FirstSlash(s) + 1..]);
    assert Split(s) == [s[..FirstSlash(s)]] + rest;
    hide Split;
  }

  lemma OneSegment(s: string)
    ensures FirstSlash(s) == |s| ==> |Split(s)| == 1
  {
  }

  lemma SlashAfterFirst(s: string, i: nat)
    requires i < |s| && s[i] == '/'
    ensures FirstSlash(s) <= i
  {
    var f := FirstSlash(s);
    assert forall j | 0 <= j < f :: s[j] == s[..f][j] != '/';
  }

  /** The tails of a string are, in order, the tails of its segments. */
  lemma {:induction false} TailSegments(s: string, k: nat) returns (j: nat)
    requires k <= |s| && Tail(s, k)
    ensures j < |Split(s)| && Split(s)[j..] == Split(s[k..])
    decreases |s|
  {
    hide Split, NoSlash;
    if k == 0 {
      j := 0;
      assert s[0..] == s;
    } else {
      var f := FirstSlash(s);
      SlashAfterFirst(s, k - 1);
      SplitRest(s);
      DropMore(s, f + 1, k - f - 1);
      var m := TailSegments(s[f + 1..], k - f - 1);
      j := m + 1;
      DropMore(Split(s), 1, m);
    }
  }

  lemma {:induction false} SegmentTail(s: string, j: nat) returns (k: nat)
    requires j < |Split(s)|
    ensures k <= |s| && Tail(s, k) && Split(s)[j..] == Split(s[k..])
    decreases |s|
  {
    hide Split, NoSlash, FirstSlash;
    if j == 0 {
      k := 0;
      assert s[0..] == s;
    } else {
      var f := FirstSlash(s);
      OneSegment(s);
      SplitRest(s);
      var m := SegmentTail(s[f + 1..], j - 1);
      k := f + 1 + m;
      DropMore(s, f + 1, m);
      DropMore(Split(s), 1, j - 1);
      assert m > 0 ==> s[f + 1..][m - 1] == s[k - 1];
    }
  }

  lemma OptDirsMatches(re: Regex, s: string)
    requires NoNewline(s)
    ensures Matches([OptDirs] + re, s) <==> exists k: nat | k <= |s| :: Tail(s, k) && Matches(re, s[k..])
  {
    var all := [OptDirs] + re;
    assert all[1..] == re && s[0..] == s;
    if exists k: nat | k <= |s| :: Tail(s, k) && Matches(re, s[k..]) {
      var k: nat :| k <= |s| && Tail(s, k) && Matches(re, s[k..]);
      assert k > 0 ==> s[k - 1] == '/' && NoNewline(s[..k - 1]);
    }
    if Matches(all, s) && !Matches(re, s) {
      var k :| 0 < k <= |s| && s[k - 1] == '/' && NoNewline(s[..k - 1]) && Matches(re, s[k..]);
      assert Tail(s, k);
    }
  }

  /**
   * A glob whose double stars fill whole segments compiles to an expression that matches a path
   * without newlines exactly when the glob matches it segment by segment.
   */
  lemma {:induction false} CompiledGlobMatchesBySegment(pattern: string, path: string)
    requires WellSegmented(pattern) && NoNewline(path)
    ensures Matches(Compile(pattern), path) <==> PathMatches(Split(pattern), Split(path))
    decreases |pattern|
  {
    var i := FirstSlash(pattern);
    var seg := pattern[..i];
    assert seg == Split(pattern)[0];
    assert seg in Split(pattern);
    if i == |pattern| {
      assert seg == pattern;
      LastSegmentMatches(pattern, path);
    } else {
      var rest := pattern[i + 1..];
      assert Split(pattern) == [seg] + Split(rest);
      assert WellSegmented(rest) by { assert forall x <- Split(rest) :: x in Split(pattern); }
      forall k: nat | k <= |path|
        ensures Matches(Compile(rest), path[k..]) <==> PathMatches(Split(rest), Split(path[k..]))
      {
        CompiledGlobMatchesBySegment(rest, path[k..]);
      }
      if seg == "**" {
        DoubleStarSegmentMatches(pattern, rest, path);
      } else {
        PlainSegmentMatches(pattern, seg, rest, path);
      }
    }
  }

  lemma NothingMatchesNothing(s: string)
    ensures Matches([], s) <==> s == ""
  {
  }

  lemma MatchesLiteral(c: char, re: Regex, s: string)
    ensures Matches([Literal(c)] + re, s) <==> s != "" && s[0] == c && Matches(re, s[1..])
  {
    assert ([Literal(c)] + re)[1..] == re;
  }

  lemma MatchesAnything(s: string)
    requires NoNewline(s)
    ensures Matches([Anything], s)
  {
    assert NoNewline(s[..|s|]) && s[|s|..] == "" && Matches([Anything][1..], s[|s|..]);
  }

  lemma LastSegmentMatches(pattern: string, path: string)
    requires NoSlash(pattern) && (pattern == "**" || !HasDoubleStar(pattern)) && NoNewline(path)
    ensures Matches(Compile(pattern), path) <==> PathMatches([pattern], Split(path))
  {
    hide Matches, SegmentMatches;
    if pattern == "**" {
      assert pattern[2..] == "";
      assert Compile(pattern) == [Anything];
      MatchesAnything(path);
    } else {
      assert Compile(pattern) == CompileSegment(pattern) + [] by {
        CompileUpTo(pattern, "");
        assert pattern + "" == pattern;
      }
      hide Compile;
      assert [pattern][1..] == [];
      if Matches(Compile(pattern), path) {
        var k := MatchedSegmentPrefix(pattern, [], path);
        assert path[k..] == "" by { NothingMatchesNothing(path[k..]); }
        assert path[..k] == path;
        SplitAtSlash(path, k);
      }
      if PathMatches([pattern], Split(path)) {
        assert PathMatches([pattern][1..], Split(path)[1..]);
        assert |Split(path)| == 1;
        assert FirstSlash(path) == |path|;
        assert path[..|path|] == path && path[|path|..] == "";
        NothingMatchesNothing("");
        SegmentPrefixIsMatched(pattern, [], path, |path|);
      }
    }
  }

  lemma CompileSlashed(seg: string, rest: string)
    requires NoSlash(seg) && !HasDoubleStar(seg)
    ensures Compile(seg + "/" + rest) == CompileSegment(seg) + ([Literal('/')] + Compile(rest))
  {
    var slashed := "/" + rest;
    assert slashed[1..] == rest;
    CompileUpTo(seg, slashed);
    assert seg + "/" + rest == seg + slashed;
  }

  lemma PlainSegmentMatches(pattern: string, seg: string, rest: string, path: string)
    requires pattern == seg + "/" + rest && NoSlash(seg) && seg != "**" && !HasDoubleStar(seg)
    requires forall k: nat | k <= |path| ::
               Matches(Compile(rest), path[k..]) <==> PathMatches(Split(rest), Split(path[k..]))
    ensures Matches(Compile(pattern), path) <==> PathMatches([seg] + Split(rest), Split(path))
  {
    hide Matches, Compile, SegmentMatches, Split, NoSlash, HasDoubleStar;
    var re := [Literal('/')] + Compile(rest);
    CompileSlashed(seg, rest);
    assert ([seg] + Split(rest))[1..] == Split(rest);
    if Matches(Compile(pattern), path) {
      var k := MatchedSegmentPrefix(seg, re, path);
      MatchesLiteral('/', Compile(rest), path[k..]);
      SplitAtSlash(path, k);
      assert path[k..][1..] == path[k + 1..];
      assert Split(path)[1..] == Split(path[k + 1..]);
    }
    if PathMatches([seg] + Split(rest), Split(path)) {
      var k := FirstSlash(path);
      SplitAtSlash(path, k);
      if k == |path| {
        assert Split(path)[1..] == [];
        NothingLeftNeverMatches(Split(rest));
      } else {
        assert Split(path)[1..] == Split(path[k + 1..]);
        assert path[k..][1..] == path[k + 1..];
        MatchesLiteral('/', Compile(rest), path[k..]);
        SegmentPrefixIsMatched(seg, re, path, k);
      }
    }
  }

  lemma DoubleStarSegmentMatches(pattern: string, rest: string, path: string)
    requires pattern == "**/" + rest && NoNewline(path)
    requires forall k: nat | k <= |path| ::
               Matches(Compile(rest), path[k..]) <==> PathMatches(Split(rest), Split(path[k..]))
    ensures Matches(Compile(pattern), path) <==> PathMatches(["**"] + Split(rest), Split(path))
  {
    hide Matches, SegmentMatches, Split;
    assert OpensDirs(pattern) && pattern[3..] == rest;
    OptDirsMatches(Compile(rest), path);
    hide Compile;
    var patterns, segments := ["**"] + Split(rest), Split(path);
    assert patterns[1..] == Split(rest);
    if Matches(Compile(pattern), path) {
      var k: nat :| k <= |path| && Tail(path, k) && Matches(Compile(rest), path[k..]);
      var j := TailSegments(path, k);
      assert PathMatches(Split(rest), segments[j..]);
    }
    if PathMatches(patterns, segments) {
      var j :| 0 <= j <= |segments| && PathMatches(Split(rest), segments[j..]);
      NothingLeftNeverMatches(Split(rest));
      assert j < |segments|;
      var k := SegmentTail(path, j);
    }
  }

  lemma CompileDoubleStar(tail: string)
    requires tail == "" || tail[0] != '/'
    ensures Compile("**" + tail) == [Anything] + Compile(tail)
  {
    var p := "**" + tail;
    assert p[2..] == tail && OpensDoubleStar(p) && !OpensDirs(p);
  }

  lemma AnythingTakesSlash(tail: string, x: string)
    requires NoSlash(tail) && NoSlash(x) && SegmentMatches(tail, x)
    ensures Matches([Anything] + CompileSegment(tail), "/" + x)
  {
    var re, s := [Anything] + CompileSegment(tail), "/" + x;
    assert s[1..] == x && s[..1] == "/" && re[1..] == CompileSegment(tail);
    assert x[..|x|] == x && x[|x|..] == "" && CompileSegment(tail) + [] == CompileSegment(tail);
    NothingMatchesNothing("");
    SegmentPrefixIsMatched(tail, [], x, |x|);
    assert NoNewline(s[..1]) && Matches(re[1..], s[1..]);
  }

  /**
   * Away from whole segments a double star reaches across slashes, which no segment does: whatever the
   * parts of the segment around it match on their own, with a slash between, the expression matches.
   */
  lemma PartialDoubleStarCrossesSlash(seg: string, tail: string, s: string, x: string)
    requires NoSlash(seg) && NoSlash(tail) && seg + tail != ""
    requires !HasDoubleStar(seg) && !HasDoubleStar(tail) && (seg == "" || seg[|seg| - 1] != '*')
    requires NoSlash(s) && NoSlash(x) && SegmentMatches(seg, s) && SegmentMatches(tail, x)
    ensures
      var pattern, path := seg + "**" + tail, s + "/" + x;
      Matches(Compile(pattern), path) && !PathMatches(Split(pattern), Split(path))
  {
    hide Compile, Matches, SegmentMatches, HasDoubleStar, Split, PathMatches, CompileSegment;
    CompilePartial(seg, tail);
    PartialMatches(seg, tail, s, x);
    OneSegmentAgainstTwo(seg + "**" + tail, s, x);
  }

  lemma CompilePartial(seg: string, tail: string)
    requires Closed(seg, "**" + tail) && Closed(tail, "") && (tail == "" || tail[0] != '/')
    ensures Compile(seg + "**" + tail) == CompileSegment(seg) + ([Anything] + CompileSegment(tail))
  {
    hide Compile, CompileSegment, Closed;
    assert seg + "**" + tail == seg + ("**" + tail) && tail + "" == tail;
    CompileUpTo(seg, "**" + tail);
    CompileDoubleStar(tail);
    CompileUpTo(tail, "");
    CompileNothing();
    assert CompileSegment(tail) + [] == CompileSegment(tail);
  }

  lemma PartialMatches(seg: string, tail: string, s: string, x: string)
    requires NoSlash(seg) && NoSlash(tail) && NoSlash(s) && NoSlash(x)
    requires SegmentMatches(seg, s) && SegmentMatches(tail, x)
    ensures Matches(CompileSegment(seg) + ([Anything] + CompileSegment(tail)), s + "/" + x)
  {
    hide Matches, SegmentMatches, CompileSegment;
    var path := s + "/" + x;
    AnythingTakesSlash(tail, x);
    assert path[..|s|] == s && path[|s|..] == "/" + x;
    SegmentPrefixIsMatched(seg, [Anything] + CompileSegment(tail), path, |s|);
  }

  lemma OneSegmentAgainstTwo(pattern: string, s: string, x: string)
    requires NoSlash(pattern) && pattern != "**" && NoSlash(s)
    ensures !PathMatches(Split(pattern), Split(s + "/" + x))
  {
    hide SegmentMatches;
    var path := s + "/" + x;
    assert path[..|s|] == s && pattern[..|pattern|] == pattern;
    SplitAtSlash(path, |s|);
    SplitAtSlash(pattern, |pattern|);
  }
}
