/** cli/internal/install/image.go: image references, release tags, and moving a reference to a release. */
module ImageRef {
  import opened Prelude
  import opened Text

  // ----- Scanning -----

  /** `strings.LastIndex` for one character; -1 when there is none. */
  function LastIndex(s: string, c: char): (i: int)
    ensures -1 <= i < |s|
    ensures i >= 0 ==> s[i] == c
    ensures forall j | i < j < |s| :: s[j] != c
  {
    if s == "" then -1
    else if s[|s| - 1] == c then |s| - 1
    else LastIndex(s[..|s| - 1], c)
  }

  /** `strings.IndexAny`: how much of the text comes before the first of these characters. */
  function Before(s: string, stops: set<char>): string {
    if s == "" || s[0] in stops then "" else [s[0]] + Before(s[1..], stops)
  }

  // ----- Tags -----

  predicate IsDigit(c: char) {
    '0' <= c <= '9'
  }

  predicate TagChar(c: char) {
    'a' <= c <= 'z' || 'A' <= c <= 'Z' || IsDigit(c) || c in ".-_"
  }

  /** `isDockerTag`. */
  predicate IsDockerTag(s: string) {
    0 < |s| <= 128 && s[0] !in ".-_" && forall c <- s :: TagChar(c)
  }

  predicate IsNumber(s: string) {
    s != "" && forall c <- s :: IsDigit(c)
  }

  /** `releaseTag`: "" for anything that is not a release. */
  function ReleaseTag(version: string): string {
    var trimmed := TrimSpace(version);
    var v := if trimmed != "" && trimmed[0] == 'v' then trimmed[1..] else trimmed;
    if v == "" then ""
    else
      var parts := SplitAt(Before(v, {'-', '+'}), '.');
      if |parts| == 3 && (forall p <- parts :: IsNumber(p)) && IsDockerTag(v) then v else ""
  }

  // ----- References -----

  datatype Ref = Ref(repo: string, tag: string, digest: string)

  /** `SplitImageRef`: a colon before the last slash belongs to the registry. */
  function SplitImageRef(ref: string): Ref {
    if '@' in ref then
      var repo := Before(ref, {'@'});
      BeforeIsPrefix(ref, {'@'});
      Ref(repo, "", ref[|repo| + 1..])
    else
      var colon := LastIndex(ref, ':');
      if colon > LastIndex(ref, '/') then Ref(ref[..colon], ref[colon + 1..], "") else Ref(ref, "", "")
  }

  lemma {:induction false} BeforeIsPrefix(s: string, stops: set<char>)
    ensures Before(s, stops) <= s && (forall c <- Before(s, stops) :: c !in stops)
    ensures (exists c <- s :: c in stops) ==> |Before(s, stops)| < |s| && s[|Before(s, stops)|] in stops
  {
    if s != "" && s[0] !in stops {
      BeforeIsPrefix(s[1..], stops);
      assert s == [s[0]] + s[1..];
    }
  }

  datatype Swap = NotARelease | Pinned | NoRepository | Swapped(ref: string)

  /** `SwapImageTag`. */
  function SwapImageTag(ref: string, version: string): Swap {
    var tag := ReleaseTag(version);
    if tag == "" then NotARelease
    else
      var split := SplitImageRef(ref);
      if split.digest != "" then Pinned
      else if split.repo == "" then NoRepository
      else Swapped(split.repo + ":" + tag)
  }

  /** `IsOperatorTagPin`. */
  predicate IsOperatorTagPin(ref: string) {
    var split := SplitImageRef(ref);
    split.digest == "" && split.tag !in {"", "latest"} && ReleaseTag(split.tag) == ""
  }

  // ----- What a release tag is -----

  lemma TagCharIsNoSpace(c: char)
    requires TagChar(c)
    ensures !IsSpace(c) && c !in ":/@#'\"\\"
  {
  }

  lemma FirstPartLeads(s: string, c: char)
    requires SplitAt(s, c)[0] != ""
    ensures s != "" && SplitAt(s, c)[0][0] == s[0]
  {
  }

  lemma ReleaseTagIsATag(version: string)
    requires ReleaseTag(version) != ""
    ensures IsDockerTag(ReleaseTag(version)) && IsDigit(ReleaseTag(version)[0])
  {
    hide IsDockerTag, TrimSpace;
    var tag := ReleaseTag(version);
    var core := Before(tag, {'-', '+'});
    var parts := SplitAt(core, '.');
    assert parts[0] in parts && IsNumber(parts[0]);
    FirstPartLeads(core, '.');
    assert parts[0][0] in parts[0];
  }

  // ----- What a release version is -----

  predicate AllDigits(s: string) {
    s != "" && forall c <- s :: '0' <= c <= '9'
  }

  /** A pre-release suffix: nothing, or a hyphen and characters a tag may hold. */
  predicate IsSuffix(s: string) {
    s == "" ||
    (s[0] == '-' && forall c <- s ::
       'a' <= c <= 'z' || 'A' <= c <= 'Z' || '0' <= c <= '9' || c == '.' || c == '-' || c == '_')
  }

  /** Three numbers and a suffix, at most 128 characters in all. */
  ghost predicate IsRelease(v: string, major: string, minor: string, patch: string, suffix: string) {
    && AllDigits(major) && AllDigits(minor) && AllDigits(patch) && IsSuffix(suffix) && |v| <= 128
    && v == major + "." + minor + "." + patch + suffix
  }

  /** A version without what surrounds it: white space, and one leading v. */
  ghost predicate Strips(version: string, v: string) {
    TrimSpace(version) == v || TrimSpace(version) == "v" + v
  }

  lemma {:induction false} BeforeSuffix(core: string, suffix: string)
    requires (forall c <- core :: c != '-' && c != '+') && (suffix == "" || suffix[0] == '-' || suffix[0] == '+')
    ensures Before(core + suffix, {'-', '+'}) == core
    decreases core
  {
    var s := core + suffix;
    if core == "" {
      assert s == suffix;
    } else {
      assert core[0] in core && (forall c <- core[1..] :: c in core) && core == [core[0]] + core[1..];
      BeforeSuffix(core[1..], suffix);
      assert s[1..] == core[1..] + suffix;
    }
  }

  lemma ThreeParts(major: string, minor: string, patch: string)
    requires AllDigits(major) && AllDigits(minor) && AllDigits(patch)
    ensures SplitAt(major + "." + minor + "." + patch, '.') == [major, minor, patch]
  {
    SplitFirst(major, '.', minor + "." + patch);
    SplitFirst(minor, '.', patch);
    SplitWithout(patch, '.');
    assert major + "." + minor + "." + patch == major + ['.'] + (minor + ['.'] + patch);
  }

  /** Every release, bare or with a v in front, is its own tag. */
  lemma ReleaseHasTag(version: string, v: string, major: string, minor: string, patch: string, suffix: string)
    requires IsRelease(v, major, minor, patch, suffix) && Strips(version, v)
    ensures ReleaseTag(version) == v
  {
    var core := major + "." + minor + "." + patch;
    forall c | c in v
      ensures TagChar(c)
    {
      assert c in major || c in minor || c in patch || c in suffix || c == '.';
    }
    assert v[0] == major[0] && major[0] in major;
    assert TrimSpace(version) == "v" + v ==> TrimSpace(version)[1..] == v;
    hide TrimSpace, TagChar;
    assert v == core + suffix;
    BeforeSuffix(core, suffix);
    ThreeParts(major, minor, patch);
  }

  lemma PartsOfThree(core: string) returns (major: string, minor: string, patch: string)
    requires |SplitAt(core, '.')| == 3
    ensures SplitAt(core, '.') == [major, minor, patch] && core == major + "." + minor + "." + patch
  {
    var parts := SplitAt(core, '.');
    var rest := SplitTakesApart(core, '.');
    var last := SplitTakesApart(rest, '.');
    SplitWithout(last, '.');
    major, minor, patch := parts[0], parts[1], parts[2];
    assert SplitAt(rest, '.') == [minor, patch] && SplitAt(last, '.') == [patch];
  }

  lemma SuffixAfter(v: string, core: string)
    requires core == Before(v, {'-', '+'}) && forall c <- v :: TagChar(c)
    ensures core <= v && IsSuffix(v[|core|..])
  {
    BeforeIsPrefix(v, {'-', '+'});
    AfterBefore(v, {'-', '+'});
    var suffix := v[|core|..];
    assert forall c <- suffix :: c in v;
    assert suffix != "" ==> suffix[0] == v[|core|] && suffix[0] in v;
  }

  /** And nothing else has one: a tag is three numbers and a suffix, as the version names them. */
  lemma TagIsARelease(version: string)
    returns (major: string, minor: string, patch: string, suffix: string)
    requires ReleaseTag(version) != ""
    ensures IsRelease(ReleaseTag(version), major, minor, patch, suffix) && Strips(version, ReleaseTag(version))
  {
    hide TrimSpace, TagChar, IsSuffix, SplitAt, Before;
    var v := ReleaseTag(version);
    var trimmed := TrimSpace(version);
    assert trimmed == v || (trimmed != "" && trimmed[0] == 'v' && trimmed == "v" + trimmed[1..]);
    var core := Before(v, {'-', '+'});
    SuffixAfter(v, core);
    suffix := v[|core|..];
    major, minor, patch := PartsOfThree(core);
    assert v == core + suffix;
    var parts := [major, minor, patch];
    assert parts[0] in parts && parts[1] in parts && parts[2] in parts;
    assert IsNumber(major) && IsNumber(minor) && IsNumber(patch);
  }

  lemma {:induction false} AfterBefore(s: string, stops: set<char>)
    ensures |Before(s, stops)| <= |s| && (|Before(s, stops)| < |s| ==> s[|Before(s, stops)|] in stops)
    decreases s
  {
    if s != "" && s[0] !in stops {
      AfterBefore(s[1..], stops);
    }
  }

  /** A tag the tool did not choose: any but "latest" and the releases; a reference by digest has none. */
  lemma OperatorPinsExactly(repo: string, tag: string)
    requires '@' !in repo && forall c <- tag :: c !in {':', '/', '@'}
    ensures IsOperatorTagPin(repo + ":" + tag) <==> tag != "" && tag != "latest" && ReleaseTag(tag) == ""
    ensures tag != "" ==> !IsOperatorTagPin(repo + "@" + tag)
  {
    hide ReleaseTag, LastIndex;
    SplitTagged(repo, tag);
    var pinned := repo + "@" + tag;
    assert pinned[|repo|] == '@';
    BeforeStop(repo, "@" + tag);
    assert pinned == repo + ("@" + tag) && pinned[|repo| + 1..] == tag;
  }

  lemma {:induction false} BeforeStop(s: string, rest: string)
    requires '@' !in s && rest != "" && rest[0] == '@'
    ensures Before(s + rest, {'@'}) == s
    decreases s
  {
    if s == "" {
      assert s + rest == rest;
    } else {
      assert s == [s[0]] + s[1..];
      BeforeStop(s[1..], rest);
      assert (s + rest)[1..] == s[1..] + rest;
    }
  }

  /** The tag of a release is itself the name of that release. */
  lemma ReleaseTagIsSettled(version: string)
    requires ReleaseTag(version) != ""
    ensures ReleaseTag(ReleaseTag(version)) == ReleaseTag(version)
  {
    hide TagChar, IsSpace;
    var tag := ReleaseTag(version);
    ReleaseTagIsATag(version);
    forall c | c in tag
      ensures !IsSpace(c)
    {
      TagCharIsNoSpace(c);
    }
    NothingToTrim(tag);
  }

  // ----- Moving a reference -----

  lemma SplitTagged(repo: string, tag: string)
    requires '@' !in repo && forall c <- tag :: c !in {':', '/', '@'}
    ensures SplitImageRef(repo + ":" + tag) == Ref(repo, tag, "")
  {
    var ref := repo + ":" + tag;
    var colon := LastIndex(ref, ':');
    assert ref[|repo|] == ':';
    forall j | |repo| < j < |ref|
      ensures ref[j] !in {':', '/', '@'}
    {
      assert ref[j] == tag[j - |repo| - 1] && tag[j - |repo| - 1] in tag;
    }
    assert colon == |repo|;
    assert LastIndex(ref, '/') < |repo|;
    assert ref[..colon] == repo && ref[colon + 1..] == tag;
    assert '@' !in ref;
  }

  /** Moving a reference keeps its registry and repository and gives it exactly the release's tag. */
  lemma SwapKeepsRepository(ref: string, version: string)
    requires SwapImageTag(ref, version).Swapped?
    ensures SplitImageRef(SwapImageTag(ref, version).ref) == Ref(SplitImageRef(ref).repo, ReleaseTag(version), "")
    ensures !IsOperatorTagPin(SwapImageTag(ref, version).ref)
  {
    hide ReleaseTag, TagChar, LastIndex;
    var split, tag := SplitImageRef(ref), ReleaseTag(version);
    ReleaseTagIsATag(version);
    forall c | c in tag
      ensures c !in {':', '/', '@'}
    {
      TagCharIsNoSpace(c);
    }
    SwappedHasNoDigest(ref);
    SplitTagged(split.repo, tag);
    ReleaseTagIsSettled(version);
  }

  lemma SwappedHasNoDigest(ref: string)
    requires SplitImageRef(ref).digest == ""
    ensures '@' !in SplitImageRef(ref).repo
  {
    BeforeIsPrefix(ref, {'@'});
  }

  /** The last move wins, and moving to the same release again changes nothing. */
  lemma LaterSwapWins(ref: string, first: string, second: string)
    requires SwapImageTag(ref, first).Swapped? && ReleaseTag(second) != ""
    ensures SwapImageTag(SwapImageTag(ref, first).ref, second) == SwapImageTag(ref, second)
  {
    hide ReleaseTag, SplitImageRef;
    SwapKeepsRepository(ref, first);
  }

  /** A move is refused exactly for a version that is no release, a digest pin, or a missing repository. */
  lemma SwapRefusesExactly(ref: string, version: string)
    ensures SwapImageTag(ref, version).Swapped? <==>
            ReleaseTag(version) != "" && SplitImageRef(ref).repo != "" &&
            ('@' in ref ==> ref[|ref| - 1] == '@' && '@' !in ref[..|ref| - 1])
  {
    hide ReleaseTag;
    BeforeIsPrefix(ref, {'@'});
    if '@' in ref {
      var at := |Before(ref, {'@'})|;
      assert forall i | 0 <= i < at :: ref[i] in Before(ref, {'@'});
      assert ref[at] == '@';
      assert at < |ref| - 1 ==> '@' in ref[..|ref| - 1] by {
        if at < |ref| - 1 {
          assert ref[..|ref| - 1][at] == '@';
        }
      }
    }
  }
}
