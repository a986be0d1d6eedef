/**
 * cli/internal/skillgen/apply.go, for operators that own a whole SKILL.md: the skill file, the
 * provenance sidecar and the managed reference files beside it. Texts are newline-normalized;
 * the sidecar's SHA-256 is an ideal hash, so it is kept as the text it was taken of.
 */
module SkillInstall {
  import opened Prelude
  import opened Text

  /** What one release of the tool ships for a skill. `names` lists the references in order. */
  datatype Release = Release(body: string, version: string, names: seq<string>, texts: map<string, string>)

  datatype Sidecar = Sidecar(hash: string, references: seq<string>, version: string)

  /** The skill directory; `references` holds every file under references/, whoever put it there. */
  datatype Disk = Disk(skill: Option<string>, sidecar: Option<Sidecar>, references: map<string, string>)

  datatype Outcome = Outcome(created: bool, changed: bool, skipped: bool, userEdits: bool, newerInstalled: bool)

  /** A flat file name, on a POSIX host. */
  predicate ValidReferenceName(name: string) {
    name != "" && name != "." && name != ".." && forall c <- name :: c != '/' && c != '\\'
  }

  ghost predicate ValidRelease(r: Release) {
    && r.texts.Keys == (set name <- r.names)
    && (forall name <- r.names :: ValidReferenceName(name))
    && r.body != "" && r.body[|r.body| - 1] == '\n'
  }

  // ----- Content versions -----

  predicate IsQuote(c: char) {
    c == '"' || c == '\''
  }

  function TrimLeftQuotes(s: string): string {
    if s != "" && IsQuote(s[0]) then TrimLeftQuotes(s[1..]) else s
  }

  function TrimRightQuotes(s: string): string {
    if s != "" && IsQuote(s[|s| - 1]) then TrimRightQuotes(s[..|s| - 1]) else s
  }

  predicate TokenChar(c: char) {
    'a' <= c <= 'z' || 'A' <= c <= 'Z' || '0' <= c <= '9' || c in "._-"
  }

  /** `versionToken`: a short run of harmless characters, or nothing. */
  function VersionToken(v: string): string {
    var t := TrimRightQuotes(TrimLeftQuotes(TrimSpace(v)));
    if |t| <= 32 && forall c <- t :: TokenChar(c) then t else ""
  }

  function Decimal(digits: string): nat {
    if digits == "" then 0
    else
      var c := digits[|digits| - 1];
      10 * Decimal(digits[..|digits| - 1]) + if '0' <= c <= '9' then c as int - '0' as int else 0
  }

  const MAX_INT64: nat := 0x7FFF_FFFF_FFFF_FFFF

  /** One component: `strconv.Atoi` without a plus sign, and not negative. */
  function ParsePart(p: string): Option<nat> {
    var digits := if p != "" && p[0] == '-' then p[1..] else p;
    if digits == "" || (exists c <- digits :: !('0' <= c <= '9')) || Decimal(digits) > MAX_INT64 then None
    else if p[0] == '-' && Decimal(digits) > 0 then None
    else Some(Decimal(digits))
  }

  function ParseParts(parts: seq<string>): Option<seq<nat>> {
    if parts == [] then Some([])
    else
      var first, rest := ParsePart(parts[0]), ParseParts(parts[1..]);
      if first.None? || rest.None? then None else Some([first.value] + rest.value)
  }

  /** `parseVersion`. */
  function ParseVersion(version: string): Option<seq<nat>> {
    var trimmed := TrimSpace(version);
    var v := if trimmed != "" && trimmed[0] == 'v' then trimmed[1..] else trimmed;
    if v == "" then None else ParseParts(SplitAt(v, '.'))
  }

  function PartAt(parts: seq<nat>, i: nat): nat {
    if i < |parts| then parts[i] else 0
  }

  function NewerFrom(a: seq<nat>, b: seq<nat>, i: nat): bool
    decreases |a| + |b| - i
  {
    if i >= |a| && i >= |b| then false
    else if PartAt(a, i) != PartAt(b, i) then PartAt(a, i) > PartAt(b, i)
    else NewerFrom(a, b, i + 1)
  }

  /** `CompareVersions` says newer: both sides are numbers, missing components count as zero. */
  predicate NewerThan(a: string, b: string) {
    var x, y := ParseVersion(a), ParseVersion(b);
    x.Some? && y.Some? && NewerFrom(x.value, y.value, 0)
  }

  lemma {:induction false} NewerFromExactly(a: seq<nat>, b: seq<nat>, i: nat)
    ensures NewerFrom(a, b, i) <==> exists j: nat :: i <= j && LargerFirstAt(a, b, i, j)
    decreases |a| + |b| - i
  {
    if i < |a| || i < |b| {
      var n := i + 1;
      NewerFromExactly(a, b, n);
      if PartAt(a, i) > PartAt(b, i) {
        assert LargerFirstAt(a, b, i, i);
      } else if PartAt(a, i) == PartAt(b, i) {
        if j: nat :| i <= j && LargerFirstAt(a, b, i, j) {
          assert n <= j && LargerFirstAt(a, b, n, j);
        }
        if j: nat :| n <= j && LargerFirstAt(a, b, n, j) {
          assert LargerFirstAt(a, b, i, j);
        }
      } else {
        assert forall j: nat | i < j :: !LargerFirstAt(a, b, i, j);
      }
    }
  }

  /** From `i` on the two agree up to `j`, and there the first is larger; a missing part is 0. */
  ghost predicate LargerFirstAt(a: seq<nat>, b: seq<nat>, i: nat, j: nat) {
    && (forall k | i <= k < j :: (if k < |a| then a[k] else 0) == if k < |b| then b[k] else 0)
    && (if j < |a| then a[j] else 0) > if j < |b| then b[j] else 0
  }

  /** A version is newer exactly when both are numbers and, where they first differ, its own is the larger. */
  lemma NewerExactly(a: string, b: string)
    ensures NewerThan(a, b) <==>
            && ParseVersion(a).Some? && ParseVersion(b).Some?
            && exists j: nat :: LargerFirstAt(ParseVersion(a).value, ParseVersion(b).value, 0, j)
  {
    hide ParseVersion, NewerFrom, LargerFirstAt;
    if ParseVersion(a).Some? && ParseVersion(b).Some? {
      NewerFromExactly(ParseVersion(a).value, ParseVersion(b).value, 0);
    }
  }

  /** A number as a version writes it. */
  function Digits(n: nat): string {
    var last := '0' + (n % 10) as char;
    if n < 10 then [last] else Digits(n / 10) + [last]
  }

  lemma {:induction false} DigitsReadBack(n: nat)
    ensures Digits(n) != "" && (forall c <- Digits(n) :: '0' <= c <= '9') && Decimal(Digits(n)) == n
  {
    if n >= 10 {
      DigitsReadBack(n / 10);
      assert Digits(n)[..|Digits(n)| - 1] == Digits(n / 10);
    } else {
      assert Digits(n)[..0] == "" && Decimal("") == 0;
    }
  }

  function Dotted(parts: seq<nat>): string {
    if parts == [] then ""
    else if |parts| == 1 then Digits(parts[0])
    else Digits(parts[0]) + "." + Dotted(parts[1..])
  }

  lemma PartReadsBack(n: nat)
    requires n <= MAX_INT64
    ensures ParsePart(Digits(n)) == Some(n)
  {
    DigitsReadBack(n);
    assert Digits(n)[0] in Digits(n);
  }

  lemma {:induction false} DottedReadsBack(parts: seq<nat>)
    requires parts != [] && forall n <- parts :: n <= MAX_INT64
    ensures Dotted(parts) != "" && Dotted(parts)[0] != 'v' && (forall c <- Dotted(parts) :: '0' <= c <= '9' || c == '.')
    ensures ParseParts(SplitAt(Dotted(parts), '.')) == Some(parts)
    decreases parts
  {
    hide ParsePart, Digits, MAX_INT64;
    assert parts[0] in parts && forall n <- parts[1..] :: n in parts;
    DigitsReadBack(parts[0]);
    PartReadsBack(parts[0]);
    var first := Digits(parts[0]);
    assert first[0] in first;
    if |parts| == 1 {
      SplitWithout(first, '.');
      OnePart(first);
      assert [parts[0]] == parts;
    } else {
      DottedReadsBack(parts[1..]);
      SplitFirst(first, '.', Dotted(parts[1..]));
      MoreParts(first, SplitAt(Dotted(parts[1..]), '.'));
      assert [parts[0]] + parts[1..] == parts;
    }
  }

  lemma OnePart(p: string)
    requires ParsePart(p).Some?
    ensures ParseParts([p]) == Some([ParsePart(p).value])
  {
    var n := ParsePart(p).value;
    assert [p][1..] == [] && ParseParts([]) == Some([]) && [n] + [] == [n];
  }

  lemma MoreParts(p: string, rest: seq<string>)
    requires ParsePart(p).Some? && ParseParts(rest).Some?
    ensures ParseParts([p] + rest) == Some([ParsePart(p).value] + ParseParts(rest).value)
  {
    assert ([p] + rest)[1..] == rest;
  }

  /** Every dotted version that fits is read as its numbers, with or without a leading v. */
  lemma VersionReadsBack(parts: seq<nat>)
    requires parts != [] && forall n <- parts :: n <= MAX_INT64
    ensures ParseVersion(Dotted(parts)) == Some(parts) && ParseVersion("v" + Dotted(parts)) == Some(parts)
  {
    hide ParseParts, Dotted, IsSpace, MAX_INT64;
    DottedReadsBack(parts);
    var plain := Dotted(parts);
    forall c | c in "v" + plain
      ensures !IsSpace(c)
    {
      TokenCharIsPlain(c);
    }
    NothingToTrim(plain);
    NothingToTrim("v" + plain);
    assert ("v" + plain)[1..] == plain;
  }

  lemma {:induction false} CharInPart(s: string, c: char)
    requires c in s && c != '.'
    ensures exists p <- SplitAt(s, '.') :: c in p
    decreases s
  {
    var rest := SplitAt(s[1..], '.');
    assert s == [s[0]] + s[1..];
    if c in s[1..] {
      CharInPart(s[1..], c);
      var p :| p in rest && c in p;
      var k :| 0 <= k < |rest| && rest[k] == p;
      if s[0] == '.' {
        assert SplitAt(s, '.')[k + 1] == p;
      } else {
        assert c in SplitAt(s, '.')[k];
      }
    } else {
      assert c in SplitAt(s, '.')[0];
    }
  }

  lemma {:induction false} AllPartsParse(parts: seq<string>, p: string)
    requires ParseParts(parts).Some? && p in parts
    ensures ParsePart(p).Some?
    decreases parts
  {
    assert parts == [parts[0]] + parts[1..];
    if p != parts[0] {
      AllPartsParse(parts[1..], p);
    }
  }

  lemma PartIsNumeric(p: string, c: char)
    requires c in p && !('0' <= c <= '9') && c != '-'
    ensures ParsePart(p).None?
  {
    assert p == [p[0]] + p[1..];
    assert p[0] == '-' ==> c in p[1..];
  }

  /** A version with any other character than digits, dots, minus signs and a leading v is no version. */
  lemma OtherVersionsAreUnknown(version: string, c: char)
    requires c in TrimSpace(version) && !('0' <= c <= '9') && c != '.' && c != '-' && c != 'v'
    ensures ParseVersion(version).None?
  {
    hide TrimSpace, ParsePart, ParseParts, SplitAt;
    var trimmed := TrimSpace(version);
    var v := if trimmed[0] == 'v' then trimmed[1..] else trimmed;
    assert trimmed == [trimmed[0]] + trimmed[1..];
    assert c in v;
    if ParseVersion(version).Some? {
      CharInPart(v, c);
      var p :| p in SplitAt(v, '.') && c in p;
      PartIsNumeric(p, c);
      AllPartsParse(SplitAt(v, '.'), p);
      assert false;
    }
  }

  lemma NeverNewerThanItself(v: string)
    ensures !NewerThan(v, v)
  {
    hide ParseVersion;
    if ParseVersion(v).Some? {
      NeverNewerFrom(ParseVersion(v).value, 0);
    }
  }

  lemma {:induction false} NeverNewerFrom(a: seq<nat>, i: nat)
    ensures !NewerFrom(a, a, i)
    decreases |a| + |a| - i
  {
    if i < |a| {
      NeverNewerFrom(a, i + 1);
    }
  }

  lemma NoVersionIsNeverOlder(v: string)
    ensures !NewerThan(v, "")
  {
  }

  lemma TokenCharIsPlain(c: char)
    requires TokenChar(c)
    ensures !IsSpace(c) && !IsQuote(c)
  {
  }

  lemma {:induction false} NoQuotesToTrim(s: string)
    requires forall c <- s :: !IsQuote(c)
    ensures TrimRightQuotes(TrimLeftQuotes(s)) == s
  {
    if s != "" {
      assert s[0] in s && s[|s| - 1] in s;
    }
  }

  /** A recorded token is its own token. */
  lemma VersionTokenSettles(v: string)
    ensures VersionToken(VersionToken(v)) == VersionToken(v)
  {
    hide TokenChar, IsSpace, IsQuote, TrimSpace, TrimLeftQuotes, TrimRightQuotes;
    var t := VersionToken(v);
    forall c | c in t
      ensures !IsSpace(c) && !IsQuote(c)
    {
      TokenCharIsPlain(c);
    }
    NothingToTrim(t);
    NoQuotesToTrim(t);
  }

  /** What a sidecar records is one line of at most 32 harmless characters, and such a version as it is. */
  lemma VersionTokenIsHarmless(v: string)
    ensures |VersionToken(v)| <= 32
    ensures forall c <- VersionToken(v) :: 'a' <= c <= 'z' || 'A' <= c <= 'Z' || '0' <= c <= '9' || c in "._-"
    ensures
      |v| <= 32 && (forall c <- v :: 'a' <= c <= 'z' || 'A' <= c <= 'Z' || '0' <= c <= '9' || c in "._-") ==>
        VersionToken(v) == v && VersionToken(" \"" + v + "\" ") == v
  {
    hide IsSpace, IsQuote, TrimLeft, TrimRight, TrimLeftQuotes, TrimRightQuotes;
    if |v| <= 32 && forall c <- v :: TokenChar(c) {
      hide TokenChar;
      forall c | c in v
        ensures !IsSpace(c) && !IsQuote(c)
      {
        TokenCharIsPlain(c);
      }
      NothingToTrim(v);
      NoQuotesToTrim(v);
      QuotesAreTrimmed(v);
    }
  }

  lemma QuotesAreTrimmed(v: string)
    requires forall c <- v :: !IsSpace(c) && !IsQuote(c)
    ensures TrimRightQuotes(TrimLeftQuotes(TrimSpace(" \"" + v + "\" "))) == v
  {
    var quoted := "\"" + v + "\"";
    var all := " \"" + v + "\" ";
    assert all[1..] == quoted + " " && quoted[0] == '"' && !IsSpace('"');
    assert TrimLeft(all) == quoted + " ";
    assert (quoted + " ")[..|quoted|] == quoted;
    assert TrimRight(quoted + " ") == TrimRight(quoted) == quoted;
    hide IsSpace;
    assert quoted[1..] == v + "\"";
    assert v != "" ==> v[0] in v && v[|v| - 1] in v;
    if v == "" {
      assert TrimLeftQuotes("\"") == TrimLeftQuotes("\""[1..]) == "";
      assert quoted == "\"\"";
    } else {
      assert TrimLeftQuotes(quoted) == TrimLeftQuotes(v + "\"") == v + "\"";
      assert (v + "\"")[..|v|] == v;
      assert TrimRightQuotes(v + "\"") == TrimRightQuotes(v) == v;
    }
  }

  lemma {:induction false} QuotesTrimmedKeep(s: string, c: char)
    requires c in s && !IsQuote(c)
    ensures c in TrimLeftQuotes(s) && c in TrimRightQuotes(s)
    decreases |s|
  {
    var n := |s| - 1;
    assert s == [s[0]] + s[1..] && s == s[..n] + [s[n]];
    if IsQuote(s[0]) {
      QuotesTrimmedKeep(s[1..], c);
    }
    if IsQuote(s[n]) {
      QuotesTrimmedKeep(s[..n], c);
    }
  }

  /** A version with any other character inside is recorded as none. */
  lemma OtherVersionsAreDropped(v: string, c: char)
    requires c in TrimSpace(v) && c != '"' && c != '\'' && c != '.' && c != '_' && c != '-'
    requires !('a' <= c <= 'z' || 'A' <= c <= 'Z' || '0' <= c <= '9')
    ensures VersionToken(v) == ""
  {
    hide TrimSpace, TrimLeftQuotes, TrimRightQuotes;
    QuotesTrimmedKeep(TrimSpace(v), c);
    QuotesTrimmedKeep(TrimLeftQuotes(TrimSpace(v)), c);
  }

  // ----- Names of references -----

  /** The directory a relative path leads to from another, component by component. */
  function Resolve(dir: seq<string>, path: seq<string>): seq<string>
    decreases |path|
  {
    if path == [] then dir
    else if path[0] == "" || path[0] == "." then Resolve(dir, path[1..])
    else if path[0] == ".." then Resolve(if dir == [] then [] else dir[..|dir| - 1], path[1..])
    else Resolve(dir + [path[0]], path[1..])
  }

  /** A name without a separator is safe exactly if it leads to a file of that name right under the directory. */
  lemma ValidNameStaysInside(dir: seq<string>, name: string)
    requires '/' !in name && '\\' !in name
    ensures ValidReferenceName(name) <==> Resolve(dir, SplitAt(name, '/')) == dir + [name]
  {
    SplitWithout(name, '/');
    assert [name][1..] == [];
  }

  lemma SafeNameHasNoSeparator(name: string)
    requires ValidReferenceName(name)
    ensures '/' !in name && '\\' !in name
  {
  }

  // ----- The states of a skill directory -----

  /** `dedicatedFileHash`: trailing newlines do not count. */
  function Fingerprint(text: string): string {
    if text != "" && text[|text| - 1] == '\n' then Fingerprint(text[..|text| - 1]) else text
  }

  predicate EndsInNewline(text: string) {
    text != "" && text[|text| - 1] == '\n'
  }

  /** One text up to trailing newlines: a common text that does not end in one, and newlines after it. */
  ghost predicate SameUpToNewlines(a: string, b: string) {
    exists core: string, m: nat, n: nat ::
      !EndsInNewline(core) && a == core + Newlines(m) && b == core + Newlines(n)
  }

  function Newlines(n: nat): string {
    seq(n, _ => '\n')
  }

  lemma {:induction false} FingerprintCuts(text: string)
    ensures !EndsInNewline(Fingerprint(text)) && |Fingerprint(text)| <= |text|
    ensures text == Fingerprint(text) + Newlines(|text| - |Fingerprint(text)|)
    decreases text
  {
    if EndsInNewline(text) {
      var init := text[..|text| - 1];
      FingerprintCuts(init);
      assert text == init + "\n";
    }
  }

  lemma {:induction false} FingerprintOf(core: string, n: nat)
    requires !EndsInNewline(core)
    ensures Fingerprint(core + Newlines(n)) == core
    decreases n
  {
    if n == 0 {
      assert core + Newlines(n) == core;
    } else {
      var text := core + Newlines(n);
      FingerprintOf(core, n - 1);
      assert text[..|text| - 1] == core + Newlines(n - 1);
    }
  }

  /** The sidecar's hash tells two texts apart exactly when they differ beyond trailing newlines. */
  lemma FingerprintsAgreeExactly(a: string, b: string)
    ensures Fingerprint(a) == Fingerprint(b) <==> SameUpToNewlines(a, b)
  {
    hide Fingerprint, EndsInNewline;
    FingerprintCuts(a);
    FingerprintCuts(b);
    if core: string, m: nat, n: nat :|
      !EndsInNewline(core) && a == core + Newlines(m) && b == core + Newlines(n)
    {
      FingerprintOf(core, m);
      FingerprintOf(core, n);
    }
  }

  /** `ownedFileUserEdited`: without a sidecar the file is taken for the user's. */
  predicate UserEdited(d: Disk) {
    d.skill.Some? && (d.sidecar.None? || Fingerprint(d.skill.value) != d.sidecar.value.hash)
  }

  /** The version an install records: the sidecar's, or else the one in the file's frontmatter. */
  function InstalledVersion(d: Disk, frontmatter: string -> string): string {
    if d.skill.None? then ""
    else if d.sidecar.Some? && VersionToken(d.sidecar.value.version) != "" then VersionToken(d.sidecar.value.version)
    else VersionToken(frontmatter(d.skill.value))
  }

  function Recorded(d: Disk): seq<string> {
    if d.sidecar.Some? then d.sidecar.value.references else []
  }

  predicate BodyDiffers(d: Disk, r: Release) {
    d.skill != Some(r.body)
  }

  predicate VersionDrifts(d: Disk, r: Release) {
    d.sidecar.Some? && d.sidecar.value.version != VersionToken(r.version)
  }

  /** The dropped names: recorded by an earlier apply, not shipped any more, and removable. */
  function Dropped(d: Disk, r: Release): set<string> {
    set name <- Recorded(d) | name !in r.names && ValidReferenceName(name)
  }

  function ReferencesAfter(d: Disk, r: Release): map<string, string> {
    (d.references - Dropped(d, r)) + r.texts
  }

  predicate ReferencesDiffer(d: Disk, r: Release) {
    ReferencesAfter(d, r) != d.references
  }

  /** `writeSidecar`. */
  function Stamp(r: Release): Sidecar {
    Sidecar(Fingerprint(r.body), r.names, VersionToken(r.version))
  }

  predicate WritesSidecar(d: Disk, r: Release) {
    BodyDiffers(d, r) || VersionDrifts(d, r) || (d.sidecar.Some? && d.sidecar.value.references != r.names)
  }

  predicate RefusesNewer(d: Disk, r: Release, force: bool, frontmatter: string -> string) {
    d.skill.Some? && !force && !UserEdited(d) && NewerThan(InstalledVersion(d, frontmatter), VersionToken(r.version))
  }

  predicate RefusesEdited(d: Disk, force: bool) {
    d.skill.Some? && !force && UserEdited(d)
  }

  predicate Refuses(d: Disk, r: Release, force: bool, frontmatter: string -> string) {
    RefusesNewer(d, r, force, frontmatter) || RefusesEdited(d, force)
  }

  predicate Changes(d: Disk, r: Release) {
    BodyDiffers(d, r) || VersionDrifts(d, r) || ReferencesDiffer(d, r)
  }

  function OutcomeOf(d: Disk, r: Release, force: bool, frontmatter: string -> string): Outcome {
    if RefusesNewer(d, r, force, frontmatter) then Outcome(false, false, false, false, true)
    else if RefusesEdited(d, force) then Outcome(false, false, false, true, false)
    else Outcome(d.skill.None?, Changes(d, r), !Changes(d, r), false, false)
  }

  function DiskAfter(d: Disk, r: Release, force: bool, frontmatter: string -> string): Disk {
    if Refuses(d, r, force, frontmatter) then d
    else
      Disk(Some(r.body),
           if WritesSidecar(d, r) then Some(Stamp(r)) else d.sidecar,
           ReferencesAfter(d, r))
  }

  /** A forced apply over a file that has no sidecar and already is the release's. */
  predicate AppliesBlindly(d: Disk, r: Release) {
    d.sidecar.None? && d.skill == Some(r.body)
  }

  /** What a caller can check before an apply: forced, blind, and with references to ship. */
  predicate Strands(d: Disk, r: Release, force: bool) {
    force && AppliesBlindly(d, r) && r.names != []
  }

  predicate Removes(d: Disk, force: bool) {
    d.skill.Some? && (force || !UserEdited(d))
  }

  /** `Remove` as a function of the disk. */
  function DiskAfterRemove(d: Disk, r: Release, force: bool): Disk {
    if !Removes(d, force) then d
    else Disk(None, None, d.references - Removable(Recorded(d) + r.names))
  }

  // ----- The apply as the tool runs it -----

  class SkillDir {
    var skill: Option<string>
    var sidecar: Option<Sidecar>
    var references: map<string, string>

    ghost function Contents(): Disk
      reads this
    {
      Disk(skill, sidecar, references)
    }

    constructor ()
      ensures Contents() == Disk(None, None, map[])
    {
      skill, sidecar, references := None, None, map[];
    }

    /** `applyOwnedReferences`: write what is not current, then prune what is recorded and dropped. */
    method ApplyReferences(r: Release, recorded: seq<string>) returns (changed: bool)
      requires ValidRelease(r) && recorded == Recorded(Contents())
      modifies this`references
      ensures references == ReferencesAfter(old(Contents()), r)
      ensures changed <==> ReferencesDiffer(old(Contents()), r)
    {
      var wrote := WriteReferences(r);
      var pruned := PruneReferences(r, recorded);
      changed := wrote || pruned;
      WritesAndPrunesDiffer(old(Contents()), r);
    }

    method WriteReferences(r: Release) returns (changed: bool)
      requires ValidRelease(r)
      modifies this`references
      ensures references == old(references) + r.texts
      ensures changed <==> references != old(references)
    {
      hide TextsOf, ValidRelease;
      changed := false;
      AllTexts(r);
      ghost var before := references;
      assert before == WrittenUpTo(before, r, 0) by { NothingWritten(before, r); }
      for i := 0 to |r.names|
        invariant references == WrittenUpTo(before, r, i)
        invariant changed <==> references != before
      {
        var name := r.names[i];
        WriteStep(before, r, i);
        if name !in references || references[name] != r.texts[name] {
          references := references[name := r.texts[name]];
          changed := true;
        }
      }
    }

    method PruneReferences(r: Release, recorded: seq<string>) returns (changed: bool)
      modifies this`references
      ensures references == old(references) - Gone(recorded, r)
      ensures changed <==> references != old(references)
    {
      changed := false;
      for i := 0 to |recorded|
        invariant references == old(references) - Gone(recorded[..i], r)
        invariant changed <==> references != old(references)
      {
        var name := recorded[i];
        GoneStep(recorded, i, r);
        if name !in r.names && ValidReferenceName(name) && name in references {
          references := references - {name};
          assert name in old(references);
          changed := true;
        }
      }
      assert recorded[..|recorded|] == recorded;
    }

    /** `pendingReferenceChanges`: the read-only mirror. */
    method PendingReferenceChanges(r: Release, recorded: seq<string>) returns (pending: bool)
      requires ValidRelease(r) && recorded == Recorded(Contents())
      ensures pending <==> ReferencesDiffer(Contents(), r)
    {
      for i := 0 to |r.names|
        invariant forall j | 0 <= j < i :: r.names[j] in references && references[r.names[j]] == r.texts[r.names[j]]
      {
        var name := r.names[i];
        if name !in references || references[name] != r.texts[name] {
          assert name in ReferencesAfter(Contents(), r);
          return true;
        }
      }
      for i := 0 to |recorded|
        invariant forall j | 0 <= j < i :: recorded[j] in references ==> recorded[j] !in Dropped(Contents(), r)
      {
        var name := recorded[i];
        if name !in r.names && ValidReferenceName(name) && name in references {
          assert name in Dropped(Contents(), r) && name !in ReferencesAfter(Contents(), r);
          return true;
        }
      }
      NothingPending(Contents(), r);
      return false;
    }

    /** `Apply` on an operator that owns the whole file. */
    method Apply(r: Release, force: bool, dryRun: bool, frontmatter: string -> string) returns (out: Outcome)
      requires ValidRelease(r)
      modifies this
      ensures UserEdited(old(Contents())) && !force ==>
                Contents() == old(Contents()) && out == Outcome(false, false, false, true, false)
      ensures out == OutcomeOf(old(Contents()), r, force, frontmatter)
      ensures Contents() == if dryRun then old(Contents()) else DiskAfter(old(Contents()), r, force, frontmatter)
    {
      out := Outcome(skill.None?, false, false, false, false);
      if !out.created && !force {
        var edited := sidecar.None? || Fingerprint(skill.value) != sidecar.value.hash;
        var installed := VersionToken(frontmatter(skill.value));
        if sidecar.Some? && VersionToken(sidecar.value.version) != "" {
          installed := VersionToken(sidecar.value.version);
        }
        if !edited && NewerThan(installed, VersionToken(r.version)) {
          return out.(newerInstalled := true);
        }
        if edited {
          return out.(userEdits := true);
        }
      }
      var bodyChanged := skill != Some(r.body);
      var recorded := if sidecar.Some? then sidecar.value.references else [];
      var versionDrift := sidecar.Some? && sidecar.value.version != VersionToken(r.version);
      out := out.(changed := bodyChanged || versionDrift, skipped := !(bodyChanged || versionDrift));
      if dryRun {
        var pending := PendingReferenceChanges(r, recorded);
        if pending {
          out := out.(changed := true, skipped := false);
        }
        return;
      }
      if bodyChanged {
        skill := Some(r.body);
      }
      var refChanged := ApplyReferences(r, recorded);
      if refChanged {
        out := out.(changed := true, skipped := false);
      }
      if bodyChanged || versionDrift || (sidecar.Some? && sidecar.value.references != r.names) {
        sidecar := Some(Stamp(r));
      }
    }

    /** `removeOwnedFile`: everything the sidecar recorded and everything shipped now goes. */
    method Remove(r: Release, force: bool) returns (removed: bool)
      requires ValidRelease(r)
      modifies this
      ensures removed <==> Removes(old(Contents()), force)
      ensures Contents() == DiskAfterRemove(old(Contents()), r, force)
    {
      if skill.None? || (!force && (sidecar.None? || Fingerprint(skill.value) != sidecar.value.hash)) {
        return false;
      }
      var names := (if sidecar.Some? then sidecar.value.references else []) + r.names;
      skill, sidecar := None, None;
      var seen: set<string> := {};
      ghost var before := references;
      for i := 0 to |names|
        invariant skill.None? && sidecar.None?
        invariant seen == set name <- names[..i]
        invariant references == before - Removable(names[..i])
      {
        var name := names[i];
        assert names[..i + 1] == names[..i] + [name];
        if name !in seen {
          if ValidReferenceName(name) {
            references := references - {name};
          }
          seen := seen + {name};
        }
      }
      assert names[..|names|] == names;
      removed := true;
    }
  }

  function Removable(names: seq<string>): set<string> {
    set name <- names | ValidReferenceName(name)
  }

  function TextsOf(r: Release, names: seq<string>): map<string, string>
    requires forall name <- names :: name in r.texts
  {
    map name | name in names :: r.texts[name]
  }

  function WrittenUpTo(before: map<string, string>, r: Release, i: nat): map<string, string>
    requires i <= |r.names| && forall name <- r.names :: name in r.texts
  {
    before + TextsOf(r, r.names[..i])
  }

  lemma AllTexts(r: Release)
    requires ValidRelease(r)
    ensures (forall name <- r.names :: name in r.texts) && TextsOf(r, r.names[..|r.names|]) == r.texts
  {
    assert r.names[..|r.names|] == r.names;
  }

  lemma NothingWritten(before: map<string, string>, r: Release)
    requires forall name <- r.names :: name in r.texts
    ensures WrittenUpTo(before, r, 0) == before
  {
  }

  lemma WriteStep(before: map<string, string>, r: Release, i: nat)
    requires i < |r.names| && forall name <- r.names :: name in r.texts
    ensures
      var name, now, next := r.names[i], WrittenUpTo(before, r, i), WrittenUpTo(before, r, i + 1);
      && next == now[name := r.texts[name]]
      && (name in now && now[name] == r.texts[name] ==> next == now)
      && (name !in now || now[name] != r.texts[name] ==> next != before)
  {
    var name := r.names[i];
    assert r.names[..i + 1] == r.names[..i] + [name];
    assert TextsOf(r, r.names[..i + 1]) == TextsOf(r, r.names[..i])[name := r.texts[name]];
    var now := WrittenUpTo(before, r, i);
    if name !in now || now[name] != r.texts[name] {
      assert name !in r.names[..i];
      assert WrittenUpTo(before, r, i + 1)[name] == r.texts[name];
    }
  }

  function Gone(names: seq<string>, r: Release): set<string> {
    set name <- names | name !in r.names && ValidReferenceName(name)
  }

  lemma GoneStep(names: seq<string>, i: nat, r: Release)
    requires i < |names|
    ensures Gone(names[..i + 1], r) == Gone(names[..i], r) + Gone([names[i]], r)
  {
    assert names[..i + 1] == names[..i] + [names[i]];
  }

  lemma WritesAndPrunesDiffer(d: Disk, r: Release)
    requires ValidRelease(r)
    ensures
      var written := d.references + r.texts;
      var pruned := written - Gone(Recorded(d), r);
      && pruned == ReferencesAfter(d, r)
      && (ReferencesDiffer(d, r) <==> written != d.references || pruned != written)
  {
    var written, gone := d.references + r.texts, Gone(Recorded(d), r);
    assert gone == Dropped(d, r) && gone !! r.texts.Keys;
    assert written - gone == ReferencesAfter(d, r);
    if written - gone == d.references {
      assert forall name <- r.texts :: name in d.references && d.references[name] == r.texts[name];
      assert written == d.references;
    }
  }

  lemma NothingPending(d: Disk, r: Release)
    requires ValidRelease(r)
    requires forall name <- r.names :: name in d.references && d.references[name] == r.texts[name]
    requires forall name <- d.references :: name !in Dropped(d, r)
    ensures !ReferencesDiffer(d, r)
  {
  }

  // ----- Single applies -----

  /**
   * Applying the same release again, unforced, is skipped and touches nothing - exactly unless the
   * first apply was forced over an edited file in a way that left no fresh sidecar.
   */
  lemma RepeatedApplyIsSkippedExactly(d: Disk, r: Release, force: bool, frontmatter: string -> string)
    requires ValidRelease(r) && !Refuses(d, r, force, frontmatter)
    ensures
      var once := DiskAfter(d, r, force, frontmatter);
      && (OutcomeOf(once, r, false, frontmatter) == Outcome(false, false, true, false, false) <==>
          !UserEdited(d) || WritesSidecar(d, r))
      && DiskAfter(once, r, false, frontmatter) == once
  {
    hide Fingerprint;
    var once := DiskAfter(d, r, force, frontmatter);
    hide NewerThan, VersionToken;
    VersionTokenSettles(r.version);
    NeverNewerThanItself(VersionToken(r.version));
    NoVersionIsNeverOlder(InstalledVersion(once, frontmatter));
    SettledReferences(d, r);
    assert d.skill.Some? && !UserEdited(d) && !WritesSidecar(d, r) ==>
        once.sidecar == d.sidecar && once.skill == d.skill;
  }

  /**
   * After an apply that wrote its sidecar, a text someone puts in the skill's place counts as edited exactly when
   * it differs from the release's beyond trailing newlines; a file that is gone does not.
   */
  lemma EditsAreSeenExactly(d: Disk, r: Release, force: bool, frontmatter: string -> string, text: string)
    requires !Refuses(d, r, force, frontmatter) && WritesSidecar(d, r)
    ensures
      var once := DiskAfter(d, r, force, frontmatter);
      && (UserEdited(once.(skill := Some(text))) <==> !SameUpToNewlines(text, r.body))
      && !UserEdited(once.(skill := None))
  {
    hide Fingerprint, SameUpToNewlines, Refuses, WritesSidecar;
    FingerprintsAgreeExactly(text, r.body);
  }

  /** So neither an unforced apply of any release nor an unforced removal touches the edited skill. */
  lemma EditsAreKept(d: Disk, r: Release, force: bool, frontmatter: string -> string, text: string, next: Release)
    requires !Refuses(d, r, force, frontmatter) && WritesSidecar(d, r) && !SameUpToNewlines(text, r.body)
    ensures
      var edited := DiskAfter(d, r, force, frontmatter).(skill := Some(text));
      && DiskAfter(edited, next, false, frontmatter) == edited
      && OutcomeOf(edited, next, false, frontmatter).userEdits
      && DiskAfterRemove(edited, next, false) == edited
  {
    EditsAreSeenExactly(d, r, force, frontmatter, text);
    hide Fingerprint, SameUpToNewlines, WritesSidecar;
  }

  lemma SettledReferences(d: Disk, r: Release)
    requires ValidRelease(r)
    ensures
      var settled := Disk(Some(r.body),
                          if WritesSidecar(d, r) then Some(Stamp(r)) else d.sidecar,
                          ReferencesAfter(d, r));
      !ReferencesDiffer(settled, r)
  {
    var refs := ReferencesAfter(d, r);
    assert refs + r.texts == refs;
    var settled := Disk(Some(r.body),
                        if WritesSidecar(d, r) then Some(Stamp(r)) else d.sidecar,
                        refs);
    assert forall name <- Dropped(settled, r) :: name !in refs;
    assert refs - Dropped(settled, r) == refs;
  }
}
