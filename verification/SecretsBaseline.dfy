/**
 * tools/secrets_baseline.py: the slim baseline of allowlisted findings, the pre-commit hook that
 * trims it from the staged files alone, and the check that compares it with a full scan.
 */
module SecretsBaseline {
  import opened Prelude
  import opened Text
  import Sorting

  const BASELINE_NAME := ".secrets.baseline"

  /** A finding as detect-secrets writes it; `fields` is whatever else the entry carries. */
  datatype Entry = Entry(kind: string, hash: string, line: Option<nat>, fields: string)

  type Results = map<string, seq<Entry>>

  /** Top-level fields that pin the detector configuration. */
  const SETTINGS_KEYS := ["version", "plugins_used", "filters_used"]

  /** A baseline document: its plain top-level fields, the timestamp, the findings. */
  datatype Doc = Doc(fields: map<string, string>, generatedAt: Option<string>, results: Results)

  /** The JSON codec: what a text parses to, and how a document is rendered. */
  datatype Codec = Codec(parse: string -> Option<Doc>, render: Doc -> string)

  ghost predicate Lossless(json: Codec) {
    forall d :: json.parse(json.render(d)) == Some(d)
  }

  /** The identity detect-secrets matches a finding by. */
  datatype Key = Key(file: string, kind: string, hash: string)

  function EntryKey(e: Entry): (string, string) {
    (e.kind, e.hash)
  }

  ghost function FindingKeys(results: Results): set<Key> {
    set f, e | f in results && e in results[f] :: Key(f, e.kind, e.hash)
  }

  // ----- Normal form -----

  /** The order within a file: by hash, then by type. */
  predicate EntryLeq(a: Entry, b: Entry) {
    if a.hash == b.hash then LexLeq(a.kind, b.kind) else LexLeq(a.hash, b.hash)
  }

  function Slim(e: Entry): Entry {
    e.(line := None)
  }

  function Slims(entries: seq<Entry>): (r: seq<Entry>)
    ensures |r| == |entries| && forall i | 0 <= i < |r| :: r[i] == Slim(entries[i])
  {
    seq(|entries|, i requires 0 <= i < |entries| => Slim(entries[i]))
  }

  /** The slim entries, sorted. */
  function SlimSorted(entries: seq<Entry>): seq<Entry> {
    Sorting.Sort(Slims(entries), EntryLeq)
  }

  function NormalResults(results: Results): Results {
    map f | f in results && results[f] != [] :: SlimSorted(results[f])
  }

  /** `normalize`. */
  function Normalize(d: Doc): Doc {
    d.(generatedAt := None, results := NormalResults(d.results))
  }

  lemma SlimSortedKeeps(entries: seq<Entry>)
    ensures forall x :: x in SlimSorted(entries) <==> exists y <- entries :: x == Slim(y)
    ensures SlimSorted(entries) == [] <==> entries == []
  {
    hide EntryLeq;
    EntryIsTotal();
    forall x
      ensures x in SlimSorted(entries) <==> exists y <- entries :: x == Slim(y)
    {
      Sorting.SortKeeps(Slims(entries), EntryLeq, x);
      if x in Slims(entries) {
        var i :| 0 <= i < |entries| && Slims(entries)[i] == x;
        assert entries[i] in entries;
      }
      if y :| y in entries && x == Slim(y) {
        var i :| 0 <= i < |entries| && entries[i] == y;
        assert Slims(entries)[i] == x;
      }
    }
    Sorting.SortKeeps(Slims(entries), EntryLeq, Entry("", "", None, ""));
  }

  /** Normalizing drops no finding and adds none. */
  lemma NormalizeKeepsFindings(results: Results)
    ensures FindingKeys(NormalResults(results)) == FindingKeys(results)
  {
    var normal := NormalResults(results);
    forall f <- results
      ensures f in normal <==> results[f] != []
      ensures f in normal ==> forall x :: x in normal[f] <==> exists y <- results[f] :: x == Slim(y)
    {
      SlimSortedKeeps(results[f]);
    }
    forall k | k in FindingKeys(results)
      ensures k in FindingKeys(normal)
    {
      var f, e :| f in results && e in results[f] && k == Key(f, e.kind, e.hash);
      assert Slim(e) in normal[f];
    }
  }

  /** The entries with nothing but their line numbers cleared. */
  function Cleared(entries: seq<Entry>): seq<Entry> {
    seq(|entries|, i requires 0 <= i < |entries| =>
      Entry(entries[i].kind, entries[i].hash, None, entries[i].fields))
  }

  /** By the hash first and, for one hash, by the type, in the order of strings. */
  ghost predicate InOrder(entries: seq<Entry>) {
    forall i, j | 0 <= i < j < |entries| ::
      && LexLeq(entries[i].hash, entries[j].hash)
      && (entries[i].hash == entries[j].hash ==> LexLeq(entries[i].kind, entries[j].kind))
  }

  /**
   * What `normalize` promises: without the timestamp every other top-level field stays, exactly the files that have
   * entries stay, and each holds its entries with nothing but the line numbers cleared, in order.
   */
  ghost predicate IsNormalForm(n: Doc, d: Doc) {
    && n.fields == d.fields && n.generatedAt == None
    && (forall f :: f in n.results <==> f in d.results && d.results[f] != [])
    && (forall f <- n.results :: f in d.results &&
          multiset(n.results[f]) == multiset(Cleared(d.results[f])) && InOrder(n.results[f]))
  }

  lemma NormalizeExactly(d: Doc)
    ensures IsNormalForm(Normalize(d), d)
  {
    var normal := NormalResults(d.results);
    forall f <- normal
      ensures multiset(normal[f]) == multiset(Cleared(d.results[f])) && InOrder(normal[f])
    {
      SlimSortedExactly(d.results[f]);
    }
  }

  lemma SlimSortedExactly(entries: seq<Entry>)
    ensures multiset(SlimSorted(entries)) == multiset(Cleared(entries)) && InOrder(SlimSorted(entries))
  {
    hide LexLeq;
    assert Slims(entries) == Cleared(entries);
    var sorted := SlimSorted(entries);
    assert Sorting.Sorted(sorted, EntryLeq) && multiset(sorted) == multiset(Slims(entries)) by {
      hide EntryLeq;
      EntryIsTotal();
      Sorting.SortSorts(Slims(entries), EntryLeq);
    }
    forall i, j | 0 <= i < j < |sorted|
      ensures LexLeq(sorted[i].hash, sorted[j].hash)
      ensures sorted[i].hash == sorted[j].hash ==> LexLeq(sorted[i].kind, sorted[j].kind)
    {
      assert EntryLeq(sorted[i], sorted[j]);
      LexOrder(sorted[i].hash, sorted[j].hash, "");
      LexOrder(sorted[i].hash, sorted[i].hash, "");
    }
  }

  lemma EntryOrder(a: Entry, b: Entry, c: Entry)
    ensures EntryLeq(a, b) || EntryLeq(b, a)
    ensures EntryLeq(a, b) && EntryLeq(b, c) ==> EntryLeq(a, c)
  {
    hide LexLeq;
    LexOrder(a.hash, b.hash, c.hash);
    LexOrder(b.hash, c.hash, a.hash);
    LexOrder(a.kind, b.kind, c.kind);
  }

  lemma EntryIsTotal()
    ensures Sorting.TotalOrder(EntryLeq)
  {
    hide EntryLeq;
    forall a, b, c
      ensures EntryLeq(a, b) || EntryLeq(b, a)
      ensures EntryLeq(a, b) && EntryLeq(b, c) ==> EntryLeq(a, c)
    {
      EntryOrder(a, b, c);
    }
  }

  lemma SlimSortedIsSettled(entries: seq<Entry>)
    ensures SlimSorted(SlimSorted(entries)) == SlimSorted(entries)
  {
    hide EntryLeq;
    var once := SlimSorted(entries);
    EntryIsTotal();
    SlimSortedKeeps(entries);
    assert forall i | 0 <= i < |once| :: once[i] in once && Slim(once[i]) == once[i];
    assert Slims(once) == once;
    Sorting.SortSorts(Slims(entries), EntryLeq);
    Sorting.SortedIsSettled(once, EntryLeq);
  }

  /** The normal form is a fixed point: a normalized baseline is never rewritten. */
  lemma NormalizeIsIdempotent(d: Doc)
    ensures Normalize(Normalize(d)) == Normalize(d)
  {
    var normal := NormalResults(d.results);
    forall f <- normal
      ensures normal[f] != [] && SlimSorted(normal[f]) == normal[f]
    {
      SlimSortedKeeps(d.results[f]);
      SlimSortedIsSettled(d.results[f]);
    }
    assert NormalResults(normal) == normal;
  }

  // ----- Scanning -----

  type Tree = map<string, string>

  /** What the detectors find in one file; the settings they run with are fixed. */
  type Detector = (string, string) -> seq<Entry>

  function Scan(detect: Detector, tree: Tree, targets: set<string>): Results {
    map f | f in targets && f in tree && f != BASELINE_NAME && detect(f, tree[f]) != [] :: detect(f, tree[f])
  }

  function FullScan(detect: Detector, tree: Tree): Results {
    Scan(detect, tree, tree.Keys)
  }

  /** A full scan finds, in every file but the baseline itself, exactly what the detectors do. */
  lemma ScanFindsExactly(detect: Detector, tree: Tree, k: Key)
    ensures k in FindingKeys(FullScan(detect, tree)) <==>
            && k.file in tree && k.file != ".secrets.baseline"
            && exists e <- detect(k.file, tree[k.file]) :: e.kind == k.kind && e.hash == k.hash
  {
    var scan := FullScan(detect, tree);
    if k.file in tree && k.file != ".secrets.baseline" {
      var found := detect(k.file, tree[k.file]);
      assert found != [] ==> k.file in scan && scan[k.file] == found;
      if e :| e in found && e.kind == k.kind && e.hash == k.hash {
        assert e in scan[k.file];
      }
    }
  }

  function Elements(s: seq<string>): set<string> {
    set f | f in s
  }

  lemma ElementsOfNone(s: seq<string>)
    ensures Elements(s[..0]) == {}
  {
    assert s[..0] == [];
  }

  lemma ElementsGrow(s: seq<string>, i: nat)
    requires i < |s|
    ensures Elements(s[..i + 1]) == Elements(s[..i]) + {s[i]}
  {
    assert s[..i + 1] == s[..i] + [s[i]];
  }

  function FoundIn(found: Results, f: string): seq<Entry> {
    if f in found then found[f] else []
  }

  predicate Allowlisted(entries: seq<Entry>, e: Entry) {
    exists x <- entries :: EntryKey(x) == EntryKey(e)
  }

  function StillFound(entries: seq<Entry>, found: seq<Entry>): seq<Entry> {
    if entries == [] then []
    else
      var init := StillFound(entries[..|entries| - 1], found);
      if Allowlisted(found, entries[|entries| - 1]) then init + [entries[|entries| - 1]] else init
  }

  lemma {:induction false} StillFoundKeeps(entries: seq<Entry>, found: seq<Entry>)
    ensures forall e :: e in StillFound(entries, found) <==> e in entries && Allowlisted(found, e)
    decreases entries
  {
    if entries != [] {
      var init, last := entries[..|entries| - 1], entries[|entries| - 1];
      StillFoundKeeps(init, found);
      assert entries == init + [last];
    }
  }

  function Targets(files: seq<string>, tree: Tree): seq<string> {
    if files == [] then []
    else
      var init := Targets(files[..|files| - 1], tree);
      var f := files[|files| - 1];
      if f != BASELINE_NAME && f in tree then init + [f] else init
  }

  lemma {:induction false} TargetsAre(files: seq<string>, tree: Tree)
    ensures forall f :: f in Targets(files, tree) <==> f in files && f != BASELINE_NAME && f in tree
    decreases files
  {
    if files != [] {
      var init, last := files[..|files| - 1], files[|files| - 1];
      TargetsAre(init, tree);
      assert files == init + [last];
    }
  }

  /** The trimmed allowlist: staged files keep what is still found, deleted files lose their entry. */
  function Trimmed(results: Results, targets: set<string>, found: Results, deletions: set<string>): Results {
    map f | f in results.Keys + targets && f !in deletions ::
      if f in targets then StillFound(FoundIn(results, f), FoundIn(found, f)) else results[f]
  }

  ghost predicate HasNew(results: Results, targets: set<string>, found: Results) {
    exists f, e | f in targets && e in FoundIn(found, f) :: !Allowlisted(FoundIn(results, f), e)
  }

  // ----- Comparing with a full scan -----

  datatype Problem =
    | NotJson
    | SettingsDiffer(key: string)
    | NewFinding(file: string, kind: string)
    | StaleEntry(file: string, kind: string)
    | NotNormalized

  function Field(d: Doc, key: string): Option<string> {
    if key in d.fields then Some(d.fields[key]) else None
  }

  /** Some key of the set is of this file and kind. */
  ghost predicate HasKind(keys: set<Key>, file: string, kind: string) {
    exists k <- keys :: k.file == file && k.kind == kind
  }

  /** A problem of one shape for each key of a set; the order of the messages is left open. */
  method ReportKeys(keys: set<Key>, isNew: bool) returns (problems: seq<Problem>)
    ensures forall p :: p in problems ==> if isNew then p.NewFinding? else p.StaleEntry?
    ensures isNew ==> forall f, kind :: NewFinding(f, kind) in problems <==> HasKind(keys, f, kind)
    ensures !isNew ==> forall f, kind :: StaleEntry(f, kind) in problems <==> HasKind(keys, f, kind)
    ensures problems == [] <==> keys == {}
  {
    problems := [];
    var left := keys;
    while left != {}
      invariant left <= keys
      invariant forall p :: p in problems ==> if isNew then p.NewFinding? else p.StaleEntry?
      invariant isNew ==> forall f, kind :: NewFinding(f, kind) in problems <==> HasKind(keys - left, f, kind)
      invariant !isNew ==> forall f, kind :: StaleEntry(f, kind) in problems <==> HasKind(keys - left, f, kind)
      invariant problems == [] <==> keys == left
      decreases left
    {
      var k :| k in left;
      ghost var done := keys - left;
      left := left - {k};
      assert keys - left == done + {k};
      problems := problems + [if isNew then NewFinding(k.file, k.kind) else StaleEntry(k.file, k.kind)];
    }
    assert keys - left == keys;
  }

  /** The keys of a document, computed. */
  function KeysOf(results: Results): (keys: set<Key>)
    ensures keys == FindingKeys(results)
  {
    set f, e | f in results && e in results[f] :: Key(f, e.kind, e.hash)
  }

  /** The settings that differ from the canonical ones. */
  method CompareSettings(committed: Doc, expected: Doc) returns (problems: seq<Problem>)
    ensures forall p :: p in problems <==>
              && p.SettingsDiffer? && (p.key == "version" || p.key == "plugins_used" || p.key == "filters_used")
              && Field(committed, p.key) != Field(expected, p.key)
    ensures committed.fields == expected.fields ==> problems == []
  {
    problems := [];
    for i := 0 to |SETTINGS_KEYS|
      invariant forall p :: p in problems <==>
                  && p.SettingsDiffer? && p.key in SETTINGS_KEYS[..i]
                  && Field(committed, p.key) != Field(expected, p.key)
    {
      assert SETTINGS_KEYS[..i + 1] == SETTINGS_KEYS[..i] + [SETTINGS_KEYS[i]];
      if Field(committed, SETTINGS_KEYS[i]) != Field(expected, SETTINGS_KEYS[i]) {
        problems := problems + [SettingsDiffer(SETTINGS_KEYS[i])];
      }
    }
    assert SETTINGS_KEYS[..|SETTINGS_KEYS|] == SETTINGS_KEYS;
    forall key
      ensures key in SETTINGS_KEYS <==> key == "version" || key == "plugins_used" || key == "filters_used"
    {
    }
    assert problems != [] ==> problems[0] in problems;
  }

  /**
   * `compare`: no problem is reported exactly when the text is the rendered normal form of the scan, and
   * a new or a stale finding is reported exactly when one side has it and the other has not.
   */
  method Compare(json: Codec, text: string, scanned: Doc) returns (problems: seq<Problem>)
    requires Lossless(json)
    ensures problems == [] <==> text == json.render(Normalize(scanned))
    ensures json.parse(text).None? ==> problems == [NotJson]
    ensures json.parse(text).Some? ==>
              var committed := FindingKeys(json.parse(text).value.results);
              var expected := FindingKeys(scanned.results);
              && (forall f, kind :: NewFinding(f, kind) in problems <==> HasKind(expected - committed, f, kind))
              && (forall f, kind :: StaleEntry(f, kind) in problems <==> HasKind(committed - expected, f, kind))
              && (forall key :: SettingsDiffer(key) in problems <==>
                    && (key == "version" || key == "plugins_used" || key == "filters_used")
                    && var a, b := json.parse(text).value.fields, scanned.fields;
                       if key in a && key in b then a[key] != b[key] else key in a || key in b)
  {
    hide NormalResults, FindingKeys, HasKind;
    NormalizeKeepsFindings(scanned.results);
    var parsed := json.parse(text);
    var expected := Normalize(scanned);
    assert json.parse(json.render(expected)) == Some(expected);
    if parsed.None? {
      return [NotJson];
    }
    var committed := parsed.value;
    var settings := CompareSettings(committed, expected);
    var unlisted := ReportKeys(KeysOf(expected.results) - KeysOf(committed.results), true);
    var stale := ReportKeys(KeysOf(committed.results) - KeysOf(expected.results), false);
    problems := settings + unlisted + stale;
    assert forall p: Problem :: p in problems <==> p in settings || p in unlisted || p in stale;
    if problems == [] && text != json.render(expected) {
      problems := [NotNormalized];
    }
  }

  // ----- The commit hook -----

  lemma {:induction false} StillFoundIsSettled(entries: seq<Entry>, found: seq<Entry>)
    requires forall e <- entries :: Allowlisted(found, e)
    ensures StillFound(entries, found) == entries
    decreases entries
  {
    if entries != [] {
      StillFoundIsSettled(entries[..|entries| - 1], found);
      assert entries[|entries| - 1] in entries;
    }
  }

  lemma StillFoundTwice(entries: seq<Entry>, found: seq<Entry>)
    ensures StillFound(StillFound(entries, found), found) == StillFound(entries, found)
  {
    StillFoundKeeps(entries, found);
    StillFoundIsSettled(StillFound(entries, found), found);
  }

  /** The baseline with its allowlist trimmed, before it is normalized. */
  function TrimmedDoc(doc: Doc, detect: Detector, files: seq<string>, work: Tree, deletions: set<string>): Doc {
    var targets := Elements(Targets(files, work));
    doc.(results := Trimmed(doc.results, targets, Scan(detect, work, targets), deletions))
  }

  /** How a hook run ends: its exit status and the baseline's text afterwards. */
  datatype HookRun = HookRun(exit: nat, text: string)

  ghost function HookOutcome(text: string, json: Codec, detect: Detector, scanFails: bool, files: seq<string>,
                             work: Tree, deletions: set<string>, unstaged: bool): HookRun
  {
    if unstaged then HookRun(1, text)
    else
      match json.parse(text)
      case None => HookRun(1, text)
      case Some(doc) =>
        var targets := Elements(Targets(files, work));
        var found := Scan(detect, work, targets);
        if targets != {} && scanFails then HookRun(2, text)
        else if HasNew(doc.results, targets, found) then HookRun(1, text)
        else
          var updated := json.render(Normalize(doc.(results := Trimmed(doc.results, targets, found, deletions))));
          if updated == json.render(Normalize(doc)) then HookRun(0, text) else HookRun(3, updated)
  }

  /** Some finding of this kind among these has no counterpart in the baseline's entries. */
  predicate Unlisted(entries: seq<Entry>, found: seq<Entry>, kind: string) {
    exists e <- found :: e.kind == kind && !Allowlisted(entries, e)
  }

  /** What the hook reports as a new secret: the file and the kind of each finding nothing allowlists. */
  method NewFindings(results: Results, targets: seq<string>, found: Results) returns (unlisted: set<(string, string)>)
    ensures forall f, k :: (f, k) in unlisted <==> f in targets && Unlisted(FoundIn(results, f), FoundIn(found, f), k)
  {
    hide FoundIn, Allowlisted;
    unlisted := {};
    for i := 0 to |targets|
      invariant forall f, k :: (f, k) in unlisted <==>
          f in targets[..i] && Unlisted(FoundIn(results, f), FoundIn(found, f), k)
    {
      var here := NewInFile(FoundIn(results, targets[i]), FoundIn(found, targets[i]));
      assert targets[..i + 1] == targets[..i] + [targets[i]];
      unlisted := unlisted + set k | k in here :: (targets[i], k);
    }
    assert targets[..|targets|] == targets;
  }

  method NewInFile(entries: seq<Entry>, found: seq<Entry>) returns (kinds: set<string>)
    ensures forall k :: k in kinds <==> Unlisted(entries, found, k)
  {
    hide Allowlisted;
    kinds := {};
    for j := 0 to |found|
      invariant forall k :: k in kinds <==> Unlisted(entries, found[..j], k)
    {
      assert found[..j + 1] == found[..j] + [found[j]];
      if !Allowlisted(entries, found[j]) {
        kinds := kinds + {found[j].kind};
      }
    }
    assert found[..|found|] == found;
  }

  lemma NothingUnlisted(results: Results, targets: seq<string>, found: Results, unlisted: set<(string, string)>)
    requires forall f, k :: (f, k) in unlisted <==> f in targets && Unlisted(FoundIn(results, f), FoundIn(found, f), k)
    ensures unlisted == {} <==> !HasNew(results, Elements(targets), found)
  {
    hide FoundIn, Allowlisted;
    if unlisted == {} {
      forall f, e | f in Elements(targets) && e in FoundIn(found, f)
        ensures Allowlisted(FoundIn(results, f), e)
      {
        assert (f, e.kind) !in unlisted;
      }
    } else {
      var p :| p in unlisted;
      assert (p.0, p.1) in unlisted;
      var e :| e in FoundIn(found, p.0) && !Allowlisted(FoundIn(results, p.0), e);
      assert p.0 in Elements(targets);
    }
  }

  /** One more target trimmed, whether or not it was among the earlier ones. */
  lemma TrimOneMore(committed: Results, done: set<string>, found: Results, f: string)
    ensures var results := Trimmed(committed, done, found, {});
            results[f := StillFound(FoundIn(results, f), FoundIn(found, f))] ==
                Trimmed(committed, done + {f}, found, {})
  {
    hide StillFound;
    StillFoundTwice(FoundIn(committed, f), FoundIn(found, f));
  }

  /** The two loops that bring `results` up to date: over the targets, then over the deletions. */
  method Trim(committed: Results, targets: seq<string>, found: Results, deletions: set<string>)
    returns (results: Results)
    ensures results == Trimmed(committed, Elements(targets), found, deletions)
  {
    hide StillFound, FoundIn, Elements;
    results := committed;
    ElementsOfNone(targets);
    for i := 0 to |targets|
      invariant results == Trimmed(committed, Elements(targets[..i]), found, {})
    {
      var f := targets[i];
      TrimOneMore(committed, Elements(targets[..i]), found, f);
      ElementsGrow(targets, i);
      results := results[f := StillFound(FoundIn(results, f), FoundIn(found, f))];
    }
    assert targets[..|targets|] == targets;
    ghost var kept := results;
    var left := deletions;
    while left != {}
      invariant left <= deletions
      invariant results == kept - (deletions - left)
      decreases left
    {
      var f :| f in left;
      results := results - {f};
      left := left - {f};
    }
    assert results == kept - deletions;
  }

  class BaselineFile {
    var text: string

    constructor (contents: string)
      ensures text == contents
    {
      text := contents;
    }

    /** `cmd_hook`. */
    method Hook(json: Codec, detect: Detector, scanFails: bool, files: seq<string>, work: Tree, deletions: set<string>,
                unstaged: bool)
      returns (exit: nat)
      modifies this
      ensures HookRun(exit, text) == HookOutcome(old(text), json, detect, scanFails, files, work, deletions, unstaged)
      ensures Lossless(json) && exit == 3 ==>
                && json.parse(old(text)).Some? && json.parse(text).Some?
                && json.parse(text).value.fields == json.parse(old(text)).value.fields
                && IsNormalForm(json.parse(text).value,
                                TrimmedDoc(json.parse(old(text)).value, detect, files, work, deletions))
      ensures exit != 3 ==> text == old(text)
    {
      if unstaged {
        return 1;
      }
      var original := text;
      var committed := json.parse(original);
      if committed.None? {
        return 1;
      }
      var doc := committed.value;
      var targets := Targets(files, work);
      assert targets != [] ==> targets[0] in Elements(targets);
      if targets != [] && scanFails {
        return 2;
      }
      var found := Scan(detect, work, Elements(targets));
      var unlisted := NewFindings(doc.results, targets, found);
      NothingUnlisted(doc.results, targets, found, unlisted);
      if unlisted != {} {
        return 1;
      }
      var results := Trim(doc.results, targets, found, deletions);
      var updated := json.render(Normalize(doc.(results := results)));
      if updated == json.render(Normalize(doc)) {
        return 0;
      }
      NormalizeExactly(doc.(results := results));
      text := updated;
      return 3;
    }

    /** `cmd_update`. */
    method Update(json: Codec, scanned: Doc)
      modifies this
      ensures text == json.render(Normalize(scanned))
      ensures Lossless(json) ==> json.parse(text).Some? && IsNormalForm(json.parse(text).value, scanned)
    {
      NormalizeExactly(scanned);
      text := json.render(Normalize(scanned));
    }

    /** `cmd_check`: nothing is written. */
    method Check(json: Codec, scanned: Doc) returns (exit: nat, problems: seq<Problem>)
      requires Lossless(json)
      ensures exit == if text == json.render(Normalize(scanned)) then 0 else 1
      ensures exit == 0 <==> problems == []
      ensures exit == 0 ==> json.parse(text).Some? && IsNormalForm(json.parse(text).value, scanned)
    {
      NormalizeExactly(scanned);
      problems := Compare(json, text, scanned);
      exit := if problems == [] then 0 else 1;
    }
  }

  // ----- The baseline keeps agreeing with a full scan -----

  predicate HasKey(results: Results, k: Key) {
    exists e <- FoundIn(results, k.file) :: EntryKey(e) == (k.kind, k.hash)
  }

  lemma FindingKeysAre(results: Results, k: Key)
    ensures k in FindingKeys(results) <==> HasKey(results, k)
  {
    if HasKey(results, k) {
      var e :| e in FoundIn(results, k.file) && EntryKey(e) == (k.kind, k.hash);
      assert k.file in results && e in results[k.file];
    }
    if k in FindingKeys(results) {
      var f, e :| f in results && e in results[f] && k == Key(f, e.kind, e.hash);
      assert e in FoundIn(results, k.file);
    }
  }

  ghost predicate Agrees(json: Codec, text: string, detect: Detector, tree: Tree) {
    json.parse(text).Some? && FindingKeys(json.parse(text).value.results) == FindingKeys(FullScan(detect, tree))
  }

  /**
   * The commit changes nothing but the staged files and deletions, and each staged file is in the working
   * tree as it is being committed.
   */
  ghost predicate Touches(before: Tree, after: Tree, work: Tree, files: seq<string>, deletions: set<string>) {
    && (forall f <- before.Keys + after.Keys ::
          f in files || f in deletions || (f in before && f in after && before[f] == after[f]))
    && (forall f <- files :: f in work && f in after && work[f] == after[f])
    && (forall f <- deletions :: f !in after)
  }

  lemma TargetsOfCommit(before: Tree, after: Tree, work: Tree, files: seq<string>, deletions: set<string>, f: string)
    requires Touches(before, after, work, files, deletions)
    ensures f in Elements(Targets(files, work)) <==> f in files && f != BASELINE_NAME
  {
    TargetsAre(files, work);
  }

  /** The scan of the staged files says of each what the full scan of the new tree says. */
  lemma ScanOfTarget(detect: Detector, before: Tree, after: Tree, work: Tree, files: seq<string>,
      deletions: set<string>, f: string)
    requires Touches(before, after, work, files, deletions)
    requires f in Elements(Targets(files, work))
    ensures FoundIn(Scan(detect, work, Elements(Targets(files, work))), f) == FoundIn(FullScan(detect, after), f)
  {
    hide Targets, Elements;
    TargetsOfCommit(before, after, work, files, deletions, f);
  }

  /** Away from the targets and the deletions the full scan does not change. */
  lemma ScanElsewhere(detect: Detector, before: Tree, after: Tree, work: Tree, files: seq<string>,
      deletions: set<string>, f: string)
    requires Touches(before, after, work, files, deletions)
    requires f !in Elements(Targets(files, work)) && f !in deletions
    ensures FoundIn(FullScan(detect, before), f) == FoundIn(FullScan(detect, after), f)
  {
    hide Targets, Elements;
    TargetsOfCommit(before, after, work, files, deletions, f);
  }

  lemma DeletedIsNotFound(detect: Detector, before: Tree, after: Tree, work: Tree, files: seq<string>,
                          deletions: set<string>, f: string)
    requires Touches(before, after, work, files, deletions)
    requires f in deletions
    ensures FoundIn(FullScan(detect, after), f) == [] && f !in Elements(Targets(files, work))
  {
    hide Targets, Elements;
    TargetsOfCommit(before, after, work, files, deletions, f);
  }

  /** What trimming leaves of one key. */
  lemma TrimmedKey(results: Results, targets: set<string>, found: Results, deletions: set<string>, k: Key)
    ensures HasKey(Trimmed(results, targets, found, deletions), k) <==>
            k.file !in deletions && HasKey(results, k) && (k.file in targets ==> HasKey(found, k))
  {
    hide StillFound;
    StillFoundKeeps(FoundIn(results, k.file), FoundIn(found, k.file));
    if k.file in targets && HasKey(results, k) && HasKey(found, k) {
      var e :| e in FoundIn(results, k.file) && EntryKey(e) == (k.kind, k.hash);
      assert Allowlisted(FoundIn(found, k.file), e);
    }
  }

  lemma NewKey(results: Results, targets: set<string>, found: Results, k: Key)
    requires k.file in targets && HasKey(found, k) && !HasKey(results, k)
    ensures HasNew(results, targets, found)
  {
    var e :| e in FoundIn(found, k.file) && EntryKey(e) == (k.kind, k.hash);
    assert !Allowlisted(FoundIn(results, k.file), e);
  }

  lemma OneKeyAfter(results: Results, detect: Detector, before: Tree, after: Tree, work: Tree, files: seq<string>,
                    deletions: set<string>, k: Key)
    requires Touches(before, after, work, files, deletions)
    requires HasKey(results, k) <==> HasKey(FullScan(detect, before), k)
    requires !HasNew(results, Elements(Targets(files, work)), Scan(detect, work, Elements(Targets(files, work))))
    ensures var targets := Elements(Targets(files, work));
            HasKey(Trimmed(results, targets, Scan(detect, work, targets), deletions), k) <==>
                HasKey(FullScan(detect, after), k)
  {
    hide Touches, Targets, Elements, Scan, FullScan, Trimmed, FoundIn, HasNew;
    var targets := Elements(Targets(files, work));
    var found := Scan(detect, work, targets);
    TrimmedKey(results, targets, found, deletions, k);
    if k.file in deletions {
      DeletedIsNotFound(detect, before, after, work, files, deletions, k.file);
    } else if k.file in targets {
      ScanOfTarget(detect, before, after, work, files, deletions, k.file);
      if HasKey(found, k) && !HasKey(results, k) {
        NewKey(results, targets, found, k);
      }
    } else {
      ScanElsewhere(detect, before, after, work, files, deletions, k.file);
    }
  }

  lemma TrimmedAgrees(results: Results, detect: Detector, before: Tree, after: Tree, work: Tree, files: seq<string>,
                      deletions: set<string>)
    requires Touches(before, after, work, files, deletions)
    requires FindingKeys(results) == FindingKeys(FullScan(detect, before))
    requires !HasNew(results, Elements(Targets(files, work)), Scan(detect, work, Elements(Targets(files, work))))
    ensures var targets := Elements(Targets(files, work));
            FindingKeys(Trimmed(results, targets, Scan(detect, work, targets), deletions)) ==
                FindingKeys(FullScan(detect, after))
  {
    hide *;
    var targets := Elements(Targets(files, work));
    var trimmed := Trimmed(results, targets, Scan(detect, work, targets), deletions);
    forall k: Key
      ensures k in FindingKeys(trimmed) <==> k in FindingKeys(FullScan(detect, after))
    {
      FindingKeysAre(results, k);
      FindingKeysAre(FullScan(detect, before), k);
      OneKeyAfter(results, detect, before, after, work, files, deletions, k);
      FindingKeysAre(trimmed, k);
      FindingKeysAre(FullScan(detect, after), k);
    }
  }

  /**
   * A hook that looks at the staged files alone keeps the baseline in step with a full scan: if it agreed
   * before the commit, it agrees with the committed tree after an exit of 0 or 3.
   */
  lemma HookKeepsAgreement(text: string, json: Codec, detect: Detector, scanFails: bool, files: seq<string>,
                           before: Tree, after: Tree, work: Tree, deletions: set<string>, unstaged: bool)
    requires Lossless(json) && Agrees(json, text, detect, before)
    requires Touches(before, after, work, files, deletions)
    ensures var run := HookOutcome(text, json, detect, scanFails, files, work, deletions, unstaged);
            run.exit in {0, 3} ==> Agrees(json, run.text, detect, after)
  {
    hide Touches, Targets, Elements, Scan, FullScan, Trimmed, FindingKeys, HasNew, NormalResults;
    var run := HookOutcome(text, json, detect, scanFails, files, work, deletions, unstaged);
    if run.exit in {0, 3} {
      var doc := json.parse(text).value;
      var targets := Elements(Targets(files, work));
      TrimmedAgrees(doc.results, detect, before, after, work, files, deletions);
      var trimmed := Trimmed(doc.results, targets, Scan(detect, work, targets), deletions);
      NormalizeKeepsFindings(doc.results);
      NormalizeKeepsFindings(trimmed);
      assert json.parse(json.render(Normalize(doc))) == Some(Normalize(doc));
      assert json.parse(json.render(Normalize(doc.(results := trimmed)))) == Some(Normalize(doc.(results := trimmed)));
    }
  }

  /**
   * The hook refuses a commit exactly when the new tree holds a finding that the old tree did not, wherever
   * it is: nothing outside the staged files can be such a finding.
   */
  lemma HookRefusesExactly(text: string, json: Codec, detect: Detector, files: seq<string>, before: Tree, after: Tree,
                           work: Tree, deletions: set<string>)
    requires Agrees(json, text, detect, before)
    requires Touches(before, after, work, files, deletions)
    ensures HookOutcome(text, json, detect, false, files, work, deletions, false).exit == 1 <==>
            !(FindingKeys(FullScan(detect, after)) <= FindingKeys(FullScan(detect, before)))
  {
    hide Touches, Targets, Elements, Scan, FullScan, Trimmed, NormalResults, FoundIn, FindingKeys;
    var targets := Elements(Targets(files, work));
    var found := Scan(detect, work, targets);
    var results := json.parse(text).value.results;
    if HasNew(results, targets, found) {
      var f, e :| f in targets && e in FoundIn(found, f) && !Allowlisted(FoundIn(results, f), e);
      var k := Key(f, e.kind, e.hash);
      ScanOfTarget(detect, before, after, work, files, deletions, f);
      FindingKeysAre(FullScan(detect, after), k);
      FindingKeysAre(results, k);
    } else {
      forall k | k in FindingKeys(FullScan(detect, after))
        ensures k in FindingKeys(FullScan(detect, before))
      {
        FindingKeysAre(FullScan(detect, after), k);
        FindingKeysAre(FullScan(detect, before), k);
        FindingKeysAre(results, k);
        OneKeyAfter(results, detect, before, after, work, files, deletions, k);
        TrimmedKey(results, targets, found, deletions, k);
      }
    }
  }

  // ----- Over a history of commits -----

  datatype Commit = Commit(files: seq<string>, deletions: set<string>, work: Tree, after: Tree)

  /** Commits the hook let through, each on the tree the one before it left. */
  ghost predicate History(json: Codec, detect: Detector, start: Tree, commits: seq<Commit>, texts: seq<string>) {
    && |texts| == |commits| + 1
    && forall i {:trigger commits[i]} | 0 <= i < |commits| ::
         && Touches(TreeAt(start, commits, i), commits[i].after, commits[i].work, commits[i].files,
             commits[i].deletions)
         && LetThrough(json, detect, commits[i], texts[i], texts[i + 1])
  }

  ghost predicate LetThrough(json: Codec, detect: Detector, c: Commit, text: string, next: string) {
    var run := HookOutcome(text, json, detect, false, c.files, c.work, c.deletions, false);
    run.exit in {0, 3} && next == run.text
  }

  function TreeAt(start: Tree, commits: seq<Commit>, i: nat): Tree
    requires i <= |commits|
  {
    if i == 0 then start else commits[i - 1].after
  }

  /** After any number of commits the incremental baseline has the findings a full scan of the tree has. */
  lemma {:induction false} HistoryKeepsAgreement(json: Codec, detect: Detector, start: Tree, commits: seq<Commit>,
                                                 texts: seq<string>, n: nat)
    requires Lossless(json) && History(json, detect, start, commits, texts) && n <= |commits|
    requires Agrees(json, texts[0], detect, start)
    ensures Agrees(json, texts[n], detect, TreeAt(start, commits, n))
  {
    hide Touches, Agrees, HookOutcome, Lossless;
    if n > 0 {
      HistoryKeepsAgreement(json, detect, start, commits, texts, n - 1);
      var c := commits[n - 1];
      HookKeepsAgreement(texts[n - 1], json, detect, false, c.files, TreeAt(start, commits, n - 1), c.after, c.work,
                         c.deletions, false);
      assert LetThrough(json, detect, c, texts[n - 1], texts[n]);
    }
  }

  // ----- The rewritten baseline needs no second rewrite -----

  lemma TrimmedIsSettled(results: Results, targets: set<string>, found: Results, deletions: set<string>)
    ensures var once := NormalResults(Trimmed(results, targets, found, deletions));
            NormalResults(Trimmed(once, targets, found, deletions)) == once
  {
    hide EntryLeq, SlimSorted, StillFound, Allowlisted, Trimmed;
    var trimmed := Trimmed(results, targets, found, deletions);
    var once := NormalResults(trimmed);
    NormalizeIsIdempotent(Doc(map[], None, trimmed));
    assert NormalResults(once) == once;
    var twice := Trimmed(once, targets, found, deletions);
    forall f: string
      ensures FoundIn(twice, f) == FoundIn(once, f)
    {
      TrimmedFileIsSettled(results, targets, found, deletions, f);
    }
    SameFindingsSameNormal(twice, once);
  }

  lemma SameFindingsSameNormal(a: Results, b: Results)
    requires forall f: string :: FoundIn(a, f) == FoundIn(b, f)
    ensures NormalResults(a) == NormalResults(b)
  {
    hide SlimSorted;
    forall f: string
      ensures (f in a && a[f] != []) <==> (f in b && b[f] != [])
      ensures f in a && a[f] != [] ==> a[f] == b[f]
    {
      assert FoundIn(a, f) == FoundIn(b, f);
    }
  }

  lemma TrimmedFileIsSettled(results: Results, targets: set<string>, found: Results, deletions: set<string>, f: string)
    ensures var once := NormalResults(Trimmed(results, targets, found, deletions));
            FoundIn(Trimmed(once, targets, found, deletions), f) == FoundIn(once, f)
  {
    hide EntryLeq, SlimSorted, StillFound, Allowlisted;
    var once := NormalResults(Trimmed(results, targets, found, deletions));
    NothingStillFound(FoundIn(found, f));
    if f in once && f in targets {
      SortedStaysFound(FoundIn(results, f), FoundIn(found, f));
    }
  }

  lemma NothingStillFound(found: seq<Entry>)
    ensures StillFound([], found) == []
  {
  }

  lemma SortedStaysFound(entries: seq<Entry>, found: seq<Entry>)
    ensures var kept := SlimSorted(StillFound(entries, found)); StillFound(kept, found) == kept
  {
    var kept := SlimSorted(StillFound(entries, found));
    StillFoundKeeps(entries, found);
    SlimSortedKeeps(StillFound(entries, found));
    forall e | e in kept
      ensures Allowlisted(found, e)
    {
      var y :| y in StillFound(entries, found) && e == Slim(y);
      assert Allowlisted(found, y);
    }
    StillFoundIsSettled(kept, found);
  }

  /** Staged again after an exit of 3, the same commit passes, and the file is not written. */
  lemma HookSettles(text: string, json: Codec, detect: Detector, files: seq<string>, work: Tree, deletions: set<string>)
    requires Lossless(json) && (forall f <- deletions :: f !in files)
    requires HookOutcome(text, json, detect, false, files, work, deletions, false).exit == 3
    ensures var next := HookOutcome(text, json, detect, false, files, work, deletions, false).text;
            HookOutcome(next, json, detect, false, files, work, deletions, false) == HookRun(0, next)
  {
    hide Targets, Scan, Trimmed, NormalResults, FoundIn, HasNew, FindingKeys;
    var doc := json.parse(text).value;
    var targets := Elements(Targets(files, work));
    var found := Scan(detect, work, targets);
    var trimmed := Trimmed(doc.results, targets, found, deletions);
    var next := Normalize(doc.(results := trimmed));
    assert json.parse(json.render(next)) == Some(next);
    TrimmedIsSettled(doc.results, targets, found, deletions);
    NormalizeIsIdempotent(doc.(results := trimmed));
    assert Normalize(next.(results := Trimmed(next.results, targets, found, deletions))) == Normalize(next);
    assert targets !! deletions by {
      TargetsAre(files, work);
    }
    NothingNewAfterTrim(doc.results, targets, found, deletions);
  }

  lemma NothingNewAfterTrim(results: Results, targets: set<string>, found: Results, deletions: set<string>)
    requires !HasNew(results, targets, found) && targets !! deletions
    ensures !HasNew(NormalResults(Trimmed(results, targets, found, deletions)), targets, found)
  {
    hide Trimmed, NormalResults, FindingKeys;
    var once := NormalResults(Trimmed(results, targets, found, deletions));
    forall f, e | f in targets && e in FoundIn(found, f)
      ensures Allowlisted(FoundIn(once, f), e)
    {
      var k := Key(f, e.kind, e.hash);
      assert Allowlisted(FoundIn(results, f), e);
      assert HasKey(found, k) && HasKey(results, k);
      TrimmedKey(results, targets, found, deletions, k);
      NormalizeKeepsFindings(Trimmed(results, targets, found, deletions));
      FindingKeysAre(Trimmed(results, targets, found, deletions), k);
      FindingKeysAre(once, k);
    }
  }

  // ----- What an update buys -----

  lemma UpToDateFile(detect: Detector, tree: Tree, files: seq<string>, deletions: set<string>, f: string)
    requires deletions !! tree.Keys
    ensures var targets, normal := Elements(Targets(files, tree)), NormalResults(FullScan(detect, tree));
            FoundIn(Trimmed(normal, targets, Scan(detect, tree, targets), deletions), f) == FoundIn(normal, f)
  {
    hide EntryLeq, SlimSorted, StillFound, Allowlisted;
    var full := FullScan(detect, tree);
    var targets, normal := Elements(Targets(files, tree)), NormalResults(full);
    var found := Scan(detect, tree, targets);
    NothingStillFound(FoundIn(found, f));
    if f in targets && f in normal {
      assert f in found && found[f] == full[f];
      ScannedStaysFound(full[f]);
    }
  }

  lemma ScannedStaysFound(entries: seq<Entry>)
    ensures StillFound(SlimSorted(entries), entries) == SlimSorted(entries)
  {
    hide SlimSorted;
    SlimSortedKeeps(entries);
    forall e | e in SlimSorted(entries)
      ensures Allowlisted(entries, e)
    {
      var y :| y in entries && e == Slim(y);
      assert EntryKey(y) == EntryKey(e);
    }
    StillFoundIsSettled(SlimSorted(entries), entries);
  }

  lemma NothingNewInScan(detect: Detector, tree: Tree, targets: set<string>)
    ensures !HasNew(NormalResults(FullScan(detect, tree)), targets, Scan(detect, tree, targets))
  {
    hide SlimSorted;
    var full, found := FullScan(detect, tree), Scan(detect, tree, targets);
    forall f, e | f in targets && e in FoundIn(found, f)
      ensures Allowlisted(FoundIn(NormalResults(full), f), e)
    {
      SlimSortedKeeps(full[f]);
      assert e in full[f] && Slim(e) in SlimSorted(full[f]);
    }
  }

  /**
   * The baseline an update writes has the findings of the scan, and a hook on an unchanged tree - whatever
   * files it is given, whatever absent files are deleted - passes and does not touch it.
   */
  lemma UpdatedBaselineIsCurrent(json: Codec, detect: Detector, scanned: Doc, tree: Tree, files: seq<string>,
                                 deletions: set<string>)
    requires Lossless(json) && scanned.results == FullScan(detect, tree) && deletions !! tree.Keys
    ensures var text := json.render(Normalize(scanned));
            && Agrees(json, text, detect, tree)
            && HookOutcome(text, json, detect, false, files, tree, deletions, false) == HookRun(0, text)
  {
    hide Targets, Scan, FullScan, Trimmed, NormalResults, HasNew, FindingKeys, FoundIn;
    var doc := Normalize(scanned);
    assert json.parse(json.render(doc)) == Some(doc);
    NormalizeKeepsFindings(scanned.results);
    NormalizeIsIdempotent(scanned);
    var targets := Elements(Targets(files, tree));
    NothingNewInScan(detect, tree, targets);
    var trimmed := Trimmed(doc.results, targets, Scan(detect, tree, targets), deletions);
    forall f: string
      ensures FoundIn(trimmed, f) == FoundIn(doc.results, f)
    {
      UpToDateFile(detect, tree, files, deletions, f);
    }
    SameFindingsSameNormal(trimmed, doc.results);
    assert Normalize(doc.(results := trimmed)) == Normalize(doc);
  }
}
