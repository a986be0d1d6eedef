/**
 * tools/ci_pass_markers.py: a job is skipped when a marker says that it already passed on exactly
 * these inputs. The digest is SHA-256; here it is any function without collisions on the inputs a
 * history digests.
 */
module CiMarkers {
  import opened Prelude
  import opened Glob
  import opened Text
  import Sorting

  /** Job name -> the paths-filter groups that are its inputs. */
  const JOBS: map<string, seq<string>> := map[
    "test-unit" := ["unit-tests"],
    "test-arch" := ["unit-tests"],
    "test-integration-postgres" := ["integration-tests"],
    "test-integration-sqlite" := ["integration-tests"],
    "ui" := ["ui"],
    "ui-test-1" := ["ui"],
    "ui-test-2" := ["ui"],
    "ui-test-3" := ["ui"],
    "ui-e2e" := ["ui"],
    "cli" := ["cli"]]

  /** The groups a job's inputs come from, family by family. */
  lemma GroupsOfJobs(job: string)
    requires job in JOBS
    ensures JOBS[job] ==
            if job == "test-unit" || job == "test-arch" then ["unit-tests"]
            else if job == "test-integration-postgres" || job == "test-integration-sqlite" then ["integration-tests"]
            else if job == "cli" then ["cli"]
            else ["ui"]
    ensures JOBS[job] == ["ui"] ==> "ui" <= job
  {
  }

  const WORKFLOW := ".github/workflows/ci.yml"
  const COMMON_INPUTS := [WORKFLOW, ".github/actions/**", "tools/ci_pass_markers.py"]
  const NEVER_SKIP_EVENTS := {"schedule", "workflow_dispatch"}

  // ----- Tracked-file lines and their order -----

  /** The file a `git ls-files -s` line names: what follows its first tab. */
  function PathOf(line: string): string {
    if line == "" then "" else if line[0] == '\t' then line[1..] else PathOf(line[1..])
  }

  lemma {:induction false} PathFollowsFirstTab(head: string, path: string)
    requires '\t' !in head
    ensures PathOf(head + "\t" + path) == path
  {
    var line := head + "\t" + path;
    if head == "" {
      assert line[1..] == path;
    } else {
      assert head == [head[0]] + head[1..];
      PathFollowsFirstTab(head[1..], path);
      assert line[1..] == head[1..] + "\t" + path;
    }
  }

  predicate NoWhitespace(s: string) {
    forall i | 0 <= i < |s| :: s[i] !in {' ', '\t', '\n', '\r'}
  }

  /** A line opens with a six-digit mode and a space, and is one line. */
  predicate GitLine(line: string) {
    |line| > 6 && NoWhitespace(line[..6]) && line[6] == ' ' && NoNewline(line)
  }

  /** What `git ls-files -s` lists: a mode of six digits, a blank, and the rest of one line. */
  lemma ListedLineIsGitLine(mode: string, rest: string)
    requires |mode| == 6 && NoWhitespace(mode) && NoNewline(rest)
    ensures GitLine(mode + " " + rest)
  {
    var line := mode + " " + rest;
    assert line[..6] == mode;
    forall i | 0 <= i < |line|
      ensures line[i] != '\n'
    {
      if i < 6 {
        assert line[i] == mode[i];
      } else if i > 6 {
        assert line[i] == rest[i - 7];
      }
    }
  }

  /** `sorted(tracked)`. */
  function Sort(lines: seq<string>): seq<string> {
    Sorting.Sort(lines, LexLeq)
  }

  // ----- The digest -----

  predicate MatchesAny(globs: seq<string>, line: string) {
    exists i | 0 <= i < |globs| :: Matches(Compile(globs[i]), PathOf(line))
  }

  function Matched(globs: seq<string>, lines: seq<string>): seq<string> {
    if lines == [] then []
    else
      var init := Matched(globs, lines[..|lines| - 1]);
      if MatchesAny(globs, lines[|lines| - 1]) then init + [lines[|lines| - 1]] else init
  }

  function Terminated(lines: seq<string>): string {
    if lines == [] then "" else Terminated(lines[..|lines| - 1]) + lines[|lines| - 1] + "\n"
  }

  /** Everything `inputs_hash` feeds the digest. */
  function DigestInput(globs: seq<string>, tracked: seq<string>, salt: string): string {
    salt + Terminated(Matched(globs, Sort(tracked)))
  }

  /** `inputs_hash`: the salt, then every matching line of the sorted listing. */
  method InputsHash(globs: seq<string>, tracked: seq<string>, salt: string, hash: string -> string)
    returns (digest: string)
    ensures digest == hash(DigestInput(globs, tracked, salt))
  {
    hide Matches, Compile, Sort;
    var patterns: seq<Regex> := [];
    for i := 0 to |globs|
      invariant |patterns| == i && forall j | 0 <= j < i :: patterns[j] == Compile(globs[j])
    {
      var re := GlobToRegex(globs[i]);
      patterns := patterns + [re];
    }
    var fed := salt;
    var lines := Sort(tracked);
    for n := 0 to |lines|
      invariant fed == salt + Terminated(Matched(globs, lines[..n]))
    {
      var path := PathOf(lines[n]);
      assert lines[..n + 1][..n] == lines[..n];
      assert MatchesAny(globs, lines[n]) <==> exists i | 0 <= i < |patterns| :: Matches(patterns[i], path);
      if exists i | 0 <= i < |patterns| :: Matches(patterns[i], path) {
        var before := Matched(globs, lines[..n]);
        assert (before + [lines[n]])[..|before|] == before;
        fed := fed + lines[n] + "\n";
      }
    }
    assert lines[..|lines|] == lines;
    digest := hash(fed);
  }

  lemma LexIsTotal()
    ensures Sorting.TotalOrder(LexLeq) && Sorting.Antisymmetric(LexLeq)
  {
    hide LexLeq;
    forall a, b, c
      ensures LexLeq(a, b) || LexLeq(b, a)
      ensures LexLeq(a, b) && LexLeq(b, a) ==> a == b
      ensures LexLeq(a, b) && LexLeq(b, c) ==> LexLeq(a, c)
    {
      LexOrder(a, b, c);
    }
  }

  /** The listing's order does not reach the digest. */
  lemma DigestIgnoresOrder(globs: seq<string>, a: seq<string>, b: seq<string>, salt: string)
    requires multiset(a) == multiset(b)
    ensures DigestInput(globs, a, salt) == DigestInput(globs, b, salt)
  {
    LexIsTotal();
    Sorting.SortSorts(a, LexLeq);
    Sorting.SortSorts(b, LexLeq);
    Sorting.SortedIsUnique(Sort(a), Sort(b), LexLeq);
  }

  ghost predicate AllGitLines(lines: seq<string>) {
    forall line <- lines :: GitLine(line)
  }

  lemma {:induction false} TerminatedIsInjective(a: seq<string>, b: seq<string>)
    requires AllGitLines(a) && AllGitLines(b) && Terminated(a) == Terminated(b)
    ensures a == b
    decreases a
  {
    if a == [] || b == [] {
      assert a != [] ==> |Terminated(a)| > 0;
      assert b != [] ==> |Terminated(b)| > 0;
    } else {
      var m, n := |a| - 1, |b| - 1;
      var s, x, y := Terminated(a), a[m], b[n];
      var ta, tb := Terminated(a[..m]), Terminated(b[..n]);
      assert x in a && y in b;
      assert s == ta + x + "\n" && s == tb + y + "\n";
      EndsWithNewline(a[..m]);
      EndsWithNewline(b[..n]);
      LastLine(ta, x, tb, y);
      assert AllGitLines(a[..m]) && AllGitLines(b[..n]);
      TerminatedIsInjective(a[..m], b[..n]);
      assert a == a[..m] + [x] && b == b[..n] + [y];
    }
  }

  lemma EndsWithNewline(lines: seq<string>)
    ensures Terminated(lines) == "" || Terminated(lines)[|Terminated(lines)| - 1] == '\n'
  {
  }

  lemma LastLine(ta: string, x: string, tb: string, y: string)
    requires ta + x + "\n" == tb + y + "\n" && NoNewline(x) && NoNewline(y)
    requires ta == "" || ta[|ta| - 1] == '\n'
    requires tb == "" || tb[|tb| - 1] == '\n'
    ensures ta == tb && x == y
  {
    var s := ta + x + "\n";
    assert forall i | |ta| <= i < |s| - 1 :: s[i] == x[i - |ta|] != '\n';
    assert forall i | |tb| <= i < |s| - 1 :: s[i] == y[i - |tb|] != '\n';
    assert (ta != "" ==> s[|ta| - 1] == '\n') && (tb != "" ==> s[|tb| - 1] == '\n');
    assert |ta| == |tb|;
    assert s[..|ta|] == ta && s[..|tb|] == tb;
    assert s[|ta|..|s| - 1] == x && s[|tb|..|s| - 1] == y;
  }

  lemma {:induction false} FirstLineLeads(lines: seq<string>)
    requires lines != []
    ensures lines[0] <= Terminated(lines)
    decreases lines
  {
    var n := |lines| - 1;
    if n == 0 {
      assert lines[..0] == [] && Terminated(lines) == lines[0] + "\n";
    } else {
      FirstLineLeads(lines[..n]);
      assert Terminated(lines) == Terminated(lines[..n]) + (lines[n] + "\n");
    }
  }

  lemma FirstSpace(salt: string, lines: seq<string>)
    requires NoWhitespace(salt) && AllGitLines(lines) && lines != []
    ensures
      var s := salt + Terminated(lines);
      |s| > |salt| + 6 && s[|salt| + 6] == ' ' && forall i | 0 <= i < |salt| + 6 :: s[i] != ' '
  {
    FirstLineLeads(lines);
    var line, t := lines[0], Terminated(lines);
    hide Terminated;
    assert line in lines;
    assert forall i | 0 <= i < |line| :: t[i] == t[..|line|][i];
    assert forall i | 0 <= i < 6 :: line[i] == line[..6][i] != ' ';
    var s := salt + t;
    assert forall i | 0 <= i < |s| :: s[i] == if i < |salt| then salt[i] else t[i - |salt|];
  }

  /** With whitespace-free salts equal digest inputs mean the same salt and the same lines. */
  lemma DigestInputIsInjective(salt1: string, a: seq<string>, salt2: string, b: seq<string>)
    requires NoWhitespace(salt1) && NoWhitespace(salt2) && AllGitLines(a) && AllGitLines(b)
    requires salt1 + Terminated(a) == salt2 + Terminated(b)
    ensures salt1 == salt2 && a == b
  {
    var s := salt1 + Terminated(a);
    if a != [] {
      FirstSpace(salt1, a);
    }
    if b != [] {
      FirstSpace(salt2, b);
    }
    assert a == [] ==> s == salt1;
    assert b == [] ==> s == salt2;
    assert |salt1| == |salt2|;
    assert s[..|salt1|] == salt1 && s[..|salt2|] == salt2;
    assert s[|salt1|..] == Terminated(a) && s[|salt2|..] == Terminated(b);
    TerminatedIsInjective(a, b);
  }

  // ----- Jobs, keys and refs -----

  type Filters = map<string, seq<string>>

  /** The environment a run reads; an absent variable is the empty string. */
  datatype Env = Env(event: string, fullRun: string, ref: string, baseRef: string, defaultBranch: string,
                     repository: string, token: string, imageVersion: string)

  /** One workflow run: its environment, its checkout's listing and the filters of that checkout. */
  datatype Run = Run(env: Env, tracked: seq<string>, filters: Filters)

  function GroupGlobs(groups: seq<string>, filters: Filters): Option<seq<string>> {
    if groups == [] then Some([])
    else if groups[0] !in filters then None
    else
      match GroupGlobs(groups[1..], filters)
      case Some(globs) => Some(filters[groups[0]] + globs)
      case None => None
  }

  /** The globs of `job_hash`; a filter group the workflow does not define fails the lookup. */
  function JobGlobs(job: string, filters: Filters): (r: Option<seq<string>>)
    requires job in JOBS
  {
    match GroupGlobs(JOBS[job], filters)
    case Some(globs) => Some(globs + COMMON_INPUTS)
    case None => None
  }

  predicate Resolvable(run: Run) {
    forall job <- JOBS :: JobGlobs(job, run.filters).Some?
  }

  function JobInput(job: string, run: Run): string
    requires job in JOBS && Resolvable(run)
  {
    DigestInput(JobGlobs(job, run.filters).value, run.tracked, run.env.imageVersion)
  }

  function MarkerKey(job: string, digest: string): string {
    "ci-pass-" + job + "-" + digest
  }

  function KeyOf(job: string, run: Run, hash: string -> string): string
    requires job in JOBS && Resolvable(run)
  {
    MarkerKey(job, hash(JobInput(job, run)))
  }

  /** `readable_refs`: the run's own ref and the base and default branches, once each. */
  function ReadableRefs(env: Env): seq<string> {
    Dedupe([env.ref] + Branch(env.baseRef) + Branch(env.defaultBranch))
  }

  function Branch(name: string): seq<string> {
    if name == "" then [] else ["refs/heads/" + name]
  }

  function Dedupe(refs: seq<string>): seq<string> {
    if refs == [] then []
    else
      var init := Dedupe(refs[..|refs| - 1]);
      var last := refs[|refs| - 1];
      if last == "" || last in init then init else init + [last]
  }

  lemma {:induction false} DedupeKeeps(refs: seq<string>)
    ensures forall r :: r in Dedupe(refs) <==> r in refs && r != ""
    ensures forall i, j | 0 <= i < j < |Dedupe(refs)| :: Dedupe(refs)[i] != Dedupe(refs)[j]
    decreases refs
  {
    if refs != [] {
      var init, last := refs[..|refs| - 1], refs[|refs| - 1];
      DedupeKeeps(init);
      assert refs == init + [last];
    }
  }

  /** A run trusts exactly its own ref, its base branch and the default branch. */
  lemma ReadableRefsAreTrusted(env: Env, ref: string)
    ensures ref in ReadableRefs(env) <==>
            && ref != ""
            && (ref == env.ref
                || (env.baseRef != "" && ref == "refs/heads/" + env.baseRef)
                || (env.defaultBranch != "" && ref == "refs/heads/" + env.defaultBranch))
  {
    DedupeKeeps([env.ref] + Branch(env.baseRef) + Branch(env.defaultBranch));
  }

  // ----- Lookup -----

  predicate NeverSkips(env: Env) {
    env.event in NEVER_SKIP_EVENTS || env.fullRun == "true" || env.repository == "" || env.token == ""
  }

  /** The cache service: the keys saved, each on the ref whose run saved it. */
  type Caches = set<(string, string)>

  predicate MarkerExists(caches: Caches, key: string, refs: seq<string>) {
    exists ref <- refs :: (key, ref) in caches
  }

  /**
   * `lookup`: decide job by job. `unreachable` are the jobs whose query to the service fails; such
   * a failure means that the job runs.
   */
  method Lookup(run: Run, caches: Caches, unreachable: set<string>, hash: string -> string)
    returns (skips: map<string, bool>)
    requires Resolvable(run)
    ensures skips.Keys == JOBS.Keys
    ensures forall job <- JOBS :: skips[job] <==> Skips(job, run, caches, unreachable, hash)
  {
    hide JOBS, ReadableRefs, KeyOf;
    skips := map job | job in JOBS :: false;
    if NeverSkips(run.env) {
      return;
    }
    var refs := ReadableRefs(run.env);
    var todo := JOBS.Keys;
    while todo != {}
      invariant todo <= JOBS.Keys == skips.Keys
      invariant forall job <- JOBS :: skips[job] <==>
                  job !in todo && Skips(job, run, caches, unreachable, hash)
      decreases todo
    {
      var job :| job in todo;
      if job !in unreachable {
        skips := skips[job := MarkerExists(caches, KeyOf(job, run, hash), refs)];
      }
      todo := todo - {job};
    }
  }

  predicate Skips(job: string, run: Run, caches: Caches, unreachable: set<string>, hash: string -> string)
    requires job in JOBS && Resolvable(run)
  {
    && !NeverSkips(run.env)
    && job !in unreachable
    && MarkerExists(caches, KeyOf(job, run, hash), ReadableRefs(run.env))
  }

  // ----- Histories -----

  /** A job of a run passed and saved its marker; a run decided a job; the service lost an entry. */
  datatype Event =
    | Passed(job: string, run: Run)
    | Decided(job: string, run: Run, unreachable: set<string>, skip: bool)
    | Evicted(entry: (string, string))

  ghost predicate EventWellFormed(e: Event) {
    !e.Evicted? ==>
      && e.job in JOBS && Resolvable(e.run)
      && NoWhitespace(e.run.env.imageVersion)
      && AllGitLines(e.run.tracked)
      && exists line <- e.run.tracked :: PathOf(line) == WORKFLOW
  }

  type History = seq<WellFormedEvent>
  type WellFormedEvent = e: Event | EventWellFormed(e) witness Evicted(("", ""))

  /** What the service holds after the history's events. */
  ghost function CachesAfter(history: History, hash: string -> string): Caches {
    if history == [] then {}
    else
      var before := CachesAfter(history[..|history| - 1], hash);
      match history[|history| - 1]
      case Passed(job, run) => before + {(KeyOf(job, run, hash), run.env.ref)}
      case Decided(_, _, _, _) => before
      case Evicted(entry) => before - {entry}
  }

  /** Every decision in the history is the one `lookup` makes on what the service held then. */
  ghost predicate FollowsLookup(history: History, hash: string -> string) {
    forall i | 0 <= i < |history| && history[i].Decided? ::
      var e := history[i];
      e.skip <==> Skips(e.job, e.run, CachesAfter(history[..i], hash), e.unreachable, hash)
  }

  /** The digest behaves ideally on what the history feeds it: 64 characters, no collision. */
  ghost predicate IdealOn(history: History, hash: string -> string) {
    && (forall e <- history :: !e.Evicted? ==> |hash(JobInput(e.job, e.run))| == 64)
    && (forall e, f | e in history && f in history && !e.Evicted? && !f.Evicted? ::
          hash(JobInput(e.job, e.run)) == hash(JobInput(f.job, f.run)) ==>
              JobInput(e.job, e.run) == JobInput(f.job, f.run))
  }

  /** Git stores content by hash: equal workflow lines are equal workflow files. */
  ghost predicate ContentAddressed(history: History) {
    forall e, f, line | e in history && f in history && !e.Evicted? && !f.Evicted? &&
                        line in e.run.tracked && line in f.run.tracked && PathOf(line) == WORKFLOW ::
      e.run.filters == f.run.filters
  }

  /** The lines of a run's checkout that a job's globs match, in sorted order. */
  function JobLines(job: string, run: Run): seq<string>
    requires job in JOBS && Resolvable(run)
  {
    Matched(JobGlobs(job, run.filters).value, Sort(run.tracked))
  }

  /** Every marker in the service was saved by a pass of some job on that marker's ref. */
  lemma {:induction false} MarkerHasPass(history: History, hash: string -> string, entry: (string, string))
    returns (i: nat)
    requires entry in CachesAfter(history, hash)
    ensures i < |history| && history[i].Passed? && history[i] in history
    ensures entry == (KeyOf(history[i].job, history[i].run, hash), history[i].run.env.ref)
    decreases history
  {
    var n := |history| - 1;
    var e := history[n];
    if e.Passed? && entry == (KeyOf(e.job, e.run, hash), e.run.env.ref) {
      i := n;
    } else {
      i := MarkerHasPass(history[..n], hash, entry);
      assert history[..n][i] == history[i];
    }
  }

  /** The service holds exactly the markers of passes that were not evicted since. */
  lemma {:induction false} MarkersAreExactly(history: History, hash: string -> string, entry: (string, string))
    ensures entry in CachesAfter(history, hash) <==>
            exists i | 0 <= i < |history| ::
              && history[i].Passed?
              && entry == (MarkerKey(history[i].job, hash(JobInput(history[i].job, history[i].run))),
                           history[i].run.env.ref)
              && NotEvicted(history, i, entry)
    decreases history
  {
    if history != [] {
      var n := |history| - 1;
      var init, last := history[..n], history[n];
      MarkersAreExactly(init, hash, entry);
      assert forall i | 0 <= i < n :: history[i] == init[i];
      forall i | 0 <= i < n
        ensures NotEvicted(history, i, entry) <==> NotEvicted(init, i, entry) && last != Evicted(entry)
      {
      }
      assert NotEvicted(history, n, entry);
    }
  }

  /** No event after the `i`th drops the entry. */
  ghost predicate NotEvicted(history: History, i: int, entry: (string, string)) {
    forall j | i < j < |history| && j >= 0 :: history[j] != Evicted(entry)
  }

  lemma KeysAgree(job1: string, digest1: string, job2: string, digest2: string)
    requires MarkerKey(job1, digest1) == MarkerKey(job2, digest2) && |digest1| == |digest2|
    ensures job1 == job2 && digest1 == digest2
  {
    var key, n := MarkerKey(job1, digest1), |"ci-pass-"|;
    assert key[n..n + |job1|] == job1 && key[n..n + |job2|] == job2;
    assert key[n + |job1| + 1..] == digest1 && key[n + |job2| + 1..] == digest2;
  }

  lemma {:induction false} MatchedIn(globs: seq<string>, lines: seq<string>, line: string)
    ensures line in Matched(globs, lines) <==> line in lines && MatchesAny(globs, line)
    decreases lines
  {
    hide MatchesAny;
    if lines != [] {
      var init, last := lines[..|lines| - 1], lines[|lines| - 1];
      MatchedIn(globs, init, line);
      assert lines == init + [last];
    }
  }

  lemma SortKeepsLines(lines: seq<string>, line: string)
    ensures line in Sort(lines) <==> line in lines
  {
    LexIsTotal();
    Sorting.SortKeeps(lines, LexLeq, line);
  }

  /** A glob without stars or question marks matches its own text. */
  lemma {:induction false} LiteralMatches(glob: string)
    requires forall c <- glob :: c != '*' && c != '?'
    ensures Matches(Compile(glob), glob)
    decreases glob
  {
    if glob != "" {
      assert glob[0] in glob && forall c <- glob[1..] :: c in glob;
      LiteralMatches(glob[1..]);
      assert ([CompileChar(glob[0])] + Compile(glob[1..]))[1..] == Compile(glob[1..]);
    }
  }

  lemma WorkflowIsMatched(job: string, run: Run, line: string)
    requires job in JOBS && Resolvable(run) && line in run.tracked && PathOf(line) == WORKFLOW
    ensures line in JobLines(job, run)
  {
    hide Matches, Compile, Sort;
    var globs := JobGlobs(job, run.filters).value;
    LiteralMatches(WORKFLOW);
    assert globs[|globs| - 3] == WORKFLOW;
    SortKeepsLines(run.tracked, line);
    MatchedIn(globs, Sort(run.tracked), line);
  }

  /**
   * The files a job depends on: those a glob of one of its filter groups matches, and three that say how any
   * job runs.
   */
  ghost predicate Concerns(job: string, filters: Filters, line: string)
    requires job in JOBS
  {
    || Matches(Compile(".github/workflows/ci.yml"), PathOf(line))
    || Matches(Compile(".github/actions/**"), PathOf(line))
    || Matches(Compile("tools/ci_pass_markers.py"), PathOf(line))
    || exists group, g | group in JOBS[job] && group in filters && g in filters[group] ::
         Matches(Compile(g), PathOf(line))
  }

  lemma {:induction false} GroupGlobsAre(groups: seq<string>, filters: Filters)
    ensures GroupGlobs(groups, filters).Some? <==> forall group <- groups :: group in filters
    ensures GroupGlobs(groups, filters).Some? ==>
              forall g :: g in GroupGlobs(groups, filters).value <==>
                exists group <- groups :: group in filters && g in filters[group]
    decreases groups
  {
    if groups != [] {
      GroupGlobsAre(groups[1..], filters);
      assert groups == [groups[0]] + groups[1..];
    }
  }

  lemma CommonInputsAre(g: string)
    ensures g in COMMON_INPUTS <==>
            g == ".github/workflows/ci.yml" || g == ".github/actions/**" || g == "tools/ci_pass_markers.py"
  {
  }

  lemma MatchesAnyOf(globs: seq<string>, line: string)
    ensures MatchesAny(globs, line) <==> exists g <- globs :: Matches(Compile(g), PathOf(line))
  {
    hide Matches, Compile, PathOf;
    if g :| g in globs && Matches(Compile(g), PathOf(line)) {
      var i :| 0 <= i < |globs| && globs[i] == g;
    }
  }

  /** The globs a job is hashed with match exactly the files it depends on. */
  lemma JobGlobsConcern(job: string, run: Run, line: string)
    requires job in JOBS && Resolvable(run)
    ensures MatchesAny(JobGlobs(job, run.filters).value, line) <==> Concerns(job, run.filters, line)
  {
    hide Matches, Compile, MatchesAny, GroupGlobs, PathOf, COMMON_INPUTS;
    assert JobGlobs(job, run.filters).Some?;
    var own, globs := GroupGlobs(JOBS[job], run.filters).value, JobGlobs(job, run.filters).value;
    hide JOBS, Resolvable;
    GroupGlobsAre(JOBS[job], run.filters);
    MatchesAnyOf(globs, line);
    forall g
      ensures g in globs <==> g in own || g in COMMON_INPUTS
    {
    }
    CommonInputsAre(".github/workflows/ci.yml");
    CommonInputsAre(".github/actions/**");
    CommonInputsAre("tools/ci_pass_markers.py");
    hide JobGlobs;
    if MatchesAny(globs, line) {
      var g :| g in globs && Matches(Compile(g), PathOf(line));
      if g in own {
        var group :| group in JOBS[job] && group in run.filters && g in run.filters[group];
      } else {
        CommonInputsAre(g);
      }
    }
    if group, g :| group in JOBS[job] && group in run.filters && g in run.filters[group] &&
                   Matches(Compile(g), PathOf(line)) {
      assert g in own;
    }
  }

  lemma {:induction false} MatchedCount(globs: seq<string>, lines: seq<string>, line: string)
    ensures multiset(Matched(globs, lines))[line] == if MatchesAny(globs, line) then multiset(lines)[line] else 0
    decreases lines
  {
    hide MatchesAny;
    if lines != [] {
      var init, last := lines[..|lines| - 1], lines[|lines| - 1];
      MatchedCount(globs, init, line);
      assert lines == init + [last];
    }
  }

  lemma {:induction false} MatchedStaysSorted(globs: seq<string>, lines: seq<string>)
    requires Sorting.Sorted(lines, LexLeq)
    ensures Sorting.Sorted(Matched(globs, lines), LexLeq)
    decreases lines
  {
    hide MatchesAny, LexLeq;
    if lines != [] {
      var init, last := lines[..|lines| - 1], lines[|lines| - 1];
      MatchedStaysSorted(globs, init);
      forall line | line in Matched(globs, init)
        ensures LexLeq(line, last)
      {
        MatchedIn(globs, init, line);
        var i :| 0 <= i < |init| && init[i] == line;
        assert LexLeq(lines[i], lines[|lines| - 1]);
      }
    }
  }

  lemma JobLinesCount(job: string, run: Run, line: string)
    requires job in JOBS && Resolvable(run)
    ensures multiset(JobLines(job, run))[line] ==
            if Concerns(job, run.filters, line) then multiset(run.tracked)[line] else 0
  {
    assert JobGlobs(job, run.filters).Some?;
    hide Matches, Compile, Matched, MatchesAny, JOBS, JobGlobs, Resolvable, Concerns;
    MatchedCount(JobGlobs(job, run.filters).value, Sort(run.tracked), line);
    JobGlobsConcern(job, run, line);
    LexIsTotal();
    Sorting.SortSorts(run.tracked, LexLeq);
  }

  lemma JobLinesAreSorted(job: string, run: Run)
    requires job in JOBS && Resolvable(run)
    ensures Sorting.Sorted(JobLines(job, run), LexLeq)
  {
    assert JobGlobs(job, run.filters).Some?;
    hide Matched, MatchesAny, JOBS, JobGlobs, Resolvable, Sorting.Sorted;
    LexIsTotal();
    Sorting.SortSorts(run.tracked, LexLeq);
    MatchedStaysSorted(JobGlobs(job, run.filters).value, Sort(run.tracked));
  }

  /** Two runs list the same lines, each as often, of the files that concern the job. */
  ghost predicate SameConcerns(job: string, run1: Run, run2: Run)
    requires job in JOBS
  {
    forall line | Concerns(job, run1.filters, line) :: multiset(run1.tracked)[line] == multiset(run2.tracked)[line]
  }

  /**
   * With the same filters, a job has the same digest input in two runs if and only if they are on the same image
   * and list the same lines of the files that concern the job.
   */
  lemma SameInputExactly(job: string, run1: Run, run2: Run)
    requires job in JOBS && Resolvable(run1) && Resolvable(run2) && run1.filters == run2.filters
    requires NoWhitespace(run1.env.imageVersion) && NoWhitespace(run2.env.imageVersion)
    requires AllGitLines(run1.tracked) && AllGitLines(run2.tracked)
    ensures JobInput(job, run1) == JobInput(job, run2) <==>
            run1.env.imageVersion == run2.env.imageVersion && SameConcerns(job, run1, run2)
  {
    hide Concerns, JOBS, JobGlobs, Resolvable, AllGitLines, NoWhitespace, JobLines, Terminated;
    hide Matched, Sort, Sorting.Sorted;
    var lines1, lines2 := JobLines(job, run1), JobLines(job, run2);
    forall line
      ensures multiset(lines1)[line] == if Concerns(job, run1.filters, line) then multiset(run1.tracked)[line] else 0
      ensures multiset(lines2)[line] == if Concerns(job, run1.filters, line) then multiset(run2.tracked)[line] else 0
    {
      JobLinesCount(job, run1, line);
      JobLinesCount(job, run2, line);
    }
    if JobInput(job, run1) == JobInput(job, run2) {
      EqualInputsMeanEqualRuns(job, run1, run2);
    }
    if run1.env.imageVersion == run2.env.imageVersion && SameConcerns(job, run1, run2) {
      assert multiset(lines1) == multiset(lines2);
      JobLinesAreSorted(job, run1);
      JobLinesAreSorted(job, run2);
      LexIsTotal();
      Sorting.SortedIsUnique(lines1, lines2, LexLeq);
      InputOfLines(job, run1);
      InputOfLines(job, run2);
    }
  }

  lemma InputOfLines(job: string, run: Run)
    requires job in JOBS && Resolvable(run)
    ensures JobInput(job, run) == run.env.imageVersion + Terminated(JobLines(job, run))
  {
  }

  /** Equal digest inputs of two jobs: the same image, the same matched lines, the same filters. */
  lemma EqualInputsMeanEqualRuns(job: string, run1: Run, run2: Run)
    requires job in JOBS && Resolvable(run1) && Resolvable(run2)
    requires NoWhitespace(run1.env.imageVersion) && NoWhitespace(run2.env.imageVersion)
    requires AllGitLines(run1.tracked) && AllGitLines(run2.tracked)
    requires JobInput(job, run1) == JobInput(job, run2)
    ensures run1.env.imageVersion == run2.env.imageVersion && JobLines(job, run1) == JobLines(job, run2)
  {
    hide MatchesAny, Sort, Matched, GitLine, JobGlobs, Resolvable;
    forall line <- JobLines(job, run1)
      ensures line in run1.tracked
    {
      JobLinesAreTracked(job, run1, line);
    }
    forall line <- JobLines(job, run2)
      ensures line in run2.tracked
    {
      JobLinesAreTracked(job, run2, line);
    }
    DigestInputIsInjective(run1.env.imageVersion, JobLines(job, run1), run2.env.imageVersion, JobLines(job, run2));
  }

  /**
   * Over every history a job is skipped only if the same job passed earlier on a ref this run
   * trusts, on the same runner image, with the same filter definitions and the same lines of every file a glob
   * of the job's groups matches - and never on a scheduled, manual or full run.
   */
  lemma SkipIsJustified(history: History, hash: string -> string, n: nat) returns (i: nat)
    requires FollowsLookup(history, hash) && IdealOn(history, hash) && ContentAddressed(history)
    requires n < |history| && history[n].Decided? && history[n].skip
    ensures i < n && history[i].Passed?
    ensures
      var now, then_ := history[n], history[i];
      && then_.job == now.job
      && then_.run.env.ref in ReadableRefs(now.run.env)
      && then_.run.env.imageVersion == now.run.env.imageVersion
      && then_.run.filters == now.run.filters
      && SameConcerns(now.job, then_.run, now.run)
      && now.run.env.event != "schedule" && now.run.env.event != "workflow_dispatch" && now.run.env.fullRun != "true"
  {
    hide JobLines, JobInput, AllGitLines, NoWhitespace, Resolvable, SameConcerns;
    var now := history[n];
    assert now in history;
    var ref :| ref in ReadableRefs(now.run.env) &&
        (KeyOf(now.job, now.run, hash), ref) in CachesAfter(history[..n], hash);
    i := MarkerHasPass(history[..n], hash, (KeyOf(now.job, now.run, hash), ref));
    var passed := history[i];
    assert passed == history[..n][i] && passed in history;
    KeysAgree(now.job, hash(JobInput(now.job, now.run)), passed.job, hash(JobInput(passed.job, passed.run)));
    EqualInputsMeanEqualRuns(now.job, now.run, passed.run);
    var line :| line in now.run.tracked && PathOf(line) == WORKFLOW;
    WorkflowIsMatched(now.job, now.run, line);
    JobLinesAreTracked(passed.job, passed.run, line);
    SameInputExactly(now.job, passed.run, now.run);
  }

  /** What `lookup` decides of one job, on what the service holds. */
  lemma SkipsExactly(job: string, run: Run, caches: Caches, unreachable: set<string>, hash: string -> string)
    requires job in JOBS && Resolvable(run)
    ensures Skips(job, run, caches, unreachable, hash) <==>
            && run.env.event != "schedule" && run.env.event != "workflow_dispatch" && run.env.fullRun != "true"
            && run.env.repository != "" && run.env.token != "" && job !in unreachable
            && exists ref <- ReadableRefs(run.env) ::
                 ("ci-pass-" + job + "-" + hash(JobInput(job, run)), ref) in caches
  {
    hide JOBS, JobInput, ReadableRefs, Resolvable;
    assert KeyOf(job, run, hash) == "ci-pass-" + job + "-" + hash(JobInput(job, run));
  }

  /**
   * What the markers are for: a job that passed on a readable ref is skipped by every later run on the same image
   * that lists the same lines of the files that concern it, whatever else changed.
   */
  lemma UnchangedIsSkipped(job: string, earlier: Run, run: Run, caches: Caches, unreachable: set<string>,
                           hash: string -> string)
    requires job in JOBS && Resolvable(earlier) && Resolvable(run) && earlier.filters == run.filters
    requires NoWhitespace(run.env.imageVersion) && AllGitLines(earlier.tracked) && AllGitLines(run.tracked)
    requires earlier.env.imageVersion == run.env.imageVersion && SameConcerns(job, earlier, run)
    requires (KeyOf(job, earlier, hash), earlier.env.ref) in caches && earlier.env.ref in ReadableRefs(run.env)
    requires job !in unreachable && !NeverSkips(run.env)
    ensures Skips(job, run, caches, unreachable, hash)
  {
    hide JOBS, JobInput, ReadableRefs, Resolvable, AllGitLines, NeverSkips, SameConcerns;
    SameInputExactly(job, earlier, run);
    assert KeyOf(job, earlier, hash) == KeyOf(job, run, hash);
  }

  /**
   * Over every history: a job that passed on a readable ref, and whose marker was not evicted since, is skipped by
   * a run on the same image that lists the same lines of the files that concern it.
   */
  lemma UnchangedIsSkippedLater(history: History, hash: string -> string, i: nat, n: nat)
    requires FollowsLookup(history, hash) && i < n < |history| && history[i].Passed? && history[n].Decided?
    requires history[i].job == history[n].job && history[i].run.filters == history[n].run.filters
    requires history[i].run.env.imageVersion == history[n].run.env.imageVersion
    requires SameConcerns(history[n].job, history[i].run, history[n].run)
    requires history[i].run.env.ref in ReadableRefs(history[n].run.env)
    requires history[n].job !in history[n].unreachable && !NeverSkips(history[n].run.env)
    requires
      var marker := (KeyOf(history[i].job, history[i].run, hash), history[i].run.env.ref);
      NotEvicted(history[..n], i, marker)
    ensures history[n].skip
  {
    hide SameConcerns, JobInput, ReadableRefs, Resolvable, AllGitLines, NoWhitespace, NeverSkips, NotEvicted;
    hide MarkerExists, JOBS;
    var passed, now := history[i], history[n];
    assert passed in history && now in history && history[..n][i] == passed;
    var marker := (KeyOf(passed.job, passed.run, hash), passed.run.env.ref);
    MarkersAreExactly(history[..n], hash, marker);
    UnchangedIsSkipped(now.job, passed.run, now.run, CachesAfter(history[..n], hash), now.unreachable, hash);
  }

  /** A run reads markers of no ref but its own exactly if its base and default branches are that ref, or absent. */
  predicate ReadsOnlyItself(env: Env) {
    && (env.baseRef == "" || "refs/heads/" + env.baseRef == env.ref)
    && (env.defaultBranch == "" || "refs/heads/" + env.defaultBranch == env.ref)
  }

  lemma ReadsOnlyItselfExactly(env: Env)
    ensures ReadsOnlyItself(env) <==> forall ref <- ReadableRefs(env) :: ref == env.ref
  {
    if env.baseRef != "" {
      ReadableRefsAreTrusted(env, "refs/heads/" + env.baseRef);
    }
    if env.defaultBranch != "" {
      ReadableRefsAreTrusted(env, "refs/heads/" + env.defaultBranch);
    }
    forall ref <- ReadableRefs(env) | ReadsOnlyItself(env)
      ensures ref == env.ref
    {
      ReadableRefsAreTrusted(env, ref);
    }
  }

  /**
   * A pull request's markers never satisfy `main`: on the default branch, where there is no base branch, a job is
   * skipped only if it passed before on that branch itself.
   */
  lemma DefaultBranchTrustsItself(history: History, hash: string -> string, n: nat) returns (i: nat)
    requires FollowsLookup(history, hash) && IdealOn(history, hash) && ContentAddressed(history)
    requires n < |history| && history[n].Decided? && history[n].skip
    requires
      var env := history[n].run.env;
      env.baseRef == "" && env.ref == "refs/heads/" + env.defaultBranch
    ensures i < n && history[i].Passed?
    ensures history[i].job == history[n].job && history[i].run.env.ref == history[n].run.env.ref
    ensures SameConcerns(history[n].job, history[i].run, history[n].run)
  {
    hide ReadableRefs, SameConcerns, FollowsLookup, IdealOn, ContentAddressed;
    i := SkipIsJustified(history, hash, n);
    ReadsOnlyItselfExactly(history[n].run.env);
  }

  lemma JobLinesAreTracked(job: string, run: Run, line: string)
    requires job in JOBS && Resolvable(run) && line in JobLines(job, run)
    ensures line in run.tracked
  {
    hide Sort, Matched;
    MatchedIn(JobGlobs(job, run.filters).value, Sort(run.tracked), line);
    SortKeepsLines(run.tracked, line);
  }
}
