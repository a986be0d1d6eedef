/**
 * The life of an installed skill: any releases applied and removed in any order, user edits and lost sidecars
 * between them, and applies and removals that a crash or a failed write cuts short after any of their writes
 * (cli/internal/skillgen/apply.go:156-204 and :463-495).
 */
module SkillRuns {
  import opened Prelude
  import opened SkillInstall

  // ----- An apply, one write at a time -----

  /** The atomic writes; one that finds its file as it should be leaves it. */
  datatype Write =
    | WriteSkill
    | WriteReference(name: string)
    | PruneReference(name: string)
    | WriteSidecar

  /** What an apply that is not refused writes, in order: the sidecar is last. */
  function Plan(d: Disk, r: Release): seq<Write> {
    (if BodyDiffers(d, r) then [WriteSkill] else [])
    + seq(|r.names|, i requires 0 <= i < |r.names| => WriteReference(r.names[i]))
    + seq(|Recorded(d)|, i requires 0 <= i < |Recorded(d)| => PruneReference(Recorded(d)[i]))
    + (if WritesSidecar(d, r) then [WriteSidecar] else [])
  }

  ghost predicate CanWrite(r: Release, writes: seq<Write>) {
    forall w <- writes :: w.WriteReference? ==> w.name in r.texts
  }

  predicate Prunes(r: Release, w: Write) {
    w.PruneReference? && w.name !in r.names && ValidReferenceName(w.name)
  }

  function Do(d: Disk, r: Release, w: Write): Disk
    requires w.WriteReference? ==> w.name in r.texts
  {
    match w
    case WriteSkill => d.(skill := Some(r.body))
    case WriteReference(name) => d.(references := d.references[name := r.texts[name]])
    case PruneReference(name) => if Prunes(r, w) then d.(references := d.references - {name}) else d
    case WriteSidecar => d.(sidecar := Some(Stamp(r)))
  }

  ghost function Perform(d: Disk, r: Release, writes: seq<Write>): Disk
    requires CanWrite(r, writes)
  {
    if writes == [] then d
    else
      var n := |writes| - 1;
      assert CanWrite(r, writes[..n]) by { assert forall w <- writes[..n] :: w in writes; }
      Do(Perform(d, r, writes[..n]), r, writes[n])
  }

  ghost function Written(writes: seq<Write>): set<string> {
    set w <- writes | w.WriteReference? :: w.name
  }

  ghost function Pruned(r: Release, writes: seq<Write>): set<string> {
    set w <- writes | Prunes(r, w) :: w.name
  }

  ghost function FilesLeft(
      before: map<string, string>, gone: set<string>, newly: set<string>, texts: map<string, string>):
      map<string, string>
    requires newly <= texts.Keys
  {
    (before - gone) + map name | name in newly :: texts[name]
  }

  lemma AddFile(
      before: map<string, string>, gone: set<string>, newly: set<string>, texts: map<string, string>, name: string)
    requires newly <= texts.Keys && name in texts
    ensures FilesLeft(before, gone, newly + {name}, texts) == FilesLeft(before, gone, newly, texts)[name := texts[name]]
  {
  }

  lemma DropFile(
      before: map<string, string>, gone: set<string>, newly: set<string>, texts: map<string, string>, name: string)
    requires newly <= texts.Keys && name !in newly
    ensures FilesLeft(before, gone + {name}, newly, texts) == FilesLeft(before, gone, newly, texts) - {name}
  {
  }

  lemma NoFile(before: map<string, string>, texts: map<string, string>)
    ensures FilesLeft(before, {}, {}, texts) == before
  {
  }

  /** What stands on disk after these writes, whatever their order. */
  ghost function Left(d: Disk, r: Release, writes: seq<Write>): Disk
    requires Written(writes) <= r.texts.Keys
  {
    Disk(if WriteSkill in writes then Some(r.body) else d.skill,
         if WriteSidecar in writes then Some(Stamp(r)) else d.sidecar,
         FilesLeft(d.references, Pruned(r, writes), Written(writes), r.texts))
  }

  lemma WrittenStep(r: Release, init: seq<Write>, w: Write)
    ensures Written(init + [w]) == if w.WriteReference? then Written(init) + {w.name} else Written(init)
    ensures Pruned(r, init + [w]) == if Prunes(r, w) then Pruned(r, init) + {w.name} else Pruned(r, init)
  {
    hide Prunes;
    assert forall x :: x in init + [w] <==> x in init || x == w;
  }

  lemma LeftStep(d: Disk, r: Release, init: seq<Write>, w: Write)
    requires ValidRelease(r) && Written(init) <= r.texts.Keys && (w.WriteReference? ==> w.name in r.texts)
    ensures Written(init + [w]) <= r.texts.Keys
    ensures Left(d, r, init + [w]) == Do(Left(d, r, init), r, w)
  {
    hide Stamp, FilesLeft, Written, Pruned;
    WrittenStep(r, init, w);
    assert forall x :: x in init + [w] <==> x in init || x == w;
    if w.WriteReference? {
      AddFile(d.references, Pruned(r, init), Written(init), r.texts, w.name);
    } else if Prunes(r, w) {
      assert w.name !in r.texts;
      DropFile(d.references, Pruned(r, init), Written(init), r.texts, w.name);
    }
  }

  /** Writes and prunes touch different files, so what they leave depends on which were made, not on their order. */
  lemma {:induction false} Performed(d: Disk, r: Release, writes: seq<Write>)
    requires ValidRelease(r) && CanWrite(r, writes)
    ensures Written(writes) <= r.texts.Keys
    ensures Perform(d, r, writes) == Left(d, r, writes)
    decreases |writes|
  {
    hide ValidRelease, Do, Written, Pruned, Stamp;
    if writes == [] {
      NothingPerformed(d, r);
    } else {
      var n := |writes| - 1;
      assert CanWrite(r, writes[..n]) by { assert forall w <- writes[..n] :: w in writes; }
      Performed(d, r, writes[..n]);
      assert writes == writes[..n] + [writes[n]];
      hide Left;
      LeftStep(d, r, writes[..n], writes[n]);
    }
  }

  lemma NothingPerformed(d: Disk, r: Release)
    ensures Written([]) == {} && Left(d, r, []) == d
  {
    NoFile(d.references, r.texts);
    assert Written([]) == {} && Pruned(r, []) == {};
  }

  lemma PlanCanBeWritten(d: Disk, r: Release, k: nat)
    requires ValidRelease(r) && k <= |Plan(d, r)|
    ensures CanWrite(r, Plan(d, r)[..k])
    ensures Written(Plan(d, r)[..k]) <= set name <- r.names
  {
    var plan := Plan(d, r);
    forall w <- plan[..k] | w.WriteReference?
      ensures w.name in r.names
    {
    }
  }

  lemma WholePlan(d: Disk, r: Release)
    requires ValidRelease(r)
    ensures Written(Plan(d, r)) == r.texts.Keys && Pruned(r, Plan(d, r)) == Dropped(d, r)
  {
    hide WritesSidecar, BodyDiffers;
    var plan := Plan(d, r);
    var skill := if BodyDiffers(d, r) then 1 else 0;
    forall i | 0 <= i < |r.names|
      ensures r.names[i] in Written(plan)
    {
      assert plan[skill + i] == WriteReference(r.names[i]);
    }
    forall i | 0 <= i < |Recorded(d)|
      ensures PruneReference(Recorded(d)[i]) in plan
    {
      assert plan[skill + |r.names| + i] == PruneReference(Recorded(d)[i]);
    }
    PlanCanBeWritten(d, r, |plan|);
    assert plan[..|plan|] == plan;
    hide ValidReferenceName;
    forall name
      ensures name in Dropped(d, r) <==> name in Pruned(r, plan)
    {
      if name in Dropped(d, r) {
        assert Prunes(r, PruneReference(name)) && PruneReference(name) in plan;
      }
    }
  }

  lemma PlanEnds(d: Disk, r: Release)
    ensures WriteSkill in Plan(d, r) <==> BodyDiffers(d, r)
    ensures WriteSidecar in Plan(d, r) <==> WritesSidecar(d, r)
    ensures forall i | 0 <= i < |Plan(d, r)| - 1 :: Plan(d, r)[i] != WriteSidecar
    ensures BodyDiffers(d, r) ==> |Plan(d, r)| > 0 && Plan(d, r)[0] == WriteSkill
  {
    hide WritesSidecar, BodyDiffers;
    var plan := Plan(d, r);
    assert BodyDiffers(d, r) ==> plan[0] == WriteSkill;
    assert WritesSidecar(d, r) ==> plan[|plan| - 1] == WriteSidecar;
  }

  /** All writes together are the apply. */
  lemma PlanIsApply(d: Disk, r: Release, force: bool, frontmatter: string -> string)
    requires ValidRelease(r) && !Refuses(d, r, force, frontmatter)
    ensures CanWrite(r, Plan(d, r))
    ensures Perform(d, r, Plan(d, r)) == DiskAfter(d, r, force, frontmatter)
  {
    hide Plan, Stamp, WritesSidecar, Refuses, Dropped, Pruned, Written;
    var plan := Plan(d, r);
    assert plan[..|plan|] == plan;
    PlanCanBeWritten(d, r, |plan|);
    Performed(d, r, plan);
    WholePlan(d, r);
    PlanEnds(d, r);
    hide ValidRelease, Perform, CanWrite;
    assert (map name | name in r.texts.Keys :: r.texts[name]) == r.texts;
  }

  /** The directory an apply leaves that stops after `k` of its writes. */
  ghost function DiskCut(d: Disk, r: Release, k: nat): Disk
    requires ValidRelease(r) && k < |Plan(d, r)|
  {
    PlanCanBeWritten(d, r, k);
    Perform(d, r, Plan(d, r)[..k])
  }

  /** The references a cut apply has come to. */
  ghost function Begun(d: Disk, r: Release, k: nat): set<string>
    requires k < |Plan(d, r)|
  {
    Written(Plan(d, r)[..k])
  }

  lemma CutShape(d: Disk, r: Release, k: nat)
    requires ValidRelease(r) && k < |Plan(d, r)|
    ensures DiskCut(d, r, k).sidecar == d.sidecar
    ensures DiskCut(d, r, k).skill == if k > 0 then Some(r.body) else d.skill
    ensures Begun(d, r, k) <= set name <- r.names
    ensures forall name ::
              name in DiskCut(d, r, k).references ==> name in d.references || name in Begun(d, r, k)
    ensures forall name :: name in Begun(d, r, k) ==> name in DiskCut(d, r, k).references
    ensures forall name ::
              name in d.references && name !in Recorded(d) ==> name in DiskCut(d, r, k).references
  {
    hide Stamp, WritesSidecar, ValidReferenceName, Perform;
    var plan := Plan(d, r);
    assert forall w <- plan[..k] | w.PruneReference? :: w.name in Recorded(d);
    PlanCanBeWritten(d, r, k);
    Performed(d, r, plan[..k]);
    PlanEnds(d, r);
    hide Plan, Recorded;
    assert k > 0 && BodyDiffers(d, r) ==> plan[..k][0] == WriteSkill;
    assert forall w <- plan[..k] :: w in plan;
  }

  /** `removeOwnedFile` cut short: the skill goes first, then the sidecar, then one reference after the other. */
  function DiskCutRemove(d: Disk, r: Release, k: nat): Disk
    requires k < 2 + |Recorded(d)| + |r.names|
  {
    if k == 0 then d
    else if k == 1 then d.(skill := None)
    else Disk(None, None, d.references - Removable((Recorded(d) + r.names)[..k - 2]))
  }

  // ----- Runs across releases -----

  /** `ApplyCut` and `RemoveCut` stop after `k` writes. */
  datatype Event =
    | Applied(release: Release, force: bool)
    | ApplyCut(release: Release, force: bool, k: nat)
    | Removed(release: Release, force: bool)
    | RemoveCut(release: Release, force: bool, k: nat)
    | Edited(text: Option<string>)
    | Touched(name: string, text: Option<string>)
    | SidecarLost

  /**
   * `shipped` holds every reference name of every release of the run. Users park files under other
   * names, and change or delete the managed ones, but create no file under a managed name.
   */
  ghost predicate Allowed(d: Disk, e: Event, shipped: set<string>) {
    && (e.Applied? || e.ApplyCut? || e.Removed? || e.RemoveCut? ==>
          ValidRelease(e.release) && forall name <- e.release.names :: name in shipped)
    && match e
       case ApplyCut(r, _, k) => k < |Plan(d, r)|
       case RemoveCut(r, _, k) => k < 2 + |Recorded(d)| + |r.names|
       case Touched(name, text) => name in shipped && text.Some? ==> name in d.references
       case _ => true
  }

  ghost function After(d: Disk, e: Event, shipped: set<string>, frontmatter: string -> string): Disk
    requires Allowed(d, e, shipped)
  {
    match e
    case Applied(r, force) => DiskAfter(d, r, force, frontmatter)
    case ApplyCut(r, force, k) => if Refuses(d, r, force, frontmatter) then d else DiskCut(d, r, k)
    case Removed(r, force) => DiskAfterRemove(d, r, force)
    case RemoveCut(r, force, k) => if Removes(d, force) then DiskCutRemove(d, r, k) else d
    case Edited(text) => d.(skill := text)
    case SidecarLost => d.(sidecar := None)
    case Touched(name, text) =>
      d.(references := if text.Some? then d.references[name := text.value] else d.references - {name})
  }

  ghost predicate Run(disks: seq<Disk>, events: seq<Event>, shipped: set<string>, frontmatter: string -> string) {
    && |disks| == |events| + 1
    && disks[0].skill == None && disks[0].sidecar == None && disks[0].references.Keys !! shipped
    && forall i | 0 <= i < |events| ::
         Allowed(disks[i], events[i], shipped) && disks[i + 1] == After(disks[i], events[i], shipped, frontmatter)
  }

  /** The managed files on disk that the sidecar does not record: no later release prunes them. */
  function Stray(d: Disk, shipped: set<string>): set<string> {
    set name <- d.references | name in shipped && name !in Recorded(d)
  }

  ghost predicate RecordsManaged(d: Disk, shipped: set<string>) {
    forall name <- Recorded(d) :: name in shipped && ValidReferenceName(name)
  }

  /** Every managed file on disk is one the sidecar knows how to remove. */
  ghost predicate NoneStranded(d: Disk, shipped: set<string>) {
    RecordsManaged(d, shipped) && Stray(d, shipped) == {}
  }

  // ----- How a file goes astray, and how it is found again -----

  ghost predicate PutsAstray(d: Disk, e: Event, shipped: set<string>, frontmatter: string -> string, name: string)
    requires Allowed(d, e, shipped)
  {
    match e
    case Applied(r, force) => !Refuses(d, r, force, frontmatter) && AppliesBlindly(d, r) && name in r.names
    case ApplyCut(r, force, k) =>
      !Refuses(d, r, force, frontmatter) && name in Begun(d, r, k) && name !in Recorded(d)
    case RemoveCut(r, force, k) =>
      && Removes(d, force) && k >= 2
      && name in d.references && name in Recorded(d) && name !in (Recorded(d) + r.names)[..k - 2]
    case SidecarLost => name in d.references && name in Recorded(d)
    case _ => false
  }

  ghost predicate TakesBack(d: Disk, e: Event, shipped: set<string>, frontmatter: string -> string, name: string)
    requires Allowed(d, e, shipped)
  {
    match e
    case Applied(r, force) => !Refuses(d, r, force, frontmatter) && !AppliesBlindly(d, r) && name in r.names
    case Removed(r, force) => Removes(d, force) && name in r.names
    case RemoveCut(r, force, k) => Removes(d, force) && k >= 2 && name in (Recorded(d) + r.names)[..k - 2]
    case Touched(gone, text) => gone == name && text.None?
    case _ => false
  }

  lemma AppliedStrays(
      d: Disk, r: Release, force: bool, shipped: set<string>, frontmatter: string -> string, name: string)
    requires RecordsManaged(d, shipped) && ValidRelease(r) && forall n <- r.names :: n in shipped
    requires !Refuses(d, r, force, frontmatter)
    ensures RecordsManaged(DiskAfter(d, r, force, frontmatter), shipped)
    ensures name in Stray(DiskAfter(d, r, force, frontmatter), shipped) <==>
            if name in r.names then AppliesBlindly(d, r) else name in Stray(d, shipped)
  {
    hide Fingerprint, Refuses, VersionToken, ValidReferenceName;
  }

  lemma CutStrays(d: Disk, r: Release, k: nat, shipped: set<string>, name: string)
    requires RecordsManaged(d, shipped) && ValidRelease(r) && (forall n <- r.names :: n in shipped)
    requires k < |Plan(d, r)|
    ensures RecordsManaged(DiskCut(d, r, k), shipped)
    ensures name in Stray(DiskCut(d, r, k), shipped) <==>
            name in Stray(d, shipped) || (name in Begun(d, r, k) && name !in Recorded(d))
  {
    hide DiskCut, Begun, Plan, ValidReferenceName;
    CutShape(d, r, k);
  }

  lemma RemoveStrays(d: Disk, r: Release, names: seq<string>, shipped: set<string>, name: string)
    requires RecordsManaged(d, shipped) && ValidRelease(r) && forall n <- names :: n in Recorded(d) || n in r.names
    ensures name in Stray(Disk(None, None, d.references - Removable(names)), shipped) <==>
            name in shipped && name in d.references && name !in names
  {
    hide ValidReferenceName;
  }

  /** What one event does to the files astray, for every event and every name. */
  lemma StepStrays(d: Disk, e: Event, shipped: set<string>, frontmatter: string -> string, name: string)
    requires RecordsManaged(d, shipped) && Allowed(d, e, shipped)
    ensures RecordsManaged(After(d, e, shipped, frontmatter), shipped)
    ensures name in Stray(After(d, e, shipped, frontmatter), shipped) <==>
            || PutsAstray(d, e, shipped, frontmatter, name)
            || (name in Stray(d, shipped) && !TakesBack(d, e, shipped, frontmatter, name))
  {
    hide Refuses, DiskAfter, DiskCut, Begun, Plan, Removes, ValidReferenceName, AppliesBlindly;
    match e
    case Applied(r, force) =>
      if Refuses(d, r, force, frontmatter) {
        RefusedApply(d, r, force, frontmatter);
      } else {
        AppliedStrays(d, r, force, shipped, frontmatter, name);
      }
    case ApplyCut(r, force, k) => CutStrays(d, r, k, shipped, name);
    case Removed(r, _) => RemoveStrays(d, r, Recorded(d) + r.names, shipped, name);
    case RemoveCut(r, _, k) =>
      var names := Recorded(d) + r.names;
      if k >= 2 {
        assert forall n <- names[..k - 2] :: n in names;
        RemoveStrays(d, r, names[..k - 2], shipped, name);
      }
    case _ =>
  }

  lemma RefusedApply(d: Disk, r: Release, force: bool, frontmatter: string -> string)
    requires Refuses(d, r, force, frontmatter)
    ensures DiskAfter(d, r, force, frontmatter) == d
  {
  }

  lemma {:induction false} RunRecordsManaged(
      disks: seq<Disk>, events: seq<Event>, shipped: set<string>, frontmatter: string -> string, i: nat)
    requires Run(disks, events, shipped, frontmatter) && i < |disks|
    ensures RecordsManaged(disks[i], shipped)
  {
    hide Allowed, After;
    if i > 0 {
      RunRecordsManaged(disks, events, shipped, frontmatter, i - 1);
      StepStrays(disks[i - 1], events[i - 1], shipped, frontmatter, "");
    }
  }

  /** Event `j` put the file astray and no event before `i` took it back. */
  ghost predicate AstraySince(
      disks: seq<Disk>, events: seq<Event>, shipped: set<string>, frontmatter: string -> string,
      i: nat, j: nat, name: string)
    requires Run(disks, events, shipped, frontmatter) && j < i < |disks|
  {
    && PutsAstray(disks[j], events[j], shipped, frontmatter, name)
    && forall m | j < m < i :: !TakesBack(disks[m], events[m], shipped, frontmatter, name)
  }

  /**
   * In every run, at every moment, a managed file lies on disk unrecorded exactly when some event put it
   * astray and none has taken it back since.
   */
  lemma {:induction false} StrayExactly(
      disks: seq<Disk>, events: seq<Event>, shipped: set<string>, frontmatter: string -> string,
      i: nat, name: string)
    requires Run(disks, events, shipped, frontmatter) && i < |disks|
    ensures name in Stray(disks[i], shipped) <==>
            exists j | 0 <= j < i :: AstraySince(disks, events, shipped, frontmatter, i, j, name)
  {
    hide Allowed, After, PutsAstray, TakesBack;
    if i > 0 {
      var n := i - 1;
      StrayExactly(disks, events, shipped, frontmatter, n, name);
      RunRecordsManaged(disks, events, shipped, frontmatter, n);
      StepStrays(disks[n], events[n], shipped, frontmatter, name);
      assert PutsAstray(disks[n], events[n], shipped, frontmatter, name) <==>
             AstraySince(disks, events, shipped, frontmatter, i, n, name);
      forall j | 0 <= j < n
        ensures AstraySince(disks, events, shipped, frontmatter, i, j, name) <==>
                && AstraySince(disks, events, shipped, frontmatter, n, j, name)
                && !TakesBack(disks[n], events[n], shipped, frontmatter, name)
      {
      }
    }
  }

  /** Nothing is cut short or lost, and no apply strands. */
  predicate Smooth(d: Disk, e: Event) {
    !e.ApplyCut? && !e.RemoveCut? && !e.SidecarLost? && (e.Applied? ==> !Strands(d, e.release, e.force))
  }

  /** Smooth runs leave no managed file unrecorded. */
  lemma RunStrandsNone(
      disks: seq<Disk>, events: seq<Event>, shipped: set<string>, frontmatter: string -> string, i: nat)
    requires Run(disks, events, shipped, frontmatter) && i < |disks|
    requires forall j | 0 <= j < i :: Smooth(disks[j], events[j])
    ensures NoneStranded(disks[i], shipped)
  {
    hide Allowed, After, AstraySince, TakesBack;
    RunRecordsManaged(disks, events, shipped, frontmatter, i);
    forall name
      ensures name !in Stray(disks[i], shipped)
    {
      StrayExactly(disks, events, shipped, frontmatter, i, name);
      forall j | 0 <= j < i
        ensures !AstraySince(disks, events, shipped, frontmatter, i, j, name)
      {
        SmoothPutsNoneAstray(disks[j], events[j], shipped, frontmatter, name);
        NotAstraySince(disks, events, shipped, frontmatter, i, j, name);
      }
    }
  }

  lemma SmoothPutsNoneAstray(d: Disk, e: Event, shipped: set<string>, frontmatter: string -> string, name: string)
    requires Allowed(d, e, shipped) && Smooth(d, e)
    ensures !PutsAstray(d, e, shipped, frontmatter, name)
  {
    hide Fingerprint, NewerThan, VersionToken, ValidRelease;
  }

  lemma NotAstraySince(
      disks: seq<Disk>, events: seq<Event>, shipped: set<string>, frontmatter: string -> string,
      i: nat, j: nat, name: string)
    requires Run(disks, events, shipped, frontmatter) && j < i < |disks|
    requires !PutsAstray(disks[j], events[j], shipped, frontmatter, name)
    ensures !AstraySince(disks, events, shipped, frontmatter, i, j, name)
  {
  }

  /** An apply strands a managed file exactly when it is forced, blind, and ships references. */
  lemma ApplyStrandsExactly(d: Disk, r: Release, force: bool, shipped: set<string>, frontmatter: string -> string)
    requires NoneStranded(d, shipped) && ValidRelease(r) && forall name <- r.names :: name in shipped
    ensures NoneStranded(DiskAfter(d, r, force, frontmatter), shipped) <==> !Strands(d, r, force)
  {
    hide Fingerprint, NewerThan, VersionToken, Stray;
    if Refuses(d, r, force, frontmatter) {
      RefusedApply(d, r, force, frontmatter);
    } else {
      hide DiskAfter, ValidRelease;
      var after := DiskAfter(d, r, force, frontmatter);
      forall name
        ensures RecordsManaged(after, shipped)
        ensures name in Stray(after, shipped) <==> name in r.names && AppliesBlindly(d, r)
      {
        AppliedStrays(d, r, force, shipped, frontmatter, name);
      }
      assert r.names != [] ==> r.names[0] in r.names;
    }
  }

  /**
   * An apply that was cut short is mended by forcing the same release, unless there was no sidecar and the
   * skill already got its text: then the forced apply takes the file for the user's and records nothing. Without
   * force it is refused as edited once the skill's text is one the old sidecar does not describe.
   */
  lemma CutApplyIsMendedExactly(
      d: Disk, r: Release, force: bool, k: nat, shipped: set<string>, frontmatter: string -> string)
    requires NoneStranded(d, shipped) && ValidRelease(r) && (forall name <- r.names :: name in shipped)
    requires k < |Plan(d, r)|
    ensures
      NoneStranded(DiskAfter(DiskCut(d, r, k), r, true, frontmatter), shipped) <==>
      d.sidecar.Some? || r.names == [] || (k == 0 && BodyDiffers(d, r))
    ensures k > 0 ==>
              (RefusesEdited(DiskCut(d, r, k), false) <==>
               d.sidecar.None? || Fingerprint(r.body) != d.sidecar.value.hash)
  {
    hide Fingerprint, NewerThan, VersionToken, Stray, DiskAfter, DiskCut, Plan, ValidRelease, WritesSidecar, Begun;
    var cut := DiskCut(d, r, k);
    CutShape(d, r, k);
    var after := DiskAfter(cut, r, true, frontmatter);
    forall name
      ensures RecordsManaged(after, shipped)
      ensures name in Stray(after, shipped) <==> name in r.names && AppliesBlindly(cut, r)
    {
      CutStrays(d, r, k, shipped, name);
      AppliedStrays(cut, r, true, shipped, frontmatter, name);
    }
    assert r.names != [] ==> r.names[0] in r.names;
  }

  /**
   * After every apply that was not refused, in every run, the managed files on disk are the references this
   * release ships, with their texts, and those that were astray; all other files are untouched.
   */
  lemma ManagedReferencesAreExact(
      disks: seq<Disk>, events: seq<Event>, shipped: set<string>, frontmatter: string -> string, i: nat)
    requires Run(disks, events, shipped, frontmatter) && i < |events| && events[i].Applied?
    requires !Refuses(disks[i], events[i].release, events[i].force, frontmatter)
    ensures
      var r, d := events[i].release, disks[i + 1];
      && (forall name <- shipped :: name in d.references <==> name in r.names || name in Stray(disks[i], shipped))
      && (forall name <- r.names :: name in r.texts && name in d.references && d.references[name] == r.texts[name])
      && (forall name | name !in shipped :: name in d.references <==> name in disks[i].references)
      && (forall name <- d.references :: name !in shipped ==> d.references[name] == disks[i].references[name])
  {
    hide Fingerprint, NewerThan, Refuses, VersionToken;
    RunRecordsManaged(disks, events, shipped, frontmatter, i);
    assert Allowed(disks[i], events[i], shipped) && disks[i + 1] == After(disks[i], events[i], shipped, frontmatter);
  }

  /** Removing the skill, by whatever release, leaves of the managed files only what was astray and it does not ship. */
  lemma RemoveLeavesOnlyStrays(
      disks: seq<Disk>, events: seq<Event>, shipped: set<string>, frontmatter: string -> string, i: nat)
    requires Run(disks, events, shipped, frontmatter) && i < |events| && events[i].Removed?
    requires Removes(disks[i], events[i].force)
    ensures disks[i + 1].skill == None && disks[i + 1].sidecar == None
    ensures forall name <- shipped :: name in disks[i + 1].references <==>
              name in Stray(disks[i], shipped) && name !in events[i].release.names
  {
    hide Fingerprint;
    RunRecordsManaged(disks, events, shipped, frontmatter, i);
    assert Allowed(disks[i], events[i], shipped) && disks[i + 1] == After(disks[i], events[i], shipped, frontmatter);
  }

  /**
   * The blind apply is the one that strands: it writes references no sidecar records, so a later
   * release that dropped one of them leaves it on disk.
   */
  lemma BlindApplyStrands(d: Disk, r: Release, later: Release, name: string, frontmatter: string -> string)
    requires ValidRelease(r) && ValidRelease(later) && AppliesBlindly(d, r)
    requires name in r.names && name !in later.names
    ensures
      var once := DiskAfter(d, r, true, frontmatter);
      name in once.references && name in DiskAfter(once, later, true, frontmatter).references
  {
    hide Fingerprint;
  }
}
