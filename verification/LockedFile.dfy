/**
 * The locked read-modify-write of a config file (cli/internal/config/file.go `Mutate`, and
 * `MutateConfig` in cli/client/config/writer.go) as a step machine: any number of processes,
 * crashes at any step, readers that take no lock.
 */
module LockedFile {
  import opened Prelude

  /** How far one process has come in its read-modify-write. */
  datatype Phase<!C> =
    | Idle
    | Locked(fn: Mutator<C>)
    | Loaded(fn: Mutator<C>, before: C)
    | Mutated(fn: Mutator<C>, before: C, after: C)
    | Writing(fn: Mutator<C>, before: C, after: C)
    | Written(fn: Mutator<C>, before: C, after: C)
    | Renamed
    | Crashed

  /**
   * `empty` is the config an absent file stands for. `tempOf` names a process's temporary file:
   * a fresh name for each (`os.CreateTemp`) or one name for all of them (`config.yaml.tmp`).
   * `log` records the mutators in the order in which their renames landed.
   */
  datatype State<!C> = State(
    empty: C,
    tempOf: Pid -> nat,
    file: Content<C>,
    temps: map<nat, Content<C>>,
    lock: Option<Pid>,
    phases: map<Pid, Phase<C>>,
    log: seq<Mutator<C>>)

  ghost function PhaseOf<C>(s: State<C>, p: Pid): Phase<C> {
    if p in s.phases then s.phases[p] else Idle
  }

  ghost predicate Init<C>(s: State<C>) {
    && !s.file.Torn?
    && s.lock == None && s.phases == map[] && s.log == []
  }

  /** `Load`: an absent file is the empty config, a torn one does not parse. */
  ghost function Load<C>(s: State<C>): Option<C> {
    match s.file
    case Absent => Some(s.empty)
    case Torn => None
    case Whole(c) => Some(c)
  }

  ghost predicate HoldsLock<C>(ph: Phase<C>) {
    !ph.Idle? && !ph.Crashed?
  }

  // ----- Steps -----

  ghost predicate Acquire<C>(s: State<C>, t: State<C>, p: Pid, fn: Mutator<C>) {
    && PhaseOf(s, p).Idle? && s.lock == None
    && t == s.(lock := Some(p), phases := s.phases[p := Locked(fn)])
  }

  ghost predicate Read<C>(s: State<C>, t: State<C>, p: Pid) {
    && PhaseOf(s, p).Locked? && Load(s).Some?
    && t == s.(phases := s.phases[p := Loaded(PhaseOf(s, p).fn, Load(s).value)])
  }

  ghost predicate Apply<C>(s: State<C>, t: State<C>, p: Pid) {
    var ph := PhaseOf(s, p);
    && ph.Loaded? && ph.fn(ph.before).Some?
    && t == s.(phases := s.phases[p := Mutated(ph.fn, ph.before, ph.fn(ph.before).value)])
  }

  /** The temporary file is created or truncated; until the write is complete it is torn. */
  ghost predicate OpenTemp<C>(s: State<C>, t: State<C>, p: Pid) {
    var ph := PhaseOf(s, p);
    && ph.Mutated?
    && t == s.(phases := s.phases[p := Writing(ph.fn, ph.before, ph.after)], temps := s.temps[s.tempOf(p) := Torn])
  }

  ghost predicate WriteTemp<C>(s: State<C>, t: State<C>, p: Pid) {
    var ph := PhaseOf(s, p);
    && ph.Writing?
    && t == s.(phases := s.phases[p := Written(ph.fn, ph.before, ph.after)],
               temps := s.temps[s.tempOf(p) := Whole(ph.after)])
  }

  /** The rename is atomic: it is the moment the mutation takes effect. */
  ghost predicate Rename<C>(s: State<C>, t: State<C>, p: Pid) {
    var ph := PhaseOf(s, p);
    && ph.Written? && s.tempOf(p) in s.temps
    && t == s.(phases := s.phases[p := Renamed], file := s.temps[s.tempOf(p)],
               temps := s.temps - {s.tempOf(p)}, log := s.log + [ph.fn])
  }

  ghost predicate Release<C>(s: State<C>, t: State<C>, p: Pid) {
    && PhaseOf(s, p).Renamed?
    && t == s.(lock := None, phases := s.phases[p := Idle])
  }

  /** Any error before the rename releases the lock; `Mutate` removes the temporary file, `MutateConfig` leaves it. */
  ghost predicate Abort<C>(s: State<C>, t: State<C>, p: Pid) {
    && HoldsLock(PhaseOf(s, p)) && !PhaseOf(s, p).Renamed?
    && t.temps in [s.temps, s.temps - {s.tempOf(p)}]
    && t == s.(lock := None, phases := s.phases[p := Idle], temps := t.temps)
  }

  /** A dying process leaves its temporary file behind; its lock dies with it. */
  ghost predicate Crash<C>(s: State<C>, t: State<C>, p: Pid) {
    && !PhaseOf(s, p).Crashed?
    && t == s.(phases := s.phases[p := Crashed], lock := if s.lock == Some(p) then None else s.lock)
  }

  datatype Label<!C> =
    | LAcquire(fn: Mutator<C>) | LRead | LApply | LOpen | LWrite | LRename | LRelease | LAbort | LCrash

  ghost predicate Step<C>(s: State<C>, t: State<C>, p: Pid, l: Label<C>) {
    match l
    case LAcquire(fn) => Acquire(s, t, p, fn)
    case LRead => Read(s, t, p)
    case LApply => Apply(s, t, p)
    case LOpen => OpenTemp(s, t, p)
    case LWrite => WriteTemp(s, t, p)
    case LRename => Rename(s, t, p)
    case LRelease => Release(s, t, p)
    case LAbort => Abort(s, t, p)
    case LCrash => Crash(s, t, p)
  }

  /** A run: the states it passes through and, for each step, who took which. */
  ghost predicate Run<C>(states: seq<State<C>>, actions: seq<(Pid, Label<C>)>) {
    && |states| == |actions| + 1
    && Init(states[0])
    && forall i | 0 <= i < |actions| :: Step(states[i], states[i + 1], actions[i].0, actions[i].1)
  }

  // ----- What every run keeps -----

  /** The process is inside its critical section and works on what the file still holds. */
  ghost predicate WorksOnCurrent<C>(s: State<C>, ph: Phase<C>, p: Pid) {
    && (ph.Loaded? ==> Load(s) == Some(ph.before))
    && (ph.Mutated? || ph.Writing? || ph.Written? ==> Load(s) == Some(ph.before) && ph.fn(ph.before) == Some(ph.after))
    && (ph.Written? ==> s.tempOf(p) in s.temps && s.temps[s.tempOf(p)] == Whole(ph.after))
  }

  ghost predicate Inv<C>(start: C, s: State<C>) {
    && !s.file.Torn?
    && Load(s) == FoldMutators(start, s.log)
    && (forall p: Pid :: HoldsLock(PhaseOf(s, p)) <==> s.lock == Some(p))
    && (s.lock.Some? ==> WorksOnCurrent(s, PhaseOf(s, s.lock.value), s.lock.value))
  }

  lemma StepKeepsInv<C>(start: C, s: State<C>, t: State<C>, p: Pid, l: Label<C>)
    requires Inv(start, s) && Step(s, t, p, l)
    ensures Inv(start, t)
    ensures t.log == if l.LRename? then s.log + [PhaseOf(s, p).fn] else s.log
    ensures t.file == if l.LRename? then Whole(PhaseOf(s, p).after) else s.file
  {
    if l.LRename? {
      RenameKeepsInv(start, s, t, p);
    } else if l.LRead? || l.LApply? {
      LoadKeepsInv(start, s, t, p, l);
    } else if l.LOpen? || l.LWrite? {
      TempKeepsInv(start, s, t, p, l);
    } else {
      LockKeepsInv(start, s, t, p, l);
    }
  }

  lemma RenameKeepsInv<C>(start: C, s: State<C>, t: State<C>, p: Pid)
    requires Inv(start, s) && Rename(s, t, p)
    ensures Inv(start, t) && t.log == s.log + [PhaseOf(s, p).fn] && t.file == Whole(PhaseOf(s, p).after)
  {
    assert forall q: Pid :: q != p ==> PhaseOf(t, q) == PhaseOf(s, q);
    assert t.log[..|t.log| - 1] == s.log;
  }

  lemma LoadKeepsInv<C>(start: C, s: State<C>, t: State<C>, p: Pid, l: Label<C>)
    requires Inv(start, s) && Step(s, t, p, l) && (l.LRead? || l.LApply?)
    ensures Inv(start, t) && t.log == s.log && t.file == s.file
  {
    hide FoldMutators;
    assert forall q: Pid :: q != p ==> PhaseOf(t, q) == PhaseOf(s, q);
  }

  lemma TempKeepsInv<C>(start: C, s: State<C>, t: State<C>, p: Pid, l: Label<C>)
    requires Inv(start, s) && Step(s, t, p, l) && (l.LOpen? || l.LWrite?)
    ensures Inv(start, t) && t.log == s.log && t.file == s.file
  {
    hide FoldMutators;
    assert forall q: Pid :: q != p ==> PhaseOf(t, q) == PhaseOf(s, q);
  }

  lemma LockKeepsInv<C>(start: C, s: State<C>, t: State<C>, p: Pid, l: Label<C>)
    requires Inv(start, s) && Step(s, t, p, l) && (l.LAcquire? || l.LRelease? || l.LAbort? || l.LCrash?)
    ensures Inv(start, t) && t.log == s.log && t.file == s.file
  {
    hide FoldMutators;
    assert forall q: Pid :: q != p ==> PhaseOf(t, q) == PhaseOf(s, q);
  }

  lemma {:induction false} RunKeepsInv<C>(states: seq<State<C>>, actions: seq<(Pid, Label<C>)>, i: nat)
    requires Run(states, actions) && i < |states|
    ensures Inv(Load(states[0]).value, states[i])
  {
    if i > 0 {
      RunKeepsInv(states, actions, i - 1);
      StepKeepsInv(Load(states[0]).value, states[i - 1], states[i], actions[i - 1].0, actions[i - 1].1);
    }
  }

  /** The mutators whose rename landed within the first `i` steps, in that order. */
  ghost function Committed<C>(states: seq<State<C>>, actions: seq<(Pid, Label<C>)>, i: nat): seq<Mutator<C>>
    requires Run(states, actions) && i < |states|
  {
    if i == 0 then []
    else
      var ph := PhaseOf(states[i - 1], actions[i - 1].0);
      var done := Committed(states, actions, i - 1);
      assert Step(states[i - 1], states[i], actions[i - 1].0, actions[i - 1].1);
      if actions[i - 1].1.LRename? then done + [ph.fn] else done
  }

  lemma {:induction false} LogIsCommitted<C>(states: seq<State<C>>, actions: seq<(Pid, Label<C>)>, i: nat)
    requires Run(states, actions) && i < |states|
    ensures states[i].log == Committed(states, actions, i)
  {
    hide Inv, Step;
    if i == 0 {
      assert Init(states[0]);
    } else {
      LogIsCommitted(states, actions, i - 1);
      RunKeepsInv(states, actions, i - 1);
      StepKeepsInv(Load(states[0]).value, states[i - 1], states[i], actions[i - 1].0, actions[i - 1].1);
    }
  }

  /**
   * At every moment of every run an unlocked reader finds a whole config: the fold, over the
   * config the run started from, of exactly the mutators whose rename has landed. A mutator that
   * failed or whose process died before its rename is not among them.
   */
  lemma FileIsFoldOfCommitted<C>(states: seq<State<C>>, actions: seq<(Pid, Label<C>)>, i: nat)
    requires Run(states, actions) && i < |states|
    ensures Load(states[i]).Some?
    ensures Load(states[i]) == FoldMutators(Load(states[0]).value, Committed(states, actions, i))
  {
    RunKeepsInv(states, actions, i);
    LogIsCommitted(states, actions, i);
  }

  /** No two processes are ever between lock and unlock at once, and a dead one never holds it. */
  lemma CriticalSectionIsExclusive<C>(states: seq<State<C>>, actions: seq<(Pid, Label<C>)>, i: nat, p: Pid, q: Pid)
    requires Run(states, actions) && i < |states|
    requires HoldsLock(PhaseOf(states[i], p)) && HoldsLock(PhaseOf(states[i], q))
    ensures p == q
  {
    RunKeepsInv(states, actions, i);
  }

  /**
   * No update is lost: what a mutator reads under the lock is still what the file holds when its
   * own rename lands, so the file goes from the one straight to the other.
   */
  lemma RenameReplacesWhatWasRead<C>(states: seq<State<C>>, actions: seq<(Pid, Label<C>)>, i: nat)
    requires Run(states, actions) && i < |actions| && actions[i].1.LRename?
    ensures
      var ph := PhaseOf(states[i], actions[i].0);
      && ph.Written?
      && Load(states[i]) == Some(ph.before)
      && ph.fn(ph.before) == Some(ph.after)
      && states[i + 1].file == Whole(ph.after)
  {
    RunKeepsInv(states, actions, i);
    assert Step(states[i], states[i + 1], actions[i].0, actions[i].1);
  }
}
