/**
 * cli/internal/config/agentstate.go: the agent-account record lives in its own file, is adopted
 * from the legacy config on the first mutation, and is then cleared there. Two files, two locks,
 * any number of processes, crashes at any step. A save (temporary file, then rename) is one step
 * here; `LockedFile` takes it apart.
 */
module AgentState {
  import opened Prelude

  /** The legacy config: the account and the notice flag it may still carry, and everything else. */
  datatype Legacy<A, R> = Legacy(agent: Option<A>, noticeSeen: bool, rest: R)

  datatype Phase<!A, !R> =
    | Idle
    | Crashed
      // MutateAgentState, under the agent-state lock; the clearing phases also hold the legacy lock
    | XLocked(fn: Mutator<Option<A>>)
    | XAbsent(fn: Mutator<Option<A>>)
    | XLoaded(fn: Mutator<Option<A>>, before: Option<A>)
    | XSaved
    | XClearing
    | XClearLocked
    | XClearLoaded(cfg: Legacy<A, R>)
    | XClearSaved
    | XDone
      // Mutate on the legacy config, under the legacy lock
    | LLocked(g: Mutator<Legacy<A, R>>)
    | LLoaded(g: Mutator<Legacy<A, R>>, cfg: Legacy<A, R>)
    | LSaved

  datatype State<!A, !R> = State(
    empty: R,
    xdg: Content<Option<A>>,
    legacy: Content<Legacy<A, R>>,
    xlock: Option<Pid>,
    llock: Option<Pid>,
    phases: map<Pid, Phase<A, R>>)

  ghost function PhaseOf<A, R>(s: State<A, R>, p: Pid): Phase<A, R> {
    if p in s.phases then s.phases[p] else Idle
  }

  /** `Load` of the legacy config: a missing file is the empty config. */
  ghost function LegacyValue<A, R>(s: State<A, R>): Legacy<A, R> {
    if s.legacy.Whole? then s.legacy.value else Legacy(None, false, s.empty)
  }

  /** The record a locked read finds: the new file once it exists, the legacy copy until then. */
  ghost function Visible<A, R>(s: State<A, R>): Option<A> {
    if s.xdg.Whole? then s.xdg.value else LegacyValue(s).agent
  }

  ghost predicate Init<A, R>(s: State<A, R>) {
    !s.xdg.Torn? && !s.legacy.Torn? && s.xlock == None && s.llock == None && s.phases == map[]
  }

  ghost predicate HoldsX<A, R>(ph: Phase<A, R>) {
    match ph
    case Idle | Crashed | LLocked(_) | LLoaded(_, _) | LSaved => false
    case _ => true
  }

  ghost predicate HoldsL<A, R>(ph: Phase<A, R>) {
    match ph
    case XClearLocked | XClearLoaded(_) | XClearSaved | LLocked(_) | LLoaded(_, _) | LSaved => true
    case _ => false
  }

  /** Nothing but the adoption writes the legacy account: every other mutator leaves it alone. */
  ghost predicate KeepsAgent<A(!new), R(!new)>(g: Mutator<Legacy<A, R>>) {
    forall c :: g(c).Some? ==> g(c).value.agent == c.agent
  }

  datatype Label<!A, !R> =
    | XAcquire(fn: Mutator<Option<A>>)
    | XReadXdg
    | XReadLegacy
    | XCommit
    | XCheckLegacy
    | XLockLegacy
    | XLoadLegacy
    | XSaveLegacy
    | XUnlockLegacy
    | XGiveUpClearing
    | XRelease
    | XAbort
    | LAcquire(g: Mutator<Legacy<A, R>>)
    | LLoad
    | LSave
    | LRelease
    | Crash

  ghost predicate Step<A(!new), R(!new)>(s: State<A, R>, t: State<A, R>, p: Pid, l: Label<A, R>) {
    var ph := PhaseOf(s, p);
    match l
    case XAcquire(fn) =>
      ph.Idle? && s.xlock == None && t == s.(xlock := Some(p), phases := s.phases[p := XLocked(fn)])
    case XReadXdg =>
      && ph.XLocked? && !s.xdg.Torn?
      && t == s.(phases := s.phases[p := if s.xdg.Whole? then XLoaded(ph.fn, s.xdg.value) else XAbsent(ph.fn)])
    case XReadLegacy =>
      ph.XAbsent? && !s.legacy.Torn? && t == s.(phases := s.phases[p := XLoaded(ph.fn, LegacyValue(s).agent)])
    case XCommit =>
      && ph.XLoaded? && ph.fn(ph.before).Some?
      && t == s.(xdg := Whole(ph.fn(ph.before).value), phases := s.phases[p := XSaved])
    case XCheckLegacy =>
      var cfg := LegacyValue(s);
      && ph.XSaved?
      && t == s.(phases := s.phases[p := if cfg.agent.Some? || cfg.noticeSeen then XClearing else XDone])
    case XLockLegacy =>
      ph.XClearing? && s.llock == None && t == s.(llock := Some(p), phases := s.phases[p := XClearLocked])
    case XLoadLegacy =>
      ph.XClearLocked? && !s.legacy.Torn? && t == s.(phases := s.phases[p := XClearLoaded(LegacyValue(s))])
    case XSaveLegacy =>
      && ph.XClearLoaded?
      && t == s.(legacy := Whole(ph.cfg.(agent := None, noticeSeen := false)), phases := s.phases[p := XClearSaved])
    case XUnlockLegacy =>
      ph.XClearSaved? && t == s.(llock := None, phases := s.phases[p := XDone])
    case XGiveUpClearing =>
      && (ph.XSaved? || ph.XClearing? || ph.XClearLocked? || ph.XClearLoaded?)
      && t == s.(llock := if HoldsL(ph) then None else s.llock, phases := s.phases[p := XDone])
    case XRelease =>
      ph.XDone? && t == s.(xlock := None, phases := s.phases[p := Idle])
    case XAbort =>
      (ph.XLocked? || ph.XAbsent? || ph.XLoaded?) && t == s.(xlock := None, phases := s.phases[p := Idle])
    case LAcquire(g) =>
      && ph.Idle? && s.llock == None && KeepsAgent(g)
      && t == s.(llock := Some(p), phases := s.phases[p := LLocked(g)])
    case LLoad =>
      ph.LLocked? && !s.legacy.Torn? && t == s.(phases := s.phases[p := LLoaded(ph.g, LegacyValue(s))])
    case LSave =>
      && ph.LLoaded? && ph.g(ph.cfg).Some?
      && t == s.(legacy := Whole(ph.g(ph.cfg).value), phases := s.phases[p := LSaved])
    case LRelease =>
      (ph.LLocked? || ph.LLoaded? || ph.LSaved?) && t == s.(llock := None, phases := s.phases[p := Idle])
    case Crash =>
      && !ph.Crashed?
      && t == s.(xlock := if s.xlock == Some(p) then None else s.xlock,
                 llock := if s.llock == Some(p) then None else s.llock,
                 phases := s.phases[p := Crashed])
  }

  ghost predicate Run<A(!new), R(!new)>(states: seq<State<A, R>>, actions: seq<(Pid, Label<A, R>)>) {
    && |states| == |actions| + 1
    && Init(states[0])
    && forall i | 0 <= i < |actions| :: Step(states[i], states[i + 1], actions[i].0, actions[i].1)
  }

  /** What the holder of the agent-state lock knows. */
  ghost predicate XKnows<A, R>(s: State<A, R>, ph: Phase<A, R>) {
    match ph
    case XAbsent(_) => s.xdg.Absent?
    case XLoaded(_, before) => before == Visible(s)
    case XSaved | XClearing | XClearLocked | XClearLoaded(_) | XClearSaved | XDone => s.xdg.Whole?
    case _ => true
  }

  /** What the holder of the legacy lock knows. */
  ghost predicate LKnows<A(!new), R(!new)>(s: State<A, R>, ph: Phase<A, R>) {
    match ph
    case XClearLoaded(cfg) => cfg == LegacyValue(s)
    case LLocked(g) => KeepsAgent(g)
    case LLoaded(g, cfg) => KeepsAgent(g) && cfg == LegacyValue(s)
    case _ => true
  }

  ghost predicate Inv<A(!new), R(!new)>(s: State<A, R>) {
    && !s.xdg.Torn? && !s.legacy.Torn?
    && (forall p: Pid :: HoldsX(PhaseOf(s, p)) <==> s.xlock == Some(p))
    && (forall p: Pid :: HoldsL(PhaseOf(s, p)) <==> s.llock == Some(p))
    && (s.xlock.Some? ==> XKnows(s, PhaseOf(s, s.xlock.value)))
    && (s.llock.Some? ==> LKnows(s, PhaseOf(s, s.llock.value)))
  }

  lemma OthersKeepPhase<A(!new), R(!new)>(s: State<A, R>, t: State<A, R>, p: Pid, l: Label<A, R>)
    requires Step(s, t, p, l)
    ensures forall q: Pid :: q != p ==> PhaseOf(t, q) == PhaseOf(s, q)
  {
  }

  /** One step: the visible record moves only when a mutator's save lands, and then by that mutator. */
  lemma StepKeepsInv<A(!new), R(!new)>(s: State<A, R>, t: State<A, R>, p: Pid, l: Label<A, R>)
    requires Inv(s) && Step(s, t, p, l)
    ensures Inv(t)
    ensures s.xdg.Whole? ==> t.xdg.Whole?
    ensures l.XCommit? ==> PhaseOf(s, p).XLoaded? && PhaseOf(s, p).fn(Visible(s)) == Some(Visible(t))
    ensures !l.XCommit? ==> Visible(t) == Visible(s)
    ensures LegacyValue(t).agent == LegacyValue(s).agent || (LegacyValue(t).agent == None && t.xdg.Whole?)
  {
    OthersKeepPhase(s, t, p, l);
    match l
    case XCommit => CommitKeepsInv(s, t, p);
    case XSaveLegacy => ClearKeepsInv(s, t, p);
    case LSave => LegacySaveKeepsInv(s, t, p);
    case Crash => CrashKeepsInv(s, t, p);
    case XAcquire(_) | XReadXdg | XReadLegacy | XCheckLegacy | XRelease | XAbort => XStepKeepsInv(s, t, p, l);
    case XLockLegacy | XUnlockLegacy | XGiveUpClearing => ClearingKeepsInv(s, t, p, l);
    case _ => LStepKeepsInv(s, t, p, l);
  }

  lemma CommitKeepsInv<A(!new), R(!new)>(s: State<A, R>, t: State<A, R>, p: Pid)
    requires Inv(s) && Step(s, t, p, XCommit)
    ensures Inv(t) && PhaseOf(s, p).fn(Visible(s)) == Some(Visible(t)) && t.legacy == s.legacy
  {
    OthersKeepPhase(s, t, p, XCommit);
  }

  lemma ClearKeepsInv<A(!new), R(!new)>(s: State<A, R>, t: State<A, R>, p: Pid)
    requires Inv(s) && Step(s, t, p, XSaveLegacy)
    ensures Inv(t) && Visible(t) == Visible(s) && s.xdg.Whole? && t.xdg == s.xdg && LegacyValue(t).agent == None
  {
    OthersKeepPhase(s, t, p, XSaveLegacy);
  }

  lemma LegacySaveKeepsInv<A(!new), R(!new)>(s: State<A, R>, t: State<A, R>, p: Pid)
    requires Inv(s) && Step(s, t, p, LSave)
    ensures Inv(t) && Visible(t) == Visible(s) && t.xdg == s.xdg && LegacyValue(t).agent == LegacyValue(s).agent
  {
    OthersKeepPhase(s, t, p, LSave);
  }

  lemma XStepKeepsInv<A(!new), R(!new)>(s: State<A, R>, t: State<A, R>, p: Pid, l: Label<A, R>)
    requires Inv(s) && Step(s, t, p, l)
    requires l.XAcquire? || l.XReadXdg? || l.XReadLegacy? || l.XCheckLegacy? || l.XRelease? || l.XAbort?
    ensures Inv(t) && t.xdg == s.xdg && t.legacy == s.legacy
  {
    OthersKeepPhase(s, t, p, l);
  }

  lemma CrashKeepsInv<A(!new), R(!new)>(s: State<A, R>, t: State<A, R>, p: Pid)
    requires Inv(s) && Step(s, t, p, Crash)
    ensures Inv(t) && t.xdg == s.xdg && t.legacy == s.legacy
  {
    OthersKeepPhase(s, t, p, Crash);
  }

  lemma ClearingKeepsInv<A(!new), R(!new)>(s: State<A, R>, t: State<A, R>, p: Pid, l: Label<A, R>)
    requires Inv(s) && Step(s, t, p, l)
    requires l.XLockLegacy? || l.XUnlockLegacy? || l.XGiveUpClearing?
    ensures Inv(t) && t.xdg == s.xdg && t.legacy == s.legacy
  {
    OthersKeepPhase(s, t, p, l);
  }

  lemma LStepKeepsInv<A(!new), R(!new)>(s: State<A, R>, t: State<A, R>, p: Pid, l: Label<A, R>)
    requires Inv(s) && Step(s, t, p, l)
    requires l.LAcquire? || l.LLoad? || l.LRelease? || l.XLoadLegacy?
    ensures Inv(t) && t.xdg == s.xdg && t.legacy == s.legacy
  {
    OthersKeepPhase(s, t, p, l);
  }

  lemma {:induction false} RunKeepsInv<A(!new), R(!new)>(
      states: seq<State<A, R>>, actions: seq<(Pid, Label<A, R>)>, i: nat)
    requires Run(states, actions) && i < |states|
    ensures Inv(states[i])
  {
    hide Step;
    if i > 0 {
      RunKeepsInv(states, actions, i - 1);
      StepKeepsInv(states[i - 1], states[i], actions[i - 1].0, actions[i - 1].1);
    }
  }

  /** The mutators whose save landed within the first `i` steps, in that order. */
  ghost function Committed<A(!new), R(!new)>(states: seq<State<A, R>>, actions: seq<(Pid, Label<A, R>)>, i: nat)
    : seq<Mutator<Option<A>>>
    requires Run(states, actions) && i < |states|
  {
    if i == 0 then []
    else
      var done := Committed(states, actions, i - 1);
      assert Step(states[i - 1], states[i], actions[i - 1].0, actions[i - 1].1);
      if actions[i - 1].1.XCommit? then done + [PhaseOf(states[i - 1], actions[i - 1].0).fn] else done
  }

  /**
   * Over every run the visible record is the fold, over the one the run started with, of exactly
   * the mutators whose save landed: adoption neither loses the record nor brings one back.
   */
  lemma {:induction false} VisibleIsFoldOfCommitted<A(!new), R(!new)>(
      states: seq<State<A, R>>, actions: seq<(Pid, Label<A, R>)>, i: nat)
    requires Run(states, actions) && i < |states|
    ensures FoldMutators(Visible(states[0]), Committed(states, actions, i)) == Some(Visible(states[i]))
  {
    hide Step, Inv, Visible;
    if i > 0 {
      VisibleIsFoldOfCommitted(states, actions, i - 1);
      RunKeepsInv(states, actions, i - 1);
      StepKeepsInv(states[i - 1], states[i], actions[i - 1].0, actions[i - 1].1);
      var done := Committed(states, actions, i - 1);
      if actions[i - 1].1.XCommit? {
        var fn := PhaseOf(states[i - 1], actions[i - 1].0).fn;
        assert (done + [fn])[..|done|] == done;
      }
    }
  }

  /** Between two moments of a run: the new file stays, and the legacy account only ever goes. */
  lemma {:induction false} LegacyOnlyFades<A(!new), R(!new)>(
      states: seq<State<A, R>>, actions: seq<(Pid, Label<A, R>)>, i: nat, j: nat)
    requires Run(states, actions) && i <= j < |states|
    ensures states[i].xdg.Whole? ==> states[j].xdg.Whole?
    ensures
      var was, now := LegacyValue(states[i]).agent, LegacyValue(states[j]).agent;
      now == was || (now == None && states[j].xdg.Whole?)
    decreases j
  {
    hide Step, Inv, LegacyValue;
    if i < j {
      LegacyOnlyFades(states, actions, i, j - 1);
      RunKeepsInv(states, actions, j - 1);
      StepKeepsInv(states[j - 1], states[j], actions[j - 1].0, actions[j - 1].1);
    }
  }

  /** Once the new file exists no read, however late, depends on the legacy copy. */
  lemma AdoptedRecordHidesLegacy<A(!new), R(!new)>(
      states: seq<State<A, R>>, actions: seq<(Pid, Label<A, R>)>, i: nat, j: nat, other: Content<Legacy<A, R>>)
    requires Run(states, actions) && i <= j < |states| && states[i].xdg.Whole?
    ensures Visible(states[j].(legacy := other)) == Visible(states[j])
  {
    LegacyOnlyFades(states, actions, i, j);
  }

  /** The legacy account changes at one kind of step only: the save that clears it. */
  lemma OnlyClearingMovesLegacy<A(!new), R(!new)>(s: State<A, R>, t: State<A, R>, p: Pid, l: Label<A, R>)
    requires Inv(s) && Step(s, t, p, l)
    ensures LegacyValue(t).agent == if l.XSaveLegacy? then None else LegacyValue(s).agent
  {
  }

  /** Over a stretch of a run the account is gone exactly if it was absent or a clearing save landed. */
  lemma {:induction false} LegacyGoneExactly<A(!new), R(!new)>(
      states: seq<State<A, R>>, actions: seq<(Pid, Label<A, R>)>, i: nat, j: nat)
    requires Run(states, actions) && i <= j < |states|
    ensures LegacyValue(states[j]).agent ==
            if exists k | i <= k < j :: actions[k].1.XSaveLegacy? then None else LegacyValue(states[i]).agent
    decreases j
  {
    hide Step, Inv, LegacyValue;
    if i < j {
      LegacyGoneExactly(states, actions, i, j - 1);
      RunKeepsInv(states, actions, j - 1);
      OnlyClearingMovesLegacy(states[j - 1], states[j], actions[j - 1].0, actions[j - 1].1);
      assert (exists k | i <= k < j :: actions[k].1.XSaveLegacy?) <==>
             actions[j - 1].1.XSaveLegacy? || exists k | i <= k < j - 1 :: actions[k].1.XSaveLegacy?;
    }
  }

  /**
   * An unlocked `LoadAgentState` reads the new file at one moment and, finding none, the legacy
   * config at a later one. It returns the record that was there all along exactly when there was
   * none or no clearing save landed between the two reads; otherwise it returns nothing.
   */
  lemma UnlockedReadExactly<A(!new), R(!new)>(
      states: seq<State<A, R>>, actions: seq<(Pid, Label<A, R>)>, i: nat, j: nat)
    requires Run(states, actions) && i <= j < |states| && states[i].xdg.Absent?
    ensures
      var read, recorded := LegacyValue(states[j]).agent, Visible(states[i]);
      && (read == recorded <==> recorded == None || !exists k | i <= k < j :: actions[k].1.XSaveLegacy?)
      && (read != recorded ==> read == None && states[j].xdg.Whole?)
  {
    hide Step, Inv, LegacyValue;
    LegacyOnlyFades(states, actions, i, j);
    LegacyGoneExactly(states, actions, i, j);
  }

  /** Such a run: a no-op adoption, start to finish, between the two reads. */
  lemma UnlockedReadCanMiss<A(!new), R(!new)>(a: A, rest: R)
    returns (states: seq<State<A, R>>, actions: seq<(Pid, Label<A, R>)>)
    ensures Run(states, actions) && states[0].xdg.Absent?
    ensures forall i | 0 <= i < |states| :: Visible(states[i]) == Some(a)
    ensures LegacyValue(states[|states| - 1]).agent == None
  {
    var keep: Mutator<Option<A>> := r => Some(r);
    var cfg := Legacy(Some(a), false, rest);
    var s0: State<A, R> := State(rest, Absent, Whole(cfg), None, None, map[]);
    var s1 := s0.(xlock := Some(0), phases := s0.phases[0 := XLocked(keep)]);
    var s2 := s1.(phases := s1.phases[0 := XAbsent(keep)]);
    var s3 := s2.(phases := s2.phases[0 := XLoaded(keep, Some(a))]);
    var s4 := s3.(xdg := Whole(Some(a)), phases := s3.phases[0 := XSaved]);
    var s5 := s4.(phases := s4.phases[0 := XClearing]);
    var s6 := s5.(llock := Some(0), phases := s5.phases[0 := XClearLocked]);
    var s7 := s6.(phases := s6.phases[0 := XClearLoaded(cfg)]);
    var s8 := s7.(legacy := Whole(cfg.(agent := None)), phases := s7.phases[0 := XClearSaved]);
    states := [s0, s1, s2, s3, s4, s5, s6, s7, s8];
    actions := [(0, XAcquire(keep)), (0, XReadXdg), (0, XReadLegacy), (0, XCommit), (0, XCheckLegacy), (0, XLockLegacy),
                (0, XLoadLegacy), (0, XSaveLegacy)];
    assert Step(s0, s1, 0, XAcquire(keep)) && Step(s1, s2, 0, XReadXdg) && Step(s2, s3, 0, XReadLegacy);
    assert Step(s3, s4, 0, XCommit) && Step(s4, s5, 0, XCheckLegacy) && Step(s5, s6, 0, XLockLegacy);
    assert Step(s6, s7, 0, XLoadLegacy) && Step(s7, s8, 0, XSaveLegacy);
  }
}
