/**
 * cli/client/auth: bearer tokens cached in one file per identity pair, minted by one flight per
 * credential and process. Any number of callers in any number of processes interleave their
 * reads, mints, saves and invalidations on the shared, unlocked files.
 */
module TokenCache {
  import opened Names
  import opened Prelude

  // ----- File names -----

  datatype Ref = Ref(identity: string, environment: string)

  predicate ValidRef(ref: Ref) {
    ValidName(ref.identity) && ValidName(ref.environment)
  }

  /** `Stem`, with the suffix of the token file. */
  function TokenFile(ref: Ref): Option<string> {
    if ValidRef(ref) then Some(ref.identity + "_" + ref.environment + "_tokens.json") else None
  }

  /** Distinct valid pairs never share a file, and no file name leaves the state directory. */
  lemma TokenFilesAreDistinct(a: Ref, b: Ref)
    requires TokenFile(a).Some?
    ensures TokenFile(a) == TokenFile(b) ==> a == b
    ensures forall i | 0 <= i < |TokenFile(a).value| :: TokenFile(a).value[i] !in {'/', '\\'}
  {
    var suffix := "_tokens.json";
    assert forall i | 0 <= i < |suffix| :: suffix[i] !in {'/', '\\'};
    var f := TokenFile(a).value;
    assert f == a.identity + ("_" + a.environment + suffix);
    if TokenFile(a) == TokenFile(b) {
      assert f[|a.identity|] == '_' && f[|b.identity|] == '_';
      assert forall i | 0 <= i < |a.identity| :: f[i] == a.identity[i] != '_';
      assert forall i | 0 <= i < |b.identity| :: f[i] == b.identity[i] != '_';
      assert |a.identity| == |b.identity|;
      assert f[..|a.identity|] == a.identity && f[..|b.identity|] == b.identity;
      var n := |a.identity| + 1;
      assert f[n..|f| - |suffix|] == a.environment && f[n..|f| - |suffix|] == b.environment;
    }
  }

  // ----- When a token counts as expired -----

  const SECOND := 1_000_000_000
  const SKEW := 30 * SECOND

  /** Two's-complement 64-bit wrap-around, as Go's `time.Duration` arithmetic has it. */
  function Wrap64(n: int): int {
    (n + 0x8000_0000_0000_0000) % 0x1_0000_0000_0000_0000 - 0x8000_0000_0000_0000
  }

  /** The lifetime `renewalDeadline` works with: a missing or non-positive one is a minute. */
  function Lifetime(expiresIn: int): (life: int)
    ensures life > 0
  {
    var life := Wrap64(expiresIn * SECOND);
    if life <= 0 then 60 * SECOND else life
  }

  function EarlyBy(lifetime: int): int {
    if lifetime / 2 < SKEW then lifetime / 2 else SKEW
  }

  function RenewalDeadline(now: int, expiresIn: int): int {
    now + (Lifetime(expiresIn) - EarlyBy(Lifetime(expiresIn)))
  }

  /** The deadline lies strictly ahead, so no lifetime however short makes every request mint. */
  lemma DeadlineIsAhead(now: int, expiresIn: int)
    ensures now < RenewalDeadline(now, expiresIn) <= now + Lifetime(expiresIn)
  {
  }

  /** The server's lifetime is taken at its word exactly while it is positive and fits a duration. */
  lemma LifetimeIsTakenExactly(expiresIn: int)
    ensures Lifetime(expiresIn) == expiresIn * SECOND <==> 0 < expiresIn <= 9_223_372_036
  {
    var n := expiresIn * SECOND;
    assert -0x8000_0000_0000_0000 <= Wrap64(n) < 0x8000_0000_0000_0000;
    if -0x8000_0000_0000_0000 <= n < 0x8000_0000_0000_0000 {
      assert Wrap64(n) == n;
    }
  }

  /**
   * A token is renewed exactly 30 seconds before its end or, when its lifetime is under a minute, when half of it
   * is over; without a positive lifetime it counts as living for a minute.
   */
  lemma RenewedExactly(now: int, expiresIn: int)
    ensures 60 <= expiresIn <= 9_223_372_036 ==>
              RenewalDeadline(now, expiresIn) == now + (expiresIn - 30) * 1_000_000_000
    ensures 0 < expiresIn < 60 ==> RenewalDeadline(now, expiresIn) == now + expiresIn * 500_000_000
    ensures -9_223_372_036 <= expiresIn <= 0 ==> RenewalDeadline(now, expiresIn) == now + 30 * 1_000_000_000
  {
    LifetimeIsTakenExactly(expiresIn);
    var n := expiresIn * SECOND;
    if -9_223_372_036 <= expiresIn <= 0 {
      assert -0x8000_0000_0000_0000 <= n <= 0;
      assert Wrap64(n) == n;
    }
  }

  /** Any other lifetime is what is left of it in 64 bits. */
  lemma WrapsTo64Bits(n: int)
    ensures -0x8000_0000_0000_0000 <= Wrap64(n) < 0x8000_0000_0000_0000
    ensures (n - Wrap64(n)) % 0x1_0000_0000_0000_0000 == 0
  {
  }

  // ----- The machine -----

  type Caller = nat

  /** Where a caller authenticates, and as whom. Static credentials never reach the cache. */
  datatype Creds = Creds(base: string, ref: Ref)

  datatype Token = Token(id: nat, base: string, ref: Ref, mintedAt: int, expiresIn: int)

  function ExpiresAt(t: Token): int {
    RenewalDeadline(t.mintedAt, t.expiresIn)
  }

  datatype Phase =
    | Idle
    | Reading(creds: Creds)
    | NeedsMint(creds: Creds)
    | Minting(creds: Creds, flight: nat)
    | Saving(creds: Creds, flight: nat, token: Token)
    | Saved(creds: Creds, flight: nat, token: Token)
    | Waiting(creds: Creds, flight: nat)
    | ServedFromCache(creds: Creds, token: Token, at: int)
    | ServedFromFlight(creds: Creds, token: Token)
    | Failed

  /** One singleflight call: its key, its leader, and what every waiter will be handed. */
  datatype Flight = Flight(pid: Pid, key: string, leader: Caller, result: Option<Option<Token>>)

  datatype State = State(
    clock: int,
    files: map<string, Token>,
    minted: set<Token>,
    processOf: Caller -> Pid,
    phases: map<Caller, Phase>,
    flights: map<nat, Flight>,
    active: map<(Pid, string), nat>)

  function PhaseOf(s: State, c: Caller): Phase {
    if c in s.phases then s.phases[c] else Idle
  }

  predicate NulFree(s: string) {
    forall i | 0 <= i < |s| :: s[i] != '\0'
  }

  /** `mintKey`. */
  function MintKey(creds: Creds): string {
    creds.base + "\0" + creds.ref.identity + "\0" + creds.ref.environment
  }

  ghost predicate Init(s: State) {
    s.files == map[] && s.minted == {} && s.phases == map[] && s.flights == map[] && s.active == map[]
  }

  datatype Action =
    | Start(creds: Creds)
    | Read
    | Join
    | Mint(token: Token)
    | MintFails
    | Save
    | SaveFails
    | Deliver
    | Collect
    | Finish
    | Invalidate(ref: Ref)
    | Tick(now: int)
    | Crash(pid: Pid)

  function SetPhase(s: State, c: Caller, ph: Phase): State {
    s.(phases := s.phases[c := ph])
  }

  /** The flight ends: its key is free again and its result is there for every waiter. */
  function Land(s: State, n: nat, result: Option<Token>): State
    requires n in s.flights
  {
    var f := s.flights[n];
    s.(flights := s.flights[n := f.(result := Some(result))], active := s.active - {(f.pid, f.key)})
  }

  ghost predicate Step(s: State, t: State, c: Caller, a: Action) {
    var ph := PhaseOf(s, c);
    var p := s.processOf(c);
    match a
    case Start(creds) => ph.Idle? && t == SetPhase(s, c, Reading(creds))
    case Read =>
      && ph.Reading?
      && var file := TokenFile(ph.creds.ref);
         if file.Some? && file.value in s.files && s.clock <= ExpiresAt(s.files[file.value])
         then t == SetPhase(s, c, ServedFromCache(ph.creds, s.files[file.value], s.clock))
         else t == SetPhase(s, c, NeedsMint(ph.creds))
    case Join =>
      && ph.NeedsMint?
      && var at := (p, MintKey(ph.creds));
         if at in s.active then t == SetPhase(s, c, Waiting(ph.creds, s.active[at]))
         else exists n: nat :: n !in s.flights && t == Lead(s, c, ph.creds, n)
    case Mint(token) =>
      // The exchange succeeds only for a valid pair and a base URL that parses.
      && ph.Minting? && ValidRef(ph.creds.ref) && NulFree(ph.creds.base)
      && (forall old_ <- s.minted :: old_.id != token.id)
      && token.base == ph.creds.base && token.ref == ph.creds.ref && token.mintedAt == s.clock
      && t == SetPhase(s, c, Saving(ph.creds, ph.flight, token)).(minted := s.minted + {token})
    case MintFails => ph.Minting? && ph.flight in s.flights && t == SetPhase(Land(s, ph.flight, None), c, Failed)
    case Save =>
      && ph.Saving? && TokenFile(ph.creds.ref).Some?
      && t == SetPhase(s, c, Saved(ph.creds, ph.flight, ph.token))
              .(files := s.files[TokenFile(ph.creds.ref).value := ph.token])
    case SaveFails => ph.Saving? && ph.flight in s.flights && t == SetPhase(Land(s, ph.flight, None), c, Failed)
    case Deliver =>
      && ph.Saved? && ph.flight in s.flights
      && t == SetPhase(Land(s, ph.flight, Some(ph.token)), c, ServedFromFlight(ph.creds, ph.token))
    case Collect =>
      && ph.Waiting? && ph.flight in s.flights && s.flights[ph.flight].result.Some?
      && t == SetPhase(s, c, match s.flights[ph.flight].result.value
                             case Some(token) => ServedFromFlight(ph.creds, token)
                             case None => Failed)
    case Finish => (ph.ServedFromCache? || ph.ServedFromFlight? || ph.Failed?) && t == SetPhase(s, c, Idle)
    case Invalidate(ref) => t == if TokenFile(ref).Some? then s.(files := s.files - {TokenFile(ref).value}) else s
    case Tick(now) => s.clock <= now && t == s.(clock := now)
    case Crash(pid) =>
      && t == s.(phases := map d | d in s.phases && s.processOf(d) != pid :: s.phases[d],
                 active := map at | at in s.active && at.0 != pid :: s.active[at])
  }

  function Lead(s: State, c: Caller, creds: Creds, n: nat): State {
    var p := s.processOf(c);
    SetPhase(s, c, Minting(creds, n))
      .(flights := s.flights[n := Flight(p, MintKey(creds), c, None)], active := s.active[(p, MintKey(creds)) := n])
  }

  ghost predicate Run(states: seq<State>, actions: seq<(Caller, Action)>) {
    && |states| == |actions| + 1
    && Init(states[0])
    && forall i | 0 <= i < |actions| :: Step(states[i], states[i + 1], actions[i].0, actions[i].1)
  }

  // ----- What every run keeps -----

  /** Each file holds one whole token, minted for the pair the file is named after. */
  ghost predicate FilesAreOwn(s: State) {
    forall f <- s.files :: s.files[f] in s.minted && TokenFile(s.files[f].ref) == Some(f)
  }

  ghost predicate TokensAreProper(s: State) {
    forall t <- s.minted :: t.mintedAt <= s.clock && ValidRef(t.ref) && NulFree(t.base)
  }

  /** Inside the mint: from taking the flight to delivering its result. */
  predicate Leads(ph: Phase) {
    ph.Minting? || ph.Saving? || ph.Saved?
  }

  /** Callers that hold a flight lead the one active flight of their process and key. */
  ghost predicate LeadersLead(s: State) {
    forall c <- s.phases :: Leads(s.phases[c]) ==>
      var ph := s.phases[c];
      var at := (s.processOf(c), MintKey(ph.creds));
      && ph.flight in s.flights && s.flights[ph.flight].leader == c
      && at in s.active && s.active[at] == ph.flight
      && (!ph.Minting? ==> ph.token in s.minted && ph.token.base == ph.creds.base && ph.token.ref == ph.creds.ref)
  }

  ghost predicate ActiveIsCurrent(s: State) {
    forall at <- s.active ::
      s.active[at] in s.flights && s.flights[s.active[at]].pid == at.0 && s.flights[s.active[at]].key == at.1
  }

  /** A landed token is one minted for the flight's key. */
  ghost predicate ResultsFitKeys(s: State) {
    forall n <- s.flights :: s.flights[n].result.Some? && s.flights[n].result.value.Some? ==>
      var token := s.flights[n].result.value.value;
      token in s.minted && MintKey(Creds(token.base, token.ref)) == s.flights[n].key
  }

  ghost predicate WaitersWaitForOwnKey(s: State) {
    forall c <- s.phases :: s.phases[c].Waiting? ==>
      s.phases[c].flight in s.flights && s.flights[s.phases[c].flight].key == MintKey(s.phases[c].creds)
  }

  ghost predicate ServedFits(ph: Phase, s: State) {
    && (ph.ServedFromCache? ==>
          ph.token in s.minted && ph.token.ref == ph.creds.ref && ph.token.mintedAt <= ph.at <= ExpiresAt(ph.token))
    && (ph.ServedFromFlight? ==>
          ph.token in s.minted && ph.token.ref == ph.creds.ref && ph.token.base == ph.creds.base)
  }

  ghost predicate ServedAreOwn(s: State) {
    forall c <- s.phases :: ServedFits(s.phases[c], s)
  }

  ghost predicate Inv(s: State) {
    && FilesAreOwn(s) && TokensAreProper(s) && LeadersLead(s) && ActiveIsCurrent(s)
    && ResultsFitKeys(s) && WaitersWaitForOwnKey(s) && ServedAreOwn(s)
  }

  /** A key names one base URL and one pair, as long as the minted side is free of NULs. */
  lemma MintKeyIsInjective(a: Creds, b: Creds)
    requires MintKey(a) == MintKey(b) && NulFree(a.base) && NulFree(a.ref.identity) && NulFree(a.ref.environment)
    ensures a == b
  {
    var k, i, j := MintKey(a), |a.base|, |a.base| + 1 + |a.ref.identity|;
    var i', j' := |b.base|, |b.base| + 1 + |b.ref.identity|;
    TwoNuls(a.base, a.ref.identity, a.ref.environment);
    assert k[i'] == '\0' && k[j'] == '\0';
    hide NulFree;
    KeyParts(a);
    KeyParts(b);
  }

  /** The only NULs of a key built from NUL-free parts are its two separators. */
  lemma TwoNuls(x: string, y: string, z: string)
    requires NulFree(x) && NulFree(y) && NulFree(z)
    ensures
      var k := x + "\0" + y + "\0" + z;
      forall i | 0 <= i < |k| :: k[i] == '\0' <==> i == |x| || i == |x| + 1 + |y|
  {
  }

  lemma KeyParts(a: Creds)
    ensures
      var k, i, j := MintKey(a), |a.base|, |a.base| + 1 + |a.ref.identity|;
      k[..i] == a.base && k[i + 1..j] == a.ref.identity && k[j + 1..] == a.ref.environment
  {
  }

  /** One caller moved between phases; everything else stayed. */
  lemma MoveKeepsInv(s: State, t: State, c: Caller, ph: Phase)
    requires Inv(s) && t == SetPhase(s, c, ph)
    requires !Leads(ph) && (c in s.phases ==> !Leads(s.phases[c]))
    requires ServedFits(ph, s)
    requires ph.Waiting? ==> ph.flight in s.flights && s.flights[ph.flight].key == MintKey(ph.creds)
    ensures Inv(t)
  {
  }

  lemma ReadKeepsInv(s: State, t: State, c: Caller)
    requires Inv(s) && Step(s, t, c, Read)
    ensures Inv(t)
  {
    hide MintKey, ValidRef, RenewalDeadline, LeadersLead, ActiveIsCurrent, ResultsFitKeys, WaitersWaitForOwnKey;
    var creds := PhaseOf(s, c).creds;
    if PhaseOf(t, c).ServedFromCache? {
      TokenFilesAreDistinct(creds.ref, PhaseOf(t, c).token.ref);
    }
    MoveKeepsInv(s, t, c, PhaseOf(t, c));
  }

  lemma JoinKeepsInv(s: State, t: State, c: Caller)
    requires Inv(s) && Step(s, t, c, Join)
    ensures Inv(t)
  {
    hide MintKey, TokenFile, RenewalDeadline, Inv, Lead;
    var creds := PhaseOf(s, c).creds;
    var at := (s.processOf(c), MintKey(creds));
    if at in s.active {
      assert s.active[at] in s.flights && s.flights[s.active[at]].key == at.1 by { ActiveFlight(s, at); }
      MoveKeepsInv(s, t, c, Waiting(creds, s.active[at]));
    } else {
      var n: nat :| n !in s.flights && t == Lead(s, c, creds, n);
      LeadKeepsInv(s, c, creds, n);
    }
  }

  lemma ActiveFlight(s: State, at: (Pid, string))
    requires Inv(s) && at in s.active
    ensures s.active[at] in s.flights && s.flights[s.active[at]].key == at.1
  {
    hide MintKey, TokenFile, RenewalDeadline;
  }

  lemma LeadKeepsInv(s: State, c: Caller, creds: Creds, n: nat)
    requires Inv(s) && PhaseOf(s, c).NeedsMint? && n !in s.flights
    requires (s.processOf(c), MintKey(creds)) !in s.active
    ensures Inv(Lead(s, c, creds, n))
  {
    hide MintKey, TokenFile, RenewalDeadline, ValidRef;
  }

  lemma CollectKeepsInv(s: State, t: State, c: Caller)
    requires Inv(s) && Step(s, t, c, Collect)
    ensures Inv(t)
  {
    hide MintKey, TokenFile, RenewalDeadline;
    var ph := PhaseOf(s, c);
    var result := s.flights[ph.flight].result.value;
    if result.Some? {
      var token := result.value;
      ValidIsNulFree(token.ref);
      MintKeyIsInjective(Creds(token.base, token.ref), ph.creds);
    }
    MoveKeepsInv(s, t, c, PhaseOf(t, c));
  }

  lemma ValidIsNulFree(ref: Ref)
    requires ValidRef(ref)
    ensures NulFree(ref.identity) && NulFree(ref.environment)
  {
  }

  lemma MintKeepsInv(s: State, t: State, c: Caller, token: Token)
    requires Inv(s) && Step(s, t, c, Mint(token))
    ensures Inv(t)
  {
    hide MintKey, TokenFile, RenewalDeadline;
  }

  lemma SaveKeepsInv(s: State, t: State, c: Caller)
    requires Inv(s) && Step(s, t, c, Save)
    ensures Inv(t)
  {
    hide MintKey, RenewalDeadline, ValidRef;
  }

  lemma DeliverKeepsInv(s: State, t: State, c: Caller)
    requires Inv(s) && Step(s, t, c, Deliver)
    ensures Inv(t)
  {
    hide MintKey, TokenFile, RenewalDeadline, ValidRef;
  }

  lemma FailureKeepsInv(s: State, t: State, c: Caller, a: Action)
    requires Inv(s) && Step(s, t, c, a) && (a.MintFails? || a.SaveFails?)
    ensures Inv(t)
  {
    hide MintKey, TokenFile, RenewalDeadline, ValidRef;
  }

  lemma OutsideKeepsInv(s: State, t: State, c: Caller, a: Action)
    requires Inv(s) && Step(s, t, c, a) && (a.Invalidate? || a.Tick? || a.Crash?)
    ensures Inv(t)
  {
    hide MintKey, TokenFile, RenewalDeadline, ValidRef;
  }

  lemma StepKeepsInv(s: State, t: State, c: Caller, a: Action)
    requires Inv(s) && Step(s, t, c, a)
    ensures Inv(t)
  {
    match a
    case Start(creds) => MoveKeepsInv(s, t, c, Reading(creds));
    case Finish => MoveKeepsInv(s, t, c, Idle);
    case Read => ReadKeepsInv(s, t, c);
    case Join => JoinKeepsInv(s, t, c);
    case Collect => CollectKeepsInv(s, t, c);
    case Mint(token) => MintKeepsInv(s, t, c, token);
    case Save => SaveKeepsInv(s, t, c);
    case MintFails | SaveFails => FailureKeepsInv(s, t, c, a);
    case Deliver => DeliverKeepsInv(s, t, c);
    case Invalidate(_) | Tick(_) | Crash(_) => OutsideKeepsInv(s, t, c, a);
  }

  lemma {:induction false} RunKeepsInv(states: seq<State>, actions: seq<(Caller, Action)>, i: nat)
    requires Run(states, actions) && i < |states|
    ensures Inv(states[i])
  {
    hide Step;
    if i > 0 {
      RunKeepsInv(states, actions, i - 1);
      hide Inv;
      StepKeepsInv(states[i - 1], states[i], actions[i - 1].0, actions[i - 1].1);
    }
  }

  /** In every run a token file is absent or holds one whole token minted for the pair it is named after. */
  lemma CacheHoldsOwnToken(states: seq<State>, actions: seq<(Caller, Action)>, i: nat, ref: Ref)
    requires Run(states, actions) && i < |states|
    requires TokenFile(ref).Some? && TokenFile(ref).value in states[i].files
    ensures states[i].files[TokenFile(ref).value] in states[i].minted
    ensures states[i].files[TokenFile(ref).value].ref == ref
  {
    hide TokenFile;
    RunKeepsInv(states, actions, i);
    TokenFilesAreDistinct(ref, states[i].files[TokenFile(ref).value].ref);
  }

  /** In every run a process has at most one mint in flight for a key. */
  lemma OneMintPerKey(states: seq<State>, actions: seq<(Caller, Action)>, i: nat, c: Caller, d: Caller)
    requires Run(states, actions) && i < |states|
    requires Leads(PhaseOf(states[i], c)) && Leads(PhaseOf(states[i], d))
    requires states[i].processOf(c) == states[i].processOf(d)
    requires MintKey(PhaseOf(states[i], c).creds) == MintKey(PhaseOf(states[i], d).creds)
    ensures c == d
  {
    hide MintKey;
    RunKeepsInv(states, actions, i);
  }

  /**
   * A token served from the cache has, on the client clock, at least min(30s, lifetime/2) left,
   * and was minted for the caller's pair.
   */
  lemma CachedTokenIsFresh(states: seq<State>, actions: seq<(Caller, Action)>, i: nat, c: Caller)
    requires Run(states, actions) && i < |states| && PhaseOf(states[i], c).ServedFromCache?
    ensures
      var ph := PhaseOf(states[i], c);
      var life := Lifetime(ph.token.expiresIn);
      && ph.token.ref == ph.creds.ref
      && ph.token.mintedAt <= ph.at
      && ph.token.mintedAt + life - ph.at >= if life >= 60_000_000_000 then 30_000_000_000 else life / 2
  {
    hide TokenFile, MintKey;
    RunKeepsInv(states, actions, i);
  }

  /** A token handed out by a flight was minted for exactly the caller's base URL and pair. */
  lemma FlightTokenIsOwn(states: seq<State>, actions: seq<(Caller, Action)>, i: nat, c: Caller)
    requires Run(states, actions) && i < |states| && PhaseOf(states[i], c).ServedFromFlight?
    ensures
      var ph := PhaseOf(states[i], c);
      ph.token in states[i].minted && Creds(ph.token.base, ph.token.ref) == ph.creds
  {
    hide TokenFile, MintKey;
    RunKeepsInv(states, actions, i);
  }

  /**
   * The flight is kept apart by base URL, the file is not: in some run a caller is served, from
   * the cache, a token that its pair minted at another base URL.
   */
  lemma CacheIgnoresBaseURL(ref: Ref, here: string, there: string)
    returns (states: seq<State>, actions: seq<(Caller, Action)>)
    requires ValidRef(ref) && NulFree(there) && here != there
    ensures Run(states, actions) && |states| == 8
    ensures StartsFrom(iset{Creds(here, ref), Creds(there, ref)}, actions)
    ensures
      var ph := PhaseOf(states[7], 1);
      ph.ServedFromCache? && ph.creds == Creds(here, ref) && ph.token.base == there
  {
    hide MintKey, NulFree, ValidRef, RenewalDeadline, Step, Run, Lead;
    var a, b := Creds(there, ref), Creds(here, ref);
    var token := Token(0, there, ref, 0, 60);
    assert TokenFile(ref).Some?;
    var file := TokenFile(ref).value;
    hide TokenFile;
    DeadlineIsAhead(0, 60);
    var s := State(0, map[], {}, c => 0, map[], map[], map[]);
    states, actions := [s], [];
    EmptyRun(s);
    StartStep(s, 0, a);
    states, actions := Longer(states, actions, SetPhase(s, 0, Reading(a)), 0, Start(a));
    s := SetPhase(s, 0, Reading(a));
    MissStep(s, 0, a);
    states, actions := Longer(states, actions, SetPhase(s, 0, NeedsMint(a)), 0, Read);
    s := SetPhase(s, 0, NeedsMint(a));
    LeadStep(s, 0, a, 0);
    states, actions := Longer(states, actions, Lead(s, 0, a, 0), 0, Join);
    s := Lead(s, 0, a, 0);
    MintStep(s, 0, a, 0, token);
    var t := SetPhase(s, 0, Saving(a, 0, token)).(minted := s.minted + {token});
    states, actions := Longer(states, actions, t, 0, Mint(token));
    s := t;
    SaveStep(s, 0, a, 0, token);
    t := SetPhase(s, 0, Saved(a, 0, token)).(files := s.files[file := token]);
    states, actions := Longer(states, actions, t, 0, Save);
    s := t;
    StartStep(s, 1, b);
    states, actions := Longer(states, actions, SetPhase(s, 1, Reading(b)), 1, Start(b));
    s := SetPhase(s, 1, Reading(b));
    HitStep(s, 1, b, token);
    states, actions := Longer(states, actions, SetPhase(s, 1, ServedFromCache(b, token, 0)), 1, Read);
  }

  // ----- When a cached token is one for the caller's base URL -----

  /** Every caller of the run authenticates with credentials from the pool. */
  ghost predicate StartsFrom(pool: iset<Creds>, actions: seq<(Caller, Action)>) {
    forall i | 0 <= i < |actions| && actions[i].1.Start? :: actions[i].1.creds in pool
  }

  ghost predicate CacheRespectsBase(pool: iset<Creds>) {
    forall states: seq<State>, actions: seq<(Caller, Action)>, i, c |
      Run(states, actions) && StartsFrom(pool, actions) && 0 <= i < |states| &&
          PhaseOf(states[i], c).ServedFromCache? ::
      PhaseOf(states[i], c).token.base == PhaseOf(states[i], c).creds.base
  }

  /** Two credentials of one pair never differ in their base URL, as far as the first can be minted for. */
  ghost predicate OneBasePerPair(pool: iset<Creds>) {
    forall a, b | a in pool && b in pool && a.ref == b.ref && ValidRef(a.ref) && NulFree(a.base) :: a.base == b.base
  }

  ghost predicate PhaseFrom(pool: iset<Creds>, s: State, ph: Phase) {
    match ph
    case Idle | Failed => true
    case ServedFromCache(creds, token, _) => creds in pool && token in s.minted
    case _ => ph.creds in pool
  }

  ghost predicate ComesFrom(pool: iset<Creds>, s: State) {
    && (forall c <- s.phases :: PhaseFrom(pool, s, s.phases[c]))
    && (forall t <- s.minted :: Creds(t.base, t.ref) in pool && ValidRef(t.ref) && NulFree(t.base))
  }

  lemma StepComesFrom(pool: iset<Creds>, s: State, t: State, c: Caller, a: Action)
    requires ComesFrom(pool, s) && FilesAreOwn(s) && Step(s, t, c, a) && (a.Start? ==> a.creds in pool)
    ensures ComesFrom(pool, t)
  {
    hide MintKey, TokenFile, RenewalDeadline, ValidRef, NulFree;
  }

  lemma {:induction false} RunComesFrom(pool: iset<Creds>, states: seq<State>, actions: seq<(Caller, Action)>, i: nat)
    requires Run(states, actions) && StartsFrom(pool, actions) && i < |states|
    ensures ComesFrom(pool, states[i])
  {
    hide Step, ComesFrom;
    if i == 0 {
      InitComesFrom(pool, states[0]);
    } else {
      RunComesFrom(pool, states, actions, i - 1);
      RunKeepsInv(states, actions, i - 1);
      StepComesFrom(pool, states[i - 1], states[i], actions[i - 1].0, actions[i - 1].1);
    }
  }

  lemma InitComesFrom(pool: iset<Creds>, s: State)
    requires Init(s)
    ensures ComesFrom(pool, s)
  {
  }

  /**
   * The cache serves every caller a token for its own base URL, in every run on these credentials, exactly
   * when no pair is used with two base URLs.
   */
  lemma CacheRespectsBaseExactly(pool: iset<Creds>)
    ensures CacheRespectsBase(pool) <==> OneBasePerPair(pool)
  {
    hide Run, Step, NulFree, ValidRef;
    if OneBasePerPair(pool) {
      forall states: seq<State>, actions: seq<(Caller, Action)>, i, c |
        Run(states, actions) && StartsFrom(pool, actions) && 0 <= i < |states| && PhaseOf(states[i], c).ServedFromCache?
        ensures PhaseOf(states[i], c).token.base == PhaseOf(states[i], c).creds.base
      {
        CachedTokenIsFresh(states, actions, i, c);
        RunComesFrom(pool, states, actions, i);
        var ph := PhaseOf(states[i], c);
        assert Creds(ph.token.base, ph.token.ref) in pool && ph.creds in pool;
      }
    } else {
      var a, b :| a in pool && b in pool && a.ref == b.ref && ValidRef(a.ref) && NulFree(a.base) && a.base != b.base;
      var states, actions := CacheIgnoresBaseURL(a.ref, b.base, a.base);
      assert a == Creds(a.base, a.ref) && b == Creds(b.base, a.ref);
      assert StartsFrom(pool, actions) by {
        assert forall k | 0 <= k < |actions| && actions[k].1.Start? :: actions[k].1.creds in iset{b, a};
      }
      assert PhaseOf(states[7], 1).token.base != PhaseOf(states[7], 1).creds.base;
    }
  }

  lemma EmptyRun(s: State)
    requires Init(s)
    ensures Run([s], [])
  {
  }

  lemma Longer(states: seq<State>, actions: seq<(Caller, Action)>, t: State, c: Caller, a: Action)
    returns (more: seq<State>, acts: seq<(Caller, Action)>)
    requires Run(states, actions) && Step(states[|states| - 1], t, c, a)
    ensures more == states + [t] && acts == actions + [(c, a)] && Run(more, acts)
  {
    hide Step, Init;
    more, acts := states + [t], actions + [(c, a)];
    forall i | 0 <= i < |acts|
      ensures Step(more[i], more[i + 1], acts[i].0, acts[i].1)
    {
      if i < |actions| {
        assert more[i] == states[i] && more[i + 1] == states[i + 1] && acts[i] == actions[i];
      }
    }
  }

  lemma StartStep(s: State, c: Caller, creds: Creds)
    requires PhaseOf(s, c).Idle?
    ensures Step(s, SetPhase(s, c, Reading(creds)), c, Start(creds))
  {
  }

  lemma MissStep(s: State, c: Caller, creds: Creds)
    requires PhaseOf(s, c) == Reading(creds) && s.files == map[]
    ensures Step(s, SetPhase(s, c, NeedsMint(creds)), c, Read)
  {
  }

  lemma HitStep(s: State, c: Caller, creds: Creds, token: Token)
    requires PhaseOf(s, c) == Reading(creds) && TokenFile(creds.ref).Some? && TokenFile(creds.ref).value in s.files
    requires s.files[TokenFile(creds.ref).value] == token && s.clock <= ExpiresAt(token)
    ensures Step(s, SetPhase(s, c, ServedFromCache(creds, token, s.clock)), c, Read)
  {
  }

  lemma LeadStep(s: State, c: Caller, creds: Creds, n: nat)
    requires PhaseOf(s, c) == NeedsMint(creds) && s.active == map[] && n !in s.flights
    ensures Step(s, Lead(s, c, creds, n), c, Join)
    ensures var t := Lead(s, c, creds, n);
            && t.phases == s.phases[c := Minting(creds, n)] && t.clock == s.clock
            && t.processOf == s.processOf && t.files == s.files && t.minted == s.minted
  {
    hide MintKey;
  }

  lemma MintStep(s: State, c: Caller, creds: Creds, n: nat, token: Token)
    requires PhaseOf(s, c) == Minting(creds, n) && ValidRef(creds.ref) && NulFree(creds.base) && s.minted == {}
    requires token.base == creds.base && token.ref == creds.ref && token.mintedAt == s.clock
    ensures Step(s, SetPhase(s, c, Saving(creds, n, token)).(minted := s.minted + {token}), c, Mint(token))
  {
  }

  lemma SaveStep(s: State, c: Caller, creds: Creds, n: nat, token: Token)
    requires PhaseOf(s, c) == Saving(creds, n, token) && TokenFile(creds.ref).Some?
    ensures var t := SetPhase(s, c, Saved(creds, n, token)).(files := s.files[TokenFile(creds.ref).value := token]);
            Step(s, t, c, Save)
  {
  }
}
