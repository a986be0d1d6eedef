/**
 * cli/client/transport.go: the response policy of the SDK transport. Replies come from an adversary: one
 * for every send, in any order. Times are milliseconds.
 */
module RetryTransport {
  import opened Prelude

  const MAX_IDEMPOTENT_RETRIES: nat := 3
  const RETRY_BASE_DELAY: nat := 200
  const MAX_RETRY_AFTER: nat := 30000
  const MAX_BODY_BYTES: nat := 67108864

  /** What a send came to: a transport error, or a status and the Retry-After it asks for, if it parses. */
  datatype Reply = Failed | Status(code: nat, retryAfter: Option<nat>)

  /** Where the body comes from: GetBody with a known length, or a stream to be read once, which may fail. */
  datatype BodySource = NoBody | Reopened(contents: string) | Stream(contents: string, readable: bool)

  /** `onOrigin` and `mintable`: the request is on the credential's origin, and the credential can be minted again. */
  datatype Request = Request(verb: string, idempotencyKey: string, source: BodySource, onOrigin: bool, mintable: bool)

  /**
   * Everything outside the loop: the reply to each send, what each send leaves of the body reader,
   * whether each wait runs its course, whether GetBody works the nth time, whether re-authentication does.
   */
  datatype World = World(
    reply: nat -> Reply,
    unread: nat -> string,
    slept: nat -> bool,
    opens: nat -> bool,
    reauthWorks: bool)

  datatype Event =
    | Sent(body: string, bearer: nat, reply: Reply)
    | Reauth(ok: bool)
    | Backoff(ms: nat, finished: bool)
    | RateWait(ms: nat, finished: bool)

  datatype Outcome =
    | TooLarge
    | ReadFailed
    | RewindFailed
    | Surfaced(reply: Reply)

  /** `isIdempotent`. */
  predicate Idempotent(req: Request) {
    req.verb in {"GET", "HEAD", "OPTIONS"} || req.idempotencyKey != ""
  }

  function Body(req: Request): string {
    if req.source.NoBody? then "" else req.source.contents
  }

  /** With re-exchange switched off, no credential counts as one that can be minted again. */
  function Policy(req: Request, reExchange: bool): Request {
    req.(mintable := req.mintable && reExchange)
  }

  lemma PolicyKeeps(req: Request, reExchange: bool)
    ensures Idempotent(Policy(req, reExchange)) == Idempotent(req) && Body(Policy(req, reExchange)) == Body(req)
  {
  }

  // ----- What the policy allows, read off the history alone -----

  function Sends(trace: seq<Event>): nat {
    if trace == [] then 0 else Sends(trace[..|trace| - 1]) + if trace[|trace| - 1].Sent? then 1 else 0
  }

  function Backoffs(trace: seq<Event>): nat {
    if trace == [] then 0 else Backoffs(trace[..|trace| - 1]) + if trace[|trace| - 1].Backoff? then 1 else 0
  }

  function RateWaits(trace: seq<Event>): nat {
    if trace == [] then 0 else RateWaits(trace[..|trace| - 1]) + if trace[|trace| - 1].RateWait? then 1 else 0
  }

  function Reauths(trace: seq<Event>): nat {
    if trace == [] then 0 else Reauths(trace[..|trace| - 1]) + if trace[|trace| - 1].Reauth? then 1 else 0
  }

  /** The time spent in backoff; a wait that was cut short counts in full. */
  function BackoffTime(trace: seq<Event>): nat {
    if trace == [] then 0
    else BackoffTime(trace[..|trace| - 1]) + match trace[|trace| - 1] case Backoff(ms, _) => ms case _ => 0
  }

  function Doubled(n: nat): nat {
    if n == 0 then RETRY_BASE_DELAY else 2 * Doubled(n - 1)
  }

  predicate ServerError(r: Reply) {
    r.Status? && r.code >= 500
  }

  /** The reissue after a cancelled backoff: its reply is final. */
  predicate LastChance(trace: seq<Event>) {
    |trace| >= 2 && trace[|trace| - 2].Backoff? && !trace[|trace| - 2].finished
  }

  /** The last thing that happened is a send whose reply this is, and the policy may still act on it. */
  predicate Replied(trace: seq<Event>, r: Reply) {
    trace != [] && trace[|trace| - 1].Sent? && trace[|trace| - 1].reply == r && !LastChance(trace)
  }

  predicate MayReauth(req: Request, trace: seq<Event>, r: Reply) {
    r.Status? && r.code == 401 && req.onOrigin && req.mintable && Reauths(trace) == 0
  }

  predicate MayWait(trace: seq<Event>, r: Reply) {
    r.Status? && r.code == 429 && r.retryAfter.Some? && r.retryAfter.value <= MAX_RETRY_AFTER && RateWaits(trace) == 0
  }

  predicate MayBackOff(req: Request, trace: seq<Event>, r: Reply) {
    (r.Failed? || ServerError(r)) && Idempotent(req) && Sends(trace) <= MAX_IDEMPOTENT_RETRIES
  }

  /** A request is sent first thing, after a completed wait or renewal, and once more after a cancelled 5xx backoff. */
  predicate MaySend(trace: seq<Event>) {
    || trace == []
    || match trace[|trace| - 1]
       case Sent(_, _, _) => false
       case Reauth(ok) => ok
       case RateWait(_, finished) => finished
       case Backoff(_, finished) =>
         finished || (|trace| >= 2 && trace[|trace| - 2].Sent? && ServerError(trace[|trace| - 2].reply))
  }

  predicate Justified(req: Request, trace: seq<Event>, e: Event) {
    match e
    case Sent(body, bearer, _) => MaySend(trace) && body == Body(req) && bearer == Reauths(trace)
    case Reauth(_) => trace != [] && trace[|trace| - 1].Sent? &&
                      var r := trace[|trace| - 1].reply; Replied(trace, r) && MayReauth(req, trace, r)
    case RateWait(ms, _) => trace != [] && trace[|trace| - 1].Sent? &&
                            var r := trace[|trace| - 1].reply;
                            Replied(trace, r) && MayWait(trace, r) && ms == r.retryAfter.value
    case Backoff(ms, _) => trace != [] && trace[|trace| - 1].Sent? &&
                           var r := trace[|trace| - 1].reply;
                           Replied(trace, r) && MayBackOff(req, trace, r) && ms == Doubled(Backoffs(trace))
  }

  predicate Allowed(req: Request, trace: seq<Event>) {
    trace == [] || (Allowed(req, trace[..|trace| - 1]) && Justified(req, trace[..|trace| - 1], trace[|trace| - 1]))
  }

  /** The run may stop here with this reply: nothing is left to try, or what was tried was cut short or failed. */
  predicate Final(req: Request, trace: seq<Event>, r: Reply) {
    trace != [] &&
    match trace[|trace| - 1]
    case Sent(_, _, reply) =>
      r == reply && (LastChance(trace) || !(MayReauth(req, trace, r) || MayWait(trace, r) || MayBackOff(req, trace, r)))
    case Reauth(ok) => !ok && |trace| >= 2 && trace[|trace| - 2].Sent? && trace[|trace| - 2].reply == r
    case RateWait(_, finished) => !finished && |trace| >= 2 && trace[|trace| - 2].Sent? && trace[|trace| - 2].reply == r
    case Backoff(_, finished) =>
      !finished && r.Failed? && |trace| >= 2 && trace[|trace| - 2].Sent? && trace[|trace| - 2].reply == r
  }

  // ----- What every allowed run keeps -----

  /** Sends and the steps between them alternate. */
  lemma {:induction false} EverySendIsPaidFor(req: Request, trace: seq<Event>)
    requires Allowed(req, trace) && trace != []
    ensures Backoffs(trace) + Reauths(trace) + RateWaits(trace) + (if trace[|trace| - 1].Sent? then 1 else 0) ==
        Sends(trace)
    ensures Reauths(trace) <= 1 && RateWaits(trace) <= 1
    ensures Backoffs(trace) <= if Idempotent(req) then MAX_IDEMPOTENT_RETRIES else 0
    ensures BackoffTime(trace) + RETRY_BASE_DELAY == Doubled(Backoffs(trace))
  {
    var init := trace[..|trace| - 1];
    if init != [] {
      EverySendIsPaidFor(req, init);
    }
  }

  /**
   * At most six sends for an idempotent request and three for any other, one renewal, one rate-limit wait of
   * at most 30 seconds, and 1.4 seconds of backoff in all.
   */
  lemma RetryIsBounded(req: Request, trace: seq<Event>)
    requires Allowed(req, trace)
    ensures Sends(trace) <= if req.verb in {"GET", "HEAD", "OPTIONS"} || req.idempotencyKey != "" then 6 else 3
    ensures Reauths(trace) <= 1 && RateWaits(trace) <= 1
    ensures BackoffTime(trace) <= if req.verb in {"GET", "HEAD", "OPTIONS"} || req.idempotencyKey != "" then 1400 else 0
  {
    hide Allowed;
    if trace != [] {
      EverySendIsPaidFor(req, trace);
      assert Doubled(1) == 400 && Doubled(2) == 800 && Doubled(3) == 1600;
    }
  }

  lemma {:induction false} AllowedAt(req: Request, trace: seq<Event>, i: nat)
    requires Allowed(req, trace) && i < |trace|
    ensures Allowed(req, trace[..i]) && Justified(req, trace[..i], trace[i])
    decreases trace
  {
    var init := trace[..|trace| - 1];
    if i < |init| {
      AllowedAt(req, init, i);
      assert init[..i] == trace[..i];
    }
  }

  /** Any other request than a GET, HEAD or OPTIONS, without a key, is resent only right after a 401 or a 429. */
  lemma ResendNeedsARefusal(req: Request, trace: seq<Event>, i: nat)
    requires Allowed(req, trace) && 0 < i < |trace| && trace[i].Sent?
    requires req.verb !in {"GET", "HEAD", "OPTIONS"} && req.idempotencyKey == ""
    ensures i >= 2 && trace[i - 2].Sent? && trace[i - 2].reply.Status? && trace[i - 2].reply.code in {401, 429}
  {
    hide Allowed;
    AllowedAt(req, trace, i);
    AllowedAt(req, trace, i - 1);
    assert trace[..i][i - 1] == trace[i - 1];
    assert trace[i - 2] == trace[..i - 1][|trace[..i - 1]| - 1];
  }

  /** Such a request is never backed off for, and resent only after a refusal. */
  ghost predicate RefusedFirst(trace: seq<Event>) {
    && (forall i | 0 <= i < |trace| :: !trace[i].Backoff?)
    && (forall i | 0 < i < |trace| && trace[i].Sent? ::
          && i >= 2 && trace[i - 2].Sent? && trace[i - 2].reply.Status?
          && (trace[i - 2].reply.code == 401 || trace[i - 2].reply.code == 429))
  }

  lemma PlainRequestIsRefusedFirst(req: Request, trace: seq<Event>)
    requires Allowed(req, trace) && req.verb !in {"GET", "HEAD", "OPTIONS"} && req.idempotencyKey == ""
    ensures RefusedFirst(trace)
  {
    hide Allowed;
    forall i | 0 <= i < |trace|
      ensures !trace[i].Backoff?
    {
      AllowedAt(req, trace, i);
    }
    forall i | 0 < i < |trace| && trace[i].Sent?
      ensures i >= 2 && trace[i - 2].Sent? && trace[i - 2].reply.Status? && trace[i - 2].reply.code in {401, 429}
    {
      ResendNeedsARefusal(req, trace, i);
    }
  }

  // ----- What every reply leads to -----

  /** The reply at `i` is one to the reissue after a cancelled backoff. */
  predicate Reissued(trace: seq<Event>, i: nat)
    requires i < |trace|
  {
    i >= 1 && trace[i - 1].Backoff? && !trace[i - 1].finished
  }

  /** The first three sends of a request that may be repeated are backed off for on an error, each twice as long. */
  ghost predicate ErrorsAreBackedOff(trace: seq<Event>) {
    forall i | 0 <= i < |trace| && trace[i].Sent? && !Reissued(trace, i) && Sends(trace[..i]) < 3 ::
      trace[i].reply.Failed? || trace[i].reply.code >= 500 ==>
        i + 1 < |trace| && trace[i + 1].Backoff? && trace[i + 1].ms == Doubled(Backoffs(trace[..i]))
  }

  /** The first 401 of a renewable credential on its own origin leads to a renewal. */
  ghost predicate RefusalsAreRenewed(trace: seq<Event>) {
    forall i | 0 <= i < |trace| && trace[i].Sent? && !Reissued(trace, i) && Reauths(trace[..i]) == 0 ::
      trace[i].reply.Status? && trace[i].reply.code == 401 ==> i + 1 < |trace| && trace[i + 1].Reauth?
  }

  /** The first 429 that names a wait of at most 30 seconds is waited for, just as long. */
  ghost predicate LimitsAreWaitedFor(trace: seq<Event>) {
    forall i | 0 <= i < |trace| && trace[i].Sent? && !Reissued(trace, i) && RateWaits(trace[..i]) == 0 ::
      trace[i].reply.Status? && trace[i].reply.code == 429 &&
      trace[i].reply.retryAfter.Some? && trace[i].reply.retryAfter.value <= 30000 ==>
        i + 1 < |trace| && trace[i + 1].RateWait? && trace[i + 1].ms == trace[i].reply.retryAfter.value
  }

  /** The history is over: its last reply, if it ends with one, is final. */
  ghost predicate Over(req: Request, trace: seq<Event>) {
    trace != [] && trace[|trace| - 1].Sent? ==> Final(req, trace, trace[|trace| - 1].reply)
  }

  /** What follows a send in a history that is over. */
  lemma NextStep(req: Request, trace: seq<Event>, i: nat)
    requires Allowed(req, trace) && Over(req, trace) && i < |trace| && trace[i].Sent? && !Reissued(trace, i)
    ensures
      var r, upTo := trace[i].reply, trace[..i + 1];
      && (MayReauth(req, upTo, r) ==> i + 1 < |trace| && trace[i + 1].Reauth?)
      && (MayWait(upTo, r) ==> i + 1 < |trace| && trace[i + 1].RateWait? && trace[i + 1].ms == r.retryAfter.value)
      && (MayBackOff(req, upTo, r) ==>
            i + 1 < |trace| && trace[i + 1].Backoff? && trace[i + 1].ms == Doubled(Backoffs(upTo)))
  {
    hide Allowed, Idempotent, Doubled, Sends, Backoffs, Reauths, RateWaits;
    var upTo := trace[..i + 1];
    assert upTo[|upTo| - 1] == trace[i];
    if i + 1 < |trace| {
      AllowedAt(req, trace, i + 1);
    } else {
      assert upTo == trace;
    }
  }

  lemma CountsAt(trace: seq<Event>, i: nat)
    requires i < |trace| && trace[i].Sent?
    ensures
      var upTo := trace[..i + 1];
      && Sends(upTo) == Sends(trace[..i]) + 1 && Backoffs(upTo) == Backoffs(trace[..i])
      && Reauths(upTo) == Reauths(trace[..i]) && RateWaits(upTo) == RateWaits(trace[..i])
  {
    assert trace[..i + 1][..i] == trace[..i];
  }

  lemma ReplyIsAnswered(req: Request, trace: seq<Event>, i: nat)
    requires Allowed(req, trace) && Over(req, trace) && i < |trace| && trace[i].Sent? && !Reissued(trace, i)
    ensures (trace[i].reply.Failed? || trace[i].reply.code >= 500) && Idempotent(req) && Sends(trace[..i]) < 3 ==>
              i + 1 < |trace| && trace[i + 1].Backoff? && trace[i + 1].ms == Doubled(Backoffs(trace[..i]))
    ensures trace[i].reply.Status? && trace[i].reply.code == 401 && req.onOrigin && req.mintable &&
            Reauths(trace[..i]) == 0 ==>
              i + 1 < |trace| && trace[i + 1].Reauth?
    ensures trace[i].reply.Status? && trace[i].reply.code == 429 && trace[i].reply.retryAfter.Some? &&
            trace[i].reply.retryAfter.value <= 30000 && RateWaits(trace[..i]) == 0 ==>
              i + 1 < |trace| && trace[i + 1].RateWait? && trace[i + 1].ms == trace[i].reply.retryAfter.value
  {
    hide Allowed, Over, Doubled, Sends, Backoffs, Reauths, RateWaits, Idempotent, Reissued;
    NextStep(req, trace, i);
    CountsAt(trace, i);
  }

  lemma EveryReplyIsAnswered(req: Request, trace: seq<Event>)
    requires Allowed(req, trace) && Over(req, trace)
    ensures req.verb in {"GET", "HEAD", "OPTIONS"} || req.idempotencyKey != "" ==> ErrorsAreBackedOff(trace)
    ensures req.onOrigin && req.mintable ==> RefusalsAreRenewed(trace)
    ensures LimitsAreWaitedFor(trace)
  {
    hide Allowed, Over, Doubled, Sends, Backoffs, Reauths, RateWaits, Reissued;
    assert req.verb in {"GET", "HEAD", "OPTIONS"} || req.idempotencyKey != "" ==> Idempotent(req);
    hide Idempotent;
    forall i: nat | i < |trace| && trace[i].Sent? && !Reissued(trace, i)
      ensures Sends(trace[..i]) < 3 && Idempotent(req) && (trace[i].reply.Failed? || trace[i].reply.code >= 500) ==>
                i + 1 < |trace| && trace[i + 1].Backoff? && trace[i + 1].ms == Doubled(Backoffs(trace[..i]))
    {
      ReplyIsAnswered(req, trace, i);
    }
    forall i: nat | i < |trace| && trace[i].Sent? && !Reissued(trace, i) && Reauths(trace[..i]) == 0
      ensures trace[i].reply.Status? && trace[i].reply.code == 401 && req.onOrigin && req.mintable ==>
                i + 1 < |trace| && trace[i + 1].Reauth?
    {
      ReplyIsAnswered(req, trace, i);
    }
    forall i: nat | i < |trace| && trace[i].Sent? && !Reissued(trace, i) && RateWaits(trace[..i]) == 0
      ensures trace[i].reply.Status? && trace[i].reply.code == 429 && trace[i].reply.retryAfter.Some? &&
              trace[i].reply.retryAfter.value <= 30000 ==>
                i + 1 < |trace| && trace[i + 1].RateWait? && trace[i + 1].ms == trace[i].reply.retryAfter.value
    {
      ReplyIsAnswered(req, trace, i);
    }
  }

  // ----- Six sends do happen -----

  predicate Succeeded(e: Event) {
    match e
    case Sent(_, _, _) => false
    case Reauth(ok) => ok
    case RateWait(_, finished) => finished
    case Backoff(_, finished) => finished
  }

  /** Ready for the next send, and not for a last chance. */
  predicate Ready(trace: seq<Event>) {
    trace == [] || Succeeded(trace[|trace| - 1])
  }

  lemma OneMore(req: Request, trace: seq<Event>, e: Event)
    requires Allowed(req, trace) && Justified(req, trace, e)
    ensures Allowed(req, trace + [e])
    ensures Sends(trace + [e]) == Sends(trace) + if e.Sent? then 1 else 0
    ensures Backoffs(trace + [e]) == Backoffs(trace) + if e.Backoff? then 1 else 0
    ensures Reauths(trace + [e]) == Reauths(trace) + if e.Reauth? then 1 else 0
    ensures RateWaits(trace + [e]) == RateWaits(trace) + if e.RateWait? then 1 else 0
    ensures BackoffTime(trace + [e]) == BackoffTime(trace) + if e.Backoff? then e.ms else 0
  {
    hide Justified;
    assert (trace + [e])[..|trace|] == trace;
  }

  lemma ReadyForReply(trace: seq<Event>, body: string, bearer: nat, reply: Reply)
    requires Ready(trace)
    ensures MaySend(trace) && Replied(trace + [Sent(body, bearer, reply)], reply)
  {
  }

  /** A send and the step the policy takes on its reply. */
  lemma OneRound(req: Request, trace: seq<Event>, reply: Reply, step: Event) returns (next: seq<Event>)
    requires Allowed(req, trace) && Ready(trace) && Succeeded(step) && reply.Status?
    requires match step
             case Sent(_, _, _) => false
             case Reauth(_) => reply.code == 401 && req.onOrigin && req.mintable && Reauths(trace) == 0
             case RateWait(ms, _) => reply.code == 429 && reply.retryAfter == Some(ms) &&
                                     ms <= MAX_RETRY_AFTER && RateWaits(trace) == 0
             case Backoff(ms, _) => reply.code >= 500 && Idempotent(req) && Sends(trace) < MAX_IDEMPOTENT_RETRIES &&
                                    ms == Doubled(Backoffs(trace))
    ensures Allowed(req, next) && Ready(next) && Sends(next) == Sends(trace) + 1
    ensures Backoffs(next) == Backoffs(trace) + if step.Backoff? then 1 else 0
    ensures Reauths(next) == Reauths(trace) + if step.Reauth? then 1 else 0
    ensures RateWaits(next) == RateWaits(trace) + if step.RateWait? then 1 else 0
    ensures BackoffTime(next) == BackoffTime(trace) + if step.Backoff? then step.ms else 0
  {
    hide Allowed, Sends, Backoffs, Reauths, RateWaits, BackoffTime, Doubled, Idempotent, MaySend, Replied;
    var body, bearer := Body(req), Reauths(trace);
    ReadyForReply(trace, body, bearer, reply);
    OneMore(req, trace, Sent(body, bearer, reply));
    var sent := trace + [Sent(body, bearer, reply)];
    OneMore(req, sent, step);
    next := sent + [step];
  }

  /** The bounds are met: three server errors, a renewal, a rate-limit wait, and a sixth send. */
  lemma SixSendsHappen(req: Request)
    requires req.verb in {"GET", "HEAD", "OPTIONS"} || req.idempotencyKey != ""
    requires req.onOrigin && req.mintable
    ensures exists trace :: Allowed(req, trace) && Sends(trace) == 6 && BackoffTime(trace) == 1400
  {
    assert Idempotent(req);
    hide Allowed, Sends, Backoffs, Reauths, RateWaits, BackoffTime, Idempotent, MaySend, Replied, Ready, LastChance;
    NothingYet(req);
    assert Doubled(1) == 400 && Doubled(2) == 800;
    var t := OneRound(req, [], Status(503, None), Backoff(200, true));
    t := OneRound(req, t, Status(503, None), Backoff(400, true));
    t := OneRound(req, t, Status(503, None), Backoff(800, true));
    t := OneRound(req, t, Status(401, None), Reauth(true));
    t := OneRound(req, t, Status(429, Some(1000)), RateWait(1000, true));
    ReadyForReply(t, Body(req), Reauths(t), Status(200, None));
    OneMore(req, t, Sent(Body(req), Reauths(t), Status(200, None)));
  }

  lemma NothingYet(req: Request)
    ensures Allowed(req, []) && Ready([])
    ensures Sends([]) == 0 && Backoffs([]) == 0 && Reauths([]) == 0 && RateWaits([]) == 0 && BackoffTime([]) == 0
  {
  }

  // ----- The loop -----

  /** The replies in the history are the ones the other side gave, in order. */
  predicate Genuine(world: World, trace: seq<Event>) {
    trace == [] ||
    var init, last := trace[..|trace| - 1], trace[|trace| - 1];
    Genuine(world, init) && (last.Sent? ==> last.reply == world.reply(Sends(init)))
  }

  lemma GenuineSoFar(world: World, trace: seq<Event>, e: Event)
    requires Genuine(world, trace) && (e.Sent? ==> e.reply == world.reply(Sends(trace)))
    ensures Genuine(world, trace + [e])
  {
    assert (trace + [e])[..|trace|] == trace;
  }

  /** Every send carries the whole body and the newest bearer, and no rate-limit wait is longer than the cap. */
  predicate Whole(body: string, trace: seq<Event>) {
    && (forall i | 0 <= i < |trace| && trace[i].Sent? ::
          trace[i].body == body && trace[i].bearer == Reauths(trace[..i]))
    && (forall i | 0 <= i < |trace| && trace[i].RateWait? :: trace[i].ms <= 30000)
  }

  lemma NothingHeard(world: World, body: string)
    ensures Genuine(world, []) && Whole(body, [])
  {
  }

  lemma WholeSoFar(body: string, trace: seq<Event>, e: Event)
    requires Whole(body, trace)
    requires e.Sent? ==> e.body == body && e.bearer == Reauths(trace)
    requires e.RateWait? ==> e.ms <= 30000
    ensures Whole(body, trace + [e])
  {
    hide Reauths;
    var longer := trace + [e];
    forall i | 0 <= i < |longer|
      ensures longer[..i] == trace[..i] && longer[i] == if i < |trace| then trace[i] else e
    {
    }
    assert trace[..|trace|] == trace;
  }

  lemma Doubling(n: nat)
    ensures 2 * Doubled(n) == Doubled(n + 1) && Doubled(0) == RETRY_BASE_DELAY
  {
  }

  /** A history the policy allows, of replies the other side gave, in which every send is whole. */
  ghost predicate Sound(req: Request, world: World, trace: seq<Event>) {
    Allowed(req, trace) && Genuine(world, trace) && Whole(Body(req), trace)
  }

  lemma NothingIsSound(req: Request, world: World)
    ensures Sound(req, world, [])
  {
    NothingHeard(world, Body(req));
  }

  lemma ReadyMaySend(trace: seq<Event>)
    requires Ready(trace)
    ensures MaySend(trace)
  {
  }

  /** One send of what the reader holds. */
  method Send(ghost req: Request, ghost world: World, trace: seq<Event>, unread: string, bearer: nat, reply: Reply)
    returns (longer: seq<Event>)
    requires Sound(req, world, trace) && reply == world.reply(Sends(trace))
    requires MaySend(trace) && unread == Body(req) && bearer == Reauths(trace)
    ensures longer != [] && Sound(req, world, longer)
    ensures Ready(trace) ==> Replied(longer, reply)
    ensures CutShort(trace) ==> Final(req, longer, reply) && Over(req, longer)
    ensures Sends(longer) == Sends(trace) + 1 && Backoffs(longer) == Backoffs(trace)
    ensures Reauths(longer) == Reauths(trace) && RateWaits(longer) == RateWaits(trace)
  {
    hide Genuine, Whole, Allowed, Sends, Backoffs, Reauths, RateWaits, BackoffTime;
    OneMore(req, trace, Sent(unread, bearer, reply));
    WholeSoFar(Body(req), trace, Sent(unread, bearer, reply));
    GenuineSoFar(world, trace, Sent(unread, bearer, reply));
    longer := trace + [Sent(unread, bearer, reply)];
    assert longer[..|trace|] == trace;
  }

  /** A backoff that was cancelled came last. */
  predicate CutShort(trace: seq<Event>) {
    trace != [] && trace[|trace| - 1].Backoff? && !trace[|trace| - 1].finished
  }

  /** One step between sends. */
  method Record(ghost req: Request, ghost world: World, trace: seq<Event>, ghost reply: Reply, step: Event)
    returns (longer: seq<Event>)
    requires Sound(req, world, trace) && Replied(trace, reply)
    requires match step
             case Sent(_, _, _) => false
             case Reauth(_) => MayReauth(req, trace, reply)
             case RateWait(ms, _) => MayWait(trace, reply) && ms == reply.retryAfter.value
             case Backoff(ms, _) => MayBackOff(req, trace, reply) && ms == Doubled(Backoffs(trace))
    ensures longer != [] && Sound(req, world, longer) && Over(req, longer)
    ensures Succeeded(step) ==> Ready(longer)
    ensures !Succeeded(step) && (step.Backoff? ==> reply.Failed?) ==> Final(req, longer, reply)
    ensures !Succeeded(step) && ServerError(reply) && step.Backoff? ==> MaySend(longer) && CutShort(longer)
    ensures Sends(longer) == Sends(trace) && Backoffs(longer) == Backoffs(trace) + if step.Backoff? then 1 else 0
    ensures Reauths(longer) == Reauths(trace) + if step.Reauth? then 1 else 0
    ensures RateWaits(longer) == RateWaits(trace) + if step.RateWait? then 1 else 0
  {
    hide Allowed, Sends, Backoffs, Reauths, RateWaits, BackoffTime, Doubled, Genuine, Whole;
    OneMore(req, trace, step);
    WholeSoFar(Body(req), trace, step);
    GenuineSoFar(world, trace, step);
    longer := trace + [step];
  }

  lemma NothingLeft(req: Request, trace: seq<Event>, r: Reply)
    requires Replied(trace, r) && !MayReauth(req, trace, r) && !MayWait(trace, r) && !MayBackOff(req, trace, r)
    ensures Final(req, trace, r) && Over(req, trace)
  {
  }

  /** The body is too large, cannot be read, or cannot be opened the first time it is needed. */
  predicate NeverSent(req: Request, world: World) {
    || |Body(req)| > 64 * 1024 * 1024
    || (req.source.Stream? && !req.source.readable)
    || (req.source.Reopened? && !world.opens(0))
  }

  lemma SendsAreBounded(req: Request, world: World, trace: seq<Event>)
    requires Sound(req, world, trace)
    ensures Sends(trace) <= 6
  {
    RetryIsBounded(req, trace);
  }

  lemma OverBetweenSends(req: Request, trace: seq<Event>)
    requires trace == [] || !trace[|trace| - 1].Sent?
    ensures Over(req, trace)
  {
  }

  lemma ReadyIsOver(req: Request, trace: seq<Event>)
    requires Ready(trace)
    ensures Over(req, trace)
  {
  }

  /** What the response policy promises of a whole exchange, in terms of the request and the replies alone. */
  ghost predicate FollowsPolicy(req: Request, reExchange: bool, trace: seq<Event>) {
    && (req.verb !in {"GET", "HEAD", "OPTIONS"} && req.idempotencyKey == "" ==> RefusedFirst(trace))
    && (req.verb in {"GET", "HEAD", "OPTIONS"} || req.idempotencyKey != "" ==> ErrorsAreBackedOff(trace))
    && (reExchange && req.onOrigin && req.mintable ==> RefusalsAreRenewed(trace))
    && LimitsAreWaitedFor(trace)
    && forall i | 0 <= i < |trace| && trace[i].Sent? ::
         trace[i].body == match req.source case NoBody => "" case Reopened(all) => all case Stream(all, _) => all
  }

  lemma PolicyIsFollowed(req: Request, world: World, reExchange: bool, trace: seq<Event>)
    requires Sound(Policy(req, reExchange), world, trace) && Over(Policy(req, reExchange), trace)
    ensures FollowsPolicy(req, reExchange, trace)
    ensures Allowed(Policy(req, reExchange), trace) && Genuine(world, trace) && Whole(Body(req), trace)
  {
    hide Allowed, Over, RefusedFirst, ErrorsAreBackedOff, RefusalsAreRenewed, LimitsAreWaitedFor;
    var policy := Policy(req, reExchange);
    if req.verb !in {"GET", "HEAD", "OPTIONS"} && req.idempotencyKey == "" {
      PlainRequestIsRefusedFirst(policy, trace);
    }
    EveryReplyIsAnswered(policy, trace);
  }

  /** The one more send after a 5xx backoff that was cancelled. */
  method Reissue(req: Request, world: World, ghost policy: Request, trace: seq<Event>, attempt: nat, bearer: nat)
    returns (outcome: Outcome, longer: seq<Event>)
    requires Sound(policy, world, trace) && Over(policy, trace) && MaySend(trace) && CutShort(trace)
    requires Body(policy) == Body(req) && attempt == Sends(trace) && bearer == Reauths(trace)
    ensures longer != [] && Sound(policy, world, longer) && Over(policy, longer)
    ensures outcome.Surfaced? ==> Final(policy, longer, outcome.reply)
    ensures outcome.RewindFailed? ==> req.source.Reopened? && !world.opens(attempt)
    ensures outcome.Surfaced? || outcome.RewindFailed?
  {
    hide Sound, Over, MaySend, Final, Sends, Reauths, Body;
    assert trace != [];
    if req.source.Reopened? && !world.opens(attempt) {
      return RewindFailed, trace;
    }
    var unread := Body(req);
    var last := world.reply(attempt);
    longer := Send(policy, world, trace, unread, bearer, last);
    outcome := Surfaced(last);
  }

  /**
   * The attempts, with `rewind`, once the body can be replayed. The body reader is what `unread` holds; a send
   * consumes it as the transport pleases, so a send is whole only because the loop rewinds first.
   */
  method Attempt(req: Request, world: World, reExchange: bool) returns (outcome: Outcome, trace: seq<Event>)
    ensures Sound(Policy(req, reExchange), world, trace) && Over(Policy(req, reExchange), trace)
    ensures outcome.Surfaced? ==> Final(Policy(req, reExchange), trace, outcome.reply)
    ensures outcome.RewindFailed? ==> req.source.Reopened? && exists n :: !world.opens(n)
    ensures outcome.Surfaced? || outcome.RewindFailed?
    ensures trace == [] <==> req.source.Reopened? && !world.opens(0)
  {
    hide Allowed, Sends, Backoffs, RateWaits, Reauths, BackoffTime, Justified, Replied, LastChance, MaySend, Ready,
      Final, CutShort, Idempotent, Body, Doubled, Genuine, Whole, Sound, Over;
    ghost var policy := Policy(req, reExchange);
    ghost var unopened := req.source.Reopened? && !world.opens(0);
    PolicyKeeps(req, reExchange);
    NothingYet(policy);
    trace := [];
    NothingIsSound(policy, world);
    var idempotent := Idempotent(req);
    var triedReauth, tried429 := false, false;
    var delay := RETRY_BASE_DELAY;
    var attempt: nat, bearer: nat, waits: nat := 0, 0, 0;
    var unread := "";
    Doubling(0);
    while true
      invariant Sound(policy, world, trace) && Ready(trace)
      invariant attempt == Sends(trace) && delay == Doubled(Backoffs(trace)) && bearer == Reauths(trace)
      invariant triedReauth <==> Reauths(trace) > 0
      invariant tried429 <==> RateWaits(trace) > 0
      invariant trace == [] ==> attempt == 0
      invariant trace != [] ==> !unopened
      decreases 6 - attempt
    {
      SendsAreBounded(policy, world, trace);
      if req.source.Reopened? && !world.opens(attempt) {
        ReadyIsOver(policy, trace);
        return RewindFailed, trace;
      }
      unread := Body(req);
      var reply := world.reply(attempt);
      ReadyMaySend(trace);
      trace := Send(policy, world, trace, unread, bearer, reply);
      unread := world.unread(attempt);
      var slept := world.slept(waits);
      if reply.Failed? {
        if !(idempotent && attempt < MAX_IDEMPOTENT_RETRIES) {
          NothingLeft(policy, trace, reply);
          return Surfaced(reply), trace;
        }
        Doubling(Backoffs(trace));
        trace := Record(policy, world, trace, reply, Backoff(delay, slept));
        if !slept {
          return Surfaced(reply), trace;
        }
        waits := waits + 1;
        delay := 2 * delay;
      } else if reply.code == 401 && reExchange && !triedReauth && req.onOrigin && req.mintable {
        triedReauth := true;
        trace := Record(policy, world, trace, reply, Reauth(world.reauthWorks));
        if !world.reauthWorks {
          return Surfaced(reply), trace;
        }
        bearer := bearer + 1;
      } else if reply.code == 429 {
        if tried429 || reply.retryAfter.None? || reply.retryAfter.value > MAX_RETRY_AFTER {
          NothingLeft(policy, trace, reply);
          return Surfaced(reply), trace;
        }
        tried429 := true;
        trace := Record(policy, world, trace, reply, RateWait(reply.retryAfter.value, slept));
        if !slept {
          return Surfaced(reply), trace;
        }
        waits := waits + 1;
      } else if reply.code >= 500 && idempotent && attempt < MAX_IDEMPOTENT_RETRIES {
        Doubling(Backoffs(trace));
        trace := Record(policy, world, trace, reply, Backoff(delay, slept));
        if !slept {
          outcome, trace := Reissue(req, world, policy, trace, attempt + 1, bearer);
          return;
        }
        waits := waits + 1;
        delay := 2 * delay;
      } else {
        NothingLeft(policy, trace, reply);
        return Surfaced(reply), trace;
      }
      attempt := attempt + 1;
    }
  }

  /** `RoundTrip`, with `bufferBody`: a body that is too large or cannot be read is never sent. */
  method RoundTrip(req: Request, world: World, reExchange: bool) returns (outcome: Outcome, trace: seq<Event>)
    ensures Allowed(Policy(req, reExchange), trace) && Genuine(world, trace) && Whole(Body(req), trace)
    ensures FollowsPolicy(req, reExchange, trace)
    ensures outcome.Surfaced? ==> Final(Policy(req, reExchange), trace, outcome.reply)
    ensures trace == [] <==> NeverSent(req, world)
    ensures |Body(req)| > MAX_BODY_BYTES ==> outcome.TooLarge? || outcome.ReadFailed?
    ensures outcome.RewindFailed? ==> req.source.Reopened? && exists n :: !world.opens(n)
    ensures outcome.ReadFailed? ==> req.source.Stream? && !req.source.readable
    ensures outcome.TooLarge? ==> |Body(req)| > MAX_BODY_BYTES
  {
    hide Allowed, Sound, Over, FollowsPolicy, Final, Genuine, Whole, Body;
    ghost var policy := Policy(req, reExchange);
    NothingIsSound(policy, world);
    OverBetweenSends(policy, []);
    PolicyIsFollowed(req, world, reExchange, []);
    if req.source.Stream? && !req.source.readable {
      return ReadFailed, [];
    }
    if |Body(req)| > MAX_BODY_BYTES {
      return TooLarge, [];
    }
    outcome, trace := Attempt(req, world, reExchange);
    PolicyIsFollowed(req, world, reExchange, trace);
  }
}
