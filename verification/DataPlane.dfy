/**
  The life cycle of concurrent requests. Each request takes the router's lock three times: to be
  given an account, to be counted as started, and to record how it ended. Between those points
  any other request and any administrative operation may run, so a run is an arbitrary sequence
  of such steps. A request whose future is dropped simply takes no further step.
 */
module DataPlane {
  import opened Wrappers
  import opened Clock
  import opened Limits
  import opened Routing
  import Runs = RoutingRuns

  // --- How a response is classified ------------------------------------------------------------

  /** The wait a `retry-after` header asks for, when it is a sensible number of seconds. */
  function RetryAfter(header: Option<int>, fallbackSeconds: int): int {
    (if header.Some? && 1 <= header.value <= 3600 then header.value else fallbackSeconds) * SECOND
  }

  function ClassifyStatus(status: nat, retryAfter: Option<int>, now: int): Outcome {
    if status == 401 || status == 403 then Unauthorized
    else if status == 429 then RateLimited(now + RetryAfter(retryAfter, 60))
    else if status == 529 then Overloaded(now + RetryAfter(retryAfter, 30))
    else if 500 <= status <= 599 then TransientFailure
    else Success
  }

  // --- The step machine ----------------------------------------------------------------------------

  datatype Phase =
    | Assigned(account: string, at: int)
    | Started(account: string, at: int)
    | Done

  datatype Plane = Plane(router: State, requests: map<nat, Phase>)

  datatype Event =
    | Arrive(req: nat, session: Option<string>, model: string, at: int)
    | GiveUp(req: nat)                                     // the account or request could not be prepared
    | Send(req: nat)
    | Respond(req: nat, status: nat, retryAfter: Option<int>)
    | TransportFailure(req: nat)
    | Admin(operation: Runs.Event)

  ghost predicate InPhase(p: Plane, req: nat, started: bool) {
    req in p.requests && if started then p.requests[req].Started? else p.requests[req].Assigned?
  }

  /** What an event does to the router, if the request it speaks of has come that far. */
  ghost function RouterEvent(p: Plane, e: Event): Runs.Event {
    match e
    case Arrive(req, session, model, at) =>
      if req in p.requests then Runs.Elsewhere else Runs.Choose(session, model, at)
    case GiveUp(req) => Runs.Elsewhere
    case Send(req) =>
      if InPhase(p, req, false) then Runs.Start(p.requests[req].account) else Runs.Elsewhere
    case Respond(req, status, retryAfter) =>
      if InPhase(p, req, true)
      then Runs.Record(p.requests[req].account, ClassifyStatus(status, retryAfter, p.requests[req].at))
      else Runs.Elsewhere
    case TransportFailure(req) =>
      if InPhase(p, req, true) then Runs.Record(p.requests[req].account, TransientFailure) else Runs.Elsewhere
    case Admin(operation) => operation
  }

  ghost function NextRequests(p: Plane, e: Event): map<nat, Phase> {
    match e
    case Arrive(req, session, model, at) =>
      if req in p.requests then p.requests
      else
        var selection := Chosen(p.router, session, model, at).1;
        p.requests[req := if selection.Some? then Assigned(selection.value.accountId, at) else Done]
    case GiveUp(req) =>
      if InPhase(p, req, false) then p.requests[req := Done] else p.requests
    case Send(req) =>
      if InPhase(p, req, false) then
        var Assigned(account, at) := p.requests[req];
        p.requests[req := if account in p.router.accounts then Started(account, at) else Done]
      else p.requests
    case Respond(req, _, _) =>
      if InPhase(p, req, true) then p.requests[req := Done] else p.requests
    case TransportFailure(req) =>
      if InPhase(p, req, true) then p.requests[req := Done] else p.requests
    case Admin(_) => p.requests
  }

  ghost function Step(p: Plane, e: Event): Plane {
    Plane(Runs.Step(p.router, RouterEvent(p, e)), NextRequests(p, e))
  }

  ghost predicate Idle(accounts: seq<Account>) {
    forall a :: a in accounts ==> a.inFlight == 0
  }

  /** Administrative operations: health resets, session counts, and pools freshly read from the store. */
  ghost predicate AdminOk(e: Event) {
    e.Admin? ==> e.operation.Reset? || e.operation.Count? || (e.operation.Replace? && Idle(e.operation.accounts))
  }

  ghost predicate IsRun(pool: seq<Account>, tr: seq<Plane>, es: seq<Event>) {
    && |tr| == |es| + 1
    && Idle(pool) && tr[0] == Plane(State(Collected(pool), map[]), map[])
    && forall i :: 0 <= i < |es| ==> AdminOk(es[i]) && tr[i + 1] == Step(tr[i], es[i])
  }

  // --- In-flight counts ------------------------------------------------------------------------------

  ghost predicate StartedOn(phase: Phase, a: string) {
    phase.Started? && phase.account == a
  }

  ghost function StartedRequests(requests: map<nat, Phase>, a: string): set<nat> {
    set r | r in requests && StartedOn(requests[r], a)
  }

  /** The requests started on an account whose outcome has not been recorded. */
  ghost function Outstanding(p: Plane, a: string): set<nat> {
    StartedRequests(p.requests, a)
  }

  lemma OutstandingUpdate(requests: map<nat, Phase>, r: nat, phase: Phase, a: string)
    ensures |StartedRequests(requests[r := phase], a)| ==
            |StartedRequests(requests, a)|
            + (if StartedOn(phase, a) then 1 else 0)
            - (if r in requests && StartedOn(requests[r], a) then 1 else 0)
    ensures r in requests && StartedOn(requests[r], a) ==> |StartedRequests(requests, a)| > 0
  {
    var now, next := StartedRequests(requests, a), StartedRequests(requests[r := phase], a);
    assert next == if StartedOn(phase, a) then now + {r} else now - {r};
  }

  lemma OutstandingNext(p: Plane, e: Event, a: string)
    requires AdminOk(e)
    ensures var re := RouterEvent(p, e);
            |Outstanding(Step(p, e), a)| ==
            |Outstanding(p, a)|
            + (if re == Runs.Start(a) && a in p.router.accounts then 1 else 0)
            - (if re.Record? && re.id == a then 1 else 0)
    ensures RouterEvent(p, e).Record? && RouterEvent(p, e).id == a ==> |Outstanding(p, a)| > 0
  {
    hide Runs.Step, StartedRequests, Chosen, ClassifyStatus;
    if !e.Admin? && NextRequests(p, e) != p.requests {
      OutstandingUpdate(p.requests, e.req, NextRequests(p, e)[e.req], a);
    }
  }

  /** How one event changes the count the router keeps. */
  lemma InFlightNext(st: State, e: Runs.Event, a: string)
    requires WellKeyed(st.accounts) && (e.Replace? ==> Idle(e.accounts)) && a in Runs.Step(st, e).accounts
    ensures var after := Runs.Step(st, e).accounts[a].inFlight;
            var undisturbed := a in st.accounts && st.accounts[a].enabled == Runs.Step(st, e).accounts[a].enabled;
            && (!undisturbed ==> after == 0)
            && (undisturbed ==>
                  after == if e == Runs.Start(a) && st.accounts[a].inFlight < U32_MAX then st.accounts[a].inFlight + 1
                           else if e.Record? && e.id == a && st.accounts[a].inFlight > 0
                           then st.accounts[a].inFlight - 1
                           else st.accounts[a].inFlight)
  {
    if e.Replace? {
      Runs.CollectedCarried(st.accounts, e.accounts, a);
      var carried := CarryAllOver(st.accounts, e.accounts);
      var i :| 0 <= i < |carried| && carried[i] == Collected(carried)[a];
      assert carried[i] == CarryOver(st.accounts, e.accounts[i]);
    }
  }

  lemma {:induction false} Keyed(pool: seq<Account>, tr: seq<Plane>, es: seq<Event>, i: nat)
    requires IsRun(pool, tr, es) && i < |tr|
    ensures Runs.Inv(tr[i].router)
  {
    hide Runs.Step, Runs.Inv;
    if i == 0 {
      Runs.FreshInv(pool);
    } else {
      Keyed(pool, tr, es, i - 1);
      assert tr[i - 1 + 1] == Step(tr[i - 1], es[i - 1]);
      Runs.StepKeepsInv(tr[i - 1].router, RouterEvent(tr[i - 1], es[i - 1]));
    }
  }

  lemma InvKeyed(st: State)
    requires Runs.Inv(st)
    ensures WellKeyed(st.accounts)
  {
  }

  lemma StepOf(pool: seq<Account>, tr: seq<Plane>, es: seq<Event>, i: nat)
    requires IsRun(pool, tr, es) && 0 < i < |tr|
    ensures AdminOk(es[i - 1]) && tr[i - 1 + 1] == Step(tr[i - 1], es[i - 1])
    ensures var re := RouterEvent(tr[i - 1], es[i - 1]);
            tr[i].router == Runs.Step(tr[i - 1].router, re) && (re.Replace? ==> Idle(re.accounts))
  {
  }

  /** In every interleaving an account's count never exceeds its outstanding requests. */
  lemma {:induction false} InFlightBounded(pool: seq<Account>, tr: seq<Plane>, es: seq<Event>, i: nat, a: string)
    requires IsRun(pool, tr, es) && i < |tr| && a in tr[i].router.accounts
    ensures tr[i].router.accounts[a].inFlight <= |Outstanding(tr[i], a)|
  {
    hide Runs.Step, Outstanding, RouterEvent, Runs.Inv;
    if i == 0 {
      assert Collected(pool)[a] in pool;
    } else {
      Keyed(pool, tr, es, i - 1);
      InvKeyed(tr[i - 1].router);
      StepOf(pool, tr, es, i);
      OutstandingNext(tr[i - 1], es[i - 1], a);
      InFlightNext(tr[i - 1].router, RouterEvent(tr[i - 1], es[i - 1]), a);
      if a in tr[i - 1].router.accounts {
        InFlightBounded(pool, tr, es, i - 1, a);
      }
    }
  }

  /**
    On runs that never pause, resume or remove the account and stay below the 32-bit limit, the
    count is exactly the number of outstanding requests.
   */
  lemma {:induction false} InFlightExact(pool: seq<Account>, tr: seq<Plane>, es: seq<Event>, i: nat, a: string)
    requires IsRun(pool, tr, es) && i < |tr| && a in tr[0].router.accounts
    requires forall k :: 0 <= k <= i ==>
               && a in tr[k].router.accounts
               && tr[k].router.accounts[a].enabled == tr[0].router.accounts[a].enabled
               && |Outstanding(tr[k], a)| <= U32_MAX
    ensures tr[i].router.accounts[a].inFlight == |Outstanding(tr[i], a)|
  {
    hide Runs.Step, RouterEvent, Runs.Inv;
    if i == 0 {
      assert Collected(pool)[a] in pool;
      assert StartedRequests(tr[0].requests, a) == {};
    } else {
      Keyed(pool, tr, es, i - 1);
      InvKeyed(tr[i - 1].router);
      StepOf(pool, tr, es, i);
      InFlightExact(pool, tr, es, i - 1, a);
      OutstandingNext(tr[i - 1], es[i - 1], a);
      InFlightNext(tr[i - 1].router, RouterEvent(tr[i - 1], es[i - 1]), a);
    }
  }

  // --- Requests drive the router -----------------------------------------------------------------------

  ghost function RouterEvents(tr: seq<Plane>, es: seq<Event>): (res: seq<Runs.Event>)
    requires |tr| == |es| + 1
    ensures |res| == |es| && forall i :: 0 <= i < |es| ==> res[i] == RouterEvent(tr[i], es[i])
  {
    seq(|es|, i requires 0 <= i < |es| => RouterEvent(tr[i], es[i]))
  }

  ghost function Routers(tr: seq<Plane>): (sts: seq<State>)
    ensures |sts| == |tr| && forall i :: 0 <= i < |tr| ==> sts[i] == tr[i].router
  {
    seq(|tr|, i requires 0 <= i < |tr| => tr[i].router)
  }

  /** What the router sees of concurrent requests is a run of the router, so all that holds of those runs holds here. */
  lemma RequestsDriveRouter(pool: seq<Account>, tr: seq<Plane>, es: seq<Event>)
    requires IsRun(pool, tr, es)
    ensures Runs.IsRouterRun(pool, Routers(tr), RouterEvents(tr, es))
  {
    hide Runs.Step, RouterEvent, NextRequests;
  }

  // --- What an answer does ---------------------------------------------------------------------------------

  /** The seconds a limited answer asks to wait: the header's own number if it is in range, else 60 or 30. */
  ghost function WaitSeconds(status: nat, retryAfter: Option<int>): (seconds: int)
    ensures 1 <= seconds <= 3600
  {
    match retryAfter
    case Some(n) => if 1 <= n <= 3600 then n else if status == 429 then 60 else 30
    case None => if status == 429 then 60 else 30
  }

  ghost predicate Refused(status: nat) { status == 401 || status == 403 }

  ghost predicate Limited(status: nat) { status == 429 || status == 529 }

  /**
    The effect of an answer on the router, for every status: 401 and 403 make the account unhealthy,
    429 and 529 deplete it for the wait they ask for, these and every 5xx end its sessions, any
    other answer does neither, and all of them count one request less. Nothing else changes.
   */
  lemma AnswerEffect(p: Plane, req: nat, status: nat, retryAfter: Option<int>)
    requires InPhase(p, req, true) && p.requests[req].account in p.router.accounts
    ensures var Started(a, at) := p.requests[req];
            var (before, next) := (p.router, Step(p, Respond(req, status, retryAfter)).router);
            && next.accounts.Keys == before.accounts.Keys
            && (forall b :: b in before.accounts && b != a ==> next.accounts[b] == before.accounts[b])
            && next.accounts[a] == before.accounts[a].(
                 inFlight := if before.accounts[a].inFlight == 0 then 0 else before.accounts[a].inFlight - 1,
                 healthy := before.accounts[a].healthy && !Refused(status),
                 depletedUntil := if Limited(status) then Some(at + WaitSeconds(status, retryAfter) * 1_000_000_000)
                                  else before.accounts[a].depletedUntil)
            && (forall s :: s in next.sessions
                  <==> s in before.sessions
                       && (before.sessions[s].accountId == a ==>
                             !Refused(status) && status != 429 && !(500 <= status <= 599)))
            && (forall s :: s in next.sessions ==> next.sessions[s] == before.sessions[s])
  {
  }

  /** A request that fails in transport has the effect of an answer with status 500. */
  lemma TransportFailureEffect(p: Plane, req: nat)
    ensures Step(p, TransportFailure(req)) == Step(p, Respond(req, 500, None))
  {
  }

  /** The answer to a started request, seen by the router. */
  ghost predicate Answers(tr: seq<Plane>, es: seq<Event>, i: nat, a: string)
    requires |tr| == |es| + 1
  {
    && i < |es| && es[i].Respond? && InPhase(tr[i], es[i].req, true)
    && tr[i].requests[es[i].req].account == a && a in tr[i].router.accounts
  }

  /**
    A request answered with 429 or 529 keeps its account from being chosen before the retry time,
    which lies as many seconds after the request's own clock reading as the answer asks for, unless
    the account is reset, removed or flipped, or a later answer sets another retry time.
   */
  lemma DepletedAnswerQuarantines(pool: seq<Account>, tr: seq<Plane>, es: seq<Event>, i: nat, j: nat, a: string,
                                  now: int)
    requires IsRun(pool, tr, es) && i < j < |tr| && Answers(tr, es, i, a) && Limited(es[i].status)
    requires Runs.Undisturbed(Routers(tr), RouterEvents(tr, es), i + 1, j, a)
    requires forall k :: i < k < j ==> !Runs.Depletes(RouterEvent(tr[k], es[k]), a)
    requires now < tr[i].requests[es[i].req].at + WaitSeconds(es[i].status, es[i].retryAfter) * 1_000_000_000
    ensures Runs.NeverChosen(tr[j].router, a, now)
  {
    hide Runs.Step, NextRequests;
    RequestsDriveRouter(pool, tr, es);
    var res := RouterEvents(tr, es);
    assert res[i] == Runs.Record(a, ClassifyStatus(es[i].status, es[i].retryAfter, tr[i].requests[es[i].req].at));
    Runs.DepletionIsQuarantined(pool, Routers(tr), res, i, j, a, now);
  }

  /** A request answered with 401 or 403 keeps its account from being chosen until a reset, removal or flip. */
  lemma RefusedAnswerQuarantines(pool: seq<Account>, tr: seq<Plane>, es: seq<Event>, i: nat, j: nat, a: string,
                                 now: int)
    requires IsRun(pool, tr, es) && i < j < |tr| && Answers(tr, es, i, a) && Refused(es[i].status)
    requires Runs.Undisturbed(Routers(tr), RouterEvents(tr, es), i + 1, j, a)
    ensures Runs.NeverChosen(tr[j].router, a, now)
  {
    hide Runs.Step, NextRequests;
    RequestsDriveRouter(pool, tr, es);
    var res := RouterEvents(tr, es);
    assert res[i] == Runs.Record(a, Unauthorized);
    Runs.UnauthorizedIsQuarantined(pool, Routers(tr), res, i, j, a, now);
  }

  // --- The life of a request ---------------------------------------------------------------------------------

  /** The arrival at `i` was given this account, at this clock reading. */
  ghost predicate GivenAt(tr: seq<Plane>, es: seq<Event>, i: nat, req: nat, a: string, at: int)
    requires |tr| == |es| + 1
  {
    && i < |es| && es[i].Arrive? && es[i].req == req && es[i].at == at && req !in tr[i].requests
    && var selection := Chosen(tr[i].router, es[i].session, es[i].model, at).1;
       selection.Some? && selection.value.accountId == a
  }

  /** The request was sent at `k`, when its account was in the pool. */
  ghost predicate SentAt(tr: seq<Plane>, es: seq<Event>, k: nat, req: nat, a: string)
    requires |tr| == |es| + 1
  {
    k < |es| && es[k] == Send(req) && a in tr[k].router.accounts
  }

  lemma PhaseAfterStep(p: Plane, e: Event, req: nat)
    requires req in Step(p, e).requests && !Step(p, e).requests[req].Done?
    ensures var (now, was) := (Step(p, e).requests[req], p.requests);
            || (req in was && now == was[req])
            || (&& req !in was && now.Assigned? && e.Arrive? && e.req == req && e.at == now.at
                && var selection := Chosen(p.router, e.session, e.model, e.at).1;
                   selection.Some? && selection.value.accountId == now.account)
            || (&& req in was && was[req] == Assigned(now.account, now.at) && now.Started?
                && e == Send(req) && now.account in p.router.accounts)
  {
    hide Chosen, Runs.Step;
  }

  /**
    In every interleaving a request keeps the account it was given on arrival and the clock reading
    it came with, and counts as started only after it was sent while that account was in the pool.
   */
  lemma {:induction false} RequestKeepsAccount(pool: seq<Account>, tr: seq<Plane>, es: seq<Event>, j: nat, req: nat)
    returns (i: nat, k: nat)
    requires IsRun(pool, tr, es) && j < |tr| && req in tr[j].requests && !tr[j].requests[req].Done?
    ensures i < j && GivenAt(tr, es, i, req, tr[j].requests[req].account, tr[j].requests[req].at)
    ensures tr[j].requests[req].Started? ==> i < k < j && SentAt(tr, es, k, req, tr[j].requests[req].account)
    decreases j
  {
    hide Step, Chosen;
    var last := j - 1;
    assert tr[last + 1] == Step(tr[last], es[last]);
    PhaseAfterStep(tr[last], es[last], req);
    if req !in tr[last].requests {
      i, k := last, last;
    } else {
      i, k := RequestKeepsAccount(pool, tr, es, last, req);
      if tr[last].requests[req].Assigned? && tr[j].requests[req].Started? {
        k := last;
      }
    }
  }

  /** The event ends the request: it gives up before it is sent, is answered, or fails in transport. */
  ghost predicate EndsRequest(p: Plane, e: Event, req: nat) {
    || (e == GiveUp(req) && InPhase(p, req, false))
    || (e.Respond? && e.req == req && InPhase(p, req, true))
    || (e == TransportFailure(req) && InPhase(p, req, true))
  }

  lemma StepFinishes(p: Plane, e: Event, req: nat)
    requires EndsRequest(p, e, req) || (req in p.requests && p.requests[req].Done?)
    ensures req in Step(p, e).requests && Step(p, e).requests[req].Done?
  {
    hide Chosen, Runs.Step;
  }

  /** A request that has ended never reaches the router again: it is started and recorded at most once. */
  lemma {:induction false} EndedForGood(pool: seq<Account>, tr: seq<Plane>, es: seq<Event>, i: nat, j: nat, req: nat)
    requires IsRun(pool, tr, es) && i < j < |tr| && EndsRequest(tr[i], es[i], req)
    ensures req in tr[j].requests && tr[j].requests[req].Done?
    ensures j < |es| && !es[j].Admin? && es[j].req == req ==> RouterEvent(tr[j], es[j]) == Runs.Elsewhere
    decreases j
  {
    hide Step, EndsRequest;
    var last := j - 1;
    assert tr[last + 1] == Step(tr[last], es[last]);
    if i < last {
      EndedForGood(pool, tr, es, i, last, req);
    }
    StepFinishes(tr[last], es[last], req);
  }
}
