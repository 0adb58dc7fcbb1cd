/** What holds over whole runs of a router, whatever the order of its operations. */
module RoutingRuns {
  import opened Wrappers
  import opened Ordering
  import opened Routing
  import Models

  datatype Event =
    | Replace(accounts: seq<Account>)
    | Reset(id: string)
    | Count(at: int)
    | Start(id: string)
    | Choose(session: Option<string>, model: string, at: int)
    | Record(id: string, outcome: Outcome)
    | Elsewhere // something that leaves the router alone

  ghost function Step(st: State, e: Event): State {
    match e
    case Replace(accounts) => Replaced(st, accounts)
    case Reset(id) => WithReset(st, id)
    case Count(at) => Purged(st, at)
    case Start(id) => WithStart(st, id)
    case Choose(session, model, at) => Chosen(st, session, model, at).0
    case Record(id, outcome) => WithOutcome(st, id, outcome)
    case Elsewhere => st
  }

  /** A run: the states between the events, each the result of the event before it. */
  ghost predicate IsRun(tr: seq<State>, es: seq<Event>) {
    && |tr| == |es| + 1
    && forall i :: 0 <= i < |es| ==> tr[i + 1] == Step(tr[i], es[i])
  }

  /** A run of a router from its construction on. */
  ghost predicate IsRouterRun(pool: seq<Account>, tr: seq<State>, es: seq<Event>) {
    IsRun(tr, es) && tr[0] == State(Collected(pool), map[])
  }

  ghost predicate Timed(e: Event) { e.Count? || e.Choose? }

  ghost predicate ClockAdvances(es: seq<Event>) {
    forall i, j :: 0 <= i < j < |es| && Timed(es[i]) && Timed(es[j]) ==> es[i].at <= es[j].at
  }

  // --- The invariant --------------------------------------------------------------------------

  /** The binding names a present, enabled, healthy account, rested when the session was last seen. */
  ghost predicate BindingOk(accounts: map<string, Account>, b: Binding) {
    && b.accountId in accounts
    && accounts[b.accountId].enabled
    && accounts[b.accountId].healthy
    && RestedBy(accounts[b.accountId], b.lastSeenAt)
  }

  ghost predicate Inv(st: State) {
    && WellKeyed(st.accounts)
    && forall s :: s in st.sessions ==> BindingOk(st.accounts, st.sessions[s])
  }

  lemma CollectedCarried(previous: map<string, Account>, accounts: seq<Account>, k: string)
    requires WellKeyed(previous)
    requires k in Collected(CarryAllOver(previous, accounts))
    ensures var r := Collected(CarryAllOver(previous, accounts))[k];
            k in previous && r.enabled == previous[k].enabled ==>
              && r.healthy == previous[k].healthy && r.depletedUntil == previous[k].depletedUntil
              && r.inFlight == previous[k].inFlight
  {
    var carried := CarryAllOver(previous, accounts);
    assert Collected(carried)[k] in carried;
  }

  lemma ReplacedKeepsInv(st: State, accounts: seq<Account>)
    requires Inv(st)
    ensures Inv(Replaced(st, accounts))
  {
    var next := Replaced(st, accounts);
    forall s | s in next.sessions ensures BindingOk(next.accounts, next.sessions[s]) {
      CollectedCarried(st.accounts, accounts, st.sessions[s].accountId);
    }
  }

  lemma StepKeepsInv(st: State, e: Event)
    requires Inv(st)
    ensures Inv(Step(st, e))
  {
    if e.Replace? {
      ReplacedKeepsInv(st, e.accounts);
    }
  }

  lemma FreshInv(pool: seq<Account>)
    ensures Inv(State(Collected(pool), map[]))
  {
  }

  /** In every reachable state every session is bound to an account that could serve it when last seen. */
  lemma {:induction false} InvAlways(pool: seq<Account>, tr: seq<State>, es: seq<Event>, i: nat)
    requires IsRouterRun(pool, tr, es) && i < |tr|
    ensures Inv(tr[i])
  {
    hide Step, Inv;
    if i == 0 {
      assert Inv(tr[0]) by { FreshInv(pool); }
    } else {
      InvAlways(pool, tr, es, i - 1);
      assert tr[i - 1 + 1] == Step(tr[i - 1], es[i - 1]);
      StepKeepsInv(tr[i - 1], es[i - 1]);
    }
  }

  // --- What a choice is -----------------------------------------------------------------------------

  /**
    A choice fails exactly when nothing is eligible. Otherwise it names an eligible account: the
    session's own when that still works, else the least loaded one; and it binds the session, if
    any, to that account and changes nothing else.
   */
  lemma ChoiceIsSound(st: State, session: Option<string>, model: string, now: int)
    requires Inv(st)
    ensures var (next, selection) := Chosen(st, session, model, now);
            && next.accounts == st.accounts
            && (forall s :: Some(s) != session ==>
                  && (s in next.sessions <==> s in st.sessions)
                  && (s in st.sessions ==> next.sessions[s] == st.sessions[s]))
            && (selection.None? <==> forall k :: k in st.accounts ==> !Eligible(st.accounts[k], model, now))
            && (selection.None? && session.Some? ==> session.value !in next.sessions)
            && (selection.Some? ==>
                  var Selection(id, provider, reused) := selection.value;
                  && id in st.accounts && Eligible(st.accounts[id], model, now) && provider == st.accounts[id].provider
                  && (reused ==> session.Some? && session.value in st.sessions
                                 && st.sessions[session.value].accountId == id)
                  && (!reused ==> Least(st.accounts, st.accounts.Keys, model, now, id))
                  && (session.Some? ==> session.value in next.sessions
                                        && next.sessions[session.value] == Binding(id, now)))
  {
    FreshChoiceExists(st.accounts, model, now);
  }

  /** The account can take a request for the model, field by field. */
  ghost predicate CanServe(a: Account, model: string, now: int) {
    && a.enabled && a.healthy
    && (a.depletedUntil.Some? ==> a.depletedUntil.value <= now)
    && (|| model == "" || a.models == {} || model in a.models || "default" in a.models
        || exists family :: family in a.models && Models.FirstKnown(model, family))
  }

  /** Fewer requests in flight; as many and less used; or as many, as used, and an earlier id. */
  ghost predicate Preferred(a: Account, b: Account) {
    || a.inFlight < b.inFlight
    || (a.inFlight == b.inFlight && a.utilization < b.utilization)
    || (a.inFlight == b.inFlight && a.utilization == b.utilization && a.id != b.id && UpTo(a.id, b.id))
  }

  lemma EligibleMeans(a: Account, model: string, now: int)
    ensures Eligible(a, model, now) <==> CanServe(a, model, now)
  {
    hide Models.FirstKnown, Models.Family;
    Models.FamilyMeans(model);
  }

  /**
    The same on the accounts' fields, sticky and fresh. A choice fails exactly when no account can
    serve the request. It reuses the session's account exactly when the session was seen in the last
    thirty minutes and that account can serve; otherwise it is preferred to all others that can.
   */
  lemma ChoiceOnFields(st: State, session: Option<string>, model: string, now: int)
    requires Inv(st)
    ensures var selection := Chosen(st, session, model, now).1;
            && (selection.None? <==> forall k :: k in st.accounts ==> !CanServe(st.accounts[k], model, now))
            && (selection.Some? ==>
                  var Selection(id, _, reused) := selection.value;
                  && id in st.accounts && CanServe(st.accounts[id], model, now)
                  && (reused <==>
                        && session.Some? && session.value in st.sessions
                        && now <= st.sessions[session.value].lastSeenAt + 30 * 60 * 1_000_000_000
                        && CanServe(st.accounts[st.sessions[session.value].accountId], model, now))
                  && (reused ==> id == st.sessions[session.value].accountId)
                  && (!reused ==> forall k :: k in st.accounts && k != id && CanServe(st.accounts[k], model, now) ==>
                                    Preferred(st.accounts[id], st.accounts[k])))
  {
    hide CanServe, Eligible;
    ChoiceIsSound(st, session, model, now);
    forall k | k in st.accounts
      ensures Eligible(st.accounts[k], model, now) <==> CanServe(st.accounts[k], model, now)
    {
      EligibleMeans(st.accounts[k], model, now);
    }
    forall a: string, b: string { TextLeMeans(a, b); }
  }

  // --- Stickiness -------------------------------------------------------------------------------------

  /** Events that leave the binding of session `s` to account `a` alone, up to the time `until`. */
  ghost predicate Harmless(e: Event, s: string, a: string, until: int) {
    && (e.Choose? ==> e.session != Some(s))
    && (e.Count? ==> e.at <= until)
    && e != Reset(a)
    && (e.Record? && e.id == a ==> e.outcome.Success?)
  }

  lemma HarmlessKeepsBinding(st: State, e: Event, s: string, a: string, seen: int)
    requires Harmless(e, s, a, seen + SESSION_IDLE_TIMEOUT)
    requires s in st.sessions && st.sessions[s] == Binding(a, seen)
    requires a in Step(st, e).accounts && Step(st, e).accounts[a].enabled
    ensures s in Step(st, e).sessions && Step(st, e).sessions[s] == Binding(a, seen)
  {
  }

  lemma {:induction false} BindingSurvives(tr: seq<State>, es: seq<Event>, i: nat, j: nat,
                                           s: string, a: string, seen: int)
    requires IsRun(tr, es) && i <= j < |tr|
    requires s in tr[i].sessions && tr[i].sessions[s] == Binding(a, seen)
    requires forall k :: i <= k < j ==> Harmless(es[k], s, a, seen + SESSION_IDLE_TIMEOUT)
    requires forall k :: i <= k <= j ==> a in tr[k].accounts && tr[k].accounts[a].enabled
    ensures s in tr[j].sessions && tr[j].sessions[s] == Binding(a, seen)
    decreases j
  {
    hide Step, Harmless;
    if i < j {
      BindingSurvives(tr, es, i, j - 1, s, a, seen);
      assert tr[j - 1 + 1] == Step(tr[j - 1], es[j - 1]);
      HarmlessKeepsBinding(tr[j - 1], es[j - 1], s, a, seen);
    }
  }

  lemma ChosenBinds(st: State, s: string, model: string, now: int)
    requires Inv(st) && Chosen(st, Some(s), model, now).1.Some?
    ensures var (next, selection) := Chosen(st, Some(s), model, now);
            s in next.sessions && next.sessions[s] == Binding(selection.value.accountId, now)
  {
  }

  /**
    Stickiness: when a session is served again within the idle timeout, it stays on its account
    unless that account failed, was reset, disabled or removed, or does not serve the model;
    loads, other sessions and purges in between change nothing.
   */
  lemma SessionSticks(pool: seq<Account>, tr: seq<State>, es: seq<Event>, i: nat, j: nat, s: string, a: string)
    requires IsRouterRun(pool, tr, es) && ClockAdvances(es) && i < j < |es|
    requires es[i].Choose? && es[i].session == Some(s) && es[j].Choose? && es[j].session == Some(s)
    requires var selection := Chosen(tr[i], Some(s), es[i].model, es[i].at).1;
             selection.Some? && selection.value.accountId == a
    requires es[j].at <= es[i].at + SESSION_IDLE_TIMEOUT
    requires forall k :: i < k < j ==>
               && es[k] != Reset(a)
               && (es[k].Choose? ==> es[k].session != Some(s))
               && (es[k].Record? && es[k].id == a ==> es[k].outcome.Success?)
    requires forall k :: i < k <= j ==> a in tr[k].accounts && tr[k].accounts[a].enabled
    requires AcceptsModel(tr[j].accounts[a], es[j].model)
    ensures Chosen(tr[j], Some(s), es[j].model, es[j].at).1 == Some(Selection(a, tr[j].accounts[a].provider, true))
  {
    InvAlways(pool, tr, es, i);
    InvAlways(pool, tr, es, j);
    ChosenBinds(tr[i], s, es[i].model, es[i].at);
    forall k | i < k < j ensures Harmless(es[k], s, a, es[i].at + SESSION_IDLE_TIMEOUT) {
      assert es[k].Count? ==> es[k].at <= es[j].at;
    }
    BindingSurvives(tr, es, i + 1, j, s, a, es[i].at);
  }

  // --- Quarantine ----------------------------------------------------------------------------------------

  /** No choice, for any session or model, picks `a` at this time. */
  ghost predicate NeverChosen(st: State, a: string, now: int) {
    forall session, model ::
      var selection := Chosen(st, session, model, now).1;
      selection.Some? ==> selection.value.accountId != a
  }

  /** From `i` to `j` the account stays in the pool with the same enabled flag, and is not reset. */
  ghost predicate Undisturbed(tr: seq<State>, es: seq<Event>, i: nat, j: nat, a: string)
    requires |tr| == |es| + 1 && i <= j < |tr|
  {
    && (forall k :: i <= k < j ==> es[k] != Reset(a))
    && a in tr[i].accounts
    && (forall k :: i <= k <= j ==> a in tr[k].accounts && tr[k].accounts[a].enabled == tr[i].accounts[a].enabled)
  }

  lemma IneligibleNeverChosen(st: State, a: string, now: int)
    requires Inv(st) && a in st.accounts
    requires !st.accounts[a].healthy || !RestedBy(st.accounts[a], now)
    ensures NeverChosen(st, a, now)
  {
  }

  ghost predicate Depletes(e: Event, a: string) {
    e.Record? && e.id == a && (e.outcome.RateLimited? || e.outcome.Overloaded?)
  }

  /** One undisturbing event leaves the account's health no better and its depletion time alone. */
  lemma StepKeepsQuarantine(st: State, e: Event, a: string)
    requires Inv(st) && a in st.accounts && a in Step(st, e).accounts && e != Reset(a)
    requires Step(st, e).accounts[a].enabled == st.accounts[a].enabled
    ensures Step(st, e).accounts[a].healthy ==> st.accounts[a].healthy
    ensures !Depletes(e, a) ==> Step(st, e).accounts[a].depletedUntil == st.accounts[a].depletedUntil
  {
    if e.Replace? {
      CollectedCarried(st.accounts, e.accounts, a);
    }
  }

  lemma {:induction false} QuarantineLasts(pool: seq<Account>, tr: seq<State>, es: seq<Event>, i: nat, j: nat,
                                           a: string)
    requires IsRouterRun(pool, tr, es) && i <= j < |tr| && Undisturbed(tr, es, i, j, a)
    ensures tr[j].accounts[a].healthy ==> tr[i].accounts[a].healthy
    ensures (forall k :: i <= k < j ==> !Depletes(es[k], a)) ==>
              tr[j].accounts[a].depletedUntil == tr[i].accounts[a].depletedUntil
    decreases j
  {
    hide Step, Inv, Depletes;
    if i < j {
      InvAlways(pool, tr, es, j - 1);
      assert tr[j - 1 + 1] == Step(tr[j - 1], es[j - 1]);
      QuarantineLasts(pool, tr, es, i, j - 1, a);
      StepKeepsQuarantine(tr[j - 1], es[j - 1], a);
    }
  }

  /**
    After an unauthorized outcome no request is sent to the account again until it is reset,
    removed, or its enabled flag flips.
   */
  lemma UnauthorizedIsQuarantined(pool: seq<Account>, tr: seq<State>, es: seq<Event>, i: nat, j: nat,
                                  a: string, now: int)
    requires IsRouterRun(pool, tr, es) && i < j < |tr|
    requires es[i] == Record(a, Unauthorized) && a in tr[i].accounts
    requires Undisturbed(tr, es, i + 1, j, a)
    ensures NeverChosen(tr[j], a, now)
  {
    InvAlways(pool, tr, es, j);
    QuarantineLasts(pool, tr, es, i + 1, j, a);
    IneligibleNeverChosen(tr[j], a, now);
  }

  /**
    After a rate limit or overload none is sent before the most recently recorded retry time,
    with the same exceptions.
   */
  lemma DepletionIsQuarantined(pool: seq<Account>, tr: seq<State>, es: seq<Event>, i: nat, j: nat, a: string, now: int)
    requires IsRouterRun(pool, tr, es) && i < j < |tr|
    requires Depletes(es[i], a) && a in tr[i].accounts && now < es[i].outcome.retryAt
    requires Undisturbed(tr, es, i + 1, j, a)
    requires forall k :: i < k < j ==> !Depletes(es[k], a)
    ensures NeverChosen(tr[j], a, now)
  {
    InvAlways(pool, tr, es, j);
    QuarantineLasts(pool, tr, es, i + 1, j, a);
    IneligibleNeverChosen(tr[j], a, now);
  }

  // --- The end of a quarantine --------------------------------------------------------------------------

  lemma StepKeepsFitness(st: State, e: Event, a: string)
    requires Inv(st) && a in st.accounts && a in Step(st, e).accounts
    requires Step(st, e).accounts[a].enabled == st.accounts[a].enabled
    requires st.accounts[a].healthy && st.accounts[a].depletedUntil.None?
    requires !Depletes(e, a) && e != Record(a, Unauthorized)
    ensures Step(st, e).accounts[a].healthy && Step(st, e).accounts[a].depletedUntil.None?
  {
    if e.Replace? {
      CollectedCarried(st.accounts, e.accounts, a);
    }
  }

  /**
    A reset ends every quarantine: until the account is refused or limited again, and as long as
    its enabled flag stays, it is eligible at any time for every model it accepts.
   */
  lemma {:induction false} ResetRestores(pool: seq<Account>, tr: seq<State>, es: seq<Event>, i: nat, j: nat,
                                         a: string, model: string, now: int)
    requires IsRouterRun(pool, tr, es) && i < j < |tr| && es[i] == Reset(a) && a in tr[i].accounts
    requires forall k :: i < k < j ==> !Depletes(es[k], a) && es[k] != Record(a, Unauthorized)
    requires forall k :: i < k <= j ==> a in tr[k].accounts && tr[k].accounts[a].enabled
    ensures tr[j].accounts[a].healthy && tr[j].accounts[a].depletedUntil.None?
    ensures AcceptsModel(tr[j].accounts[a], model) ==> Eligible(tr[j].accounts[a], model, now)
    decreases j
  {
    hide Inv, Depletes;
    var last := j - 1;
    assert tr[last + 1] == Step(tr[last], es[last]);
    if i < last {
      InvAlways(pool, tr, es, last);
      ResetRestores(pool, tr, es, i, last, a, model, now);
      StepKeepsFitness(tr[last], es[last], a);
    }
  }

  // --- The end of a session -------------------------------------------------------------------------------

  /** A count keeps exactly the sessions seen in the last thirty minutes. */
  lemma CountKeepsRecent(st: State, now: int, s: string)
    ensures s in Purged(st, now).sessions
       <==> s in st.sessions && now <= st.sessions[s].lastSeenAt + 30 * 60 * 1_000_000_000
    ensures s in Purged(st, now).sessions ==> Purged(st, now).sessions[s] == st.sessions[s]
  {
  }

  /** A reset, or any outcome that is not a success. */
  ghost predicate Unbinds(e: Event, a: string) {
    e == Reset(a) || (e.Record? && e.id == a && e.outcome != Success)
  }

  ghost predicate Picks(st: State, e: Event, a: string) {
    && e.Choose?
    && var selection := Chosen(st, e.session, e.model, e.at).1;
       selection.Some? && selection.value.accountId == a
  }

  ghost predicate BoundTo(st: State, s: string, a: string) {
    s in st.sessions && st.sessions[s].accountId == a
  }

  lemma StepBinds(st: State, e: Event, s: string, a: string)
    requires Inv(st) && BoundTo(Step(st, e), s, a)
    ensures Picks(st, e, a) || (BoundTo(st, s, a) && !Unbinds(e, a))
  {
  }

  /** After any failing outcome, or a reset, no session is bound to the account until a choice picks it again. */
  lemma {:induction false} UnboundUntilPicked(pool: seq<Account>, tr: seq<State>, es: seq<Event>, i: nat, j: nat,
                                              s: string, a: string)
    requires IsRouterRun(pool, tr, es) && i < j < |tr| && Unbinds(es[i], a)
    requires forall k :: i < k < j ==> !Picks(tr[k], es[k], a)
    ensures !BoundTo(tr[j], s, a)
    decreases j
  {
    hide Step, Inv, Picks, BoundTo;
    var last := j - 1;
    InvAlways(pool, tr, es, last);
    assert tr[last + 1] == Step(tr[last], es[last]);
    if BoundTo(tr[j], s, a) {
      StepBinds(tr[last], es[last], s, a);
      if i < last {
        UnboundUntilPicked(pool, tr, es, i, last, s, a);
      } else {
        UnbindsPicksNone(tr[i], es[i], a);
      }
    }
  }

  lemma UnbindsPicksNone(st: State, e: Event, a: string)
    requires Unbinds(e, a)
    ensures !Picks(st, e, a)
  {
  }

  // --- Replacing the pool ----------------------------------------------------------------------------------

  /** The account that stands for the incoming one: its live state is the previous one's if the enabled flag is too. */
  ghost predicate TakesOver(st: State, a: Account, r: Account) {
    && r.id == a.id && r.provider == a.provider && r.enabled == a.enabled && r.models == a.models
    && var live := if a.id in st.accounts && st.accounts[a.id].enabled == a.enabled then st.accounts[a.id] else a;
       && r.healthy == live.healthy && r.inFlight == live.inFlight
       && r.utilization == live.utilization && r.depletedUntil == live.depletedUntil
  }

  /** The new pool holds the last incoming account of every id, and the sessions of those that are enabled. */
  lemma ReplacedOnFields(st: State, accounts: seq<Account>)
    ensures var next := Replaced(st, accounts);
            && (forall k :: k in next.accounts <==> exists a :: a in accounts && a.id == k)
            && (forall i: nat :: i < |accounts| && LastWith(accounts, accounts[i].id, i) ==>
                  accounts[i].id in next.accounts && TakesOver(st, accounts[i], next.accounts[accounts[i].id]))
            && (forall s :: s in next.sessions
                  <==> s in st.sessions && st.sessions[s].accountId in next.accounts
                       && next.accounts[st.sessions[s].accountId].enabled)
            && (forall s :: s in next.sessions ==> next.sessions[s] == st.sessions[s])
  {
    var carried := CarryAllOver(st.accounts, accounts);
    forall k ensures k in Collected(carried) <==> exists a :: a in accounts && a.id == k {
      CollectedExact(carried, k);
      if a :| a in accounts && a.id == k {
        var i :| 0 <= i < |accounts| && accounts[i] == a;
        assert carried[i] in carried;
      }
    }
    forall i: nat | i < |accounts| && LastWith(accounts, accounts[i].id, i)
      ensures accounts[i].id in Collected(carried)
              && TakesOver(st, accounts[i], Collected(carried)[accounts[i].id])
    {
      CollectedExact(carried, accounts[i].id);
      assert LastWith(carried, accounts[i].id, i);
    }
  }
}
