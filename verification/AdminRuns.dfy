/** What holds over whole runs of the administrator session manager. */
module AdminRuns {
  import opened Wrappers
  import opened Bytes
  import opened AdminSessions

  /**
    The critical sections. Issuing a CSRF token is two of them: a `Check` that requires no CSRF
    token, and, if it succeeds, a later `WriteCsrf`; anything may happen in between.
   */
  datatype Op =
    | LogIn(client: string, valid: bool, token: Bytes, csrf: Bytes)
    | Check(token: Bytes, presented: Bytes, requireCsrf: bool)
    | WriteCsrf(token: Bytes, csrf: Bytes)
    | LogOut(token: Bytes)
    | Count

  datatype Event = Event(at: int, op: Op)

  function Step(p: Policy, st: State, e: Event): (State, Reply) {
    match e.op
    case LogIn(client, valid, token, csrf) => Login(p, st, client, valid, token, csrf, e.at)
    case Check(token, presented, requireCsrf) => Authenticate(p, st, token, presented, requireCsrf, e.at)
    case WriteCsrf(token, csrf) => StoreCsrf(st, token, csrf)
    case LogOut(token) => (Logout(st, token), LoggedOut)
    case Count =>
      var next := st.(sessions := Purged(p, st.sessions, e.at));
      (next, Counted(|next.sessions|))
  }

  ghost predicate IsRun(p: Policy, tr: seq<State>, es: seq<Event>) {
    && |tr| == |es| + 1
    && forall i :: 0 <= i < |es| ==> tr[i + 1] == Step(p, tr[i], es[i]).0
  }

  ghost predicate ClockAdvances(es: seq<Event>) {
    forall i, j :: 0 <= i < j < |es| ==> es[i].at <= es[j].at
  }

  // --- Lockout ---------------------------------------------------------------------------------

  /**
    The answer to a login in any state: it is refused exactly while the client's lock lies in the
    future, and otherwise granted exactly when the credentials are right.
   */
  lemma LoginAnswers(p: Policy, st: State, client: string, valid: bool, token: Bytes, csrf: Bytes, now: int)
    ensures var (next, answer) := Login(p, st, client, valid, token, csrf, now);
            var locked := client in st.attempts && match st.attempts[client].lockedUntil
                                                   case Some(until) => now < until
                                                   case None => false;
            && answer == (if locked then RateLimited else if valid then LoggedIn else InvalidCredentials)
            && (answer == LoggedIn <==> token in next.sessions && next.sessions[token] == Session(now, now, csrf)
                                        && client !in next.attempts && valid && !locked)
  {
  }

  /** A login whose credentials were looked at and found wrong. */
  predicate CheckedFailure(p: Policy, st: State, e: Event, client: string) {
    e.op.LogIn? && e.op.client == client && Step(p, st, e).1 == InvalidCredentials
  }

  predicate Succeeds(p: Policy, st: State, e: Event, client: string) {
    e.op.LogIn? && e.op.client == client && Step(p, st, e).1 == LoggedIn
  }

  /** Failures that lock a client out; a configured zero locks at the first one, just as one does. */
  function Limit(p: Policy): nat {
    if p.maxFailedAttempts == 0 then 1 else p.maxFailedAttempts
  }

  /** The client is locked until the window has passed, or at least `c` failures are on the counter. */
  ghost predicate Guarded(p: Policy, st: State, client: string, c: nat, windowEnd: int) {
    && client in st.attempts
    && match st.attempts[client].lockedUntil
       case Some(until) => windowEnd <= until
       case None => c <= st.attempts[client].failures && c < Limit(p)
  }

  lemma FirstFailureGuards(p: Policy, st: State, e: Event, client: string)
    requires CheckedFailure(p, st, e, client)
    ensures Guarded(p, Step(p, st, e).0, client, 1, e.at + p.lockoutDuration)
  {
  }

  /** Inside the window another checked failure is possible only while no lock is set, and moves the counter on. */
  lemma FailureGuardsMore(p: Policy, st: State, e: Event, client: string, c: nat, start: int)
    requires Guarded(p, st, client, c, start + p.lockoutDuration)
    requires start <= e.at < start + p.lockoutDuration && CheckedFailure(p, st, e, client)
    ensures c < Limit(p) && Guarded(p, Step(p, st, e).0, client, c + 1, start + p.lockoutDuration)
  {
  }

  lemma OthersKeepGuard(p: Policy, st: State, e: Event, client: string, c: nat, start: int)
    requires Guarded(p, st, client, c, start + p.lockoutDuration)
    requires start <= e.at < start + p.lockoutDuration && !Succeeds(p, st, e, client)
    ensures Guarded(p, Step(p, st, e).0, client, c, start + p.lockoutDuration)
  {
  }

  lemma {:induction false} GuardLasts(p: Policy, tr: seq<State>, es: seq<Event>, i: nat, j: nat,
                                      client: string, c: nat, start: int)
    requires IsRun(p, tr, es) && i <= j < |tr|
    requires Guarded(p, tr[i], client, c, start + p.lockoutDuration)
    requires forall k :: i <= k < j ==>
               start <= es[k].at < start + p.lockoutDuration && !Succeeds(p, tr[k], es[k], client)
    ensures Guarded(p, tr[j], client, c, start + p.lockoutDuration)
    decreases j
  {
    hide Step, Guarded, Succeeds;
    if i < j {
      GuardLasts(p, tr, es, i, j - 1, client, c, start);
      assert tr[j - 1 + 1] == Step(p, tr[j - 1], es[j - 1]).0;
      OthersKeepGuard(p, tr[j - 1], es[j - 1], client, c, start);
    }
  }

  /** The events numbered `f`, in order, are checked failures of the client with no success of theirs between. */
  ghost predicate FailureSeries(p: Policy, tr: seq<State>, es: seq<Event>, f: seq<nat>, client: string)
    requires IsRun(p, tr, es)
  {
    && |f| > 0
    && (forall c, d :: 0 <= c < d < |f| ==> f[c] < f[d])
    && (forall c :: 0 <= c < |f| ==> f[c] < |es| && CheckedFailure(p, tr[f[c]], es[f[c]], client))
    && (forall k :: f[0] <= k < f[|f| - 1] && k < |es| ==> !Succeeds(p, tr[k], es[k], client))
  }

  lemma {:induction false} SeriesGuards(p: Policy, tr: seq<State>, es: seq<Event>, f: seq<nat>, client: string, c: nat)
    requires IsRun(p, tr, es) && ClockAdvances(es) && FailureSeries(p, tr, es, f, client) && c < |f|
    requires es[f[c]].at < es[f[0]].at + p.lockoutDuration
    ensures c < Limit(p)
    ensures Guarded(p, tr[f[c] + 1], client, c + 1, es[f[0]].at + p.lockoutDuration)
  {
    hide Step, Guarded, Succeeds, CheckedFailure;
    var start, at := es[f[0]].at, f[c];
    if c == 0 {
      FirstFailureGuards(p, tr[at], es[at], client);
    } else {
      var before := f[c - 1];
      assert before < at && f[0] <= before;
      SeriesGuards(p, tr, es, f, client, c - 1);
      forall k | before + 1 <= k < at
        ensures start <= es[k].at < start + p.lockoutDuration && !Succeeds(p, tr[k], es[k], client)
      {
        assert at <= f[|f| - 1];
      }
      GuardLasts(p, tr, es, before + 1, at, client, c, start);
      FailureGuardsMore(p, tr[at], es[at], client, c, start);
    }
  }

  /**
    Lockout: one more checked failure than the limit, without a successful login of that client
    in between, takes at least the lockout duration, whatever the other clients do.
   */
  lemma LockoutWindow(p: Policy, tr: seq<State>, es: seq<Event>, f: seq<nat>, client: string)
    requires IsRun(p, tr, es) && ClockAdvances(es) && FailureSeries(p, tr, es, f, client)
    requires |f| == Limit(p) + 1
    ensures es[f[|f| - 1]].at >= es[f[0]].at + p.lockoutDuration
  {
    if es[f[|f| - 1]].at < es[f[0]].at + p.lockoutDuration {
      SeriesGuards(p, tr, es, f, client, |f| - 1);
    }
  }

  /** Any `n` checked failures in a row take at least the lockout duration. */
  ghost predicate LocksOut(p: Policy, n: nat) {
    forall tr: seq<State>, es: seq<Event>, f: seq<nat>, client ::
      IsRun(p, tr, es) && ClockAdvances(es) && FailureSeries(p, tr, es, f, client) && |f| == n ==>
        es[f[|f| - 1]].at >= es[f[0]].at + p.lockoutDuration
  }

  /** With the limit as configured, "one more than the limit" is enough exactly when the limit is not zero. */
  lemma ConfiguredLimitExact(p: Policy)
    ensures LocksOut(p, p.maxFailedAttempts + 1) <==> p.maxFailedAttempts > 0 || p.lockoutDuration <= 0
  {
    if p.maxFailedAttempts > 0 {
      forall tr: seq<State>, es: seq<Event>, f: seq<nat>, client
        | IsRun(p, tr, es) && ClockAdvances(es) && FailureSeries(p, tr, es, f, client) && |f| == p.maxFailedAttempts + 1
        ensures es[f[|f| - 1]].at >= es[f[0]].at + p.lockoutDuration
      {
        LockoutWindow(p, tr, es, f, client);
      }
    } else if p.lockoutDuration > 0 {
      var e, start := Event(0, LogIn("client", false, [], [])), State(map[], map[]);
      var tr, es, f := [start, Step(p, start, e).0], [e], [0];
      assert CheckedFailure(p, tr[f[0]], es[f[0]], "client");
      assert FailureSeries(p, tr, es, f, "client");
    }
  }

  /** The checked failures of a client among the first `j` events. */
  ghost function FailuresBefore(p: Policy, tr: seq<State>, es: seq<Event>, j: nat, client: string): nat
    requires IsRun(p, tr, es) && j < |tr|
  {
    if j == 0 then 0
    else FailuresBefore(p, tr, es, j - 1, client) + if CheckedFailure(p, tr[j - 1], es[j - 1], client) then 1 else 0
  }

  /** How one event brings about the counter it leaves behind. */
  lemma CounterAfterStep(p: Policy, st: State, e: Event, client: string)
    requires client in Step(p, st, e).0.attempts
    ensures var a := Step(p, st, e).0.attempts[client];
            || (client in st.attempts && a == st.attempts[client] && !CheckedFailure(p, st, e, client))
            || (&& CheckedFailure(p, st, e, client)
                && a.failures <= 1 + (if client in st.attempts then st.attempts[client].failures else 0)
                && (a.lockedUntil.Some? ==> a.lockedUntil.value == e.at + p.lockoutDuration && Limit(p) <= a.failures))
  {
  }

  /** The counter never exceeds the failures there were, and a lock is set by a failure at the limit. */
  lemma {:induction false} CounterIsEarned(p: Policy, tr: seq<State>, es: seq<Event>, j: nat, client: string)
    requires IsRun(p, tr, es) && tr[0] == State(map[], map[]) && j < |tr| && client in tr[j].attempts
    ensures var a := tr[j].attempts[client];
            && a.failures <= FailuresBefore(p, tr, es, j, client)
            && (a.lockedUntil.Some? ==>
                  && Limit(p) <= a.failures
                  && exists i :: 0 <= i < j && CheckedFailure(p, tr[i], es[i], client)
                                 && a.lockedUntil.value == es[i].at + p.lockoutDuration)
    decreases j
  {
    hide Step, CheckedFailure;
    var last := j - 1;
    assert tr[last + 1] == Step(p, tr[last], es[last]).0;
    CounterAfterStep(p, tr[last], es[last], client);
    if client in tr[last].attempts {
      CounterIsEarned(p, tr, es, last, client);
    }
  }

  /**
    Nobody is locked out unduly: a refusal follows at least the limit of checked failures, the
    locking one within the lockout.
   */
  lemma LockoutIsEarned(p: Policy, tr: seq<State>, es: seq<Event>, j: nat, client: string) returns (i: nat)
    requires IsRun(p, tr, es) && tr[0] == State(map[], map[]) && j < |es|
    requires es[j].op.LogIn? && es[j].op.client == client && Step(p, tr[j], es[j]).1 == RateLimited
    ensures Limit(p) <= FailuresBefore(p, tr, es, j, client)
    ensures i < j && CheckedFailure(p, tr[i], es[i], client) && es[j].at < es[i].at + p.lockoutDuration
  {
    CounterIsEarned(p, tr, es, j, client);
    i :| 0 <= i < j && CheckedFailure(p, tr[i], es[i], client)
         && tr[j].attempts[client].lockedUntil.value == es[i].at + p.lockoutDuration;
  }

  /**
    The failures that count against a client before event `j`, with the time of the last one: a
    success clears them, and after the limit was reached the next failure counts as the first.
   */
  ghost function Tally(p: Policy, tr: seq<State>, es: seq<Event>, j: nat, client: string): (r: (nat, int))
    requires IsRun(p, tr, es) && j < |tr|
    ensures r.0 <= Limit(p)
  {
    if j == 0 then (0, 0)
    else
      var (count, at) := Tally(p, tr, es, j - 1, client);
      if Succeeds(p, tr[j - 1], es[j - 1], client) then (0, 0)
      else if CheckedFailure(p, tr[j - 1], es[j - 1], client) then
        (if count == Limit(p) then 1 else count + 1, es[j - 1].at)
      else (count, at)
  }

  /** What is on record for a client with this tally. */
  ghost predicate OnRecord(p: Policy, st: State, client: string, count: nat, at: int) {
    if count == 0 then client !in st.attempts
    else
      && client in st.attempts && st.attempts[client].failures == count
      && st.attempts[client].lockedUntil == if count == Limit(p) then Some(at + p.lockoutDuration) else None
  }

  lemma RecordAfterStep(p: Policy, st: State, e: Event, client: string, count: nat, at: int)
    requires OnRecord(p, st, client, count, at) && count <= Limit(p)
    ensures var next := Step(p, st, e).0;
            if Succeeds(p, st, e, client) then OnRecord(p, next, client, 0, 0)
            else if CheckedFailure(p, st, e, client)
            then OnRecord(p, next, client, if count == Limit(p) then 1 else count + 1, e.at)
            else OnRecord(p, next, client, count, at)
  {
  }

  lemma {:induction false} RecordIsTally(p: Policy, tr: seq<State>, es: seq<Event>, j: nat, client: string)
    requires IsRun(p, tr, es) && tr[0] == State(map[], map[]) && j < |tr|
    ensures var (count, at) := Tally(p, tr, es, j, client); OnRecord(p, tr[j], client, count, at)
  {
    if j > 0 {
      hide Step, OnRecord, Succeeds, CheckedFailure;
      RecordIsTally(p, tr, es, j - 1, client);
      var (count, at) := Tally(p, tr, es, j - 1, client);
      assert tr[j - 1 + 1] == Step(p, tr[j - 1], es[j - 1]).0;
      RecordAfterStep(p, tr[j - 1], es[j - 1], client, count, at);
    }
  }

  /**
    Lockout, exactly: a login is refused if and only if the client's failures since its last success
    and last lock have just reached the limit, less than the lockout duration ago.
   */
  lemma RefusedExactly(p: Policy, tr: seq<State>, es: seq<Event>, j: nat, client: string)
    requires IsRun(p, tr, es) && tr[0] == State(map[], map[]) && j < |es|
    requires es[j].op.LogIn? && es[j].op.client == client
    ensures var (count, at) := Tally(p, tr, es, j, client);
            Step(p, tr[j], es[j]).1 == RateLimited <==> count == Limit(p) && es[j].at < at + p.lockoutDuration
  {
    RecordIsTally(p, tr, es, j, client);
  }

  // --- Purging is invisible --------------------------------------------------------------------------

  ghost predicate LiveIn(p: Policy, st: State, d: Bytes, now: int) {
    d in st.sessions && Alive(p, st.sessions[d], now)
  }

  /** Two states that differ at most in sessions that have expired by `now`. */
  ghost predicate SameLive(p: Policy, s: State, t: State, now: int) {
    && s.attempts == t.attempts
    && forall d :: (LiveIn(p, s, d, now) <==> LiveIn(p, t, d, now))
                   && (LiveIn(p, s, d, now) ==> s.sessions[d] == t.sessions[d])
  }

  lemma SameLiveLater(p: Policy, s: State, t: State, now: int, later: int)
    requires SameLive(p, s, t, now) && now <= later
    ensures SameLive(p, s, t, later)
  {
  }

  lemma SameLiveStep(p: Policy, s: State, t: State, e: Event)
    requires SameLive(p, s, t, e.at) && !e.op.Count?
    ensures !e.op.WriteCsrf? ==> Step(p, s, e).1 == Step(p, t, e).1
    ensures SameLive(p, Step(p, s, e).0, Step(p, t, e).0, e.at)
  {
    if e.op.Check? {
      assert LiveIn(p, s, e.op.token, e.at) <==> LiveIn(p, t, e.op.token, e.at);
    }
    var s', t' := Step(p, s, e).0, Step(p, t, e).0;
    forall d ensures (LiveIn(p, s', d, e.at) <==> LiveIn(p, t', d, e.at))
                     && (LiveIn(p, s', d, e.at) ==> s'.sessions[d] == t'.sessions[d])
    {
      assert LiveIn(p, s, d, e.at) <==> LiveIn(p, t, d, e.at);
    }
  }

  lemma SameLiveCount(p: Policy, s: State, t: State, e: Event)
    requires SameLive(p, s, t, e.at) && e.op.Count?
    ensures SameLive(p, Step(p, s, e).0, t, e.at)
  {
  }

  /** The answers of logins, authentications and logouts. */
  function Replies(p: Policy, st: State, es: seq<Event>): seq<Reply>
    decreases |es|
  {
    if es == [] then []
    else
      var (next, reply) := Step(p, st, es[0]);
      (if es[0].op.Count? || es[0].op.WriteCsrf? then [] else [reply]) + Replies(p, next, es[1..])
  }

  function WithoutCounts(es: seq<Event>): seq<Event> {
    if es == [] then [] else (if es[0].op.Count? then [] else [es[0]]) + WithoutCounts(es[1..])
  }

  lemma {:induction false} CountsChangeNoReply(p: Policy, s: State, t: State, es: seq<Event>, now: int)
    requires SameLive(p, s, t, now) && ClockAdvances(es) && (es != [] ==> now <= es[0].at)
    ensures Replies(p, s, es) == Replies(p, t, WithoutCounts(es))
    decreases |es|
  {
    hide Step, SameLive;
    if es != [] {
      var e, rest := es[0], es[1..];
      assert forall i :: 0 <= i < |rest| ==> rest[i] == es[i + 1];
      SameLiveLater(p, s, t, now, e.at);
      if e.op.Count? {
        SameLiveCount(p, s, t, e);
        assert WithoutCounts(es) == WithoutCounts(rest);
        CountsChangeNoReply(p, Step(p, s, e).0, t, rest, e.at);
      } else {
        SameLiveStep(p, s, t, e);
        var kept := WithoutCounts(es);
        assert kept == [e] + WithoutCounts(rest) && kept[1..] == WithoutCounts(rest);
        CountsChangeNoReply(p, Step(p, s, e).0, Step(p, t, e).0, rest, e.at);
      }
    }
  }

  /**
    Adding or removing purging counts anywhere in a run changes no answer to a login, an
    authentication (the first half of issuing a CSRF token included) or a logout.
   */
  lemma PurgingIsInvisible(p: Policy, st: State, es: seq<Event>, fs: seq<Event>)
    requires ClockAdvances(es) && ClockAdvances(fs) && WithoutCounts(es) == WithoutCounts(fs)
    ensures Replies(p, st, es) == Replies(p, st, fs)
  {
    CountsChangeNoReply(p, st, st, es, if es == [] then 0 else es[0].at);
    CountsChangeNoReply(p, st, st, fs, if fs == [] then 0 else fs[0].at);
  }

  // --- Purging and the second half of issuing a CSRF token ---------------------------------------------

  /** The run with one purging count put in before event `m`. */
  ghost function WithCount(es: seq<Event>, m: nat, clock: int): (fs: seq<Event>)
    requires m <= |es|
    ensures |fs| == |es| + 1 && fs[m] == Event(clock, Count)
    ensures forall k :: 0 <= k < m ==> fs[k] == es[k]
    ensures forall k :: m <= k < |es| ==> fs[k + 1] == es[k]
  {
    es[..m] + [Event(clock, Count)] + es[m..]
  }

  /** As far as session `d` goes: the states agree, or the purge removed it from `b` and it is dead in `a`. */
  ghost predicate Agree(p: Policy, a: State, b: State, d: Bytes, purged: bool, clock: int) {
    && a.attempts == b.attempts
    && if purged then d !in b.sessions && (d in a.sessions ==> !Alive(p, a.sessions[d], clock))
       else (d in a.sessions <==> d in b.sessions) && (d in a.sessions ==> a.sessions[d] == b.sessions[d])
  }

  lemma AgreeStep(p: Policy, a: State, b: State, e: Event, d: Bytes, purged: bool, clock: int)
    requires Agree(p, a, b, d, purged, clock) && clock <= e.at
    ensures Agree(p, Step(p, a, e).0, Step(p, b, e).0, d, purged && !Grants(p, a, e, d), clock)
  {
    if e.op.LogIn? {
      AgreeLogin(p, a, b, e, d, purged, clock);
    }
  }

  lemma AgreeLogin(p: Policy, a: State, b: State, e: Event, d: Bytes, purged: bool, clock: int)
    requires Agree(p, a, b, d, purged, clock) && clock <= e.at && e.op.LogIn?
    ensures Agree(p, Step(p, a, e).0, Step(p, b, e).0, d, purged && !Grants(p, a, e, d), clock)
  {
    hide Unlocked, Failed, Locked;
    var x, y := Purged(p, a.sessions, e.at), Purged(p, b.sessions, e.at);
    assert Agree(p, a.(sessions := x), b.(sessions := y), d, purged, clock);
  }

  /** The purge at `clock` before event `m` takes `d`, and no login grants it again before event `j`. */
  ghost predicate PurgedUntil(p: Policy, tr: seq<State>, es: seq<Event>, m: nat, j: nat, d: Bytes, clock: int)
    requires IsRun(p, tr, es) && m <= j < |tr|
  {
    && d in tr[m].sessions && !Alive(p, tr[m].sessions[d], clock)
    && forall k :: m <= k < j ==> !Grants(p, tr[k], es[k], d)
  }

  lemma {:induction false} SameBefore(p: Policy, tr: seq<State>, es: seq<Event>, us: seq<State>, fs: seq<Event>, m: nat)
    requires IsRun(p, tr, es) && IsRun(p, us, fs) && tr[0] == us[0] && m <= |es| && m <= |fs|
    requires forall k :: 0 <= k < m ==> fs[k] == es[k]
    ensures tr[m] == us[m]
  {
    hide Step;
    if m > 0 {
      SameBefore(p, tr, es, us, fs, m - 1);
      assert tr[m - 1 + 1] == Step(p, tr[m - 1], es[m - 1]).0 && us[m - 1 + 1] == Step(p, us[m - 1], fs[m - 1]).0;
    }
  }

  lemma {:induction false} AgreeAfter(p: Policy, tr: seq<State>, es: seq<Event>, us: seq<State>, m: nat, j: nat,
                                      d: Bytes, clock: int)
    requires m <= j <= |es| && ClockAdvances(WithCount(es, m, clock))
    requires IsRun(p, tr, es) && IsRun(p, us, WithCount(es, m, clock)) && tr[0] == us[0]
    ensures Agree(p, tr[j], us[j + 1], d, PurgedUntil(p, tr, es, m, j, d, clock), clock)
    decreases j
  {
    hide Step, Agree, Grants;
    var fs := WithCount(es, m, clock);
    if j == m {
      SameBefore(p, tr, es, us, fs, m);
      assert us[m + 1] == Step(p, us[m], fs[m]).0;
      AgreeAtCount(p, tr[m], d, clock);
    } else {
      var k := j - 1;
      AgreeAfter(p, tr, es, us, m, k, d, clock);
      assert tr[k + 1] == Step(p, tr[k], es[k]).0 && us[k + 1 + 1] == Step(p, us[k + 1], fs[k + 1]).0;
      assert fs[m].at <= fs[k + 1].at;
      AgreeStep(p, tr[k], us[k + 1], es[k], d, PurgedUntil(p, tr, es, m, k, d, clock), clock);
    }
  }

  lemma AgreeAtCount(p: Policy, st: State, d: Bytes, clock: int)
    ensures var purged := d in st.sessions && !Alive(p, st.sessions[d], clock);
            Agree(p, st, Step(p, st, Event(clock, Count)).0, d, purged, clock)
  {
  }

  /**
    One more count between the two halves of issuing a CSRF token changes the answer of the second half
    exactly when the session is no longer alive at the count's clock, no login grants it again,
    and nothing else has removed it by then.
   */
  lemma CountChangesWriteIff(p: Policy, tr: seq<State>, es: seq<Event>, us: seq<State>, m: nat, j: nat, clock: int)
    requires m <= j < |es| && ClockAdvances(WithCount(es, m, clock)) && es[j].op.WriteCsrf?
    requires IsRun(p, tr, es) && IsRun(p, us, WithCount(es, m, clock)) && tr[0] == us[0]
    ensures Step(p, tr[j], es[j]).1 != Step(p, us[j + 1], es[j]).1
       <==> PurgedUntil(p, tr, es, m, j, es[j].op.token, clock) && es[j].op.token in tr[j].sessions
  {
    AgreeAfter(p, tr, es, us, m, j, es[j].op.token, clock);
  }

  /** Such runs: absolute limit 10, a login at 0, an authentication at 9, a purge at 10, and the write. */
  lemma PurgeCanFailTheWrite()
    ensures var p := Policy(100, 10, 5, 0);
            var granted := Step(p, State(map[], map[]), Event(0, LogIn("admin", true, [1], [2])));
            var checked := Step(p, granted.0, Event(9, Check([1], [], false)));
            var counted := Step(p, checked.0, Event(10, Count));
            var denied := Step(p, checked.0, Event(10, LogIn("other", false, [4], [5])));
            && granted.1 == LoggedIn && checked.1 == Authenticated && denied.1 == InvalidCredentials
            && Step(p, checked.0, Event(10, WriteCsrf([1], [3]))).1 == CsrfIssued
            && Step(p, counted.0, Event(10, WriteCsrf([1], [3]))).1 == InvalidSession
            && Step(p, denied.0, Event(10, WriteCsrf([1], [3]))).1 == InvalidSession
  {
  }

  /** The session would still authenticate. */
  predicate WouldAuthenticate(p: Policy, st: State, d: Bytes, now: int) {
    Authenticate(p, st, d, [], false, now).1 == Authenticated
  }

  /** The reported count is exactly the number of sessions that would still authenticate. */
  lemma CountIsExact(p: Policy, st: State, now: int)
    ensures Step(p, st, Event(now, Count)).1
         == Counted(|set d | d in st.sessions && WouldAuthenticate(p, st, d, now)|)
  {
    var kept := Purged(p, st.sessions, now);
    assert kept.Keys == set d | d in st.sessions && WouldAuthenticate(p, st, d, now);
    assert |kept| == |kept.Keys|;
  }

  // --- Where a live session comes from ------------------------------------------------------------------

  predicate Grants(p: Policy, st: State, e: Event, d: Bytes) {
    e.op.LogIn? && e.op.token == d && Step(p, st, e).1 == LoggedIn
  }

  /** A login or a successful use of the session. */
  predicate Touches(p: Policy, st: State, e: Event, d: Bytes) {
    || Grants(p, st, e, d)
    || (e.op.Check? && e.op.token == d && Step(p, st, e).1 == Authenticated)
  }

  /** Between `i` and `j` the session is neither logged out nor granted anew. */
  ghost predicate Unended(p: Policy, tr: seq<State>, es: seq<Event>, i: nat, j: nat, d: Bytes)
    requires IsRun(p, tr, es) && j < |tr|
  {
    forall m :: i < m < j ==> es[m].op != LogOut(d) && !Grants(p, tr[m], es[m], d)
  }

  /** The session in state `j` was created by the login at `i`, last used at `k`, and not ended since. */
  ghost predicate Origin(p: Policy, tr: seq<State>, es: seq<Event>, i: nat, k: nat, j: nat, d: Bytes)
    requires IsRun(p, tr, es)
  {
    && i <= k < j < |tr|
    && Grants(p, tr[i], es[i], d) && Touches(p, tr[k], es[k], d) && Unended(p, tr, es, i, j, d)
  }

  /** How one event brings about a session it leaves behind. */
  lemma SessionAfterStep(p: Policy, st: State, e: Event, d: Bytes)
    requires d in Step(p, st, e).0.sessions
    ensures var s := Step(p, st, e).0.sessions[d];
            if Grants(p, st, e, d) then s.createdAt == s.lastSeenAt == e.at
            else
              && d in st.sessions && s.createdAt == st.sessions[d].createdAt && e.op != LogOut(d)
              && s.lastSeenAt == if Touches(p, st, e, d) then e.at else st.sessions[d].lastSeenAt
  {
  }

  /** Every session that is there goes back to a login with right credentials and to its last use. */
  lemma {:induction false} SessionOrigin(p: Policy, tr: seq<State>, es: seq<Event>, j: nat, d: Bytes)
    returns (i: nat, k: nat)
    requires IsRun(p, tr, es) && tr[0] == State(map[], map[]) && j < |tr| && d in tr[j].sessions
    ensures Origin(p, tr, es, i, k, j, d) && es[i].op.valid
    ensures tr[j].sessions[d].createdAt == es[i].at && tr[j].sessions[d].lastSeenAt == es[k].at
    decreases j
  {
    hide Step, Grants, Touches;
    var last := j - 1;
    assert tr[last + 1] == Step(p, tr[last], es[last]).0;
    SessionAfterStep(p, tr[last], es[last], d);
    if Grants(p, tr[last], es[last], d) {
      i, k := last, last;
      GrantIsValid(p, tr[last], es[last], d);
    } else {
      i, k := SessionOrigin(p, tr, es, last, d);
      if Touches(p, tr[last], es[last], d) {
        k := last;
      }
    }
  }

  lemma GrantIsValid(p: Policy, st: State, e: Event, d: Bytes)
    requires Grants(p, st, e, d)
    ensures Touches(p, st, e, d) && e.op.valid
  {
  }

  /**
    Every successful use of a session goes back to a login with right credentials that granted it
    less than the absolute limit ago, with no logout since, and to an earlier use no longer ago than
    the idle timeout.
   */
  lemma UseIsJustified(p: Policy, tr: seq<State>, es: seq<Event>, j: nat, d: Bytes) returns (i: nat, k: nat)
    requires IsRun(p, tr, es) && tr[0] == State(map[], map[]) && j < |es|
    requires es[j].op.Check? && es[j].op.token == d && Step(p, tr[j], es[j]).1 == Authenticated
    ensures Origin(p, tr, es, i, k, j, d) && es[i].op.valid && Recent(p, es, i, k, es[j].at)
  {
    i, k := SessionOrigin(p, tr, es, j, d);
  }

  /** While nothing ends it, a session that is there was created by its login. */
  lemma {:induction false} CreatedByLogin(p: Policy, tr: seq<State>, es: seq<Event>, i: nat, j: nat, d: Bytes)
    requires IsRun(p, tr, es) && i < j < |tr| && Grants(p, tr[i], es[i], d) && Unended(p, tr, es, i, j, d)
    requires d in tr[j].sessions
    ensures tr[j].sessions[d].createdAt == es[i].at
    decreases j
  {
    hide Step, Grants, Touches;
    var last := j - 1;
    assert tr[last + 1] == Step(p, tr[last], es[last]).0;
    SessionAfterStep(p, tr[last], es[last], d);
    if i < last {
      CreatedByLogin(p, tr, es, i, last, d);
    }
  }

  /** One event no later than `until` keeps a session that would still be alive then. */
  lemma StepKeepsAlive(p: Policy, st: State, e: Event, d: Bytes, until: int)
    requires d in st.sessions && Alive(p, st.sessions[d], until) && e.at <= until && st.sessions[d].lastSeenAt <= e.at
    requires e.op != LogOut(d) && !Grants(p, st, e, d)
    ensures var next := Step(p, st, e).0;
            d in next.sessions && Alive(p, next.sessions[d], until) && next.sessions[d].lastSeenAt <= e.at
  {
  }

  lemma {:induction false} AliveUntil(p: Policy, tr: seq<State>, es: seq<Event>, k: nat, j: nat, d: Bytes, until: int)
    requires IsRun(p, tr, es) && ClockAdvances(es) && k < j < |tr| && Unended(p, tr, es, k, j, d)
    requires d in tr[k + 1].sessions && Alive(p, tr[k + 1].sessions[d], until)
    requires tr[k + 1].sessions[d].lastSeenAt <= es[k].at
    requires forall m :: k < m < j ==> es[m].at <= until
    ensures d in tr[j].sessions && tr[j].sessions[d].lastSeenAt <= es[j - 1].at && Alive(p, tr[j].sessions[d], until)
    decreases j
  {
    hide Step, Grants, Alive;
    var last := j - 1;
    if k < last {
      AliveUntil(p, tr, es, k, last, d, until);
      assert tr[last + 1] == Step(p, tr[last], es[last]).0;
      assert es[last - 1].at <= es[last].at;
      StepKeepsAlive(p, tr[last], es[last], d, until);
    }
  }

  lemma TouchLeaves(p: Policy, st: State, e: Event, d: Bytes)
    requires Touches(p, st, e, d)
    ensures var next := Step(p, st, e).0; d in next.sessions && next.sessions[d].lastSeenAt == e.at
  {
  }

  /** The login at `i` and the use at `k` are recent enough for the time `now`. */
  predicate Recent(p: Policy, es: seq<Event>, i: nat, k: nat, now: int)
    requires i < |es| && k < |es|
  {
    now < es[i].at + p.absoluteTimeout && now <= es[k].at + p.idleTimeout
  }

  /** A session with a recent login and a recent use, not ended since, is there and alive. */
  lemma RecentUseKeepsAlive(p: Policy, tr: seq<State>, es: seq<Event>, i: nat, k: nat, j: nat, d: Bytes, now: int)
    requires IsRun(p, tr, es) && ClockAdvances(es) && Origin(p, tr, es, i, k, j, d) && Recent(p, es, i, k, now)
    requires forall m :: k < m < j ==> es[m].at <= now
    ensures d in tr[j].sessions && Alive(p, tr[j].sessions[d], now)
  {
    hide Step, Grants, Touches;
    assert tr[k + 1] == Step(p, tr[k], es[k]).0;
    TouchLeaves(p, tr[k], es[k], d);
    CreatedByLogin(p, tr, es, i, k + 1, d);
    AliveUntil(p, tr, es, k, j, d, now);
  }

  /**
    A session authenticates exactly when it goes back to a login less than the absolute limit ago
    and a use no longer ago than the idle timeout, with no logout or new grant since the login.
    A wrong CSRF token, where one is required, is the only other reason to refuse it.
   */
  lemma SessionWorksIff(p: Policy, tr: seq<State>, es: seq<Event>, j: nat, d: Bytes)
    requires IsRun(p, tr, es) && ClockAdvances(es) && tr[0] == State(map[], map[]) && j < |es|
    requires es[j].op.Check? && es[j].op.token == d
    ensures Step(p, tr[j], es[j]).1 != InvalidSession
       <==> exists i, k :: Origin(p, tr, es, i, k, j, d) && Recent(p, es, i, k, es[j].at)
    ensures Step(p, tr[j], es[j]).1 != InvalidSession ==>
              d in tr[j].sessions
              && Step(p, tr[j], es[j]).1 == if es[j].op.requireCsrf && es[j].op.presented != tr[j].sessions[d].csrf
                                            then InvalidCsrf else Authenticated
  {
    if Step(p, tr[j], es[j]).1 != InvalidSession {
      var i, k := SessionOrigin(p, tr, es, j, d);
      assert Recent(p, es, i, k, es[j].at);
    }
    forall i, k | Origin(p, tr, es, i, k, j, d) && Recent(p, es, i, k, es[j].at)
      ensures Step(p, tr[j], es[j]).1 != InvalidSession
    {
      RecentUseKeepsAlive(p, tr, es, i, k, j, d, es[j].at);
    }
  }

  /**
    Issuing a CSRF token: when the first half authenticated at `k` and the session is neither ended
    nor past a limit by the time of the second half, the second half succeeds, whatever purges.
   */
  lemma IssueSucceedsWhileAlive(p: Policy, tr: seq<State>, es: seq<Event>, i: nat, k: nat, j: nat, d: Bytes)
    requires IsRun(p, tr, es) && ClockAdvances(es) && j < |es| && es[j].op.WriteCsrf? && es[j].op.token == d
    requires Origin(p, tr, es, i, k, j, d) && Recent(p, es, i, k, es[j].at)
    ensures Step(p, tr[j], es[j]).1 == CsrfIssued
  {
    RecentUseKeepsAlive(p, tr, es, i, k, j, d, es[j].at);
  }

  /**
    The event ends the session: it logs it out, or it looks for expired sessions (a count, any
    login, a check of this session) at a time when this one is not alive, and does not grant it anew.
   */
  predicate Ends(p: Policy, st: State, e: Event, d: Bytes) {
    && d in st.sessions && !Grants(p, st, e, d)
    && (e.op == LogOut(d)
        || ((e.op.Count? || e.op.LogIn? || (e.op.Check? && e.op.token == d)) && !Alive(p, st.sessions[d], e.at)))
  }

  /** Between `k` and `j` the event `m` ended the session for good. */
  ghost predicate EndedAt(p: Policy, tr: seq<State>, es: seq<Event>, k: nat, m: nat, j: nat, d: Bytes)
    requires IsRun(p, tr, es) && j < |tr|
  {
    && k < m < j && Ends(p, tr[m], es[m], d)
    && forall n :: m < n < j ==> !Grants(p, tr[n], es[n], d)
  }

  lemma GoneAfterStep(p: Policy, st: State, e: Event, d: Bytes)
    ensures d !in Step(p, st, e).0.sessions <==> Ends(p, st, e, d) || (d !in st.sessions && !Grants(p, st, e, d))
  {
  }

  lemma {:induction false} GoneIffEnded(p: Policy, tr: seq<State>, es: seq<Event>, k: nat, j: nat, d: Bytes)
    requires IsRun(p, tr, es) && k < j < |tr| && Touches(p, tr[k], es[k], d)
    ensures d !in tr[j].sessions <==> exists m :: EndedAt(p, tr, es, k, m, j, d)
    decreases j
  {
    hide Step, Grants, Touches, Ends;
    var last := j - 1;
    assert tr[last + 1] == Step(p, tr[last], es[last]).0;
    if k == last {
      TouchLeaves(p, tr[k], es[k], d);
    } else {
      GoneIffEnded(p, tr, es, k, last, d);
      GoneAfterStep(p, tr[last], es[last], d);
      if d !in tr[j].sessions {
        if Ends(p, tr[last], es[last], d) {
          assert EndedAt(p, tr, es, k, last, j, d);
        } else {
          var m :| EndedAt(p, tr, es, k, m, last, d);
          assert EndedAt(p, tr, es, k, m, j, d);
        }
      }
      forall m: nat | EndedAt(p, tr, es, k, m, j, d)
        ensures d !in tr[j].sessions
      {
        if m < last {
          assert EndedAt(p, tr, es, k, m, last, d);
        }
      }
    }
  }

  /**
    Issuing a CSRF token, exactly: when the session was granted or used at `k` (the first half of
    issuing is such a use), a later second half fails if and only if some event in between ended the
    session and none after that granted it again.
   */
  lemma WriteFailsIff(p: Policy, tr: seq<State>, es: seq<Event>, k: nat, j: nat, d: Bytes)
    requires IsRun(p, tr, es) && k < j < |es| && Touches(p, tr[k], es[k], d)
    requires es[j].op.WriteCsrf? && es[j].op.token == d
    ensures Step(p, tr[j], es[j]).1 == InvalidSession <==> exists m :: EndedAt(p, tr, es, k, m, j, d)
    ensures Step(p, tr[j], es[j]).1 != InvalidSession <==> Step(p, tr[j], es[j]).1 == CsrfIssued
  {
    GoneIffEnded(p, tr, es, k, j, d);
  }

  // --- CSRF tokens ---------------------------------------------------------------------------------------

  /** The event gives the session a new CSRF token: a login, or the second half of issuing one. */
  predicate Issues(p: Policy, st: State, e: Event, d: Bytes) {
    Grants(p, st, e, d) || (e.op.WriteCsrf? && e.op.token == d && Step(p, st, e).1 == CsrfIssued)
  }

  lemma CsrfAfterStep(p: Policy, st: State, e: Event, d: Bytes)
    requires d in Step(p, st, e).0.sessions
    ensures var csrf := Step(p, st, e).0.sessions[d].csrf;
            if Issues(p, st, e, d) then csrf == e.op.csrf else d in st.sessions && csrf == st.sessions[d].csrf
  {
  }

  /** The CSRF digest a session holds is the one issued for it last. */
  lemma {:induction false} LatestCsrf(p: Policy, tr: seq<State>, es: seq<Event>, j: nat, d: Bytes) returns (k: nat)
    requires IsRun(p, tr, es) && tr[0] == State(map[], map[]) && j < |tr| && d in tr[j].sessions
    ensures k < j && Issues(p, tr[k], es[k], d) && tr[j].sessions[d].csrf == es[k].op.csrf
    ensures forall m :: k < m < j ==> !Issues(p, tr[m], es[m], d)
    decreases j
  {
    hide Step, Issues;
    var last := j - 1;
    assert tr[last + 1] == Step(p, tr[last], es[last]).0;
    CsrfAfterStep(p, tr[last], es[last], d);
    if Issues(p, tr[last], es[last], d) {
      k := last;
    } else {
      k := LatestCsrf(p, tr, es, last, d);
    }
  }

  /** A use that requires a CSRF token succeeds only with the one issued last for that session. */
  lemma CsrfMustBeLatest(p: Policy, tr: seq<State>, es: seq<Event>, j: nat, d: Bytes) returns (k: nat)
    requires IsRun(p, tr, es) && tr[0] == State(map[], map[]) && j < |es|
    requires es[j].op.Check? && es[j].op.token == d && es[j].op.requireCsrf && Step(p, tr[j], es[j]).1 == Authenticated
    ensures k < j && Issues(p, tr[k], es[k], d) && es[j].op.presented == es[k].op.csrf
    ensures forall m :: k < m < j ==> !Issues(p, tr[m], es[m], d)
  {
    k := LatestCsrf(p, tr, es, j, d);
  }
}
