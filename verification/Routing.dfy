/**
  Sticky least-loaded routing: the account pool, the session bindings, and the operations that
  update them. `State` is a router's value; the functions on it say what each operation does, and
  the class `Router` carries the operations out in place.
 */
module Routing {
  import opened Wrappers
  import opened Clock
  import opened Limits
  import opened Ordering
  import Models

  const SESSION_IDLE_TIMEOUT: int := 30 * MINUTE

  datatype Account = Account(
    id: string,
    provider: string,
    enabled: bool,
    healthy: bool,
    inFlight: nat,
    utilization: nat,
    models: set<string>,
    depletedUntil: Option<int>
  )

  datatype Binding = Binding(accountId: string, lastSeenAt: int)

  datatype State = State(accounts: map<string, Account>, sessions: map<string, Binding>)

  datatype Selection = Selection(accountId: string, provider: string, reusedSession: bool)

  datatype Outcome =
    | Success
    | Unauthorized
    | RateLimited(retryAt: int)
    | Overloaded(retryAt: int)
    | TransientFailure

  // --- Eligibility and load --------------------------------------------------------------------

  predicate AcceptsModel(a: Account, model: string) {
    model == "" || Models.Accepted(a.models, model)
  }

  /** Any earlier depletion is over. */
  predicate RestedBy(a: Account, now: int) {
    a.depletedUntil.None? || a.depletedUntil.value <= now
  }

  predicate Eligible(a: Account, model: string, now: int) {
    a.enabled && a.healthy && RestedBy(a, now) && AcceptsModel(a, model)
  }

  /** Less loaded, or equally loaded and no later by name. */
  predicate NoBusier(a: Account, b: Account) {
    || a.inFlight < b.inFlight
    || (a.inFlight == b.inFlight && a.utilization < b.utilization)
    || (a.inFlight == b.inFlight && a.utilization == b.utilization && TextLe(a.id, b.id))
  }

  lemma NoBusierTotal(a: Account, b: Account)
    ensures NoBusier(a, b) || NoBusier(b, a)
  {
    TextLeTotal(a.id, b.id);
  }

  lemma NoBusierTransitive(a: Account, b: Account, c: Account)
    requires NoBusier(a, b) && NoBusier(b, c)
    ensures NoBusier(a, c)
  {
    if TextLe(a.id, b.id) && TextLe(b.id, c.id) {
      TextLeTransitive(a.id, b.id, c.id);
    }
  }

  /** `k` names an eligible account that no eligible account among `keys` undercuts. */
  ghost predicate Least(accounts: map<string, Account>, keys: set<string>, model: string, now: int, k: string)
    requires keys <= accounts.Keys
  {
    && k in keys && Eligible(accounts[k], model, now)
    && forall j :: j in keys && Eligible(accounts[j], model, now) ==> NoBusier(accounts[k], accounts[j])
  }

  /** Every account is filed under its own id. */
  ghost predicate WellKeyed(accounts: map<string, Account>) {
    forall k :: k in accounts ==> accounts[k].id == k
  }

  /** The least loaded account is unique, so the order in which the map is walked cannot matter. */
  lemma LeastUnique(accounts: map<string, Account>, keys: set<string>, model: string, now: int, j: string, k: string)
    requires keys <= accounts.Keys && WellKeyed(accounts)
    requires Least(accounts, keys, model, now, j) && Least(accounts, keys, model, now, k)
    ensures j == k
  {
    TextLeAntisymmetric(accounts[j].id, accounts[k].id);
  }

  lemma {:induction false} LeastExists(accounts: map<string, Account>, keys: set<string>, model: string, now: int,
                                       some: string)
    returns (k: string)
    requires keys <= accounts.Keys && some in keys && Eligible(accounts[some], model, now)
    ensures Least(accounts, keys, model, now, k)
    decreases keys
  {
    NoBusierTotal(accounts[some], accounts[some]);
    if other :| other in keys && Eligible(accounts[other], model, now) && !NoBusier(accounts[some], accounts[other]) {
      var rest := keys - {some};
      k := LeastExists(accounts, rest, model, now, other);
      NoBusierTotal(accounts[some], accounts[other]);
      NoBusierTransitive(accounts[k], accounts[other], accounts[some]);
    } else {
      k := some;
    }
  }

  /** The fresh selection over the whole pool; none when no account is eligible. */
  ghost function FreshChoice(accounts: map<string, Account>, model: string, now: int): (r: Option<string>)
    ensures r.Some? ==> Least(accounts, accounts.Keys, model, now, r.value)
  {
    if k :| Least(accounts, accounts.Keys, model, now, k) then Some(k) else None
  }

  /** A fresh selection fails only when nothing is eligible. */
  lemma FreshChoiceExists(accounts: map<string, Account>, model: string, now: int)
    ensures FreshChoice(accounts, model, now).None?
       <==> forall k :: k in accounts ==> !Eligible(accounts[k], model, now)
  {
    if k :| k in accounts && Eligible(accounts[k], model, now) {
      var least := LeastExists(accounts, accounts.Keys, model, now, k);
    }
  }

  // --- What each operation does ------------------------------------------------------------------

  /** Files accounts under their ids; of accounts with the same id the last one stays. */
  function Collected(accounts: seq<Account>): (m: map<string, Account>)
    ensures WellKeyed(m)
    ensures forall k :: k in m ==> m[k] in accounts
  {
    if accounts == [] then map[]
    else
      var last := accounts[|accounts| - 1];
      Collected(accounts[..|accounts| - 1])[last.id := last]
  }

  /** The last account of the list with this id. */
  ghost predicate LastWith(accounts: seq<Account>, id: string, i: nat) {
    i < |accounts| && accounts[i].id == id && forall j :: i < j < |accounts| ==> accounts[j].id != id
  }

  /** Every id of the list is filed, and under it the last account that has it. */
  lemma {:induction false} CollectedExact(accounts: seq<Account>, id: string)
    ensures id in Collected(accounts) <==> exists i: nat :: LastWith(accounts, id, i)
    ensures forall i: nat :: LastWith(accounts, id, i) ==> Collected(accounts)[id] == accounts[i]
    ensures (exists i: nat :: LastWith(accounts, id, i)) <==> exists a :: a in accounts && a.id == id
  {
    if accounts != [] {
      var n := |accounts| - 1;
      var front, last := accounts[..n], accounts[n];
      assert accounts == front + [last];
      CollectedExact(front, id);
      if last.id == id {
        assert LastWith(accounts, id, n);
      } else {
        assert forall i: nat :: LastWith(accounts, id, i) <==> LastWith(front, id, i);
      }
    }
  }

  /** An incoming account takes over the live state of an account with the same id and enabled flag. */
  function CarryOver(previous: map<string, Account>, a: Account): (r: Account)
    ensures r.id == a.id && r.enabled == a.enabled && r.models == a.models
  {
    if a.id in previous && previous[a.id].enabled == a.enabled then
      var p := previous[a.id];
      a.(healthy := p.healthy, inFlight := p.inFlight, utilization := p.utilization, depletedUntil := p.depletedUntil)
    else a
  }

  function CarryAllOver(previous: map<string, Account>, accounts: seq<Account>): (r: seq<Account>)
    ensures |r| == |accounts|
    ensures forall i :: 0 <= i < |r| ==> r[i] == CarryOver(previous, accounts[i])
  {
    if accounts == [] then []
    else CarryAllOver(previous, accounts[..|accounts| - 1]) + [CarryOver(previous, accounts[|accounts| - 1])]
  }

  function Replaced(st: State, accounts: seq<Account>): State {
    var replacement := Collected(CarryAllOver(st.accounts, accounts));
    State(replacement,
          map s | s in st.sessions && st.sessions[s].accountId in replacement
                  && replacement[st.sessions[s].accountId].enabled :: st.sessions[s])
  }

  /** The bindings to accounts other than `id`. */
  function Evicted(sessions: map<string, Binding>, id: string): map<string, Binding> {
    map s | s in sessions && sessions[s].accountId != id :: sessions[s]
  }

  function WithReset(st: State, id: string): State {
    if id !in st.accounts then st
    else State(st.accounts[id := st.accounts[id].(healthy := true, depletedUntil := None)], Evicted(st.sessions, id))
  }

  predicate StillBound(b: Binding, now: int) {
    b.lastSeenAt + SESSION_IDLE_TIMEOUT >= now
  }

  function Purged(st: State, now: int): State {
    st.(sessions := map s | s in st.sessions && StillBound(st.sessions[s], now) :: st.sessions[s])
  }

  function WithStart(st: State, id: string): State {
    if id !in st.accounts then st
    else
      var a := st.accounts[id];
      st.(accounts := st.accounts[id := a.(inFlight := if a.inFlight < U32_MAX then a.inFlight + 1 else a.inFlight)])
  }

  function AfterOutcome(a: Account, outcome: Outcome): Account {
    var settled := a.(inFlight := if a.inFlight > 0 then a.inFlight - 1 else 0);
    match outcome
    case Success => settled
    case Unauthorized => settled.(healthy := false)
    case RateLimited(retryAt) => settled.(depletedUntil := Some(retryAt))
    case Overloaded(retryAt) => settled.(depletedUntil := Some(retryAt))
    case TransientFailure => settled
  }

  function WithOutcome(st: State, id: string, outcome: Outcome): State {
    if id !in st.accounts then st
    else State(st.accounts[id := AfterOutcome(st.accounts[id], outcome)],
               if outcome.Success? then st.sessions else Evicted(st.sessions, id))
  }

  /** The session is bound, not idle for too long, and its account can take the request. */
  predicate Sticks(st: State, session: string, model: string, now: int) {
    && session in st.sessions
    && StillBound(st.sessions[session], now)
    && st.sessions[session].accountId in st.accounts
    && Eligible(st.accounts[st.sessions[session].accountId], model, now)
  }

  function Select(a: Account, reused: bool): Selection {
    Selection(a.id, a.provider, reused)
  }

  ghost function FreshlyChosen(st: State, session: Option<string>, model: string, now: int)
    : (State, Option<Selection>)
  {
    var sessions := if session.Some? then st.sessions - {session.value} else st.sessions;
    match FreshChoice(st.accounts, model, now)
    case None => (st.(sessions := sessions), None)
    case Some(k) =>
      var a := st.accounts[k];
      (st.(sessions := if session.Some? then sessions[session.value := Binding(a.id, now)] else sessions),
       Some(Select(a, false)))
  }

  ghost function Chosen(st: State, session: Option<string>, model: string, now: int): (State, Option<Selection>) {
    if session.Some? && Sticks(st, session.value, model, now) then
      var id := st.sessions[session.value].accountId;
      (st.(sessions := st.sessions[session.value := Binding(id, now)]), Some(Select(st.accounts[id], true)))
    else FreshlyChosen(st, session, model, now)
  }

  // --- The router ------------------------------------------------------------------------------------

  class Router {
    var accounts: map<string, Account>
    var sessions: map<string, Binding>

    ghost predicate Valid()
      reads this
    {
      WellKeyed(accounts)
    }

    ghost function View(): State
      reads this
    {
      State(accounts, sessions)
    }

    constructor (pool: seq<Account>)
      ensures Valid() && View() == State(Collected(pool), map[])
    {
      accounts := Collected(pool);
      sessions := map[];
    }

    method ReplaceAccounts(incoming: seq<Account>)
      requires Valid()
      modifies this
      ensures Valid() && View() == Replaced(old(View()), incoming)
    {
      var carried: seq<Account> := [];
      for i := 0 to |incoming|
        invariant unchanged(this)
        invariant carried == CarryAllOver(accounts, incoming[..i])
      {
        assert incoming[..i + 1][..i] == incoming[..i];
        var account := incoming[i];
        if account.id in accounts && accounts[account.id].enabled == account.enabled {
          var previous := accounts[account.id];
          account := account.(healthy := previous.healthy, inFlight := previous.inFlight,
                              utilization := previous.utilization, depletedUntil := previous.depletedUntil);
        }
        carried := carried + [account];
      }
      assert incoming[..|incoming|] == incoming;
      var replacement := Collected(carried);
      sessions := map s | s in sessions && sessions[s].accountId in replacement
                          && replacement[sessions[s].accountId].enabled :: sessions[s];
      accounts := replacement;
    }

    method ResetAccountHealth(id: string) returns (ok: bool)
      requires Valid()
      modifies this
      ensures Valid() && ok == (id in old(accounts)) && View() == WithReset(old(View()), id)
    {
      ok := id in accounts;
      if ok {
        accounts := accounts[id := accounts[id].(healthy := true, depletedUntil := None)];
        sessions := map s | s in sessions && sessions[s].accountId != id :: sessions[s];
      }
    }

    method SessionCount(now: int) returns (count: nat)
      requires Valid()
      modifies this
      ensures Valid() && View() == Purged(old(View()), now) && count == |sessions|
    {
      sessions := map s | s in sessions && sessions[s].lastSeenAt + SESSION_IDLE_TIMEOUT >= now :: sessions[s];
      count := |sessions|;
    }

    method StartRequest(id: string) returns (ok: bool)
      requires Valid()
      modifies this
      ensures Valid() && ok == (id in old(accounts)) && View() == WithStart(old(View()), id)
    {
      ok := id in accounts;
      if ok {
        var account := accounts[id];
        if account.inFlight < U32_MAX {
          account := account.(inFlight := account.inFlight + 1);
        }
        accounts := accounts[id := account];
      }
    }

    /** The minimum over the eligible accounts, walking the map in an arbitrary order. */
    method LeastLoaded(model: string, now: int) returns (best: Option<string>)
      requires Valid()
      ensures best == FreshChoice(accounts, model, now)
    {
      best := None;
      var left := accounts.Keys;
      while left != {}
        invariant left <= accounts.Keys
        invariant best.None? ==> forall k :: k in accounts.Keys - left ==> !Eligible(accounts[k], model, now)
        invariant best.Some? ==> Least(accounts, accounts.Keys - left, model, now, best.value)
        decreases left
      {
        ghost var seen := accounts.Keys - left;
        var k :| k in left;
        left := left - {k};
        assert accounts.Keys - left == seen + {k};
        if Eligible(accounts[k], model, now) {
          if best.None? {
            NoBusierTotal(accounts[k], accounts[k]);
            best := Some(k);
          } else {
            var b := best.value;
            NoBusierTotal(accounts[b], accounts[k]);
            if !NoBusier(accounts[b], accounts[k]) {
              forall j | j in seen && Eligible(accounts[j], model, now) ensures NoBusier(accounts[k], accounts[j]) {
                NoBusierTransitive(accounts[k], accounts[b], accounts[j]);
              }
              NoBusierTotal(accounts[k], accounts[k]);
              best := Some(k);
            }
          }
        }
      }
      assert accounts.Keys - left == accounts.Keys;
      if best.Some? {
        var f := FreshChoice(accounts, model, now).value;
        LeastUnique(accounts, accounts.Keys, model, now, best.value, f);
      }
    }

    method Choose(session: Option<string>, model: string, now: int) returns (selection: Option<Selection>)
      requires Valid()
      modifies this
      ensures Valid() && accounts == old(accounts)
      ensures (View(), selection) == Chosen(old(View()), session, model, now)
    {
      if session.Some? {
        var s := session.value;
        if s in sessions && sessions[s].lastSeenAt + SESSION_IDLE_TIMEOUT >= now && sessions[s].accountId in accounts {
          var account := accounts[sessions[s].accountId];
          if Eligible(account, model, now) {
            sessions := sessions[s := sessions[s].(lastSeenAt := now)];
            return Some(Selection(account.id, account.provider, true));
          }
        }
        sessions := sessions - {s};
      }
      var best := LeastLoaded(model, now);
      if best.None? {
        return None;
      }
      var account := accounts[best.value];
      if session.Some? {
        sessions := sessions[session.value := Binding(account.id, now)];
      }
      selection := Some(Selection(account.id, account.provider, false));
    }

    method RecordOutcome(id: string, outcome: Outcome) returns (ok: bool)
      requires Valid()
      modifies this
      ensures Valid() && ok == (id in old(accounts)) && View() == WithOutcome(old(View()), id, outcome)
    {
      ok := id in accounts;
      if !ok {
        return;
      }
      var account := accounts[id];
      account := account.(inFlight := if account.inFlight > 0 then account.inFlight - 1 else 0);
      match outcome {
        case Success =>
        case Unauthorized =>
          account := account.(healthy := false);
          sessions := map s | s in sessions && sessions[s].accountId != id :: sessions[s];
        case RateLimited(retryAt) =>
          account := account.(depletedUntil := Some(retryAt));
          sessions := map s | s in sessions && sessions[s].accountId != id :: sessions[s];
        case Overloaded(retryAt) =>
          account := account.(depletedUntil := Some(retryAt));
          sessions := map s | s in sessions && sessions[s].accountId != id :: sessions[s];
        case TransientFailure =>
          sessions := map s | s in sessions && sessions[s].accountId != id :: sessions[s];
      }
      accounts := accounts[id := account];
    }
  }
}
