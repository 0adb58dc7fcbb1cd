/**
  Fairness of fresh admissions: requests admitted one after the other (choose an account, start
  the request on it) spread over an idle pool as evenly as whole numbers allow.
 */
module Admission {
  import opened Wrappers
  import opened Limits
  import opened Routing

  ghost function EligibleKeys(st: State, model: string, now: int): set<string> {
    set k | k in st.accounts && Eligible(st.accounts[k], model, now)
  }

  /** A request as the router sees it: its session, its model, and its own clock reading. */
  datatype Request = Request(session: Option<string>, model: string, at: int)

  /** One admission: the chosen account, if any, gets the request. */
  ghost function Admitted(st: State, request: Request): State {
    var (next, selection) := Chosen(st, request.session, request.model, request.at);
    if selection.Some? then WithStart(next, selection.value.accountId) else next
  }

  ghost function AdmittedAll(st: State, requests: seq<Request>): State
    decreases |requests|
  {
    if requests == [] then st else AdmittedAll(Admitted(st, requests[0]), requests[1..])
  }

  /** Requests of sessions the router has not seen; no two share one. */
  ghost predicate NewSessions(st: State, requests: seq<Request>) {
    && (forall i :: 0 <= i < |requests| && requests[i].session.Some? ==> requests[i].session.value !in st.sessions)
    && (forall i, j :: 0 <= i < j < |requests| && requests[i].session.Some? ==>
          requests[i].session != requests[j].session)
  }

  /** Each request, for its own model and at its own time, could go to the accounts in `keys` and no others. */
  ghost predicate SameChoice(st: State, requests: seq<Request>, keys: set<string>) {
    forall i :: 0 <= i < |requests| ==> EligibleKeys(st, requests[i].model, requests[i].at) == keys
  }

  /** The accounts among `keys` with the given number of requests in flight. */
  ghost function At(st: State, keys: set<string>, load: nat): set<string>
    requires keys <= st.accounts.Keys
  {
    set k | k in keys && st.accounts[k].inFlight == load
  }

  /** Of the accounts in `keys`, `r` have `q + 1` requests in flight and the others have `q`. */
  ghost predicate Level(st: State, keys: set<string>, q: nat, r: nat) {
    && r < |keys| && keys <= st.accounts.Keys
    && (forall k :: k in keys ==> st.accounts[k].inFlight == q || st.accounts[k].inFlight == q + 1)
    && |At(st, keys, q + 1)| == r
  }

  /** The number of requests in flight over `n` accounts of which `r` have `q + 1` and the others `q`. */
  ghost function Total(n: nat, q: nat, r: nat): nat {
    n * q + r
  }

  lemma TotalNext(n: nat, q: nat, r: nat)
    requires r < n
    ensures Total(n, q, r) + 1 == if r + 1 < n then Total(n, q, r + 1) else Total(n, q + 1, 0)
  {
  }

  lemma {:induction false} TotalGrows(n: nat, q: nat, p: nat)
    requires q < p
    ensures Total(n, q, n) <= Total(n, p, 0)
  {
    if q + 1 < p {
      TotalGrows(n, q, p - 1);
    }
  }

  lemma TotalUnique(n: nat, q: nat, r: nat, p: nat, s: nat)
    requires r < n && s < n && Total(n, q, r) == Total(n, p, s)
    ensures q == p && r == s
  {
    if q < p {
      TotalGrows(n, q, p);
    } else if p < q {
      TotalGrows(n, p, q);
    }
  }

  lemma TotalBelow(n: nat, q: nat, r: nat, p: nat)
    requires Total(n, q, r) < Total(n, p, 0)
    ensures q < p
  {
  }

  lemma SameSizeSubset<T>(a: set<T>, b: set<T>)
    requires a <= b && |a| == |b|
    ensures a == b
  {
    assert b == a + (b - a);
    assert |b - a| == 0;
  }

  lemma AllAt(st: State, keys: set<string>, load: nat)
    requires keys <= st.accounts.Keys && forall k :: k in keys ==> k in At(st, keys, load)
    ensures |At(st, keys, load)| == |keys|
  {
    assert At(st, keys, load) == keys;
  }

  /** A fresh choice in a level pool falls on an account with the lower load. */
  lemma ChoosesLowest(st: State, keys: set<string>, q: nat, r: nat, model: string, now: int) returns (k: string)
    requires WellKeyed(st.accounts) && keys == EligibleKeys(st, model, now) && Level(st, keys, q, r)
    ensures FreshChoice(st.accounts, model, now) == Some(k) && k in keys
    ensures st.accounts[k].inFlight == q
  {
    var some :| some in keys;
    FreshChoiceExists(st.accounts, model, now);
    k := FreshChoice(st.accounts, model, now).value;
    if st.accounts[k].inFlight == q + 1 {
      forall j | j in keys ensures j in At(st, keys, q + 1) {
        assert NoBusier(st.accounts[k], st.accounts[j]);
      }
      AllAt(st, keys, q + 1);
    }
  }

  /** Admitting a new session starts one request on the fresh choice and touches nothing else in the pool. */
  lemma AdmittedStartsOne(st: State, request: Request, k: string)
    requires WellKeyed(st.accounts) && (request.session.Some? ==> request.session.value !in st.sessions)
    requires FreshChoice(st.accounts, request.model, request.at) == Some(k) && st.accounts[k].inFlight < U32_MAX
    ensures Admitted(st, request).accounts
         == st.accounts[k := st.accounts[k].(inFlight := st.accounts[k].inFlight + 1)]
    ensures Admitted(st, request).sessions.Keys
         <= st.sessions.Keys + if request.session.Some? then {request.session.value} else {}
  {
  }

  lemma LevelNext(st: State, next: State, keys: set<string>, q: nat, r: nat, k: string)
    requires Level(st, keys, q, r) && k in keys && st.accounts[k].inFlight == q
    requires next.accounts == st.accounts[k := st.accounts[k].(inFlight := q + 1)]
    ensures if r + 1 < |keys| then Level(next, keys, q, r + 1) else Level(next, keys, q + 1, 0)
  {
    var high := At(st, keys, q + 1);
    assert At(next, keys, q + 1) == high + {k};
    if r + 1 == |keys| {
      SameSizeSubset(high + {k}, keys);
      forall j | j in keys ensures next.accounts[j].inFlight == q + 1 {
        assert j in At(next, keys, q + 1);
      }
      assert At(next, keys, q + 2) == {};
    }
  }

  /** Starting from loads `(q, r)`, the loads end at the quotient and remainder of the new total. */
  lemma {:induction false} LevelAfterAll(st: State, requests: seq<Request>, keys: set<string>,
                                         q: nat, r: nat, p: nat, s: nat)
    requires WellKeyed(st.accounts) && NewSessions(st, requests)
    requires SameChoice(st, requests, keys) && Level(st, keys, q, r)
    requires s < |keys| && Total(|keys|, p, s) == Total(|keys|, q, r) + |requests| <= Total(|keys|, U32_MAX, 0)
    ensures Level(AdmittedAll(st, requests), keys, p, s)
    decreases |requests|
  {
    hide FreshChoice, Chosen, Level, Total, Admitted, EligibleKeys, NewSessions;
    var n := |keys|;
    assert r < n by { LevelBounds(st, keys, q, r); }
    if requests == [] {
      TotalUnique(n, q, r, p, s);
    } else {
      var k := ChoosesLowest(st, keys, q, r, requests[0].model, requests[0].at);
      TotalBelow(n, q, r, U32_MAX);
      TotalNext(n, q, r);
      NextStillNew(st, requests, keys, k);
      var next := Admitted(st, requests[0]);
      LevelNext(st, next, keys, q, r, k);
      if r + 1 < n {
        LevelAfterAll(next, requests[1..], keys, q, r + 1, p, s);
      } else {
        LevelAfterAll(next, requests[1..], keys, q + 1, 0, p, s);
      }
    }
  }

  /** After one admission the later requests have the same choice and their sessions are still new. */
  lemma NextStillNew(st: State, requests: seq<Request>, keys: set<string>, k: string)
    requires WellKeyed(st.accounts) && requests != [] && NewSessions(st, requests) && SameChoice(st, requests, keys)
    requires FreshChoice(st.accounts, requests[0].model, requests[0].at) == Some(k) && st.accounts[k].inFlight < U32_MAX
    ensures var next := Admitted(st, requests[0]);
            && next.accounts == st.accounts[k := st.accounts[k].(inFlight := st.accounts[k].inFlight + 1)]
            && WellKeyed(next.accounts)
            && SameChoice(next, requests[1..], keys)
            && NewSessions(next, requests[1..])
  {
    hide FreshChoice, Chosen, Admitted;
    AdmittedStartsOne(st, requests[0], k);
    var next, later := Admitted(st, requests[0]), requests[1..];
    forall i | 0 <= i < |later| && later[i].session.Some? ensures later[i].session.value !in next.sessions {
      assert later[i] == requests[i + 1];
    }
    forall i | 0 <= i < |later| ensures EligibleKeys(next, later[i].model, later[i].at) == keys {
      LoadDoesNotMatter(st, next, k, later[i].model, later[i].at);
      assert later[i] == requests[i + 1];
    }
  }

  lemma LoadDoesNotMatter(st: State, next: State, k: string, model: string, at: int)
    requires k in st.accounts
    requires next.accounts == st.accounts[k := st.accounts[k].(inFlight := st.accounts[k].inFlight + 1)]
    ensures EligibleKeys(next, model, at) == EligibleKeys(st, model, at)
  {
  }

  lemma LevelBounds(st: State, keys: set<string>, q: nat, r: nat)
    requires Level(st, keys, q, r)
    ensures r < |keys|
  {
  }

  /**
    Fair admission: `Total(n, q, r) = n * q + r` new requests, each with its own model and clock
    reading, that could all go to the same `n` idle accounts leave exactly `r` of them with `q + 1`
    requests in flight and all others with `q`: the floor or the ceiling of the mean.
   */
  lemma AdmissionsBalance(st: State, requests: seq<Request>, keys: set<string>, q: nat, r: nat)
    requires WellKeyed(st.accounts) && NewSessions(st, requests) && SameChoice(st, requests, keys)
    requires keys <= st.accounts.Keys && forall k :: k in keys ==> st.accounts[k].inFlight == 0
    requires r < |keys| && |requests| == Total(|keys|, q, r) <= Total(|keys|, U32_MAX, 0)
    ensures Level(AdmittedAll(st, requests), keys, q, r)
  {
    assert At(st, keys, 1) == {};
    LevelAfterAll(st, requests, keys, 0, 0, q, r);
  }
}
