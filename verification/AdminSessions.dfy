/**
  Administrator logins and sessions: a failure counter with lockout per client, and sessions that
  expire after an idle gap and at an absolute age. Randomness (the tokens), password checking and
  the keyed digest are parameters.
 */
module AdminSessions {
  import opened Wrappers
  import opened Bytes
  import opened Limits

  type Attempts8 = n: nat | n <= U8_MAX

  datatype Policy = Policy(idleTimeout: int, absoluteTimeout: int, maxFailedAttempts: Attempts8, lockoutDuration: int)

  datatype Attempt = Attempt(failures: Attempts8, lockedUntil: Option<int>)

  datatype Session = Session(createdAt: int, lastSeenAt: int, csrf: Bytes)

  datatype State = State(attempts: map<string, Attempt>, sessions: map<Bytes, Session>)

  datatype Reply =
    | LoggedIn
    | InvalidCredentials
    | RateLimited
    | Authenticated
    | InvalidSession
    | InvalidCsrf
    | CsrfIssued
    | LoggedOut
    | Counted(sessions: nat)

  // --- What each operation does ------------------------------------------------------------------

  predicate Alive(p: Policy, s: Session, now: int) {
    now < s.createdAt + p.absoluteTimeout && now <= s.lastSeenAt + p.idleTimeout
  }

  function Purged(p: Policy, sessions: map<Bytes, Session>, now: int): map<Bytes, Session> {
    map d | d in sessions && Alive(p, sessions[d], now) :: sessions[d]
  }

  predicate Locked(a: Attempt, now: int) {
    a.lockedUntil.Some? && now < a.lockedUntil.value
  }

  /** The counter a login attempt starts from: an expired lock counts from zero again. */
  function Unlocked(attempts: map<string, Attempt>, client: string): Attempt {
    if client in attempts && attempts[client].lockedUntil.None? then attempts[client] else Attempt(0, None)
  }

  function Failed(p: Policy, a: Attempt, now: int): Attempt {
    var failures := if a.failures < U8_MAX then a.failures + 1 else a.failures;
    Attempt(failures, if failures >= p.maxFailedAttempts then Some(now + p.lockoutDuration) else a.lockedUntil)
  }

  /** A login attempt; `valid` says whether user name and password match, `token` and `csrf` are the new digests. */
  function Login(p: Policy, st: State, client: string, valid: bool, token: Bytes, csrf: Bytes, now: int)
    : (State, Reply)
  {
    var sessions := Purged(p, st.sessions, now);
    if client in st.attempts && Locked(st.attempts[client], now) then
      (State(st.attempts, sessions), RateLimited)
    else if !valid then
      (State(st.attempts[client := Failed(p, Unlocked(st.attempts, client), now)], sessions), InvalidCredentials)
    else
      (State(st.attempts - {client}, sessions[token := Session(now, now, csrf)]), LoggedIn)
  }

  function Authenticate(p: Policy, st: State, token: Bytes, presented: Bytes, requireCsrf: bool, now: int)
    : (State, Reply)
  {
    if token !in st.sessions then (st, InvalidSession)
    else if !Alive(p, st.sessions[token], now) then (st.(sessions := st.sessions - {token}), InvalidSession)
    else if requireCsrf && presented != st.sessions[token].csrf then (st, InvalidCsrf)
    else (st.(sessions := st.sessions[token := st.sessions[token].(lastSeenAt := now)]), Authenticated)
  }

  /** The second half of issuing a CSRF token; the lock was released after the first half authenticated. */
  function StoreCsrf(st: State, token: Bytes, csrf: Bytes): (State, Reply) {
    if token !in st.sessions then (st, InvalidSession)
    else (st.(sessions := st.sessions[token := st.sessions[token].(csrf := csrf)]), CsrfIssued)
  }

  function Logout(st: State, token: Bytes): State {
    st.(sessions := st.sessions - {token})
  }

  class AdminSessionManager {
    const policy: Policy
    const digest: string -> Bytes
    var attempts: map<string, Attempt>
    var sessions: map<Bytes, Session>

    ghost function View(): State
      reads this
    {
      State(attempts, sessions)
    }

    constructor (policy: Policy, digest: string -> Bytes)
      ensures View() == State(map[], map[]) && this.policy == policy && this.digest == digest
    {
      this.policy, this.digest := policy, digest;
      attempts, sessions := map[], map[];
    }

    method LogIn(usernameMatches: bool, passwordMatches: bool, client: string, token: string, csrf: string, now: int)
      returns (reply: Reply)
      modifies this
      ensures (View(), reply)
           == Login(policy, old(View()), client, usernameMatches && passwordMatches, digest(token), digest(csrf), now)
    {
      sessions := map d | d in sessions && now < sessions[d].createdAt + policy.absoluteTimeout
                          && now <= sessions[d].lastSeenAt + policy.idleTimeout :: sessions[d];
      assert sessions == Purged(policy, old(sessions), now);
      var attempt := if client in attempts then attempts[client] else Attempt(0, None);
      if attempt.lockedUntil.Some? && now < attempt.lockedUntil.value {
        return RateLimited;
      }
      if attempt.lockedUntil.Some? {
        attempt := Attempt(0, None);
      }
      if !(usernameMatches && passwordMatches) {
        attempt := attempt.(failures := if attempt.failures < U8_MAX then attempt.failures + 1 else attempt.failures);
        if attempt.failures >= policy.maxFailedAttempts {
          attempt := attempt.(lockedUntil := Some(now + policy.lockoutDuration));
        }
        attempts := attempts[client := attempt];
        return InvalidCredentials;
      }
      attempts := attempts - {client};
      sessions := sessions[digest(token) := Session(now, now, digest(csrf))];
      reply := LoggedIn;
    }

    method AuthenticateSession(token: string, csrf: Option<string>, requireCsrf: bool, now: int) returns (reply: Reply)
      modifies this`sessions
      ensures (View(), reply)
           == Authenticate(policy, old(View()), digest(token), digest(if csrf.Some? then csrf.value else ""),
                           requireCsrf, now)
    {
      var tokenDigest := digest(token);
      if tokenDigest !in sessions {
        return InvalidSession;
      }
      var session := sessions[tokenDigest];
      var expired := now >= session.createdAt + policy.absoluteTimeout || now > session.lastSeenAt + policy.idleTimeout;
      if expired {
        sessions := sessions - {tokenDigest};
        return InvalidSession;
      }
      if requireCsrf {
        var presented := digest(if csrf.Some? then csrf.value else "");
        if presented != session.csrf {
          return InvalidCsrf;
        }
      }
      sessions := sessions[tokenDigest := session.(lastSeenAt := now)];
      reply := Authenticated;
    }

    /** The second critical section of `issue_csrf`, entered after `AuthenticateSession` succeeded. */
    method StoreCsrfToken(token: string, csrf: string) returns (reply: Reply)
      modifies this`sessions
      ensures (View(), reply) == StoreCsrf(old(View()), digest(token), digest(csrf))
    {
      var sessionDigest := digest(token);
      if sessionDigest !in sessions {
        return InvalidSession;
      }
      sessions := sessions[sessionDigest := sessions[sessionDigest].(csrf := digest(csrf))];
      reply := CsrfIssued;
    }

    /** Issuing a CSRF token when nobody else takes the lock in between: it fails only if it does not authenticate. */
    method IssueCsrfToken(token: string, csrf: string, now: int) returns (reply: Reply)
      modifies this`sessions
      ensures var (checked, answer) := Authenticate(policy, old(View()), digest(token), digest(""), false, now);
              (View(), reply) ==
              if answer.Authenticated? then StoreCsrf(checked, digest(token), digest(csrf)) else (checked, answer)
      ensures reply.CsrfIssued? || reply.InvalidSession?
    {
      reply := AuthenticateSession(token, None, false, now);
      if reply.Authenticated? {
        reply := StoreCsrfToken(token, csrf);
      }
    }

    method LogOut(token: string)
      modifies this`sessions
      ensures View() == Logout(old(View()), digest(token))
    {
      sessions := sessions - {digest(token)};
    }

    method ActiveSessionCount(now: int) returns (count: nat)
      modifies this`sessions
      ensures View() == old(View()).(sessions := Purged(policy, old(sessions), now)) && count == |sessions|
    {
      sessions := map d | d in sessions && now < sessions[d].createdAt + policy.absoluteTimeout
                          && now <= sessions[d].lastSeenAt + policy.idleTimeout :: sessions[d];
      count := |sessions|;
    }
  }
}
