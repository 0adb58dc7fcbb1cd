/**
  Client authorization: a presented token is compared, by keyed digest, with the current and the
  still valid previous credential of every active account. The digest is a parameter.
 */
module ClientAuth {
  import opened Wrappers
  import opened Bytes

  type Digest = string -> Bytes

  datatype Mode = Off | Observe | Enforce

  datatype Version = Version(digest: Bytes, expiresAt: Option<int>)

  datatype AccountCredential = AccountCredential(
    accountId: string,
    active: bool,
    current: Version,
    previous: seq<Version>
  )

  datatype Snapshot = Available(accounts: seq<AccountCredential>) | Unavailable

  datatype Decision = Decision(allowed: bool, observedFailure: bool, matchedAccountId: Option<string>)

  datatype AuthError = Unauthorized | CredentialStoreUnavailable

  predicate Live(v: Version, now: int) {
    v.expiresAt.None? || v.expiresAt.value > now
  }

  predicate VersionMatches(v: Version, digest: Bytes, now: int) {
    Live(v, now) && digest == v.digest
  }

  ghost predicate AnyMatches(vs: seq<Version>, digest: Bytes, now: int) {
    exists v :: v in vs && VersionMatches(v, digest, now)
  }

  lemma AnyMatchesSnoc(vs: seq<Version>, v: Version, digest: Bytes, now: int)
    ensures AnyMatches(vs + [v], digest, now) <==> AnyMatches(vs, digest, now) || VersionMatches(v, digest, now)
  {
  }

  /** The account is active and one of its unexpired credentials has this digest. */
  ghost predicate Matches(c: AccountCredential, digest: Bytes, now: int) {
    c.active && (VersionMatches(c.current, digest, now) || AnyMatches(c.previous, digest, now))
  }

  /** The last account that matches, which is the one the decision names. */
  ghost function LastMatch(accounts: seq<AccountCredential>, digest: Bytes, now: int): Option<string> {
    if accounts == [] then None
    else
      var last := accounts[|accounts| - 1];
      if Matches(last, digest, now) then Some(last.accountId)
      else LastMatch(accounts[..|accounts| - 1], digest, now)
  }

  /** The account at `i` matches and none after it does. */
  ghost predicate MatchesLast(accounts: seq<AccountCredential>, digest: Bytes, now: int, i: nat) {
    && i < |accounts| && Matches(accounts[i], digest, now)
    && forall k :: i < k < |accounts| ==> !Matches(accounts[k], digest, now)
  }

  lemma {:induction false} LastMatchExists(accounts: seq<AccountCredential>, digest: Bytes, now: int)
    ensures LastMatch(accounts, digest, now).Some? <==> exists c :: c in accounts && Matches(c, digest, now)
    ensures LastMatch(accounts, digest, now).Some? ==>
              exists i: nat :: MatchesLast(accounts, digest, now, i)
                            && accounts[i].accountId == LastMatch(accounts, digest, now).value
  {
    hide Matches;
    if accounts != [] {
      var front, last := accounts[..|accounts| - 1], accounts[|accounts| - 1];
      assert accounts == front + [last];
      LastMatchExists(front, digest, now);
      if Matches(last, digest, now) {
        assert MatchesLast(accounts, digest, now, |front|);
      } else if LastMatch(front, digest, now).Some? {
        var i: nat :| MatchesLast(front, digest, now, i) && front[i].accountId == LastMatch(front, digest, now).value;
        assert MatchesLast(accounts, digest, now, i);
      }
    }
  }

  /**
    Enforce mode admits exactly the holders of a matching credential and fails closed without a
    store; observe mode admits everyone and reports who would have been refused; off mode does
    not look.
   */
  method Authorize(digest: Digest, mode: Mode, presented: Option<string>, snapshot: Snapshot, now: int)
    returns (r: Result<Decision, AuthError>)
    ensures mode.Off? ==> r == Ok(Decision(true, false, None))
    ensures !mode.Off? && snapshot.Unavailable? ==>
              r == if mode.Observe? then Ok(Decision(true, true, None)) else Err(CredentialStoreUnavailable)
    ensures !mode.Off? && snapshot.Available? ==>
              var d := digest(if presented.Some? then presented.value else "");
              if exists c :: c in snapshot.accounts && Matches(c, d, now) then
                r == Ok(Decision(true, false, LastMatch(snapshot.accounts, d, now)))
              else if mode.Observe? then r == Ok(Decision(true, true, None))
              else r == Err(Unauthorized)
  {
    if mode.Off? {
      return Ok(Decision(true, false, None));
    }
    if snapshot.Unavailable? {
      return if mode.Observe? then Ok(Decision(true, true, None)) else Err(CredentialStoreUnavailable);
    }
    var accounts := snapshot.accounts;
    var presentedDigest := digest(if presented.Some? then presented.value else "");
    var matched: Option<string> := None;
    for i := 0 to |accounts|
      invariant matched == LastMatch(accounts[..i], presentedDigest, now)
    {
      var account := accounts[i];
      assert accounts[..i + 1][..i] == accounts[..i];
      ghost var before := matched;
      if account.active && Live(account.current, now) && presentedDigest == account.current.digest {
        matched := Some(account.accountId);
      }
      for j := 0 to |account.previous|
        invariant matched ==
                  if account.active && (|| VersionMatches(account.current, presentedDigest, now)
                                        || AnyMatches(account.previous[..j], presentedDigest, now))
                  then Some(account.accountId) else before
      {
        var previous := account.previous[j];
        assert account.previous[..j + 1] == account.previous[..j] + [previous];
        AnyMatchesSnoc(account.previous[..j], previous, presentedDigest, now);
        if account.active && Live(previous, now) && presentedDigest == previous.digest {
          matched := Some(account.accountId);
        }
      }
      assert account.previous[..|account.previous|] == account.previous;
    }
    assert accounts[..|accounts|] == accounts;
    LastMatchExists(accounts, presentedDigest, now);
    if matched.Some? {
      return Ok(Decision(true, false, matched));
    }
    r := if mode.Observe? then Ok(Decision(true, true, None)) else Err(Unauthorized);
  }
}
