/**
  The two credential tables: the accounts with their current credential, and at most one replaced
  credential per account that stays valid for a while.

  A ciphertext is the secret it hides together with the random nonce it was made with; nonces
  never repeat, so they are drawn from a counter. Text that a secret holds is classified by how
  the store reads it: as it stands, as a JSON envelope, or as JSON that is no envelope.
 */
module CredentialStore {
  import opened Wrappers
  import opened ClientAuth

  datatype Kind = ClaudeOauth | AnthropicApiKey | BedrockApiKey | BedrockSigV4 | AnthropicCompatible

  /** `settings` stands for the label, URL, model map, proxies and header options. */
  datatype ProviderAccount = ProviderAccount(id: string, kind: Kind, enabled: bool, settings: string)

  datatype Envelope = Envelope(
    accessToken: string,
    expiresAt: Option<int>,
    refreshToken: Option<string>,
    tokenEndpoint: Option<string>,
    clientId: Option<string>
  )

  datatype Secret =
    | Plain(text: string)
    | Json(text: string, envelope: Envelope)
    | Malformed(text: string)

  datatype Cipher = Cipher(nonce: nat, secret: Secret)

  datatype Row = Row(account: ProviderAccount, cipher: Cipher)

  datatype Replaced = Replaced(cipher: Cipher, expiresAt: int)

  datatype Tables = Tables(accounts: map<string, Row>, history: map<string, Replaced>, nextNonce: nat)

  // --- Transactions ----------------------------------------------------------------------------

  function Upserted(t: Tables, account: ProviderAccount, secret: Secret): Tables {
    Tables(t.accounts[account.id := Row(account, Cipher(t.nextNonce, secret))],
           t.history - {account.id},
           t.nextNonce + 1)
  }

  function Rotated(t: Tables, account: ProviderAccount, secret: Secret, until: int): Tables {
    Tables(t.accounts[account.id := Row(account, Cipher(t.nextNonce, secret))],
           if account.id in t.accounts
           then t.history[account.id := Replaced(t.accounts[account.id].cipher, until)] else t.history,
           t.nextNonce + 1)
  }

  function WithEnabled(t: Tables, id: string, enabled: bool): Tables {
    if id !in t.accounts then t
    else
      var row := t.accounts[id];
      t.(accounts := t.accounts[id := row.(account := row.account.(enabled := enabled))])
  }

  /** Deleting an account takes its replaced credential along. */
  function Deleted(t: Tables, id: string): Tables {
    t.(accounts := t.accounts - {id}, history := if id in t.accounts then t.history - {id} else t.history)
  }

  predicate IsCurrent(t: Tables, id: string, cipher: Cipher) {
    id in t.accounts && t.accounts[id].cipher == cipher
  }

  /** The compare-and-swap: it writes only over the ciphertext that was read. */
  function Swapped(t: Tables, id: string, expected: Cipher, secret: Secret, until: int): Tables {
    if IsCurrent(t, id, expected) then
      Tables(t.accounts[id := t.accounts[id].(cipher := Cipher(t.nextNonce, secret))],
             t.history[id := Replaced(expected, until)],
             t.nextNonce + 1)
    else t.(nextNonce := t.nextNonce + 1)
  }

  // --- Reading credentials -----------------------------------------------------------------------

  /** The token a stored secret stands for under a provider kind, and when it expires. */
  function DecodedCredential(kind: Kind, secret: Secret): Option<(string, Option<int>)> {
    if !kind.ClaudeOauth? || secret.Plain? then Some((secret.text, None))
    else if secret.Malformed? || secret.envelope.accessToken == "" then None
    else Some((secret.envelope.accessToken, secret.envelope.expiresAt))
  }

  /** The credentials of one account as the authenticator sees them; none when a secret cannot be read. */
  function CredentialOf(t: Tables, id: string, digest: Digest, now: int): Option<AccountCredential>
    requires id in t.accounts
  {
    var row := t.accounts[id];
    var current := DecodedCredential(row.account.kind, row.cipher.secret);
    if current.None? then None
    else
      var version := Version(digest(current.value.0), current.value.1);
      if id in t.history && t.history[id].expiresAt > now then
        var previous := DecodedCredential(row.account.kind, t.history[id].cipher.secret);
        if previous.None? then None
        else Some(AccountCredential(row.account.id, row.account.enabled, version,
                                    [Version(digest(previous.value.0), Some(t.history[id].expiresAt))]))
      else Some(AccountCredential(row.account.id, row.account.enabled, version, []))
  }

  /** Every secret the snapshot looks at can be read. */
  ghost predicate Readable(t: Tables, digest: Digest, now: int) {
    forall id :: id in t.accounts ==> CredentialOf(t, id, digest, now).Some?
  }

  class SqliteStore {
    var accounts: map<string, Row>
    var history: map<string, Replaced>
    var nextNonce: nat

    ghost function View(): Tables
      reads this
    {
      Tables(accounts, history, nextNonce)
    }

    constructor ()
      ensures View() == Tables(map[], map[], 0)
    {
      accounts, history, nextNonce := map[], map[], 0;
    }

    method Encrypt(secret: Secret) returns (cipher: Cipher)
      modifies this`nextNonce
      ensures cipher == Cipher(old(nextNonce), secret) && nextNonce == old(nextNonce) + 1
    {
      cipher := Cipher(nextNonce, secret);
      nextNonce := nextNonce + 1;
    }

    method UpsertAccount(account: ProviderAccount, secret: Secret)
      modifies this
      ensures View() == Upserted(old(View()), account, secret)
    {
      var encrypted := Encrypt(secret);
      accounts := accounts[account.id := Row(account, encrypted)];
      history := history - {account.id};
    }

    method RotateAccountCredential(account: ProviderAccount, secret: Secret, previousValidUntil: int)
      modifies this
      ensures View() == Rotated(old(View()), account, secret, previousValidUntil)
    {
      var encrypted := Encrypt(secret);
      if account.id in accounts {
        history := history[account.id := Replaced(accounts[account.id].cipher, previousValidUntil)];
      }
      accounts := accounts[account.id := Row(account, encrypted)];
    }

    /** `available` says whether the transaction goes through; a failed one leaves the tables alone. */
    method ReplaceOauthIfCurrent(id: string, expected: Cipher, secret: Secret, previousValidUntil: int, available: bool)
      returns (changed: Result<bool, ()>)
      modifies this
      ensures changed == if available then Ok(IsCurrent(old(View()), id, expected)) else Err(())
      ensures View() == if available then Swapped(old(View()), id, expected, secret, previousValidUntil)
                        else old(View())
    {
      if !available {
        return Err(());
      }
      var encrypted := Encrypt(secret);
      if id !in accounts || accounts[id].cipher != expected {
        return Ok(false);
      }
      accounts := accounts[id := accounts[id].(cipher := encrypted)];
      history := history[id := Replaced(expected, previousValidUntil)];
      changed := Ok(true);
    }

    method SetAccountEnabled(id: string, enabled: bool) returns (found: bool)
      modifies this
      ensures found == (id in old(accounts)) && View() == WithEnabled(old(View()), id, enabled)
    {
      found := id in accounts;
      if found {
        var account := accounts[id].account.(enabled := enabled);
        accounts := accounts[id := accounts[id].(account := account)];
      }
    }

    method DeleteAccount(id: string) returns (found: bool)
      modifies this
      ensures found == (id in old(accounts)) && View() == Deleted(old(View()), id)
    {
      found := id in accounts;
      if found {
        accounts := accounts - {id};
        history := history - {id};
      } else {
        assert accounts - {id} == accounts;
      }
    }

    /** One credential per account, in the order in which the rows are listed. */
    method CredentialSnapshot(ids: seq<string>, digest: Digest, now: int) returns (r: Option<seq<AccountCredential>>)
      requires forall id :: id in ids <==> id in accounts
      ensures r.Some? <==> Readable(View(), digest, now)
      ensures r.Some? ==> |r.value| == |ids|
                          && forall i :: 0 <= i < |ids| ==>
                               CredentialOf(View(), ids[i], digest, now) == Some(r.value[i])
    {
      var credentials: seq<AccountCredential> := [];
      for i := 0 to |ids|
        invariant |credentials| == i
        invariant forall k :: 0 <= k < i ==> CredentialOf(View(), ids[k], digest, now) == Some(credentials[k])
      {
        var id := ids[i];
        assert id in ids;
        var row := accounts[id];
        var current := DecodedCredential(row.account.kind, row.cipher.secret);
        if current.None? {
          assert CredentialOf(View(), id, digest, now).None?;
          return None;
        }
        var version := Version(digest(current.value.0), current.value.1);
        var credential := AccountCredential(row.account.id, true, version, []);
        if id in history && history[id].expiresAt > now {
          var previous := DecodedCredential(row.account.kind, history[id].cipher.secret);
          if previous.None? {
            assert CredentialOf(View(), id, digest, now).None?;
            return None;
          }
          credential := credential.(previous := [Version(digest(previous.value.0), Some(history[id].expiresAt))]);
        }
        credentials := credentials + [if row.account.enabled then credential else credential.(active := false)];
      }
      forall id | id in accounts ensures CredentialOf(View(), id, digest, now).Some? {
        var i :| 0 <= i < |ids| && ids[i] == id;
      }
      r := Some(credentials);
    }
  }

  // --- Which tokens are accepted --------------------------------------------------------------------

  /** The account's current credential is this token, and it has not expired. */
  ghost predicate AcceptsCurrent(row: Row, token: string, now: int) {
    var decoded := DecodedCredential(row.account.kind, row.cipher.secret);
    decoded.Some? && decoded.value.0 == token && (decoded.value.1.None? || decoded.value.1.value > now)
  }

  /** The credential the account replaced is this token, and its deadline has not passed. */
  ghost predicate AcceptsReplaced(row: Row, replaced: Replaced, token: string, now: int) {
    var decoded := DecodedCredential(row.account.kind, replaced.cipher.secret);
    replaced.expiresAt > now && decoded.Some? && decoded.value.0 == token
  }

  ghost predicate AcceptedFor(t: Tables, id: string, token: string, now: int) {
    && id in t.accounts
    && t.accounts[id].account.enabled
    && (|| AcceptsCurrent(t.accounts[id], token, now)
        || (id in t.history && AcceptsReplaced(t.accounts[id], t.history[id], token, now)))
  }

  // The same on the stored secrets themselves.

  /** The secret stands for this token: an OAuth envelope for its access token, anything else for its text. */
  ghost predicate StandsFor(kind: Kind, secret: Secret, token: string) {
    match secret
    case Plain(text) => text == token
    case Json(text, e) => if kind == ClaudeOauth then e.accessToken == token && token != "" else text == token
    case Malformed(text) => kind != ClaudeOauth && text == token
  }

  /** Only an OAuth envelope has an expiry of its own. */
  ghost predicate Unexpired(kind: Kind, secret: Secret, now: int) {
    kind == ClaudeOauth && secret.Json? && secret.envelope.expiresAt.Some? ==> secret.envelope.expiresAt.value > now
  }

  /** An OAuth account's JSON that is no envelope, or an envelope without an access token. */
  ghost predicate Broken(kind: Kind, secret: Secret) {
    kind == ClaudeOauth && (secret.Malformed? || (secret.Json? && secret.envelope.accessToken == ""))
  }

  /**
    A token is accepted for an account exactly when the account is enabled and the token is what
    its stored secret stands for, unexpired, or what its replaced secret stands for, before that
    one's deadline.
   */
  lemma AcceptedOnSecrets(t: Tables, id: string, token: string, now: int)
    requires id in t.accounts
    ensures var Row(account, cipher) := t.accounts[id];
            AcceptedFor(t, id, token, now)
            <==> && account.enabled
                 && (|| (StandsFor(account.kind, cipher.secret, token) && Unexpired(account.kind, cipher.secret, now))
                     || (&& id in t.history && t.history[id].expiresAt > now
                         && StandsFor(account.kind, t.history[id].cipher.secret, token)))
  {
  }

  lemma BrokenCannotBeRead(t: Tables, id: string, digest: Digest, now: int)
    requires id in t.accounts
    ensures var Row(account, cipher) := t.accounts[id];
            CredentialOf(t, id, digest, now).None?
            <==> || Broken(account.kind, cipher.secret)
                 || (&& id in t.history && t.history[id].expiresAt > now
                     && Broken(account.kind, t.history[id].cipher.secret))
  {
  }

  /** The store can be read exactly when no current and no live replaced secret is broken. */
  lemma ReadableOnSecrets(t: Tables, digest: Digest, now: int)
    ensures Readable(t, digest, now)
       <==> forall id :: id in t.accounts ==>
              && !Broken(t.accounts[id].account.kind, t.accounts[id].cipher.secret)
              && (id in t.history && t.history[id].expiresAt > now ==>
                    !Broken(t.accounts[id].account.kind, t.history[id].cipher.secret))
  {
    hide CredentialOf, Broken;
    forall id | id in t.accounts { BrokenCannotBeRead(t, id, digest, now); }
  }

  ghost predicate Accepted(t: Tables, token: string, now: int) {
    exists id :: AcceptedFor(t, id, token, now)
  }

  ghost predicate Injective(digest: Digest) {
    forall x, y :: digest(x) == digest(y) ==> x == y
  }

  lemma CredentialMatches(t: Tables, id: string, digest: Digest, token: string, now: int)
    requires Injective(digest) && id in t.accounts && CredentialOf(t, id, digest, now).Some?
    ensures Matches(CredentialOf(t, id, digest, now).value, digest(token), now) <==> AcceptedFor(t, id, token, now)
    ensures CredentialOf(t, id, digest, now).value.accountId == t.accounts[id].account.id
  {
    var c := CredentialOf(t, id, digest, now).value;
    assert c.previous != [] ==> c.previous[0] in c.previous;
  }

  /**
    Enforce mode over the store. With a readable store, a request is let in exactly when its token
    is some enabled account's unexpired current token or its replaced token before the deadline; a
    request without a token counts as one with the empty token. With an unreadable store nobody
    is let in, and the error says so.
   */
  method EnforceOverStore(store: SqliteStore, ids: seq<string>, digest: Digest, presented: Option<string>, now: int)
    returns (r: Result<Decision, AuthError>)
    requires Injective(digest) && forall id :: id in ids <==> id in store.accounts
    ensures var token := if presented.Some? then presented.value else "";
            r.Ok? <==> Readable(store.View(), digest, now) && Accepted(store.View(), token, now)
    ensures r == Err(CredentialStoreUnavailable) <==> !Readable(store.View(), digest, now)
    ensures var (t, token) := (store.View(), if presented.Some? then presented.value else "");
            r.Ok? ==> exists id :: AcceptedFor(t, id, token, now)
                                && r.value == Decision(true, false, Some(t.accounts[id].account.id))
  {
    hide CredentialOf, Matches, AcceptsCurrent, AcceptsReplaced, LastMatch;
    ghost var t := store.View();
    var snapshot := store.CredentialSnapshot(ids, digest, now);
    if snapshot.None? {
      return Err(CredentialStoreUnavailable);
    }
    var credentials := snapshot.value;
    ghost var token := if presented.Some? then presented.value else "";
    r := Authorize(digest, Enforce, presented, Available(credentials), now);
    LastMatchExists(credentials, digest(token), now);
    if r.Ok? {
      ghost var i: nat :| MatchesLast(credentials, digest(token), now, i)
                    && credentials[i].accountId == LastMatch(credentials, digest(token), now).value;
      assert ids[i] in ids;
      CredentialMatches(t, ids[i], digest, token, now);
      assert AcceptedFor(t, ids[i], token, now);
    }
    if id :| AcceptedFor(t, id, token, now) {
      var i :| 0 <= i < |ids| && ids[i] == id;
      CredentialMatches(t, id, digest, token, now);
      assert credentials[i] in credentials;
    }
  }
}
