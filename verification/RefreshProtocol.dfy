/**
  Background OAuth refresh against a store that administrators change at any time. A pass reads
  its candidates, goes to the network for each one, and writes the answer back with a
  compare-and-swap; between those points any other operation may run.
 */
module RefreshProtocol {
  import opened Wrappers
  import opened Clock
  import opened ClientAuth
  import opened CredentialStore

  // --- One pass ----------------------------------------------------------------------------------

  datatype Candidate = Candidate(account: ProviderAccount, expected: Cipher, envelope: Envelope, due: bool)

  predicate IsDue(e: Envelope, now: int) {
    && e.expiresAt.Some? && e.expiresAt.value <= now + 5 * MINUTE
    && e.refreshToken.Some? && e.tokenEndpoint.Some? && e.clientId.Some?
  }

  datatype Reading = NotRefreshable | Unreadable | Found(candidate: Candidate)

  function ReadRow(row: Row, now: int): Reading {
    if !row.account.kind.ClaudeOauth? || !row.account.enabled || row.cipher.secret.Plain? then NotRefreshable
    else if row.cipher.secret.Malformed? then Unreadable
    else
      var envelope := row.cipher.secret.envelope;
      Found(Candidate(row.account, row.cipher, envelope, IsDue(envelope, now)))
  }

  /** The candidates of a pass, in the order in which the rows are listed; none when a row cannot be read. */
  function Candidates(t: Tables, ids: seq<string>, now: int): (r: Option<seq<Candidate>>)
    requires forall id :: id in ids ==> id in t.accounts
    ensures r.Some? ==> forall c :: c in r.value ==>
                          exists id :: id in ids && ReadRow(t.accounts[id], now) == Found(c)
  {
    if ids == [] then Some([])
    else
      var front := Candidates(t, ids[..|ids| - 1], now);
      var reading := ReadRow(t.accounts[ids[|ids| - 1]], now);
      if front.None? || reading.Unreadable? then None
      else if reading.Found? then Some(front.value + [reading.candidate])
      else front
  }

  method RefreshCandidates(store: SqliteStore, ids: seq<string>, now: int) returns (r: Option<seq<Candidate>>)
    requires forall id :: id in ids ==> id in store.accounts
    ensures r == Candidates(store.View(), ids, now)
  {
    var candidates: seq<Candidate> := [];
    for i := 0 to |ids|
      invariant Candidates(store.View(), ids[..i], now) == Some(candidates)
    {
      assert ids[i] in ids && ids[..i + 1][..i] == ids[..i];
      var row := store.accounts[ids[i]];
      if row.account.kind.ClaudeOauth? && row.account.enabled && !row.cipher.secret.Plain? {
        if row.cipher.secret.Malformed? {
          NoneStays(store.View(), ids, i + 1, now);
          return None;
        }
        var envelope := row.cipher.secret.envelope;
        candidates := candidates + [Candidate(row.account, row.cipher, envelope, IsDue(envelope, now))];
      }
    }
    assert ids[..|ids|] == ids;
    r := Some(candidates);
  }

  lemma {:induction false} NoneStays(t: Tables, ids: seq<string>, i: nat, now: int)
    requires i <= |ids| && (forall id :: id in ids ==> id in t.accounts) && Candidates(t, ids[..i], now).None?
    ensures Candidates(t, ids, now).None?
    decreases |ids|
  {
    if i < |ids| {
      assert ids[..|ids| - 1][..i] == ids[..i];
      NoneStays(t, ids[..|ids| - 1], i, now);
    } else {
      assert ids[..i] == ids;
    }
  }

  /** The token endpoint's answer; `text` is the new envelope as it is stored. */
  datatype Reply = NoTokens | Tokens(accessToken: string, expiresAt: int, refreshToken: Option<string>, text: string)

  /** The refreshed envelope keeps what the answer does not replace. */
  function Refreshed(e: Envelope, reply: Reply): Envelope
    requires reply.Tokens?
  {
    e.(accessToken := reply.accessToken,
       expiresAt := Some(reply.expiresAt),
       refreshToken := if reply.refreshToken.Some? then reply.refreshToken else e.refreshToken)
  }

  /** How long the replaced token stays valid: ten minutes, and no longer than by itself. */
  function Deadline(e: Envelope, now: int): int {
    var cap := now + 10 * MINUTE;
    if e.expiresAt.Some? && e.expiresAt.value < cap then e.expiresAt.value else cap
  }

  datatype Pass = Pass(now: int, pending: seq<Candidate>, refreshed: nat, skipped: nat, failed: nat)

  predicate Answered(c: Candidate, reply: Reply) {
    c.due && reply.Tokens? && reply.accessToken != ""
  }

  /** One turn of the refresh loop: what becomes of the store. `stored` says whether the transaction goes through. */
  function StoreTurn(t: Tables, p: Pass, reply: Reply, stored: bool): Tables
    requires p.pending != []
  {
    var c := p.pending[0];
    if Answered(c, reply) && stored then
      Swapped(t, c.account.id, c.expected, Json(reply.text, Refreshed(c.envelope, reply)), Deadline(c.envelope, p.now))
    else t
  }

  /** One turn of the refresh loop: what becomes of the pass. */
  function PassTurn(t: Tables, p: Pass, reply: Reply, stored: bool): Pass
    requires p.pending != []
  {
    var c, next := p.pending[0], p.(pending := p.pending[1..]);
    if !c.due then next.(skipped := p.skipped + 1)
    else if !Answered(c, reply) || !stored then next.(failed := p.failed + 1)
    else if IsCurrent(t, c.account.id, c.expected) then next.(refreshed := p.refreshed + 1)
    else next.(skipped := p.skipped + 1)
  }

  /** A refresh pass in progress: the loop over its candidates, one turn at a time. */
  class RefreshPass {
    const now: int
    var pending: seq<Candidate>
    var refreshed: nat
    var skipped: nat
    var failed: nat

    ghost function View(): Pass
      reads this
    {
      Pass(now, pending, refreshed, skipped, failed)
    }

    constructor (now: int, candidates: Option<seq<Candidate>>)
      ensures View() == if candidates.Some? then Pass(now, candidates.value, 0, 0, 0) else Pass(now, [], 0, 0, 1)
    {
      this.now := now;
      pending := if candidates.Some? then candidates.value else [];
      refreshed, skipped, failed := 0, 0, if candidates.Some? then 0 else 1;
    }

    method Turn(store: SqliteStore, reply: Reply, available: bool)
      requires pending != []
      modifies this, store
      ensures store.View() == StoreTurn(old(store.View()), old(View()), reply, available)
      ensures View() == PassTurn(old(store.View()), old(View()), reply, available)
    {
      var candidate := pending[0];
      pending := pending[1..];
      if !candidate.due {
        skipped := skipped + 1;
        return;
      }
      if reply.NoTokens? || reply.accessToken == "" {
        failed := failed + 1;
        return;
      }
      var cap := now + 10 * MINUTE;
      var expiry := if candidate.envelope.expiresAt.Some? then candidate.envelope.expiresAt.value else cap;
      var until := if expiry < cap then expiry else cap;
      var secret := Json(reply.text, Refreshed(candidate.envelope, reply));
      var changed := store.ReplaceOauthIfCurrent(candidate.account.id, candidate.expected, secret, until, available);
      match changed {
        case Ok(true) => refreshed := refreshed + 1;
        case Ok(false) => skipped := skipped + 1;
        case Err(_) => failed := failed + 1;
      }
    }
  }

  // --- Interleavings ---------------------------------------------------------------------------------

  /** The tables, the refresh passes in progress, and the accounts that rotation handlers have loaded. */
  datatype World = World(t: Tables, passes: map<nat, Pass>, loaded: map<nat, ProviderAccount>)

  datatype Event =
    | Upsert(account: ProviderAccount, secret: Secret)
    | Rotate(account: ProviderAccount, secret: Secret, until: int)
    | SetEnabled(id: string, enabled: bool)
    | Delete(id: string)
    | Begin(pass: nat, now: int, ids: seq<string>)
    | Proceed(pass: nat, reply: Reply, stored: bool)
    | Load(handler: nat, id: string)                     // the rotation handler reads the account
    | Finish(handler: nat, secret: Secret, until: int)   // and later writes it back with a new credential

  predicate Begins(w: World, e: Event) {
    e.Begin? && e.pass !in w.passes && forall id :: id in e.ids ==> id in w.t.accounts
  }

  predicate Proceeds(w: World, e: Event) {
    e.Proceed? && e.pass in w.passes && w.passes[e.pass].pending != []
  }

  /** Loading fails for an unknown account and for one whose credential cannot be read. */
  predicate Loads(w: World, e: Event) {
    && e.Load? && e.handler !in w.loaded && e.id in w.t.accounts
    && DecodedCredential(w.t.accounts[e.id].account.kind, w.t.accounts[e.id].cipher.secret).Some?
  }

  predicate Finishes(w: World, e: Event) {
    e.Finish? && e.handler in w.loaded
  }

  /** The handler rotates OAuth accounts and upserts the others. */
  function Finished(t: Tables, account: ProviderAccount, secret: Secret, until: int): Tables {
    if account.kind.ClaudeOauth? then Rotated(t, account, secret, until) else Upserted(t, account, secret)
  }

  /** The event upserts the account: an administrator's upsert, or a handler's for a non-OAuth account. */
  predicate Upserts(w: World, e: Event, account: ProviderAccount, secret: Secret) {
    || e == Upsert(account, secret)
    || (Finishes(w, e) && w.loaded[e.handler] == account && !account.kind.ClaudeOauth? && e.secret == secret)
  }

  /** The event rotates the account's credential, directly or as the second half of a handler. */
  predicate Rotates(w: World, e: Event, account: ProviderAccount, secret: Secret, until: int) {
    || e == Rotate(account, secret, until)
    || (Finishes(w, e) && w.loaded[e.handler] == account && account.kind.ClaudeOauth?
        && e.secret == secret && e.until == until)
  }

  function NextTables(w: World, e: Event): Tables {
    match e
    case Upsert(account, secret) => Upserted(w.t, account, secret)
    case Rotate(account, secret, until) => Rotated(w.t, account, secret, until)
    case SetEnabled(id, enabled) => WithEnabled(w.t, id, enabled)
    case Delete(id) => Deleted(w.t, id)
    case Begin(_, _, _) => w.t
    case Proceed(pass, reply, stored) => if Proceeds(w, e) then StoreTurn(w.t, w.passes[pass], reply, stored) else w.t
    case Load(_, _) => w.t
    case Finish(handler, secret, until) =>
      if Finishes(w, e) then Finished(w.t, w.loaded[handler], secret, until) else w.t
  }

  function NextPasses(w: World, e: Event): map<nat, Pass> {
    if Begins(w, e) then
      var candidates := Candidates(w.t, e.ids, e.now);
      w.passes[e.pass := if candidates.Some? then Pass(e.now, candidates.value, 0, 0, 0) else Pass(e.now, [], 0, 0, 1)]
    else if Proceeds(w, e) then w.passes[e.pass := PassTurn(w.t, w.passes[e.pass], e.reply, e.stored)]
    else w.passes
  }

  function NextLoaded(w: World, e: Event): map<nat, ProviderAccount> {
    if Loads(w, e) then w.loaded[e.handler := w.t.accounts[e.id].account]
    else if Finishes(w, e) then w.loaded - {e.handler}
    else w.loaded
  }

  function Step(w: World, e: Event): World {
    World(NextTables(w, e), NextPasses(w, e), NextLoaded(w, e))
  }

  ghost predicate IsRun(tr: seq<World>, es: seq<Event>) {
    && |tr| == |es| + 1 && tr[0] == World(Tables(map[], map[], 0), map[], map[])
    && forall i :: 0 <= i < |es| ==> tr[i + 1] == Step(tr[i], es[i])
  }

  // --- Nothing that was replaced comes back --------------------------------------------------------------

  /** Rows are filed under their ids, only rows have history, and every ciphertext is older than the next nonce. */
  ghost predicate TablesOk(t: Tables) {
    && (forall id :: id in t.accounts ==> t.accounts[id].account.id == id && t.accounts[id].cipher.nonce < t.nextNonce)
    && (forall id :: id in t.history ==> id in t.accounts && t.history[id].cipher.nonce < t.accounts[id].cipher.nonce)
  }

  /** The tables are in order and the nonce counter has not gone back. */
  ghost predicate GoesOn(t: Tables, u: Tables) {
    TablesOk(u) && t.nextNonce <= u.nextNonce
  }

  lemma AccountWriteGoesOn(t: Tables, account: ProviderAccount, secret: Secret, until: int)
    requires TablesOk(t)
    ensures GoesOn(t, Upserted(t, account, secret)) && GoesOn(t, Rotated(t, account, secret, until))
  {
  }

  lemma SwapGoesOn(t: Tables, id: string, expected: Cipher, secret: Secret, until: int)
    requires TablesOk(t)
    ensures GoesOn(t, Swapped(t, id, expected, secret, until))
  {
  }

  lemma SmallWriteGoesOn(t: Tables, id: string, enabled: bool)
    requires TablesOk(t)
    ensures GoesOn(t, WithEnabled(t, id, enabled)) && GoesOn(t, Deleted(t, id))
  {
  }

  lemma StepKeepsTablesOk(w: World, e: Event)
    requires TablesOk(w.t)
    ensures GoesOn(w.t, Step(w, e).t)
  {
    hide TablesOk, Upserted, Rotated, Swapped, WithEnabled, Deleted;
    match e {
      case Upsert(account, secret) => AccountWriteGoesOn(w.t, account, secret, 0);
      case Rotate(account, secret, until) => AccountWriteGoesOn(w.t, account, secret, until);
      case SetEnabled(id, enabled) => SmallWriteGoesOn(w.t, id, enabled);
      case Delete(id) => SmallWriteGoesOn(w.t, id, false);
      case Begin(_, _, _) =>
      case Load(_, _) =>
      case Finish(handler, secret, until) =>
        if Finishes(w, e) {
          AccountWriteGoesOn(w.t, w.loaded[handler], secret, until);
        }
      case Proceed(pass, reply, stored) =>
        if Proceeds(w, e) && Answered(w.passes[pass].pending[0], reply) {
          var c := w.passes[pass].pending[0];
          SwapGoesOn(w.t, c.account.id, c.expected, Json(reply.text, Refreshed(c.envelope, reply)),
                     Deadline(c.envelope, w.passes[pass].now));
        }
    }
  }

  lemma CandidatesCurrent(t: Tables, ids: seq<string>, now: int)
    requires TablesOk(t) && (forall id :: id in ids ==> id in t.accounts) && Candidates(t, ids, now).Some?
    ensures forall c :: c in Candidates(t, ids, now).value ==>
              && IsCurrent(t, c.account.id, c.expected) && t.accounts[c.account.id].account == c.account
              && c.account.kind.ClaudeOauth? && c.expected.secret.Json? && c.expected.secret.envelope == c.envelope
              && (c.due <==> ExpiresSoon(c.envelope, now))
  {
    forall c | c in Candidates(t, ids, now).value
      ensures && IsCurrent(t, c.account.id, c.expected) && t.accounts[c.account.id].account == c.account
              && c.account.kind.ClaudeOauth? && c.expected.secret.Json? && c.expected.secret.envelope == c.envelope
              && (c.due <==> ExpiresSoon(c.envelope, now))
    {
      var id :| id in ids && ReadRow(t.accounts[id], now) == Found(c);
    }
  }

  lemma {:induction false} TablesAlwaysOk(tr: seq<World>, es: seq<Event>, i: nat)
    requires IsRun(tr, es) && i < |tr|
    ensures TablesOk(tr[i].t)
  {
    hide Step;
    if i > 0 {
      TablesAlwaysOk(tr, es, i - 1);
      assert tr[i - 1 + 1] == Step(tr[i - 1], es[i - 1]);
      StepKeepsTablesOk(tr[i - 1], es[i - 1]);
    }
  }

  /** One step does not bring back a ciphertext that is older than the next nonce and not current. */
  lemma StepKeepsGone(w: World, e: Event, id: string, c: Cipher)
    requires c.nonce < w.t.nextNonce && !IsCurrent(w.t, id, c)
    ensures c.nonce < Step(w, e).t.nextNonce && !IsCurrent(Step(w, e).t, id, c)
  {
  }

  /** No ABA: a ciphertext that stopped being current never becomes current again. */
  lemma {:induction false} GoneStaysGone(tr: seq<World>, es: seq<Event>, i: nat, j: nat, id: string, c: Cipher)
    requires IsRun(tr, es) && i <= j < |tr|
    requires c.nonce < tr[i].t.nextNonce && !IsCurrent(tr[i].t, id, c)
    ensures c.nonce < tr[j].t.nextNonce && !IsCurrent(tr[j].t, id, c)
    decreases j
  {
    hide Step, IsCurrent;
    if i < j {
      GoneStaysGone(tr, es, i, j - 1, id, c);
      assert tr[j - 1 + 1] == Step(tr[j - 1], es[j - 1]);
      StepKeepsGone(tr[j - 1], es[j - 1], id, c);
    }
  }

  lemma {:induction false} NonceGrows(tr: seq<World>, es: seq<Event>, i: nat, j: nat)
    requires IsRun(tr, es) && i <= j < |tr|
    ensures tr[i].t.nextNonce <= tr[j].t.nextNonce
    decreases j
  {
    hide Step;
    if i < j {
      NonceGrows(tr, es, i, j - 1);
      TablesAlwaysOk(tr, es, j - 1);
      assert tr[j - 1 + 1] == Step(tr[j - 1], es[j - 1]);
      StepKeepsTablesOk(tr[j - 1], es[j - 1]);
    }
  }

  /** A ciphertext current at both ends of a stretch was current all the way through. */
  lemma CurrentThroughout(tr: seq<World>, es: seq<Event>, i: nat, j: nat, id: string, c: Cipher)
    requires IsRun(tr, es) && i <= j < |tr|
    requires IsCurrent(tr[i].t, id, c) && IsCurrent(tr[j].t, id, c)
    ensures forall k :: i <= k <= j ==> IsCurrent(tr[k].t, id, c)
  {
    forall k | i <= k <= j ensures IsCurrent(tr[k].t, id, c) {
      if !IsCurrent(tr[k].t, id, c) {
        TablesAlwaysOk(tr, es, i);
        NonceGrows(tr, es, i, k);
        GoneStaysGone(tr, es, k, j, id, c);
      }
    }
  }

  /** What a ciphertext fixes as long as it stays: its account but for the enabled flag, and its history row. */
  ghost predicate SameUnder(t: Tables, u: Tables, id: string)
    requires id in t.accounts && id in u.accounts
  {
    && u.accounts[id].account == t.accounts[id].account.(enabled := u.accounts[id].account.enabled)
    && (id in u.history <==> id in t.history)
    && (id in t.history ==> u.history[id] == t.history[id])
  }

  /** While a ciphertext stays, only the enabled flag of its account can change, and its history row stays too. */
  lemma {:induction false} AccountStays(tr: seq<World>, es: seq<Event>, i: nat, j: nat, id: string, c: Cipher)
    requires IsRun(tr, es) && i <= j < |tr|
    requires IsCurrent(tr[i].t, id, c) && IsCurrent(tr[j].t, id, c)
    requires forall k :: i <= k <= j ==> IsCurrent(tr[k].t, id, c)
    ensures SameUnder(tr[i].t, tr[j].t, id)
    decreases j
  {
    hide Step;
    if i < j {
      AccountStays(tr, es, i, j - 1, id, c);
      TablesAlwaysOk(tr, es, j - 1);
      assert tr[j - 1 + 1] == Step(tr[j - 1], es[j - 1]);
      StepKeepsAccount(tr[j - 1], es[j - 1], id, c);
    }
  }

  lemma StepKeepsAccount(w: World, e: Event, id: string, c: Cipher)
    requires TablesOk(w.t) && IsCurrent(w.t, id, c) && IsCurrent(Step(w, e).t, id, c)
    ensures SameUnder(w.t, Step(w, e).t, id)
  {
  }

  /** So a ciphertext that is current at both ends of a stretch fixes all that for the whole stretch. */
  lemma CurrentFixes(tr: seq<World>, es: seq<Event>, i: nat, j: nat, id: string, c: Cipher)
    requires IsRun(tr, es) && i <= j < |tr| && IsCurrent(tr[i].t, id, c) && IsCurrent(tr[j].t, id, c)
    ensures SameUnder(tr[i].t, tr[j].t, id)
  {
    CurrentThroughout(tr, es, i, j, id, c);
    AccountStays(tr, es, i, j, id, c);
  }

  // --- What a refresh may overwrite -----------------------------------------------------------------------

  /** What a pass still has to do is part of what it read when it began. */
  lemma {:induction false} PendingWasRead(tr: seq<World>, es: seq<Event>, i: nat, j: nat, c: Candidate)
    requires IsRun(tr, es) && i < j < |tr| && Begins(tr[i], es[i])
    requires es[i].pass in tr[j].passes && c in tr[j].passes[es[i].pass].pending
    ensures IsCurrent(tr[i].t, c.account.id, c.expected) && tr[i].t.accounts[c.account.id].account == c.account
    ensures c.account.kind.ClaudeOauth? && c.expected.secret.Json? && c.expected.secret.envelope == c.envelope
    ensures c.due <==> ExpiresSoon(c.envelope, es[i].now)
    ensures tr[j].passes[es[i].pass].now == es[i].now
    decreases j
  {
    assert tr[j - 1 + 1] == Step(tr[j - 1], es[j - 1]);
    if i + 1 < j {
      PassPresent(tr, es, i, j - 1);
      PassOnlyShrinks(tr[j - 1], es[j - 1], es[i].pass);
      PendingWasRead(tr, es, i, j - 1, c);
    } else {
      TablesAlwaysOk(tr, es, i);
      CandidatesCurrent(tr[i].t, es[i].ids, es[i].now);
    }
  }

  lemma PassOnlyShrinks(w: World, e: Event, p: nat)
    requires p in w.passes
    ensures p in Step(w, e).passes && Step(w, e).passes[p].now == w.passes[p].now
    ensures forall c :: c in Step(w, e).passes[p].pending ==> c in w.passes[p].pending
  {
  }

  lemma {:induction false} PassPresent(tr: seq<World>, es: seq<Event>, i: nat, j: nat)
    requires IsRun(tr, es) && i < j < |tr| && Begins(tr[i], es[i])
    ensures es[i].pass in tr[j].passes
    decreases j
  {
    assert tr[j - 1 + 1] == Step(tr[j - 1], es[j - 1]);
    if i + 1 < j {
      PassPresent(tr, es, i, j - 1);
      PassOnlyShrinks(tr[j - 1], es[j - 1], es[i].pass);
    }
  }

  /** The turn at `j`, of the pass begun at `i`, writes a refreshed credential. */
  ghost predicate Writes(tr: seq<World>, es: seq<Event>, i: nat, j: nat, c: Candidate)
    requires IsRun(tr, es)
  {
    && i < j < |es| && Begins(tr[i], es[i])
    && Proceeds(tr[j], es[j]) && es[j].pass == es[i].pass
    && c == tr[j].passes[es[j].pass].pending[0]
    && Answered(c, es[j].reply) && es[j].stored && IsCurrent(tr[j].t, c.account.id, c.expected)
  }

  /**
    A refresh takes effect only if the ciphertext it read stayed in place all the time since, so
    it never replaces a newer credential by one derived from an older one. Then the history row
    holds exactly the replaced credential, and the account's data, enabled flag included, and all
    other accounts are as they were.
   */
  lemma RefreshReplacesOnlyWhatItRead(tr: seq<World>, es: seq<Event>, i: nat, j: nat, c: Candidate)
    requires IsRun(tr, es) && Writes(tr, es, i, j, c)
    ensures forall k :: i <= k <= j ==> IsCurrent(tr[k].t, c.account.id, c.expected)
    ensures c.expected.secret.Json?
    ensures var (id, before, after, reply) := (c.account.id, tr[j].t, tr[j + 1].t, es[j].reply);
            var secret := Json(reply.text, Refreshed(c.expected.secret.envelope, reply));
            && after.accounts
            == before.accounts[id := Row(before.accounts[id].account, Cipher(before.nextNonce, secret))]
            && after.history == before.history[id := Replaced(c.expected, Deadline(c.envelope, es[i].now))]
  {
    PendingWasRead(tr, es, i, j, c);
    CurrentThroughout(tr, es, i, j, c.account.id, c.expected);
  }

  /** The rule for refreshing: the token expires within five minutes, and all that a refresh needs is there. */
  ghost predicate ExpiresSoon(e: Envelope, now: int) {
    && e.expiresAt.Some? && e.expiresAt.value <= now + 5 * 60 * 1_000_000_000
    && e.refreshToken.Some? && e.tokenEndpoint.Some? && e.clientId.Some?
  }

  ghost predicate Refreshable(row: Row) {
    row.account.kind == ClaudeOauth && row.account.enabled && row.cipher.secret.Json?
  }

  /** The candidate read from a row. */
  ghost predicate ReadFrom(c: Candidate, row: Row, now: int) {
    && Refreshable(row)
    && c.account == row.account && c.expected == row.cipher && c.envelope == row.cipher.secret.envelope
    && (c.due <==> ExpiresSoon(row.cipher.secret.envelope, now))
  }

  /** The numbers `at` are the refreshable rows of the list, in order, and `cs` the candidates read from them. */
  ghost predicate ReadInOrder(t: Tables, ids: seq<string>, now: int, at: seq<nat>, cs: seq<Candidate>)
    requires forall id :: id in ids ==> id in t.accounts
  {
    && |at| == |cs|
    && (forall k, l :: 0 <= k < l < |at| ==> at[k] < at[l])
    && (forall k :: 0 <= k < |at| ==> at[k] < |ids| && ReadFrom(cs[k], t.accounts[ids[at[k]]], now))
    && (forall n :: 0 <= n < |ids| && Refreshable(t.accounts[ids[n]]) ==> n in at)
  }

  lemma ReadRowMeans(row: Row, now: int)
    ensures ReadRow(row, now).Unreadable?
       <==> row.account.kind == ClaudeOauth && row.account.enabled && row.cipher.secret.Malformed?
    ensures ReadRow(row, now).Found? <==> Refreshable(row)
    ensures ReadRow(row, now).Found? ==> ReadFrom(ReadRow(row, now).candidate, row, now)
  {
  }

  lemma ReadOneMore(t: Tables, ids: seq<string>, id: string, now: int, at: seq<nat>, cs: seq<Candidate>)
    requires (forall x :: x in ids ==> x in t.accounts) && id in t.accounts && ReadInOrder(t, ids, now, at, cs)
    ensures !Refreshable(t.accounts[id]) ==> ReadInOrder(t, ids + [id], now, at, cs)
    ensures forall c :: ReadFrom(c, t.accounts[id], now) ==> ReadInOrder(t, ids + [id], now, at + [|ids|], cs + [c])
  {
    hide Refreshable, ExpiresSoon;
    var more := ids + [id];
    assert forall n :: 0 <= n < |ids| ==> more[n] == ids[n];
    forall c | ReadFrom(c, t.accounts[id], now)
      ensures ReadInOrder(t, more, now, at + [|ids|], cs + [c])
    {
      assert forall n :: n in at ==> n in at + [|ids|];
      assert more[|ids|] == id && |ids| in at + [|ids|];
    }
  }

  /**
    A pass reads every refreshable row of the list once and in order, or reports an error exactly
    when an enabled OAuth account holds JSON that is no envelope.
   */
  lemma {:induction false} CandidatesExact(t: Tables, ids: seq<string>, now: int) returns (at: seq<nat>)
    requires forall id :: id in ids ==> id in t.accounts
    ensures Candidates(t, ids, now).None?
       <==> exists id :: id in ids && t.accounts[id].account.kind == ClaudeOauth && t.accounts[id].account.enabled
                         && t.accounts[id].cipher.secret.Malformed?
    ensures Candidates(t, ids, now).Some? ==> ReadInOrder(t, ids, now, at, Candidates(t, ids, now).value)
    decreases |ids|
  {
    at := [];
    if ids != [] {
      hide ReadRow, ReadInOrder, Refreshable, ReadFrom;
      var front, id := ids[..|ids| - 1], ids[|ids| - 1];
      assert ids == front + [id];
      at := CandidatesExact(t, front, now);
      ReadRowMeans(t.accounts[id], now);
      if Candidates(t, front, now).Some? {
        ReadOneMore(t, front, id, now, at, Candidates(t, front, now).value);
      }
      if Refreshable(t.accounts[id]) {
        at := at + [|front|];
      }
    }
  }

  /** A deadline is ten minutes from now or the token's own expiry, whichever comes first. */
  lemma DeadlineIsEarlier(e: Envelope, now: int)
    ensures var (deadline, cap) := (Deadline(e, now), now + 10 * 60 * 1_000_000_000);
            && deadline <= cap && (e.expiresAt.Some? ==> deadline <= e.expiresAt.value)
            && (deadline == cap || Some(deadline) == e.expiresAt)
  {
  }

  /** A pass starts with nothing handled and its candidates pending, or with one failure and nothing to do. */
  lemma PassStarts(w: World, e: Event)
    requires Begins(w, e)
    ensures e.pass in Step(w, e).passes && Step(w, e).t == w.t
    ensures var p := Step(w, e).passes[e.pass];
            && p.now == e.now && p.refreshed == 0 && p.skipped == 0
            && match Candidates(w.t, e.ids, e.now)
               case Some(candidates) => p.pending == candidates && p.failed == 0
               case None => p.pending == [] && p.failed == 1
  {
  }

  /**
    What a refresh writes, field by field: it happens only to a token that was to expire soon; the
    new envelope has the answer's token and expiry, its refresh token if there is one, and is
    otherwise the old one; and the old token's deadline is its own expiry, which comes before the
    cap of ten minutes.
   */
  lemma RefreshWritesFields(tr: seq<World>, es: seq<Event>, i: nat, j: nat, c: Candidate)
    requires IsRun(tr, es) && Writes(tr, es, i, j, c)
    ensures var (id, reply) := (c.account.id, es[j].reply);
            && id in tr[j + 1].t.accounts && id in tr[j + 1].t.history && id in tr[j].t.accounts
            && var (now, was) := (tr[j + 1].t.accounts[id].cipher.secret, tr[j].t.accounts[id].cipher.secret);
            && now.Json? && was.Json?
            && ExpiresSoon(was.envelope, es[i].now)
            && reply.Tokens? && reply.accessToken != "" && now.text == reply.text
            && now.envelope.accessToken == reply.accessToken && now.envelope.expiresAt == Some(reply.expiresAt)
            && now.envelope.refreshToken
               == (if reply.refreshToken.Some? then reply.refreshToken else was.envelope.refreshToken)
            && now.envelope.tokenEndpoint == was.envelope.tokenEndpoint
            && now.envelope.clientId == was.envelope.clientId
            && Some(tr[j + 1].t.history[id].expiresAt) == was.envelope.expiresAt
            && tr[j + 1].t.history[id].expiresAt < es[i].now + 10 * 60 * 1_000_000_000
  {
    PendingWasRead(tr, es, i, j, c);
    RefreshReplacesOnlyWhatItRead(tr, es, i, j, c);
  }

  /**
    What a turn adds to the summary: a refresh exactly when it changes the tables, a failure
    exactly when a token that was to expire soon got no answer or could not be stored, and a skip
    otherwise.
   */
  lemma TurnIsCounted(tr: seq<World>, es: seq<Event>, i: nat, j: nat)
    requires IsRun(tr, es) && i < j < |es| && Begins(tr[i], es[i])
    requires Proceeds(tr[j], es[j]) && es[j].pass == es[i].pass
    ensures es[j].pass in tr[j + 1].passes
    ensures var (p, q, reply) := (tr[j].passes[es[j].pass], tr[j + 1].passes[es[j].pass], es[j].reply);
            var changed := tr[j + 1].t.accounts != tr[j].t.accounts || tr[j + 1].t.history != tr[j].t.history;
            var failed := && ExpiresSoon(p.pending[0].envelope, es[i].now)
                          && (reply.NoTokens? || reply.accessToken == "" || !es[j].stored);
            && q.now == p.now && q.pending == p.pending[1..]
            && q.refreshed == p.refreshed + (if changed then 1 else 0)
            && q.failed == p.failed + (if failed then 1 else 0)
            && q.skipped == p.skipped + (if changed || failed then 0 else 1)
  {
    var c := tr[j].passes[es[j].pass].pending[0];
    assert tr[j + 1] == Step(tr[j], es[j]);
    PendingWasRead(tr, es, i, j, c);
    TurnChangesTablesIff(tr, es, i, j);
  }

  /** A turn changes the tables exactly when it writes; otherwise it leaves both alone. */
  lemma TurnChangesTablesIff(tr: seq<World>, es: seq<Event>, i: nat, j: nat)
    requires IsRun(tr, es) && i < j < |es| && Begins(tr[i], es[i])
    requires Proceeds(tr[j], es[j]) && es[j].pass == es[i].pass
    ensures tr[j + 1].t.accounts != tr[j].t.accounts || tr[j + 1].t.history != tr[j].t.history
       <==> Writes(tr, es, i, j, tr[j].passes[es[j].pass].pending[0])
  {
    var c := tr[j].passes[es[j].pass].pending[0];
    assert tr[j + 1] == Step(tr[j], es[j]);
    TablesAlwaysOk(tr, es, j);
    if Writes(tr, es, i, j, c) {
      assert tr[j + 1].t.accounts[c.account.id].cipher.nonce == tr[j].t.nextNonce;
    }
  }

  ghost function Handled(p: Pass): nat {
    p.refreshed + p.skipped + p.failed
  }

  /** Conservation: every candidate read is refreshed, skipped, failed or still pending. */
  lemma {:induction false} SummaryAddsUp(tr: seq<World>, es: seq<Event>, i: nat, j: nat)
    requires IsRun(tr, es) && i < j < |tr| && Begins(tr[i], es[i])
    requires Candidates(tr[i].t, es[i].ids, es[i].now).Some?
    ensures es[i].pass in tr[j].passes
    ensures var p := tr[j].passes[es[i].pass];
            Handled(p) + |p.pending| == |Candidates(tr[i].t, es[i].ids, es[i].now).value|
    decreases j
  {
    assert tr[j - 1 + 1] == Step(tr[j - 1], es[j - 1]);
    if i + 1 < j {
      SummaryAddsUp(tr, es, i, j - 1);
    }
  }

  // --- Which tokens are accepted -----------------------------------------------------------------------------

  /**
    Step `i` replaced the account's credential by the one that is still current at `j`, and gave
    the replaced one the deadline it still has.
   */
  ghost predicate ReplacedAt(tr: seq<World>, i: nat, j: nat, id: string)
    requires i < j < |tr| && id in tr[j].t.accounts && id in tr[j].t.history
  {
    && IsCurrent(tr[i].t, id, tr[j].t.history[id].cipher)
    && forall k :: i < k <= j ==>
         && IsCurrent(tr[k].t, id, tr[j].t.accounts[id].cipher)
         && id in tr[k].t.history && tr[k].t.history[id] == tr[j].t.history[id]
  }

  lemma StepHistory(w: World, e: Event, id: string)
    requires TablesOk(w.t) && id in Step(w, e).t.history
    ensures var next := Step(w, e).t;
            && id in w.t.accounts && id in next.accounts
            && (|| IsCurrent(w.t, id, next.history[id].cipher)
                || (&& id in w.t.history && w.t.history[id] == next.history[id]
                    && IsCurrent(w.t, id, next.accounts[id].cipher)))
  {
  }

  /** In every reachable state the history row holds the credential the current one directly replaced. */
  lemma {:induction false} HistoryIsPredecessor(tr: seq<World>, es: seq<Event>, j: nat, id: string) returns (i: nat)
    requires IsRun(tr, es) && j < |tr| && id in tr[j].t.history
    ensures i < j && id in tr[j].t.accounts && ReplacedAt(tr, i, j, id)
    decreases j
  {
    var w := tr[j - 1];
    TablesAlwaysOk(tr, es, j - 1);
    assert tr[j - 1 + 1] == Step(w, es[j - 1]);
    StepHistory(w, es[j - 1], id);
    if IsCurrent(w.t, id, tr[j].t.history[id].cipher) {
      i := j - 1;
    } else {
      i := HistoryIsPredecessor(tr, es, j - 1, id);
    }
  }

  /**
    In every reachable state a token accepted for an account is its unexpired current token or
    the token that one directly replaced, before that one's deadline.
   */
  lemma AcceptedTokensAre(tr: seq<World>, es: seq<Event>, j: nat, id: string, token: string, now: int)
    requires IsRun(tr, es) && j < |tr| && AcceptedFor(tr[j].t, id, token, now)
    ensures || AcceptsCurrent(tr[j].t.accounts[id], token, now)
            || (&& id in tr[j].t.history
                && AcceptsReplaced(tr[j].t.accounts[id], tr[j].t.history[id], token, now)
                && exists i :: 0 <= i < j && ReplacedAt(tr, i, j, id))
  {
    if id in tr[j].t.history {
      var i := HistoryIsPredecessor(tr, es, j, id);
    }
  }

  lemma UpsertDropsOld(t: Tables, account: ProviderAccount, secret: Secret)
    ensures account.id !in Upserted(t, account, secret).history
  {
  }

  /**
    An upsert drops the old credential at once: as long as the credential it wrote is current, the
    tokens accepted for the account are exactly those that credential stands for.
   */
  lemma UpsertedAcceptsOnlyNew(tr: seq<World>, es: seq<Event>, i: nat, j: nat,
                               account: ProviderAccount, secret: Secret, token: string, when: int)
    requires IsRun(tr, es) && i < j < |tr| && Upserts(tr[i], es[i], account, secret)
    requires IsCurrent(tr[j].t, account.id, Cipher(tr[i].t.nextNonce, secret))
    ensures tr[j].t.accounts[account.id].account == account.(enabled := tr[j].t.accounts[account.id].account.enabled)
    ensures AcceptedFor(tr[j].t, account.id, token, when)
       <==> && tr[j].t.accounts[account.id].account.enabled
            && AcceptsCurrent(Row(account, Cipher(tr[i].t.nextNonce, secret)), token, when)
  {
    assert tr[i + 1] == Step(tr[i], es[i]);
    assert tr[i + 1].t == Upserted(tr[i].t, account, secret);
    UpsertDropsOld(tr[i].t, account, secret);
    CurrentFixes(tr, es, i + 1, j, account.id, Cipher(tr[i].t.nextNonce, secret));
  }

  lemma SwapAccepts(t: Tables, c: Candidate, secret: Secret, until: int, id: string, token: string, when: int)
    requires IsCurrent(t, c.account.id, c.expected) && t.accounts[c.account.id].account.kind.ClaudeOauth?
    requires c.expected.secret.Json? && c.expected.secret.envelope == c.envelope && secret.Json?
    requires c.envelope.expiresAt.Some? ==> until <= c.envelope.expiresAt.value
    requires AcceptedFor(Swapped(t, c.account.id, c.expected, secret, until), id, token, when)
    ensures AcceptedFor(t, id, token, when) || (id == c.account.id && token == secret.envelope.accessToken)
  {
  }

  /**
    A refresh adds only the new token, and only for its own account: any other token accepted for
    an account after it, at any time, was accepted for that account before it, at that same time.
    It also leaves the store as readable as it was.
   */
  lemma RefreshAddsOnlyNewToken(tr: seq<World>, es: seq<Event>, i: nat, j: nat, c: Candidate,
                                id: string, token: string, when: int)
    requires IsRun(tr, es) && Writes(tr, es, i, j, c)
    ensures AcceptedFor(tr[j + 1].t, id, token, when) ==>
              AcceptedFor(tr[j].t, id, token, when) || (id == c.account.id && token == es[j].reply.accessToken)
    ensures forall digest :: Readable(tr[j].t, digest, when) ==> Readable(tr[j + 1].t, digest, when)
  {
    PendingWasRead(tr, es, i, j, c);
    CurrentFixes(tr, es, i, j, c.account.id, c.expected);
    var secret := Json(es[j].reply.text, Refreshed(c.envelope, es[j].reply));
    var until := Deadline(c.envelope, es[i].now);
    assert tr[j + 1].t == Swapped(tr[j].t, c.account.id, c.expected, secret, until);
    if AcceptedFor(tr[j + 1].t, id, token, when) {
      SwapAccepts(tr[j].t, c, secret, until, id, token, when);
    }
    forall digest | Readable(tr[j].t, digest, when) ensures Readable(tr[j + 1].t, digest, when) {
      SwapReadable(tr[j].t, c, secret, until, digest, when);
    }
  }

  lemma SwapReadable(t: Tables, c: Candidate, secret: Secret, until: int, digest: Digest, when: int)
    requires IsCurrent(t, c.account.id, c.expected) && Readable(t, digest, when)
    requires secret.Json? && secret.envelope.accessToken != ""
    ensures Readable(Swapped(t, c.account.id, c.expected, secret, until), digest, when)
  {
    var next := Swapped(t, c.account.id, c.expected, secret, until);
    forall id | id in next.accounts ensures CredentialOf(next, id, digest, when).Some? {
      assert CredentialOf(t, id, digest, when).Some?;
    }
  }

  /**
    An administrator's rotation, unlike a refresh, can lengthen the life of the old token: it
    does so exactly when that token would have expired before the overlap ends.
   */
  lemma RotationLengthensIff(t: Tables, account: ProviderAccount, secret: Secret, until: int)
    requires account.id in t.accounts && t.accounts[account.id].account.kind == account.kind
    requires DecodedCredential(account.kind, t.accounts[account.id].cipher.secret).Some?
    ensures var (token, expiry) := DecodedCredential(account.kind, t.accounts[account.id].cipher.secret).value;
            var next := Rotated(t, account, secret, until);
            && account.id in next.history
            && ((exists when :: AcceptsReplaced(next.accounts[account.id], next.history[account.id], token, when)
                                && !AcceptsCurrent(t.accounts[account.id], token, when))
                <==> expiry.Some? && expiry.value < until)
  {
    var (token, expiry) := DecodedCredential(account.kind, t.accounts[account.id].cipher.secret).value;
    var next := Rotated(t, account, secret, until);
    if expiry.Some? && expiry.value < until {
      assert AcceptsReplaced(next.accounts[account.id], next.history[account.id], token, expiry.value)
          && !AcceptsCurrent(t.accounts[account.id], token, expiry.value);
    }
  }

  // --- What a rotation does to the old token ---------------------------------------------------------------

  /** The account's stored credential can be read, as `token`, under the kind it is rotated with. */
  ghost predicate HoldsToken(t: Tables, account: ProviderAccount, token: string) {
    && account.id in t.accounts && t.accounts[account.id].account.kind == account.kind
    && var decoded := DecodedCredential(account.kind, t.accounts[account.id].cipher.secret);
       decoded.Some? && decoded.value.0 == token
  }

  ghost function RotatedRow(t: Tables, account: ProviderAccount, secret: Secret): Row {
    Row(account, Cipher(t.nextNonce, secret))
  }

  /** After a rotation the old token is accepted exactly before the deadline, or as the new token. */
  lemma RotationAcceptsOldIff(t: Tables, account: ProviderAccount, secret: Secret, until: int, token: string, when: int)
    requires HoldsToken(t, account, token)
    ensures AcceptedFor(Rotated(t, account, secret, until), account.id, token, when)
       <==> account.enabled && (until > when || AcceptsCurrent(RotatedRow(t, account, secret), token, when))
  {
  }

  /** No request from `now` on gets in with this token for this account. */
  ghost predicate RefusedFrom(t: Tables, id: string, token: string, now: int) {
    forall when :: when >= now ==> !AcceptedFor(t, id, token, when)
  }

  /**
    The documented promise, that a rotation at `now` invalidates the old token for every later
    request, holds exactly when the account is written disabled, or the deadline is not after
    `now` and the new credential is not the old token over again.
   */
  lemma RotationInvalidatesIff(t: Tables, account: ProviderAccount, secret: Secret, until: int, token: string, now: int)
    requires HoldsToken(t, account, token)
    ensures RefusedFrom(Rotated(t, account, secret, until), account.id, token, now)
       <==> !account.enabled || (until <= now && !AcceptsCurrent(RotatedRow(t, account, secret), token, now))
  {
    RotationAcceptsOldIff(t, account, secret, until, token, now);
    forall when | when >= now
      ensures AcceptedFor(Rotated(t, account, secret, until), account.id, token, when)
         <==> account.enabled && (until > when || AcceptsCurrent(RotatedRow(t, account, secret), token, when))
    {
      RotationAcceptsOldIff(t, account, secret, until, token, when);
    }
  }

  /** The handlers ask for ten minutes from now: then the promise holds only for an account written disabled. */
  lemma TenMinuteRotationInvalidatesIff(t: Tables, account: ProviderAccount, secret: Secret, token: string, now: int)
    requires HoldsToken(t, account, token)
    ensures RefusedFrom(Rotated(t, account, secret, now + 10 * MINUTE), account.id, token, now) <==> !account.enabled
  {
    RotationInvalidatesIff(t, account, secret, now + 10 * MINUTE, token, now);
  }

  /** One such rotation: five minutes later both the old and the new token are accepted. */
  lemma RotationKeepsOldToken()
    ensures var account := ProviderAccount("a", ClaudeOauth, true, "");
            var before := Upserted(Tables(map[], map[], 0), account, Plain("old"));
            var after := Rotated(before, account, Plain("new"), 10 * MINUTE);
            AcceptedFor(after, "a", "old", 5 * MINUTE) && AcceptedFor(after, "a", "new", 5 * MINUTE)
  {
  }

  /**
    Over runs: as long as the credential a rotation wrote is current, whatever else happens, the
    old token is accepted exactly while the account is enabled and the deadline has not passed
    (or it is the new token as well).
   */
  lemma RotatedTokenLasts(tr: seq<World>, es: seq<Event>, i: nat, j: nat,
                          account: ProviderAccount, secret: Secret, until: int, token: string, when: int)
    requires IsRun(tr, es) && i < j < |tr| && Rotates(tr[i], es[i], account, secret, until)
    requires HoldsToken(tr[i].t, account, token) && IsCurrent(tr[j].t, account.id, Cipher(tr[i].t.nextNonce, secret))
    ensures tr[j].t.accounts[account.id].account == account.(enabled := tr[j].t.accounts[account.id].account.enabled)
    ensures AcceptedFor(tr[j].t, account.id, token, when)
       <==> && tr[j].t.accounts[account.id].account.enabled
            && (until > when || AcceptsCurrent(RotatedRow(tr[i].t, account, secret), token, when))
  {
    assert tr[i + 1] == Step(tr[i], es[i]);
    assert tr[i + 1].t == Rotated(tr[i].t, account, secret, until);
    RotationAcceptsOldIff(tr[i].t, account, secret, until, token, when);
    CurrentFixes(tr, es, i + 1, j, account.id, Cipher(tr[i].t.nextNonce, secret));
  }

  // --- Pausing --------------------------------------------------------------------------------------------------

  /** The events that write an account as enabled. */
  predicate Enables(w: World, e: Event, id: string) {
    match e
    case Upsert(account, _) => account.id == id && account.enabled
    case Rotate(account, _, _) => account.id == id && account.enabled
    case SetEnabled(target, enabled) => target == id && enabled
    case Finish(handler, _, _) => Finishes(w, e) && w.loaded[handler].id == id && w.loaded[handler].enabled
    case _ => false
  }

  predicate IsEnabled(t: Tables, id: string) {
    id in t.accounts && t.accounts[id].account.enabled
  }

  lemma OnlyEnablingEnables(w: World, e: Event, id: string)
    requires !IsEnabled(w.t, id) && !Enables(w, e, id)
    ensures !IsEnabled(Step(w, e).t, id)
  {
  }

  /**
    A paused or deleted account stays out of use, and none of its tokens is accepted, until a
    resume, or an upsert or rotation that writes it as enabled, whatever refresh passes are in flight.
   */
  lemma {:induction false} PauseLasts(tr: seq<World>, es: seq<Event>, i: nat, j: nat, id: string)
    requires IsRun(tr, es) && i < j < |tr| && (es[i] == SetEnabled(id, false) || es[i] == Delete(id))
    requires forall k :: i < k < j ==> !Enables(tr[k], es[k], id)
    ensures !IsEnabled(tr[j].t, id)
    ensures forall token, when :: !AcceptedFor(tr[j].t, id, token, when)
    decreases j
  {
    var last := j - 1;
    assert tr[last + 1] == Step(tr[last], es[last]);
    if i < last {
      PauseLasts(tr, es, i, last, id);
      OnlyEnablingEnables(tr[last], es[last], id);
    }
  }

  /** A rotation handler that loaded the account at `i` writes it back at `j`. */
  ghost predicate HandlerRun(tr: seq<World>, es: seq<Event>, i: nat, j: nat)
    requires IsRun(tr, es)
  {
    && i < j < |es| && Loads(tr[i], es[i]) && Finishes(tr[j], es[j]) && es[i].handler == es[j].handler
    && forall k :: i < k < j ==> !(es[k].Finish? && es[k].handler == es[i].handler)
  }

  /** A handler that has nothing loaded loads an account exactly when it exists and its secret is not broken. */
  lemma LoadsIff(w: World, handler: nat, id: string)
    requires handler !in w.loaded
    ensures handler in Step(w, Load(handler, id)).loaded
       <==> id in w.t.accounts && !Broken(w.t.accounts[id].account.kind, w.t.accounts[id].cipher.secret)
    ensures handler in Step(w, Load(handler, id)).loaded ==>
              Step(w, Load(handler, id)).loaded[handler] == w.t.accounts[id].account
  {
  }

  lemma {:induction false} LoadedStays(tr: seq<World>, es: seq<Event>, i: nat, j: nat)
    requires IsRun(tr, es) && i < j < |tr| && Loads(tr[i], es[i])
    requires forall k :: i < k < j ==> !(es[k].Finish? && es[k].handler == es[i].handler)
    ensures es[i].handler in tr[j].loaded && tr[j].loaded[es[i].handler] == tr[i].t.accounts[es[i].id].account
    decreases j
  {
    var last := j - 1;
    assert tr[last + 1] == Step(tr[last], es[last]);
    if i < last {
      LoadedStays(tr, es, i, last);
    }
  }

  /** The handler writes the account as it was when it loaded it, enabled flag included. */
  lemma HandlerWritesWhatItLoaded(tr: seq<World>, es: seq<Event>, i: nat, j: nat)
    requires IsRun(tr, es) && HandlerRun(tr, es, i, j)
    ensures es[i].id in tr[j + 1].t.accounts
    ensures tr[j + 1].t.accounts[es[i].id]
         == Row(tr[i].t.accounts[es[i].id].account, Cipher(tr[j].t.nextNonce, es[j].secret))
    ensures es[j].handler !in tr[j + 1].loaded
  {
    TablesAlwaysOk(tr, es, i);
    LoadedStays(tr, es, i, j);
    assert tr[j + 1] == Step(tr[j], es[j]);
  }

  /**
    So a rotation undoes a pause, or a resume, exactly when the flag it loaded is not the flag it
    writes over; and on an account deleted meanwhile it brings back the flag it loaded.
   */
  lemma HandlerChangesFlagIff(tr: seq<World>, es: seq<Event>, i: nat, j: nat)
    requires IsRun(tr, es) && HandlerRun(tr, es, i, j)
    ensures IsEnabled(tr[j + 1].t, es[i].id) != IsEnabled(tr[j].t, es[i].id)
       <==> IsEnabled(tr[i].t, es[i].id) != IsEnabled(tr[j].t, es[i].id)
  {
    HandlerWritesWhatItLoaded(tr, es, i, j);
  }

  /** A pause between the two halves of the handler is undone exactly when the account was loaded enabled. */
  lemma HandlerUndoesPauseIff(tr: seq<World>, es: seq<Event>, i: nat, m: nat, j: nat)
    requires IsRun(tr, es) && HandlerRun(tr, es, i, j) && i < m < j && es[m] == SetEnabled(es[i].id, false)
    requires forall k :: m < k < j ==> !Enables(tr[k], es[k], es[i].id)
    ensures !IsEnabled(tr[j].t, es[i].id)
    ensures IsEnabled(tr[j + 1].t, es[i].id) <==> IsEnabled(tr[i].t, es[i].id)
  {
    PauseLasts(tr, es, m, j, es[i].id);
    HandlerChangesFlagIff(tr, es, i, j);
  }

  /** Such a run: the handler loads an enabled account, the account is paused, and the handler enables it again. */
  lemma HandlerCanUndoPause() returns (tr: seq<World>, es: seq<Event>)
    ensures IsRun(tr, es) && |es| == 4 && HandlerRun(tr, es, 1, 3)
    ensures es[2] == SetEnabled("a", false) && !IsEnabled(tr[3].t, "a") && IsEnabled(tr[4].t, "a")
  {
    var account := ProviderAccount("a", ClaudeOauth, true, "");
    es := [Upsert(account, Plain("old")), Load(0, "a"), SetEnabled("a", false), Finish(0, Plain("new"), 0)];
    var w0 := World(Tables(map[], map[], 0), map[], map[]);
    var w1 := Step(w0, es[0]);
    var w2 := Step(w1, es[1]);
    var w3 := Step(w2, es[2]);
    tr := [w0, w1, w2, w3, Step(w3, es[3])];
  }

  // --- The life of a stored token ------------------------------------------------------------------------------

  /**
    From its expiry on, an account's current OAuth token is refused in every reachable state, unless
    the credential it directly replaced was the same token and that one's deadline is still to come.
   */
  lemma ExpiredTokenRefused(tr: seq<World>, es: seq<Event>, j: nat, id: string, when: int)
    requires IsRun(tr, es) && j < |tr| && id in tr[j].t.accounts
    requires var Row(account, cipher) := tr[j].t.accounts[id];
             && account.kind == ClaudeOauth && cipher.secret.Json?
             && cipher.secret.envelope.expiresAt.Some? && cipher.secret.envelope.expiresAt.value <= when
    ensures var token := tr[j].t.accounts[id].cipher.secret.envelope.accessToken;
            AcceptedFor(tr[j].t, id, token, when)
            <==> && tr[j].t.accounts[id].account.enabled
                 && id in tr[j].t.history && tr[j].t.history[id].expiresAt > when
                 && StandsFor(ClaudeOauth, tr[j].t.history[id].cipher.secret, token)
                 && exists i :: 0 <= i < j && ReplacedAt(tr, i, j, id)
  {
    AcceptedOnSecrets(tr[j].t, id, tr[j].t.accounts[id].cipher.secret.envelope.accessToken, when);
    if id in tr[j].t.history {
      var i := HistoryIsPredecessor(tr, es, j, id);
    }
  }

  /** An upserted OAuth token is accepted exactly while its account is enabled and it has not expired. */
  lemma UpsertedTokenLife(tr: seq<World>, es: seq<Event>, i: nat, j: nat,
                          account: ProviderAccount, text: string, e: Envelope, when: int)
    requires IsRun(tr, es) && i < j < |tr| && account.kind == ClaudeOauth && e.accessToken != ""
    requires Upserts(tr[i], es[i], account, Json(text, e))
    requires IsCurrent(tr[j].t, account.id, Cipher(tr[i].t.nextNonce, Json(text, e)))
    ensures AcceptedFor(tr[j].t, account.id, e.accessToken, when)
       <==> && tr[j].t.accounts[account.id].account.enabled
            && (e.expiresAt.None? || when < e.expiresAt.value)
  {
    UpsertedAcceptsOnlyNew(tr, es, i, j, account, Json(text, e), e.accessToken, when);
  }

  lemma StepKeepsEnabled(w: World, e: Event, id: string, c: Cipher)
    requires TablesOk(w.t) && IsEnabled(w.t, id) && IsCurrent(w.t, id, c) && IsCurrent(Step(w, e).t, id, c)
    requires e != SetEnabled(id, false)
    ensures IsEnabled(Step(w, e).t, id)
  {
  }

  /** A resumed account is in use again, with the tokens it had, until it is paused or its credential changes. */
  lemma {:induction false} ResumeLasts(tr: seq<World>, es: seq<Event>, i: nat, j: nat, id: string, c: Cipher)
    requires IsRun(tr, es) && i < j < |tr| && es[i] == SetEnabled(id, true)
    requires IsCurrent(tr[i].t, id, c) && IsCurrent(tr[j].t, id, c)
    requires forall k :: i < k < j ==> es[k] != SetEnabled(id, false)
    ensures IsEnabled(tr[j].t, id)
    decreases j
  {
    hide Step;
    var last := j - 1;
    CurrentThroughout(tr, es, i, j, id, c);
    assert tr[last + 1] == Step(tr[last], es[last]);
    TablesAlwaysOk(tr, es, last);
    if i < last {
      ResumeLasts(tr, es, i, last, id, c);
      StepKeepsEnabled(tr[last], es[last], id, c);
    } else {
      ResumeEnables(tr[i], id);
    }
  }

  lemma ResumeEnables(w: World, id: string)
    requires id in w.t.accounts
    ensures IsEnabled(Step(w, SetEnabled(id, true)).t, id)
  {
  }
}
