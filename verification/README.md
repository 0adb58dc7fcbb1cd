# A verified model of llmap's core

`llmap` is a proxy that spreads LLM API traffic over several provider accounts. This project
models, in Dafny, the parts of it that keep state or parse bytes, and proves what they promise:

- **Bedrock event streams** (`Bytes`, `EventStreamHeaders`, `EventStreamFrames`,
  `EventStreamTranslator`, `ExceptionNames`): the header grammar and its cursor-driven decoder, the
  framing function and its inverse, the translator that re-frames a body arriving in arbitrary
  chunks, and the normaliser for exception names.
- **Request signing** (`Ordering`, `CanonicalQuery`): the canonical query string of SigV4.
- **Routing** (`Models`, `Routing`, `RoutingRuns`, `Admission`, `DataPlane`): sticky least-loaded
  routing, and the life cycle of concurrent requests that drive it.
- **Credentials** (`ClientAuth`, `CredentialStore`, `RefreshProtocol`): the two credential tables,
  client authorization over them, and background OAuth refresh in any interleaving with
  administrators' writes.
- **Administrator sessions** (`AdminSessions`, `AdminRuns`): lockout and session expiry.
- **Egress** (`ProxyChains`, `HostPatterns`): proxy failover and host patterns.

`Ascii`, `Clock`, `Limits` and `Wrappers` hold what several of these share.

`dafny verify dfyconfig.toml` checks everything.

## How it is modelled

An object that the source updates in place is a class whose methods are proved equal to functions
on the object's value (`Router`, `SqliteStore`, `RefreshPass`, `AdminSessionManager`, `ProxyChain`,
`ReqwestTransport`). What holds over whole runs is then stated about those functions: a run is a
sequence of events and the sequence of values between them, and a theorem quantifies over every
run. Concurrency is arbitrary interleaving of the steps between which the source releases a lock,
with the one exception of `set_account_enabled` named under "Left out".

Parameters stand for what the source takes from outside, and every result holds for any choice of
them: CRC-32, UTF-8 validity, the JSON and Base64 layers of a payload, URL parsing, the keyed
digest, password checking, random tokens, the network's answers, and the clock. Two idealisations
are made explicit: a ciphertext carries a nonce that never repeats (the source draws 24 random
bytes), and where acceptance of a token is stated the digest is injective. Instants are whole
nanoseconds. 8-, 16- and 32-bit counters saturate as in the source.

Some promises are false of the code. The model keeps the code as it is, shows an input, and proves
exactly when the promise holds:

- `docs/authentication.md` says that rotating an account invalidates its old credential at the next
  request. The code keeps the old OAuth token valid until a deadline (`RotationKeepsOldToken`).
  `RotationAcceptsOldIff`, `RotationInvalidatesIff` and, over runs, `RotatedTokenLasts` say exactly
  when the old token is accepted and when the promise holds.
- A pause can be undone by the administrator's rotate handler, which writes back an account it
  loaded earlier (`HandlerCanUndoPause`). `HandlerUndoesPauseIff` says exactly when; `PauseLasts`
  says that nothing but an explicit write of the enabled flag ends a pause.
- Issuing a CSRF token takes the lock twice, and a purge between the two halves, by a count or by
  anybody's login, can make the second one fail (`PurgeCanFailTheWrite`). `WriteFailsIff` says
  exactly when the second half fails, and `CountChangesWriteIff` exactly when one more count changes
  its answer.
- A policy with a limit of zero failed logins behaves like one with a limit of one;
  `ConfiguredLimitExact` says when the policy's number can be taken at face value.
- A proxy failure counts for the endpoint active when it is recorded, which need not be the one the
  request used: the chain may have moved on (`LateFailureCountsAgainstNext`) or been rebuilt from
  another list (`RebuildCountsAgainstOther`). Until a selection replaces or drops the account's chain,
  the two agree exactly when no result recorded in between moved the chain
  (`RecordedAgainstUsedIff`). After a selection with another list the result goes to the fresh chain
  of that list (`ChainFollowsResults`), and with an empty list it is lost (`DroppedResultIsLost`).

## Model

| member | source | states |
|---|---|---|
| Bytes.Be16Order | src/providers.rs:318-323 | two-byte lengths compare as numbers the way their bytes do from the first one on, which makes them big-endian |
| Bytes.Be32Order | src/providers.rs:197-206 | the same for four bytes |
| EventStreamHeaders.ReadHeader | src/providers.rs:289-345 | what is read at a cursor stays in bounds, makes progress, and is byte for byte the encoding of the header it returns |
| EventStreamHeaders.ReadsWrittenHeader | src/providers.rs:289-345 | any header written at the cursor, of any of the ten value types, is what is read there |
| EventStreamHeaders.ValueSizes | src/providers.rs:297-345 | the ten type bytes and the sizes of their values; any other byte, and any value that runs past the block, is refused; only type 7 is text |
| EventStreamHeaders.EncodeHeadersInjective | src/providers.rs:285-355 | a header block has at most one reading as a list of headers |
| EventStreamHeaders.NextHeaderForced | src/providers.rs:288-355 | every reading of a block continues what was read so far with the header at the cursor |
| EventStreamHeaders.SpecialMap | src/providers.rs:347-354 | the map holds exactly the `:` headers of a block with their text |
| EventStreamHeaders.SpecialsOkSnoc | src/providers.rs:347-352 | the value and duplicate tests refuse a `:` header exactly when it is not text or its name was seen |
| EventStreamHeaders.DecodeValue | src/providers.rs:297-345 | accepts exactly the readable values, text only when valid, and keeps the text of strings |
| EventStreamHeaders.DecodeHeader | src/providers.rs:289-345 | accepts exactly the readable headers whose name and text are valid |
| EventStreamHeaders.DecodeHeaders | src/providers.rs:285-355 | accepts exactly the encodings of header lists whose `:` names are unique strings, and returns the `:` headers of the one list encoded |
| EventStreamFrames.OpenFrameExact | src/providers.rs:193-235 | for any checksum, the length and checksum stage accepts exactly the images of the framing function within the limits and recovers header block and payload |
| EventStreamFrames.FrameLayout | tests/bedrock_signing_contracts.rs:52-68 | where in a frame the two lengths, the two checksums, the header block and the payload stand, and what each checksum covers |
| EventStreamFrames.OpenFramed | tests/bedrock_signing_contracts.rs:52-68 | opening a framed message gives back its header block and payload |
| EventStreamFrames.FramesInjective | src/providers.rs:193-235 | a concatenation of frames splits back into frames in only one way |
| EventStreamFrames.CarriesUnique | src/providers.rs:193-235 | a frame carries at most one message |
| EventStreamFrames.DecodedOfFramed | src/providers.rs:229-283 | a framed message decodes to the event of its own headers and payload |
| EventStreamFrames.EventTable | src/providers.rs:229-283 | over membership in the header list: exception and error messages become the error event of the first of `:event-type`, `:exception-type` and `:error-code`, chunk events what their payload unwraps to, and every other frame is refused |
| EventStreamFrames.DecodeFrame | src/providers.rs:193-283 | returns the event of the one message the frame carries, and an error when it carries none |
| EventStreamTranslator.Drain | src/providers.rs:400-428 | leaves fewer than the frame limit buffered before the next read, and its items are those of the whole input whatever arrives later |
| EventStreamTranslator.Translate | src/providers.rs:392-447 | chunk independence: for every body, split and ending, the output is that of the one-shot reference |
| EventStreamTranslator.ErrorsComeLast | src/providers.rs:404-444 | at most one error comes out, always as the last item |
| EventStreamTranslator.TranslationTable | src/providers.rs:400-444 | for every body: the events of its decodable frames, and then exactly the error that names what is wrong with the rest, or nothing at a clean end |
| EventStreamTranslator.TranslationOfFrames | src/providers.rs:415-427 | a body of decodable frames becomes their events, one for one and in order |
| EventStreamTranslator.CleanIffFrames | src/providers.rs:392-447 | no error comes out exactly when the body is a concatenation of decodable frames |
| EventStreamTranslator.MessagesTranslate | tests/bedrock_signing_contracts.rs:91-130 | messages survive header encoding, framing and translation: each one's own event, in order, and nothing else |
| EventStreamTranslator.TranslateMessages | src/providers.rs:392-447 | the same through the translator itself, however the framed bytes are cut into chunks |
| ExceptionNames.NormalizeExceptionType | src/providers.rs:369-390 | the loop computes the normalised name |
| ExceptionNames.NormalizedIsSnakeCase | src/providers.rs:369-390 | every result is lower-case letters, digits and single inner underscores |
| ExceptionNames.UnchangedIffSnakeCase | src/providers.rs:369-390 | the names left alone are exactly the snake-case ones |
| ExceptionNames.NormalizedIdempotent | src/providers.rs:369-390 | normalising twice is normalising once |
| ExceptionNames.NormalizedKeepsAlphanumerics | src/providers.rs:369-390 | underscores apart, the result is the input's ASCII letters and digits lower-cased, in order |
| ExceptionNames.NormalizedWithinWord | src/providers.rs:373-381 | between two neighbouring letters or digits an underscore is put exactly where a lower-case letter or digit meets a capital |
| ExceptionNames.NormalizedAroundSeparator | src/providers.rs:382-387 | any other character joins the names on its two sides by one underscore, if both are there |
| ExceptionNames.NormalizedOne | src/providers.rs:369-390 | the names of at most one character, from which the other two laws give every name |
| CanonicalQuery.AwsEncode | src/providers.rs:640-650 | the loop computes the percent-encoding |
| CanonicalQuery.ByteEncoding | src/providers.rs:640-650 | letters, digits and `-._~` stand for themselves, and any other byte becomes `%` and two upper-case hexadecimal digits |
| CanonicalQuery.EncodedByteByByte | src/providers.rs:640-650 | bytes are encoded one by one |
| CanonicalQuery.EncodedReadsBack | src/providers.rs:640-650 | only unreserved characters and `%XX` are emitted, and decoding gives back the bytes |
| CanonicalQuery.EncodedInjective | src/providers.rs:640-650 | the percent-encoding is injective |
| CanonicalQuery.JoinInjective | src/providers.rs:633-637 | `=` and `&` stay unambiguous: joined pairs can be read back |
| CanonicalQuery.JoinSnoc | src/providers.rs:633-637 | each further pair is one more `name=value` after an `&` |
| CanonicalQuery.CanonicalQueryAscends | src/providers.rs:627-638 | the canonical query joins the encoded pairs, each as often as it occurs, ascending by encoded name and then by encoded value |
| CanonicalQuery.CanonicalQueryExact | src/providers.rs:627-638 | two lists of pairs give the same canonical query exactly when they are equal as multisets |
| Ordering.SortSorts | src/providers.rs:632-632 | sorting gives an ordered permutation of the pairs |
| Ordering.TextLeMeans | src/providers.rs:632-632 | the order of texts: a prefix first, else the smaller character where they first differ |
| Ordering.SortAscends | src/providers.rs:632-632 | sorting gives a permutation of the pairs that ascends in that order |
| Ordering.SortedUnique | src/providers.rs:632-632 | there is only one ordered permutation, so the algorithm does not matter |
| Models.FamilyMeans | src/models.rs:3-10 | a model's family is the first of the four known names that occurs in it when lower-cased |
| Ascii.LowercaseExact | src/models.rs:6-6 | lower-casing moves the 26 capitals and changes nothing else |
| Routing.LeastUnique | src/routing.rs:175-188 | the least (in flight, utilization, id) among eligible accounts is unique in any iteration order |
| Routing.FreshChoiceExists | src/routing.rs:175-188 | a fresh selection fails exactly when no account is eligible |
| Routing.CollectedExact | src/routing.rs:85-93 | every id of a pool is filed, and under it the last account that has it |
| Routing.Router.constructor | src/routing.rs:85-93 | a new router holds the pool by id, the last of duplicates, and no session |
| Routing.Router.ReplaceAccounts | src/routing.rs:95-118 | live state is carried over for equal id and enabled flag, and sessions of missing or disabled accounts end |
| Routing.Router.ResetAccountHealth | src/routing.rs:120-130 | health and depletion are cleared and the account's sessions end; unknown ids are reported |
| Routing.Router.SessionCount | src/routing.rs:132-136 | sessions idle for more than 30 minutes end, and the rest are counted |
| Routing.Router.StartRequest | src/routing.rs:138-145 | the count goes up by one, saturating at 32 bits |
| Routing.Router.LeastLoaded | src/routing.rs:175-188 | walking the map in an arbitrary order finds the one least loaded eligible account |
| Routing.Router.Choose | src/routing.rs:147-204 | the state and selection are those of the choice function |
| Routing.Router.RecordOutcome | src/routing.rs:206-235 | the count goes down by one, stopping at zero, and each outcome has its effect on health, depletion and sessions |
| RoutingRuns.ChoiceIsSound | src/routing.rs:147-204 | a choice fails exactly when nothing is eligible; else it names the session's own working account or the least loaded one, binds the session, and changes nothing else |
| RoutingRuns.ChoiceOnFields | src/routing.rs:147-245 | on the accounts' fields: a choice fails exactly when no account is enabled, healthy, rested and takes the model; it reuses the session's account exactly when seen within 30 minutes and able to serve; else it is preferred by load, then utilization, then id |
| RoutingRuns.CountKeepsRecent | src/routing.rs:132-136 | a count keeps exactly the sessions seen in the last 30 minutes |
| RoutingRuns.ReplacedOnFields | src/routing.rs:95-118 | a replaced pool holds the last incoming account of each id, with the previous live state exactly if the enabled flag is the same, and exactly the sessions of enabled accounts |
| RoutingRuns.UnboundUntilPicked | src/routing.rs:120-235 | over runs: after a reset or any outcome but success no session is bound to the account until a choice picks it |
| RoutingRuns.StepKeepsInv | src/routing.rs:85-235 | every operation keeps each session bound to a present, enabled, healthy account, rested when last seen |
| RoutingRuns.InvAlways | src/routing.rs:85-235 | that holds in every reachable state, even across pool replacement with duplicate ids |
| RoutingRuns.SessionSticks | src/routing.rs:147-173 | a session served again within 30 minutes stays on its account, as reused, unless that account failed, was reset, disabled, removed or refuses the model |
| RoutingRuns.UnauthorizedIsQuarantined | src/routing.rs:218-222 | after an unauthorized outcome no choice returns the account until a reset, removal or enabled flip |
| RoutingRuns.DepletionIsQuarantined | src/routing.rs:223-228 | after a rate limit or overload no choice returns it before the most recently recorded retry time |
| RoutingRuns.ResetRestores | src/routing.rs:120-130 | after a reset, until it is refused or limited again, an account left enabled is eligible at any time for every model it accepts |
| Admission.ChoosesLowest | src/routing.rs:175-188 | over level loads a fresh choice falls on an account with the lower load |
| Admission.AdmissionsBalance | src/routing.rs:138-203 | n*q+r new requests, each with its own model and clock reading, that could go to the same n idle accounts leave exactly r with q+1 in flight and the others with q |
| DataPlane.InFlightBounded | src/data_plane.rs:360-431 | in every interleaving an account's count never exceeds its started and unrecorded requests |
| DataPlane.InFlightExact | src/data_plane.rs:360-431 | it equals that number on runs that never pause, resume or remove the account and stay below the 32-bit limit |
| DataPlane.RequestsDriveRouter | src/data_plane.rs:293-431 | what the router sees of concurrent requests is a run of the router |
| DataPlane.AnswerEffect | src/data_plane.rs:730-753 | for every status and `retry-after` header, exactly what an answer does to health, depletion, in-flight count and sessions, and that nothing else changes |
| DataPlane.TransportFailureEffect | src/data_plane.rs:378-384 | a transport failure does what an answer with status 500 does |
| DataPlane.DepletedAnswerQuarantines | src/data_plane.rs:426-431 | over runs: a 429 or 529 answer keeps its account from being chosen for the header's own 1 to 3600 seconds, or else 60 or 30, from the request's clock reading on, with the stated exceptions |
| DataPlane.RefusedAnswerQuarantines | src/data_plane.rs:426-431 | over runs: a 401 or 403 answer keeps its account from being chosen until a reset, removal or enabled flip |
| DataPlane.RequestKeepsAccount | src/data_plane.rs:293-431 | in every interleaving a request keeps the account and clock reading of its arrival, and is started only by being sent while that account is in the pool |
| DataPlane.EndedForGood | src/data_plane.rs:360-431 | a request that gave up, was answered or failed never reaches the router again |
| ClientAuth.LastMatchExists | src/auth.rs:133-148 | a match is found exactly when some active account has a live credential with that digest, and it names the last such account |
| ClientAuth.Authorize | src/auth.rs:103-167 | enforce admits exactly the matching holders and fails closed, observe admits all and reports, off does not look |
| CredentialStore.SqliteStore.UpsertAccount | src/storage.rs:155-189 | the row gets the account and a fresh ciphertext, and its history is dropped |
| CredentialStore.SqliteStore.RotateAccountCredential | src/storage.rs:191-241 | as upsert, but an existing ciphertext moves to the history with its deadline |
| CredentialStore.SqliteStore.ReplaceOauthIfCurrent | src/storage.rs:335-380 | writes credential and history only over the expected ciphertext, says whether it did, and changes nothing when the transaction fails |
| CredentialStore.SqliteStore.SetAccountEnabled | src/storage.rs:604-626 | only the enabled flag of an existing row changes |
| CredentialStore.SqliteStore.DeleteAccount | src/storage.rs:628-637 | the row goes together with its history |
| CredentialStore.SqliteStore.CredentialSnapshot | src/storage.rs:758-804 | one credential per row, or an error exactly when a secret it needs cannot be read |
| CredentialStore.AcceptedOnSecrets | src/storage.rs:960-978 | on the stored secrets: a token is accepted exactly for an enabled account whose secret stands for it, unexpired, or whose replaced secret does, before its deadline; an OAuth envelope stands for its non-empty access token, anything else for its text |
| CredentialStore.ReadableOnSecrets | src/storage.rs:758-804 | the store is readable exactly when no current or live replaced OAuth secret is malformed or has an empty access token |
| CredentialStore.EnforceOverStore | src/data_plane.rs:224-236 | in enforce mode a request is let in, as one of the accounts accepting it, exactly when the store is readable and its token (the empty one if it has none) is accepted for some account; an unreadable store has its own error |
| RefreshProtocol.RefreshCandidates | src/storage.rs:282-333 | the candidates are the enabled OAuth envelopes in row order, or an error when one cannot be parsed |
| RefreshProtocol.CandidatesExact | src/storage.rs:282-333 | each enabled OAuth envelope is read once and in order, due exactly when it expires within five minutes and can be refreshed; an error exactly for a malformed one |
| RefreshProtocol.PassStarts | src/storage.rs:243-253 | a pass starts with its candidates pending, or with one failure and nothing to do |
| RefreshProtocol.RefreshPass.Turn | src/storage.rs:254-278 | one turn of the loop has the stated effect on the store, storage errors included, and counts the candidate once |
| RefreshProtocol.GoneStaysGone | src/storage.rs:351-365 | a ciphertext that stopped being current never becomes current again |
| RefreshProtocol.AccountStays | src/storage.rs:604-626 | while a ciphertext stays, only the enabled flag of its account can change, and its history row stays too |
| RefreshProtocol.RefreshReplacesOnlyWhatItRead | src/storage.rs:243-380 | in every interleaving a refresh takes effect only if the ciphertext it read stayed in place throughout; then the history holds exactly the replaced credential with its capped deadline, and account data and all other rows are untouched |
| RefreshProtocol.RefreshWritesFields | src/storage.rs:259-275 | over runs, field by field: only a token about to expire is refreshed; token, expiry and refresh token are the answer's, the rest is kept, and the old token's deadline is its own expiry, the ten-minute cap never being earlier |
| RefreshProtocol.DeadlineIsEarlier | src/storage.rs:261-265 | a deadline is ten minutes ahead or the token's own expiry, whichever comes first |
| RefreshProtocol.TurnIsCounted | src/storage.rs:254-278 | over runs: a turn counts as refreshed exactly when it changes the tables, as failed exactly when a due token got no answer or could not be stored, and else as skipped |
| RefreshProtocol.TurnChangesTablesIff | src/storage.rs:349-379 | a turn of the loop changes the tables exactly when it is answered, goes through and finds the expected ciphertext |
| RefreshProtocol.SummaryAddsUp | src/storage.rs:253-279 | every candidate read is refreshed, skipped, failed or still pending |
| RefreshProtocol.HistoryIsPredecessor | src/storage.rs:204-222 | in every reachable state the history row is the credential the current one directly replaced, with the deadline given then |
| RefreshProtocol.AcceptedTokensAre | src/storage.rs:758-804 | in every reachable state a token accepted for an account is its unexpired current one or the single one it directly replaced, before that one's deadline |
| RefreshProtocol.ExpiredTokenRefused | src/storage.rs:972-976 | in every reachable state, from its expiry on an account's current OAuth token is refused, except exactly as the same token directly replaced and still before that one's deadline |
| RefreshProtocol.UpsertedTokenLife | src/storage.rs:155-189 | over runs: an upserted OAuth token is accepted exactly while its account is enabled and it has not expired |
| RefreshProtocol.UpsertedAcceptsOnlyNew | src/storage.rs:155-189 | over runs: while the credential an upsert wrote is current, exactly the token it stands for is accepted for the account, and only while enabled |
| RefreshProtocol.RefreshAddsOnlyNewToken | src/storage.rs:259-275 | a refresh adds only the new token and only for its own account, lengthens no other one, and keeps the store readable |
| RefreshProtocol.RotationLengthensIff | src/storage.rs:191-241 | an administrator's rotation lets the old token outlast its own expiry exactly when that lies before the end of the overlap |
| RefreshProtocol.RotationAcceptsOldIff | src/storage.rs:191-241 | after a rotation the old token is accepted exactly if the account is enabled and the deadline has not passed or the new token is the old one |
| RefreshProtocol.RotationInvalidatesIff | docs/authentication.md:10-13 | a rotation invalidates the old token for every later request exactly when the account is written disabled, or the deadline is not later and the new token is another one |
| RefreshProtocol.TenMinuteRotationInvalidatesIff | src/http_app.rs:348-353 | with the handlers' ten minutes it does so exactly for an account written disabled |
| RefreshProtocol.RotationKeepsOldToken | src/http_app.rs:348-353 | one rotation after which both tokens are accepted |
| RefreshProtocol.RotatedTokenLasts | src/storage.rs:191-241 | over runs: while the rotated credential is current, the old token is accepted exactly while the account is enabled and the deadline has not passed or the new token is the old one |
| RefreshProtocol.PauseLasts | src/storage.rs:604-637 | over runs: after a pause or delete no token of the account is accepted until a resume, or an upsert or rotation that writes it enabled, whatever refreshes are in flight |
| RefreshProtocol.ResumeLasts | src/storage.rs:604-626 | over runs: a resumed account stays enabled until it is paused or its credential changes |
| RefreshProtocol.LoadsIff | src/http_app.rs:343-347 | the rotate handler loads an account exactly when it exists and its secret can be read |
| RefreshProtocol.HandlerWritesWhatItLoaded | src/http_app.rs:343-356 | the rotate handler writes the account as it was when loaded, in every interleaving |
| RefreshProtocol.HandlerUndoesPauseIff | src/http_app.rs:343-356 | a pause between its two halves is undone exactly when the account was loaded enabled |
| RefreshProtocol.HandlerCanUndoPause | src/http_app.rs:343-356 | a run in which it undoes a pause |
| AdminSessions.AdminSessionManager.LogIn | src/admin.rs:129-187 | purges, then refuses, counts a failure or grants a session as the login function says |
| AdminRuns.LoginAnswers | src/admin.rs:129-187 | in every state a login is refused exactly while the lock lies in the future, else granted exactly for right credentials, with a fresh session and a clean counter |
| AdminSessions.AdminSessionManager.AuthenticateSession | src/admin.rs:189-215 | expired sessions are removed, wrong CSRF tokens refused, and a success moves the last-seen time |
| AdminSessions.AdminSessionManager.StoreCsrfToken | src/admin.rs:231-239 | the second critical section replaces the CSRF digest, or fails when the session is gone |
| AdminSessions.AdminSessionManager.IssueCsrfToken | src/admin.rs:224-240 | both critical sections in a row, when nobody takes the lock in between |
| AdminSessions.AdminSessionManager.LogOut | src/admin.rs:217-222 | only the named session ends |
| AdminSessions.AdminSessionManager.ActiveSessionCount | src/admin.rs:242-249 | expired sessions are removed and the rest counted |
| AdminRuns.LockoutWindow | src/admin.rs:141-168 | one more checked failure than the limit (zero counting as one), with no successful login between, spans at least the lockout, whatever other clients do |
| AdminRuns.ConfiguredLimitExact | src/admin.rs:161-167 | with the policy's own number this holds exactly when the limit is not zero or there is no lockout |
| AdminRuns.LockoutIsEarned | src/admin.rs:148-167 | a client is refused only after at least the limit of its own checked failures, the locking one within the lockout |
| AdminRuns.RefusedExactly | src/admin.rs:141-168 | over runs: a login is refused exactly when the failures since the last success and the last lock have reached the limit, less than the lockout ago |
| AdminRuns.PurgingIsInvisible | src/admin.rs:137-140 | adding or removing purging counts anywhere in a run changes no answer to a login, an authentication or a logout |
| AdminRuns.WriteFailsIff | src/admin.rs:224-240 | after a login or use of a session, a later second half of issuing fails exactly when some event in between ended the session (a logout, or a count, any login or its own check finding it expired) and none after that granted it again |
| AdminRuns.CountChangesWriteIff | src/admin.rs:229-249 | one more count changes the second half's answer exactly when the session is dead at the count's clock, not granted again, and not otherwise removed |
| AdminRuns.PurgeCanFailTheWrite | src/admin.rs:129-249 | runs in which a count, or a failed login of another client, makes the second half fail |
| AdminRuns.IssueSucceedsWhileAlive | src/admin.rs:224-240 | the second half succeeds, whatever purges, while the session is neither ended nor past a limit |
| AdminRuns.CountIsExact | src/admin.rs:242-249 | the reported count is exactly the sessions that would still authenticate |
| AdminRuns.SessionOrigin | src/admin.rs:169-215 | every session there is goes back to a login with right credentials, not ended since, and to its last use |
| AdminRuns.UseIsJustified | src/admin.rs:189-215 | every successful use goes back to a login with right credentials less than the absolute limit ago, with no logout since, and to a use no longer ago than the idle timeout |
| AdminRuns.SessionWorksIff | src/admin.rs:189-215 | a session is valid exactly when it goes back to such a login and such a use; a wrong CSRF token is the only other reason to refuse it |
| AdminRuns.RecentUseKeepsAlive | src/admin.rs:189-215 | from any successful use the session stays there and alive while neither ended nor past a limit, whatever purges happen |
| AdminRuns.CsrfMustBeLatest | src/admin.rs:207-240 | a use that requires a CSRF token succeeds only with the one issued last for that session |
| ProxyChains.CreateChain | src/egress.rs:156-167 | a chain is refused exactly for an empty list and starts at its first endpoint |
| ProxyChains.ProxyChain.RecordFailure | src/egress.rs:177-184 | the active counter goes up, saturating, and the third failure in a row moves on when there is a next endpoint |
| ProxyChains.ProxyChain.RecordSuccess | src/egress.rs:186-190 | the active failure counter is cleared and the index stays |
| ProxyChains.AdvancesExactly | src/egress.rs:177-190 | the index moves, by one, exactly on a failure after two failures recorded while the same endpoint was active, when there is a next one |
| ProxyChains.CountersHold | src/egress.rs:177-190 | over every run the active counters are the lengths of the last streaks of failures and successes, capped at 255, and later endpoints are untouched |
| ProxyChains.RecordedAgainstUsedIff | src/data_plane.rs:516-614 | over runs of the transport, until another usable or an empty list is selected for the account, the chain a request selected from is the one its result is recorded on, its index never goes back, and it is the same exactly when no result recorded in between was a failure after two counted ones with a next endpoint |
| ProxyChains.DroppedResultIsLost | src/data_plane.rs:521-556 | over runs: after an empty list the account has no chain, and its results change nothing, until a usable list is selected |
| ProxyChains.RebuildCountsAgainstOther | src/data_plane.rs:526-556 | any two usable one-element lists: a failure of a request sent through the first counts against the second |
| ProxyChains.LateFailureCountsAgainstNext | src/data_plane.rs:563-614 | a late failure that counts against the next endpoint |
| ProxyChains.FailoverBounds | src/egress.rs:177-190 | over every run the index stays in range, never goes back, and 3 * index <= failures recorded |
| ProxyChains.ReqwestTransport.SelectedProxy | src/data_plane.rs:516-546 | an unchanged source list keeps its chain, a new one rebuilds it, an empty one drops it, an unusable one is an error |
| ProxyChains.ReqwestTransport.RecordTransportResult | src/data_plane.rs:548-556 | a result is recorded on the account's own chain only |
| ProxyChains.ChainFollowsResults | src/data_plane.rs:516-556 | since a rebuild, and until another usable or an empty list is selected, the chain is a fresh one after exactly the results recorded for that account |
| ProxyChains.SelectionIsActiveSource | src/data_plane.rs:543-545 | a selection returns the endpoint at that index of the current source list, so it is never direct |
| ProxyChains.Select | src/data_plane.rs:516-546 | in any state of the cache the connection is direct exactly when the source list is empty |
| HostPatterns.SuffixMatchesExactly | src/egress.rs:205-212 | the byte-suffix test holds exactly when the host's labels end with the suffix's and at least one more is in front |
| HostPatterns.TrimEndDotsExact | src/egress.rs:204-204 | dots at the end of a pattern go, and nothing else |
| HostPatterns.HostMatchesExactly | src/egress.rs:203-227 | the whole matcher decides exactly the label-level meaning of its pattern |

## Left out

- SQLite, file system, backup, write-ahead log and schema migration: foreign library behaviour; each transaction is modelled by its effect on the two tables.
- Validation of egress proxies and JSON serialisation when an account is written: an account's settings are one opaque value.
- CredentialStore.SqliteStore.SetAccountEnabled: one atomic step, although the source reads the row and writes it back under two locks, so a write by someone else in between is not modelled here.
- Storage errors other than those of a refresh: a transaction that fails changes nothing and is no event of a run.
- Cipher, Argon2, HMAC, SHA-256, CRC-32, Base64, JSON, TOML and URL parsing: parameters.
- The SigV4 signature beyond the canonical query: a chain of opaque hashes.
- The text layout of server-sent events, HTTP wiring, the CONNECT proxy, configuration, migration and the HTML pages.
- Header filtering, token and session-id extraction, provider URLs, and the `retry_decision` table: single-branch checks that would only add easy members.
- `ProxyChain::make_active`: it has no caller in `src/`.
- Overflow of instants: times are unbounded integers.
