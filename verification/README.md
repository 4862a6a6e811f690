# Accounts, sessions, caches and translations: a verified model

This project models, in Dafny, the stateful core of a NestJS backend: sign-in and lockout, the
self-service email change, refresh-token revocation, the transactions behind credential changes,
the Redis caches for users, roles and permissions, runtime parameters, and the translation and CSV
text transformations. `dafny verify dfyconfig.toml` checks all of it.

## How it is laid out

| Files | Contents |
|---|---|
| `Prelude`, `UserRecord` | Results and errors; the user document and the repository's primitive writes on it |
| `Accounts` | What each handler decides and writes for one user document |
| `AccountRuns`, `LoginGuessing`, `CodeGuessing`, `PasswordRuns`, `EmailChangeRuns`, `EmailChangeOutcomes` | Theorems over whole runs of requests |
| `Database`, `AccountServices` | The user collection with its unique index, `runInTransaction`, and the services as classes |
| `Sessions`, `Lineages`, `SessionServices` | Refresh-token revocation: the protocol, its interleavings, the services |
| `Cache`, `Access`, `AccessServices` | The Redis cache, look-aside reads over runs, permission resolution and the batch lookup |
| `Parameters`, `ParameterDefinitions`, `ParameterServices` | The two-level parameter cache over many instances; the registered parameters; the store and the admin update |
| `Translations`, `Placements`, `TranslationService`, `TranslationReloads`, `Csv` | Trees, flattening, rebuilding, merging; placing any rows over one another; the service and its collection; what repeated startups serve; RFC 4180 |

Code that updates state is a method of a class, proved against a function on values; the theorems
are about those functions. `Accounts.Handle` is that function for the account handlers: it gives
the outcome of a request and the list of writes it issues, and every method of `UserService` and
`AuthService` is shown to do exactly that to one document and nothing to the others.
`Sessions.Outcome` and `Sessions.Next` play this role for the session services, `Access.Fetch`
for cached reads, `ParameterServices.Setup.Read` and `Updated` for parameters.

## How the outside world is modelled

- **Time** is one integer clock in milliseconds that never goes back. A handler that reads the
  clock twice gets two instants, `at` (or `now`) and `end`.
- **Random identifiers and codes** are arguments. Theorems that need it say that they are fresh.
- **bcrypt and sha256** are datatype constructors: a password matches its own hash only, and the
  code hash is injective for a given user.
- **Signed tokens** are the set of payloads the secret has signed. The access token shares the
  secret and the signature check, so it appears in that set too. The `jti` and `exp` claims are
  those of sections 4.1.7 and 4.1.4 of RFC 7519.
- **MongoDB** is a map of documents; the unique index on `email` is a guard on the write.
  A transaction is a list of attempts, each of which may fail at any write, abort, retry, or commit
  with its reply lost.
- **Number texts.** `String` and `Number` are parameters. The law asked of them is that a number some
  text is read as reads back from its own text; a rounding parser with finitely many results meets it
  (`Parameters.CoarseNumbersAreLawful`). Text and flag parameters need no such law.
- **The translation collection** is the sequence of its documents in insertion order. An insertion is
  unordered: it keeps the rows the database accepts, whichever they are, and drops the others silently.
- **Redis** is a map with a deadline per key. Each command may fail; on the denylist it may also
  take effect and lose its reply.
- **Requests against one user** are served one after the other. Requests against sessions are
  interleaved in `Lineages`.
- **Addresses** are non-empty strings, as the request validation guarantees.

## What the proofs found

- **Straddling refresh.** A revoked refresh token stays refused, except by a refresh whose signature
  check falls before `exp` and whose denylist lookup falls at or after the entry's deadline, less than
  a second past `exp`. `Sessions.NoResurrection` proves this exception exact over every run,
  `Sessions.StraddlingRefresh` gives it in the caller's terms, `Lineages.LogoutReachesFlights` shows
  it is the only one for requests in flight too, and `Sessions.StraddlingHappens` is an instance.
- **Lost replies.** A logout that took effect but was reported as failed is the only other difference
  from a server that never forgets (`Sessions.RefreshAnswersLikeIdeal`, with the instance
  `Sessions.HiddenLogoutHappens`).
- **CSV rows without fields** read back as one empty field; the round trip holds exactly when there
  are none (`Csv.RoundTrip`). The reader takes every CRLF as a separator: section 2 of RFC 4180 also
  lets the last record end with one, and a reader that allows for that would lose a lone empty last field.
- **`deepMerge`** is a left-biased union exactly when no path is a text on one side and an object
  on the other (`TranslationService.MergeIsLeftBiased`).
- **Overrides are lost at the next startup.** Every startup and every reload inserts the files' rows
  again, the translation schema has no unique index, and rows are placed in insertion order. Once all
  rows of a file are stored, a load serves the file's texts first, nothing above or below them, and
  the earlier rows' texts only elsewhere, although the merge is meant never to overwrite database
  values. The rows keep winning exactly when they agree with the file on where objects are and never
  differ from it on a text (`TranslationReloads.OverridesSurviveIffTheyAgree`, with the instances
  `TranslationReloads.OverrideIsLost` and `TranslationReloads.NestedOverrideIsLost`).
- **A release can stop every later startup.** Loading fails exactly when some row's key steps into a
  text, not empty and not replaced since, that earlier rows left (`Placements.RebuildIsLatest`). A release
  that turns a text into an object triggers it: the row seeded before blocks the new one
  (`TranslationReloads.NewReleaseCannotStart`). The failed load leaves the rows before the offending
  one served and no file merged.
- **Infinite parameters.** `validateAndCoerce` accepts `Infinity` where `coerceValue` refuses it, so
  only the registered validator stands between the two. Accepted updates of a number parameter are all
  served exactly when its validator refuses both infinities
  (`ParameterServices.ServedIffInfinityIsRefused`). Every shipped one does, so no shipped parameter is
  affected (`ParameterServices.RegisteredUpdatesAreServed`).
- **A second update is refused.** The guard commented as an environment-override check refuses any
  parameter whose current value differs from its default, so an accepted change blocks the next one
  for the parameter's lifetime (`ParameterServices.UpdateBlocksTheNext`, with the instance
  `ParameterServices.SecondUpdateIsRefused`). The model follows the code.
- **`undefined` in a patch** removes a field only when the same patch carries a password; the reset
  token is consumed because it does (`AccountServices.ResetTokenIsSingleUse`).
- **`changePassword`** compares passwords without consulting or moving the lockout counter, so the
  lockout bounds the comparisons of `login` alone (`LoginGuessing.AllGuessesAreBounded`,
  `LoginGuessing.ChangePasswordIsUnbounded`; request throttling is outside the model).
- The `NO_PENDING_EMAIL_CHANGE` branch cannot be reached (`AccountRuns.NoRunAnswersNoPending`).

## Model

| member | source | states |
|---|---|---|
| AccountRuns.EveryWriteKeepsRecord | src/user/service/user.service.ts:265-382 | After each single write of any request, code hash and expiry are stored together, a live code has under 5 attempts and expires 10 minutes after it was sent, the three pending fields are stored together, a previous email comes with revert token and expiry, and a lock is set exactly when the counter is at its maximum |
| AccountRuns.RunKeepsRecord | src/auth/auth.service.ts:120-405 | Every document reached by any run of account requests satisfies that invariant |
| AccountRuns.NoRunAnswersNoPending | src/auth/auth.service.ts:298-301 | No request of any run is answered with NO_PENDING_EMAIL_CHANGE |
| LoginGuessing.GuessSpendsBudget | src/auth/auth.service.ts:131-147 | A wrong guess uses up at least one of the comparisons the document still allows before a given instant |
| LoginGuessing.GuessesAreBounded | src/auth/auth.service.ts:120-162 | In any stretch of length T of any run without a right password or an unlock, login compares at most maxAttempts + floor(T / lockout) passwords |
| LoginGuessing.ChangePasswordIgnoresLock | src/user/service/user.service.ts:234-248 | A password change answers by comparing the current password whatever the lock says, and never moves the lock |
| LoginGuessing.AllGuessesAreBounded | src/auth/auth.service.ts:120-162 | All password comparisons together stay within login's bound plus the number of password-change requests |
| LoginGuessing.ChangePasswordIsUnbounded | src/user/service/user.service.ts:234-248 | The latter number is all that bounds them: for any n there is a run in no time at all that compares n wrong guesses and leaves the document as it was |
| PasswordRuns.LockHolds | src/auth/auth.service.ts:126-147 | After a wrong guess that reaches the maximum, every login within the lockout is refused unheard and changes nothing, unless the account is unlocked |
| PasswordRuns.LockEnds | src/auth/auth.service.ts:126-147 | The first login after the lockout is heard again: it succeeds exactly with the latest password on an active account, and otherwise says which of the two failed |
| PasswordRuns.LoginNeedsLatestPassword | src/auth/auth.service.ts:120-162 | The answer to every login of any run: locked, else wrong unless it carries the password the latest effective reset or change installed, else inactive, else success; a right password leaves no failures and no lock behind |
| PasswordRuns.UnlockForgets | src/user/service/user.service.ts:389-397 | An unlock succeeds, clears counter and lock and touches nothing else |
| PasswordRuns.UnlockOpens | src/user/service/user.service.ts:389-397 | After an unlock and fewer wrong guesses than the maximum, a login is answered by the latest password and the active flag alone |
| PasswordRuns.LogoutAllRaises | src/auth/auth.service.ts:496-498 | A revoke-all succeeds, raises the epoch by exactly one and touches nothing else |
| PasswordRuns.ResetRedeemsToken | src/auth/auth.service.ts:205-265 | The latest reset token works exactly within 24 hours of its request; it then installs the new password, disappears and raises the epoch once; otherwise it is answered as expired and nothing changes |
| PasswordRuns.ResetSpendsToken | src/auth/auth.service.ts:233-265 | After an effective reset no token is accepted until a new one is requested |
| CodeGuessing.IssueEffect | src/user/service/user.service.ts:265-293 | A code is replaced only a minute after the previous one was sent, and starts a fresh budget of attempts |
| CodeGuessing.CheckEffect | src/user/service/user.service.ts:353-376 | A comparison costs an attempt or destroys the code, a right code is consumed, and the sending time stays |
| CodeGuessing.GuessesAreBounded | src/user/service/user.service.ts:265-382 | In any stretch of T milliseconds of any run at most 5 * (floor(T / 60000) + 2) identity codes are compared |
| EmailChangeRuns.CodeOrigin | src/user/service/user.service.ts:280-288 | A stored code hash is that of the code issued last, and no check has succeeded since |
| EmailChangeRuns.PendingOrigin | src/user/service/user.service.ts:329-336 | Stored pending fields are those of the latest staging, neither applied nor reverted since |
| EmailChangeRuns.PreviousOrigin | src/auth/auth.service.ts:303-321 | A stored previous email, revert token and expiry are those of the latest applied change, not reverted since |
| EmailChangeRuns.ChecksUseDistinctCodes | src/user/service/user.service.ts:353-376 | Each successful check presents the code issued last, and two of them never answer to the same issued code |
| EmailChangeRuns.ConfirmAppliesLatestStaging | src/auth/auth.service.ts:292-328 | An effective confirmation applies the address of the latest staging, with its token, within 24 hours; nothing was staged after it and no earlier confirmation used it |
| EmailChangeRuns.RevertRestoresLatestConfirm | src/auth/auth.service.ts:364-394 | An effective revert restores the address the latest applied change replaced, with that change's token, within 72 hours; no change was applied after it and none reverted it before |
| EmailChangeRuns.MilestonesAreOrdered | src/user/service/user.service.ts:306-376 | Over any run from a fresh account: reverts <= applied changes <= stagings <= successful checks <= issued codes |
| EmailChangeRuns.EpochCountsRaises | src/user/repository/user.repository.ts:191-193 | The epoch moves over a stretch of a run by exactly the number of raises its requests wrote |
| EmailChangeRuns.RevertUndoesConfirm | src/auth/auth.service.ts:292-405 | After an applied change and requests that apply and revert nothing, its revert token succeeds exactly inside 72 hours with the old address free; then the old email is back, nothing is pending, and the epoch is two higher plus the raises in between |
| EmailChangeRuns.RevertIsIdempotent | src/auth/auth.service.ts:370-375 | Repeating an effective revert answers success and changes nothing until a newer change is applied |
| EmailChangeRuns.NewerConfirmRetiresOlderToken | src/auth/auth.service.ts:311-328 | Once a newer change is applied, the older change's revert token is answered INVALID_TOKEN for good |
| EmailChangeOutcomes.FirstCodeIsIssued | src/user/service/user.service.ts:265-293 | The first code request of an account is granted and answered with the code itself |
| EmailChangeOutcomes.NextCodeAfterAMinute | src/user/service/user.service.ts:265-293 | A later one is granted exactly when a minute has passed since the last code was sent, whatever became of it |
| EmailChangeOutcomes.AcceptedIffProves | src/user/service/user.service.ts:353-376 | A check accepts exactly the very code answered last, used by no check since, met by fewer than five wrong ones, within ten minutes of its sending |
| EmailChangeOutcomes.StagingSucceedsExactly | src/user/service/user.service.ts:306-340 | The answer to every staging after an issued code: refused for the same address, else for a code that proves nothing, else for a taken address, else staged with its token |
| EmailChangeOutcomes.ConfirmSucceedsExactly | src/auth/auth.service.ts:292-328 | A confirmation of the latest staging, not used and not reverted since, succeeds exactly inside 24 hours with the address free, the refusal saying which failed; then the staged address is in force, the old one can be restored for 72 hours, nothing is pending and the epoch is one higher |
| EmailChangeOutcomes.RevertRefusals | src/auth/auth.service.ts:364-394 | Why a revert of the latest applied change is refused: the 72 hours are over, else the old address was taken |
| Database.TryAllWritesOneDocument | src/user/repository/user.repository.ts:158-202 | A list of repository writes that goes through changes one document, to what the writes say, and nothing else |
| Database.TryAllKeepsUnique | src/user/entities/user.entity.ts:25-26 | No list of writes makes two users share an address |
| Database.TransactionIsAtomic | src/common/utils/transaction.ts:29-33 | Over every failure point and any aborts and retries, a transaction leaves all writes once or none; success means all; an error means none unless a commit's reply was lost |
| Database.TransactionSettles | src/common/utils/transaction.ts:29-33 | Once an attempt is undisturbed after transient aborts only, the transaction ends as the writes themselves would: all applied with success, or their error with nothing changed |
| Database.UndisturbedFallback | src/common/utils/transaction.ts:24-27 | A fallback no write of which fails by itself ends as the writes would |
| Database.UserCollection.Write | src/user/repository/user.repository.ts:158-202 | One write outside a transaction: its effect, or an error with nothing changed |
| Database.UserCollection.Insert | src/user/repository/user.repository.ts:72-90 | A new document, or a unique-index refusal with nothing changed |
| Database.RunInTransaction | src/common/utils/transaction.ts:15-34 | With a session, answer and collection are those of the transaction on values, so unchanged or all writes once; success means applied, an error unchanged unless a commit's reply was lost. When nothing stands in the way, with a session or without, it ends as the writes themselves would. Without a session the collection holds exactly the writes before the one that stopped it |
| Database.RunWithoutSession | src/common/utils/transaction.ts:24-27 | Exactly the writes before the first failure are applied, and that failure is the answer; with none, all are applied and the answer is success |
| AccountServices.UserService.RequestEmailChangeCode | src/user/service/user.service.ts:265-293 | Answers and writes as specified for the document, every other document untouched |
| AccountServices.UserService.ClearEmailChangeCode | src/user/service/user.service.ts:379-382 | Removes hash and expiry, then resets the counter; the sending time stays |
| AccountServices.UserService.AssertEmailChangeCode | src/user/service/user.service.ts:353-376 | Accepts exactly a live code whose hash matches, and issues exactly the specified writes otherwise and then |
| AccountServices.UserService.RequestEmailChange | src/user/service/user.service.ts:306-340 | Answers and writes as specified; a taken address is only revealed after the code was consumed |
| AccountServices.UserService.ChangePassword | src/user/service/user.service.ts:234-248 | Password and epoch change together or not at all; a wrong current password writes nothing; when nothing stands in the way, with a session or without, the right one goes through |
| AccountServices.UserService.UnlockUser | src/user/service/user.service.ts:389-397 | Clears counter and lock of one document |
| AccountServices.UserService.BumpSessionEpoch | src/user/service/user.service.ts:225-232 | Raises one user's epoch by one, or reports a missing user |
| AccountServices.AuthService.Login | src/auth/auth.service.ts:120-162 | The specified outcome and document change for the user found by email; an unknown email changes nothing; a failing write is reported and leaves the document as it was |
| AccountServices.AuthService.LogoutAll | src/auth/auth.service.ts:496-498 | Raises the user's epoch or reports the failure |
| AccountServices.AuthService.ForgotPassword | src/auth/auth.service.ts:205-226 | Stores token and expiry and then announces them; answers nothing and does neither exactly when nobody has the email |
| AccountServices.AuthService.ResetPassword | src/auth/auth.service.ts:233-265 | Password, token removal and epoch change together or not at all, and do change when nothing stands in the way, with a session or without; the notification is emitted exactly after success |
| AccountServices.AuthService.ConfirmEmailChange | src/auth/auth.service.ts:292-347 | Email, revert state, pending removal and epoch change together or not at all, a unique-index refusal included, and do change when nothing stands in the way, with a session or without; both notifications are emitted exactly after success |
| AccountServices.AuthService.RevertEmailChange | src/auth/auth.service.ts:364-405 | Email and epoch change together or not at all, and do change when nothing stands in the way, with a session or without; both notifications exactly after an effective revert, none on a repeated one |
| AccountServices.PasswordChangeRaisesEpochOnce | src/user/service/user.service.ts:244-247 | The transaction's writes change the password and raise the epoch by exactly one, nothing else |
| AccountServices.ResetRaisesEpochOnce | src/auth/auth.service.ts:246-257 | The same, with reset token and expiry removed |
| AccountServices.ConfirmRaisesEpochOnce | src/auth/auth.service.ts:311-328 | The whole new document after a confirmation: email, revert state, nothing pending, epoch one higher |
| AccountServices.RevertRaisesEpochOnce | src/auth/auth.service.ts:386-394 | The whole new document after a revert: restored email, nothing pending, epoch one higher, revert token kept |
| AccountServices.AddressWritesGoThrough | src/user/entities/user.entity.ts:25-26 | The writes of a confirmation or revert go through exactly when nobody else holds the address; otherwise they are refused at the first one |
| AccountServices.ResetTokenIsSingleUse | src/user/repository/user.repository.ts:158-179 | A used reset token finds no document any more; the same undefined fields without a password would remove nothing |
| Sessions.EntryOutlivesToken | src/session/session-revocation.service.ts:36-44 | The written lifetime ends at or after exp and less than a second after it, and none is written exactly when the token has expired |
| Sessions.EntriesAlwaysEndWithTokens | src/session/session-revocation.service.ts:36-44 | On every run the entry of a signed token ends less than a second after the token |
| Sessions.DeadStaysDead | src/auth/auth.service.ts:439-498 | No request, failed or not, makes a rejected token acceptable again |
| Sessions.NoResurrection | src/auth/auth.service.ts:439-472 | Over every run with arbitrary store failures, a token once revoked is refused at every later time, except exactly by a refresh checked before its expiry that asks the store after its entry ended, less than a second past the expiry |
| Sessions.LogoutIsForever | src/auth/auth.service.ts:481-489 | After a logout that reported success, a refresh with that token id succeeds exactly in that straddling case |
| Sessions.StoresHoldOnlyRevoked | src/session/session-revocation.service.ts:36-50 | Epochs reject no token that was not revoked; denylist entries none but those and tokens whose logout took effect with the reply lost |
| Sessions.RevokeAllEndsSessions | src/auth/auth.service.ts:496-498 | After an epoch raise no token of the user signed before it is honoured again, straddling or not |
| Sessions.SignInIsHonoured | src/auth/auth.service.ts:508-537 | A sign-in signs a seven-day token stamped with the current epoch, and a refresh of it within that time succeeds unless the token was logged out or the epoch raised |
| Sessions.LogoutTakesEffect | src/auth/auth.service.ts:481-489 | A logout of a signed, unexpired token with id and expiry succeeds when the store answers, and a later refresh with that id succeeds exactly when it straddles |
| Sessions.RefreshAnswersLikeIdeal | src/auth/auth.service.ts:439-537 | Over every run, refresh answers as a server that remembers every revoked token forever, except exactly when a revoked token straddles its expiry or an entry from a logout whose reply was lost refuses it |
| Sessions.PromptRefreshIsIdeal | src/auth/auth.service.ts:439-537 | A refresh that asks the store before the token expires, as an atomic one does, gets the ideal server's answer unless its logout's reply was lost |
| Sessions.StraddlingRefresh | src/session/session-revocation.service.ts:36-50 | After a stored logout and any events that neither log the token out again nor raise its user's epoch, a refresh of it succeeds exactly when the store answers, the stamp was current, the check precedes exp and the lookup follows the logout by the rounded-up remaining life; that deadline is less than a second past exp |
| Sessions.StraddlingHappens | src/auth/auth.service.ts:439-472 | A concrete logged-out token that such a refresh honours |
| Sessions.HiddenLogoutHappens | src/auth/auth.service.ts:481-489 | A concrete logout reported as failed that is in force: the token is refused a moment later |
| SessionServices.SessionRevocationService.RevokeJti | src/session/session-revocation.service.ts:36-44 | Writes the entry with the rounded-up remaining life, or nothing for an expired token; a store failure is reported |
| SessionServices.SessionRevocationService.IsJtiRevoked | src/session/session-revocation.service.ts:47-50 | Whether an unexpired entry exists; a store failure is reported |
| SessionServices.TokenService.GenerateAuthResponse | src/auth/auth.service.ts:508-537 | Signs an access token and a seven-day refresh token stamped with the epoch that was read |
| SessionServices.TokenService.VerifyRefreshPayload | src/auth/auth.service.ts:500-506 | Accepts exactly signed payloads before the second of their exp |
| SessionServices.TokenService.RefreshToken | src/auth/auth.service.ts:439-472 | Answers and moves the stores as the protocol says, and stamps the new token with the current epoch; an unanswering store refuses |
| SessionServices.TokenService.SignIn | src/auth/auth.service.ts:120-162 | Succeeds exactly for a known, active, unlocked user with the right password whose failures, if any, could be cleared, and then signs a pair stamped with the user's epoch, as the protocol's sign-in does; failures sign nothing |
| SessionServices.TokenService.Register | src/auth/auth.service.ts:80-118 | A free address and name create a user at epoch 0 who gets a token pair at once; a taken one changes nothing; a failure of the write after the creation leaves the user and signs nothing |
| SessionServices.TokenService.Logout | src/auth/auth.service.ts:481-489 | Answers and moves the stores as the protocol says |
| SessionServices.TokenService.LogoutAll | src/auth/auth.service.ts:496-498 | A committed epoch raise is a revoke-all of the protocol |
| SessionServices.CredentialChangeIsRevokeAll | src/auth/auth.service.ts:246-257 | A committed password change, reset, confirmation or revert is, for the sessions, exactly a revoke-all of that user |
| SessionServices.CredentialChangeEndsSessions | src/auth/auth.service.ts:439-472 | End to end: after such a commit no refresh token signed for the user before it is honoured again |
| Lineages.EpochsOnlyGrow | src/user/repository/user.repository.ts:191-193 | Between two steps a user's epoch rises exactly when one of the steps raised it |
| Lineages.LoginSigns | src/auth/auth.service.ts:161 | A login past its checks signs, whatever happens meanwhile: a seven-day token for its user, stamped with the epoch its own read saw |
| Lineages.RefreshSigns | src/auth/auth.service.ts:439-472 | A refresh past its check signs a successor of its token exactly when the store answers, no entry denies the token at the lookup, and the epoch did not rise between the reads behind the two; otherwise no token appears |
| Lineages.LoginsAreHonoured | src/auth/auth.service.ts:439-537 | Under any interleaving, the token of a login in flight is honoured within its seven days as long as it is not logged out and the epoch not raised |
| Lineages.LineageStampsNeverRise | src/auth/auth.service.ts:508-523 | Along a chain of refreshes the user stays and no later token carries a higher stamp |
| Lineages.HonouredIffNoRaiseSinceRoot | src/auth/auth.service.ts:439-472 | Under any interleaving, a refresh of the last token of a chain is honoured exactly when the store answers, no live entry denies it at lookup time, and the epoch was not raised between the read that stamped the chain's first token and this refresh's read |
| Lineages.LineagesDie | src/auth/auth.service.ts:439-472 | After a raise, no token signed before it, descended from one, or signed by a request that read the user before it is honoured by a refresh that reads the user after it |
| Lineages.EntriesAlwaysFit | src/session/session-revocation.service.ts:36-44 | Under any interleaving every entry belongs to a signed token and ends at or after it, less than a second after it |
| Lineages.LogoutReachesFlights | src/auth/auth.service.ts:439-489 | A successful logout also reaches refreshes already in flight, even past their check and read: one is honoured exactly when the store answers, the epoch did not rise between the two reads, its check precedes the expiry, and its lookup follows both the expiry and any entry |
| Cache.InvalidationStaysInItsSpace | src/config/cache/cache.service.ts:94-117 | Each emitted pattern removes only keys of its own space: a wildcard all of them, a plain user id exactly one |
| Cache.OtherKeySpacesAreSafe | src/config/cache/cache.service.ts:94-117 | No emitted pattern removes a denylist or parameter key |
| Cache.StoredIsServed | src/config/cache/cache.service.ts:45-81 | A stored value is served for its lifetime and not after it, the rounded-up key lifetime cutting nothing off but its last instant, and other keys answer as before |
| Cache.CacheService.Get | src/config/cache/cache.service.ts:45-68 | Returns the unexpired parsed entry or a miss, never fails, and changes no later answer |
| Cache.CacheService.Set | src/config/cache/cache.service.ts:70-81 | Stores value, own expiry and rounded-up key lifetime, or nothing on a failure |
| Cache.CacheService.Del | src/config/cache/cache.service.ts:83-89 | Removes the one prefixed key, or nothing on a failure |
| Cache.CacheService.HandleInvalidationPayload | src/config/cache/cache.service.ts:94-117 | Removes exactly the keys the pattern names, or nothing on a failure; for a wildcard the answer is the number removed, for a plain key 1 |
| Cache.CacheService.DelByPattern | src/config/cache/cache.service.ts:134-155 | Removes matching keys only, and all of them when the scan returned all |
| Cache.CacheService.CleanupExpired | src/config/cache/cache.service.ts:175-203 | The sweep, interrupted anywhere and over corrupt entries, changes no later answer for any key; uninterrupted, every expired or unreadable entry it visits is gone |
| Access.StoredKeyIsInjective | src/auth/auth.service.ts:164-165 | User, role and permission entries never share a key |
| Access.StalenessIsBounded | src/config/cache/cache.service.ts:45-81 | Over every run, whatever fails, a served document was current at most 300 s (user), 600 s (role) or 900 s (permission) ago |
| Access.LoadedIsServedAgain | src/config/cache/cache.service.ts:45-81 | What a read loaded is served by every later read within its lifetime, until an invalidation reaches the key, whatever the database says meanwhile |
| AccessServices.ValidatedUserIsRecent | src/auth/auth.service.ts:164-187 | Over every run, whatever fails and happens between its reads, a validated user is the merged answer of a user document at most 300 s and a role document at most 600 s old |
| Access.ReadsAreExact | src/config/cache/cache.service.ts:94-100 | While invalidations land, every cached read of any run serves exactly the current document |
| Access.UserWriteIsCovered | src/user/service/user.service.ts:44-46 | A user write invalidates every key whose document it changed |
| Access.RoleWriteIsCovered | src/rbac/services/role.service.ts:393-400 | A write to any set of roles invalidates every key whose document it changed |
| Access.PermissionWriteIsCovered | src/rbac/services/permission.service.ts:224-227 | A catalog write invalidates every key whose document it changed, cached nulls included |
| AccessServices.DedupKeepsFirsts | src/rbac/services/role.service.ts:76-78 | The deduplication keeps one copy of everything in order of first occurrence |
| AccessServices.MergeHoldsBoth | src/rbac/services/role.service.ts:76-78 | The merged permissions are exactly those the role or the user grants, each once |
| AccessServices.RolePermissionsComeFirst | src/rbac/services/role.service.ts:76-78 | The role's permissions lead, in their order; what follows are the user's grants the role lacks |
| AccessServices.GrantsKeepTheirOrder | src/rbac/services/role.service.ts:76-78 | What follows the role's permissions keeps the user's order |
| AccessServices.RejectedKeepTheirOrder | src/rbac/services/role.service.ts:199-207 | Unknown names are reported in the order in which they were first given |
| AccessServices.AccessService.FindThroughCache | src/rbac/services/role.service.ts:111-130 | Cache, then database, then store, as the look-aside rule says |
| AccessServices.AccessService.GetPermissionsForRole | src/rbac/services/role.service.ts:413-419 | The role's list, empty for an unknown role |
| AccessServices.AccessService.ValidateUser | src/auth/auth.service.ts:164-187 | Over a coherent cache, whatever hits or fails, exactly the current user with the permissions the current role or the user grants, each once, the role's first; an unknown user is an error |
| AccessServices.AccessService.FindPermissionsByNames | src/rbac/services/permission.service.ts:98-136 | For any pattern of hits, misses and failures, a permutation of the per-name answers with nulls and repetitions; the cache stays coherent |
| AccessServices.AccessService.AssertPermissionsExist | src/rbac/services/role.service.ts:187-210 | Accepts exactly when every name but the wildcard exists, returning the ordered deduplication, else the unknown names in order, whatever the cache holds |
| AccessServices.AccessService.WriteUser | src/user/service/user.service.ts:44-46 | Write then invalidate keeps the cache coherent |
| AccessServices.AccessService.UpdateRolePermissions | src/rbac/services/role.service.ts:379-403 | Refuses a missing list, then unknown names, by name and in order; stores the deduplicated list on the role with that id, an unknown id changing nothing; and keeps the cache coherent |
| Parameters.CoerceUndoesString | src/config/parameters/parameter.store.ts:138-164 | Any value the language has reads back from its own text as its type, or is refused exactly when it is an infinite number |
| Parameters.ValidateUndoesString | src/config/parameters/parameter.service.ts:130-157 | Typing the text of any value an update can store means that value, except a THROTTLE_LIMIT of zero or less, which is refused |
| Parameters.TypedFlags | src/config/parameters/parameter.service.ts:147-152 | Typed flags are true, false, 1 and 0 in any case, and nothing else among the words listed |
| Parameters.StoredFlags | src/config/parameters/parameter.store.ts:144-151 | Stored or environment flags may also be si and no, with space around them; other words are refused |
| ParameterDefinitions.DefaultsAreValid | src/config/parameters/parameter-definitions.ts:6-115 | Every registered default has its type, passes its own validator and is finite |
| ParameterDefinitions.AdmittedNumbersAreFinite | src/config/parameters/parameter-definitions.ts:3-4 | No registered validator admits an infinite number |
| Parameters.SetterReadsItsValue | src/config/parameters/parameter.store.ts:27-102 | After a set, that instance reads the value until its lifetime ends, whatever anyone reads in between, exactly when it is finite; an infinite number makes every such read fail |
| Parameters.OthersReadTheValue | src/config/parameters/parameter.store.ts:27-102 | After a set, every instance without a copy of its own reads the value through Redis for its lifetime |
| Parameters.DeletedMeansDefault | src/config/parameters/parameter.store.ts:122-130 | After a delete the deleting instance has no copy, and every instance without one reads the default |
| Parameters.ServedValuesAreRecent | src/config/parameters/parameter.store.ts:27-130 | With any number of instances, a served non-default value was set less than two lifetimes ago, and less than one lifetime before now was the last set or delete after it |
| Parameters.ServedValuesAreTyped | src/config/parameters/parameter.store.ts:59-67 | Every served value has the registered type |
| ParameterServices.ReadsAsOneInstance | src/config/parameters/parameter.store.ts:27-83 | Without failures and overrides, the store's full read is the multi-instance rule |
| ParameterServices.EnvironmentWins | src/config/parameters/parameter.store.ts:34-44 | An environment text decides every read, over Redis and the default, until a set that Redis refuses leaves a local copy of another value |
| ParameterServices.UpdateReadsBack | src/config/parameters/parameter.service.ts:99-157 | An accepted update is answered with its value and keeps being read for its lifetime exactly when it is finite; if a validator lets an infinite one pass, the answer is the default and every read fails |
| ParameterServices.TypedValueIsServed | src/config/parameters/parameter.service.ts:99-157 | An update with the text of a finite value its validator admits is answered with that value and served for its lifetime |
| ParameterServices.ServedIffInfinityIsRefused | src/config/parameters/parameter.service.ts:99-157 | For a number parameter, all accepted updates are served exactly when its validator refuses both infinities |
| ParameterServices.RegisteredUpdatesAreServed | src/config/parameters/parameter.module.ts:14-20 | Every accepted update of a registered parameter, from any state, is answered with its value and served for its whole lifetime |
| ParameterServices.RegisteredValuesCanBeTyped | src/config/parameters/parameter.service.ts:99-157 | For a shipped parameter that holds of every value its validator admits |
| ParameterServices.SecureIsTurnedOn | src/config/parameters/parameter.service.ts:147-152 | Typing "true" turns EMAIL_SECURE on, and the next read says so |
| ParameterServices.RegisteredUpdatesRefuseInfinity | src/config/parameters/parameter.service.ts:112-116 | An infinite number is refused for every registered number parameter and nothing is stored |
| ParameterServices.UpdateBlocksTheNext | src/config/parameters/parameter.service.ts:105-110 | After an accepted update the next one within its lifetime is refused as overridden exactly when the first stored a readable value other than the default |
| ParameterServices.SecondUpdateIsRefused | src/config/parameters/parameter.service.ts:105-110 | EMAIL_HOST set to "mail" cannot be set back to its default a second later |
| ParameterServices.ParameterStore.Get | src/config/parameters/parameter.store.ts:27-83 | Local copy, environment, Redis, default, with every failure branch; other keys untouched |
| ParameterServices.ParameterStore.Set | src/config/parameters/parameter.store.ts:85-102 | Through to Redis, or a local copy while Redis is down; other keys untouched |
| ParameterServices.ParameterStore.Delete | src/config/parameters/parameter.store.ts:122-130 | The local copy goes in any case, the text unless Redis is down |
| ParameterServices.ParameterStore.GetByKeys | src/config/parameters/parameter.store.ts:104-116 | A batch of distinct keys reads as each key alone, unreadable ones skipped |
| ParameterServices.ParameterService.GetAll | src/config/parameters/parameter.service.ts:43-63 | One entry per registered parameter, overridden exactly when readable with a text other than the default's |
| ParameterServices.ParameterService.Set | src/config/parameters/parameter.service.ts:38-41 | Stores exactly validated values of registered keys |
| ParameterServices.ParameterService.Update | src/config/parameters/parameter.service.ts:99-125 | The specified answer and effect on the updated key; every other registered key is read once, or twice after a success |
| Translations.SplitKeyOf | src/common/i18n/i18n.service.ts:176-191 | Splitting the dotted key of a path at its dots gives the path back |
| Translations.SetNestedSetsOneLeaf | src/common/i18n/i18n.service.ts:166-174 | Setting a key changes the text at its path and no other |
| Translations.SameLeavesSameTree | src/common/i18n/i18n.service.ts:176-191 | Trees without empty inner objects that agree on all texts are equal |
| Translations.LeavesArePrefixFree | src/common/i18n/i18n.service.ts:176-191 | No key of a tree's texts is a proper prefix of another |
| Translations.RebuildLeaves | src/common/i18n/i18n.service.ts:60-76 | Rebuilding from rows of a tree succeeds and has exactly the texts the rows mention |
| Translations.RebuildRestores | src/common/i18n/i18n.service.ts:166-191 | Rows that cover a tree rebuild it, in any order and with repetitions |
| Placements.PlacedIffNotBlocked | src/common/i18n/i18n.service.ts:166-174 | A key can be set exactly when no text but the empty one lies strictly above its path |
| Placements.PlacingLeaves | src/common/i18n/i18n.service.ts:166-174 | Setting a key over any tree leaves its text at its path, removes every text above or below it and no other |
| Placements.RebuildIsLatest | src/common/i18n/i18n.service.ts:71-76 | Any rows at all rebuild exactly when none steps into a text, and then each path holds what the latest row above, at or below it left |
| Placements.PlacingFileRows | src/common/i18n/i18n.service.ts:71-76 | Rows of a file can follow any others exactly when no text those leave blocks one of them, and which texts are left |
| TranslationService.FlattenTranslations | src/common/i18n/i18n.service.ts:176-191 | One row per text under its dotted key, each path exactly once, none missing |
| TranslationService.FlatRowsRebuild | src/common/i18n/i18n.service.ts:166-191 | For plain non-empty keys the flat keys are distinct and every permutation of the rows rebuilds the tree |
| TranslationService.MergeIsLeftBiased | src/common/i18n/i18n.service.ts:104-116 | Every path reads the target's text, else the source's, exactly when the two agree on where objects are |
| TranslationService.MergeIsIdempotent | src/common/i18n/i18n.service.ts:104-116 | Merging the same source twice equals merging it once, whatever the shapes |
| TranslationService.DeepMerge | src/common/i18n/i18n.service.ts:104-116 | The loop computes the merge in any order of entries |
| TranslationService.RowsWinOverFile | src/common/i18n/i18n.service.ts:60-93 | After loading rows of a tree that agrees with the file on where objects are, and merging, each text is the database row's if there is one, else the file's |
| TranslationService.ReloadRestoresFile | src/common/i18n/i18n.service.ts:60-93 | Whatever part of a file's rows the database holds, a reload ends with the file's tree |
| TranslationService.I18nService.ResolveDirect | src/common/i18n/i18n.service.ts:149-159 | The text at the split key, nothing for objects and unknown keys |
| TranslationService.I18nService.LoadFromMongo | src/common/i18n/i18n.service.ts:60-82 | Every language ends with its rows' tree completed from its file and the accepted file rows inserted again; fails exactly when some row steps into a text that earlier rows left, and then serves the rows before it without any file; an empty collection seeds the files |
| TranslationService.I18nService.MergeJsonKeys | src/common/i18n/i18n.service.ts:85-102 | Each cached file fills the gaps of its language or becomes it, and those of its rows that the database accepts are appended to the collection |
| TranslationService.I18nService.SeedFromJson | src/common/i18n/i18n.service.ts:118-145 | Each file becomes its language's tree and its accepted rows are appended, whatever the collection holds |
| TranslationService.I18nService.OnModuleInit | src/common/i18n/i18n.service.ts:23-27 | Startup succeeds exactly when the stored rows can be placed and no text they leave blocks an accepted row of a file; then each language is served as loaded with the seeded rows behind the earlier ones; otherwise the rows before the offending one are served |
| TranslationReloads.FileWinsOnceInserted | src/common/i18n/i18n.service.ts:60-93 | At the load after a complete insertion of its plain-keyed file, a language that loads at all is served from the file first: its texts, nothing above or below them, the earlier rows' texts elsewhere |
| TranslationReloads.EveryLaterLoad | src/common/i18n/i18n.service.ts:23-27 | After any number of insertions, one of them complete, a load succeeds exactly when the rows from before the first can be placed and leave room for the file, and then serves the file first |
| TranslationReloads.OverridesSurviveIffTheyAgree | src/common/i18n/i18n.service.ts:84-93 | For any stored rows that rebuild: the next load succeeds and the rows win over the file, as the merge promises, exactly when they agree with it on where objects are and never differ from it on a text |
| TranslationReloads.OverrideIsLost | src/common/i18n/entities/i18n-translation.entity.ts:4-16 | A concrete override that is served before the file is inserted and not after |
| TranslationReloads.NestedOverrideIsLost | src/common/i18n/i18n.service.ts:166-174 | A concrete override below a text of the file, differing from it on no text, that is gone after the insertion |
| TranslationReloads.NewReleaseCannotStart | src/common/i18n/i18n.service.ts:23-27 | A concrete release, turning a text into an object, whose rows cannot be placed behind those of the release before |
| Csv.ReadField | src/common/utils/csv.ts:8-14 | An escaped field reads back as itself before any separator, whatever it contains |
| Csv.RoundTrip | src/common/utils/csv.ts:8-20 | Reading a document by the rules of section 2 of RFC 4180, every CRLF a separator, recovers header and fields exactly when header and rows all have a field |

## Left out

- UserCollection: `userName` has a unique index too; no modelled write changes it.
- TokenService.Register: the verification token and its email are not part of the document, and a transiently failing callback is not retried.
- LoginGuessing.GuessesAreBounded: the bounds are over runs whose writes take effect; a comparison whose counter write fails is not counted by the code either.
- Email verification, resending and the admin `updateUser`: they do not pass the
  session on, so they make no atomicity promise, and the admin path may set `email` without an epoch raise.
- Concurrent requests on one user's counters: the code reads, then writes, and promises nothing about them.
- LoadFromMongo: reading and parsing the JSON files is an argument, `files`.
- SetNested: works on values, like DeepMerge; updating a nested object in place, and a file's tree being shared between the cache and the served map, are not captured.
- CacheService.HandleInvalidationPayload: glob patterns with bracket classes are read literally; no service emits such a pattern.
- CacheService.DelByPattern: a failing scan is a shorter list of batches.
- AccessService.WriteUser: stands for every write of the user service that ends with an invalidation; ids are ObjectIds, so they hold no `*`.
- Role `create`, `update` and `delete` are covered by RoleWriteIsCovered only.
- Role `findByNames` repeats the permission lookup over roles; the cached lists of `findAll` are not modelled.
- Run theorems of Parameters: Redis answers and no environment override is set; those branches are in ParameterServices, for one instance.
- Parameters.Trim and Lower cover ASCII white space and letters.
- Csv: how a number is written is left to the cell; the cell carries its text.
- Prototype keys, arrays and non-text leaves in translation trees, interpolation and the fallback translator.
- Redaction of audit payloads, email sending, audit listeners, throttling, health checks, pagination, controllers, guards and DTOs: wiring, or easy members.
- Cache agreement below the level of a whole request: an invalidation is emitted before the commit, so only the bounded staleness is promised there.
