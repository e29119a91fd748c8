# step-ca UI: a verified model of its core

The repository is a web front end for a certificate authority. This project models
its state machines and algorithms in Dafny and proves what they are for. A handler
is one atomic step at one instant unless said otherwise; instants and durations are
integers in nanoseconds; tables are maps with the row effect of each statement.

- `TlsReload`: the hot-reloading TLS certificate cache as small-step threads over
  files that are rewritten, truncated first, under them; and `GetCertificate` as a
  method. `TlsRenewal`: the two-thirds sleep with 64-bit wrap-around and the endless
  renewal loop.
- `Accounts` and `Tables`: the users, recovery codes and reset tokens, as values and
  as a class whose methods change them. `Passwords`, `Sessions`, `Requests`,
  `Handlers`: password checks, the session cookie, and what each request does.
  `Server`: the handlers in place, each proved to do what its request function says.
  `LoginOutcomes` and `Effects` say when each request logs in, what session it leaves
  and what becomes of every row, code and token, without naming the functions that
  compute it. `Lineage`, `Runs`, `AccountSafety`, `Standing`, `Credentials`,
  `Administration`: runs in which any cookie ever minted may be presented at any time,
  and what holds in all of them.
- `RateLimits`, `TempCreds`: the lazily pruned limiters and the one-shot credential
  store against their full histories.
- `Paths`, `Hostnames`, `DomainPolicy`, `Issuance`: path containment, the host-name
  pattern as a language, the suffix policy, and the issuing paths that depend on them.
- `RealIp`: the forwarding-header scan and block membership. `ApiChain`: the six gates
  of the JSON API. `Calendar`: the date picker's grid and its output.
- `Common`, `Text`: options, results, splitting, joining and trimming.

Assumptions: cookies cannot be forged but may be replayed; tokens drawn at random are
new; bcrypt, SHA-256, time-based codes, certificate parsing and the CA are unknown
functions or answers; database writes succeed; the clock does not go back.

What the proofs found where the code, or what is said about it, falls short. Each has
the exact condition, for all inputs, and an input at which it shows:

- With the root "/" the containment guards let nothing in: exactly then, and when there is
  something to let in, they fail (`ContainmentExactWhen`), as for the file "a"
  (`SlashRootHere`).
- `RetryAfter` is exact if and only if no live entry is older than the one whose leaving
  lifts the block (`RetryExactIff`). Guarded, sequential use keeps that
  (`SequentialRetryExact`); two requests inside at once need not
  (`CrowdedRetryTooShort`).
- The expiry sweep and role synchronisation can each leave no active administrator:
  exactly when (`AdminAfterSweep`, `AdminAfterSync`), and a table each
  (`SweepMayLeaveNone`, `SyncMayLeaveNone`).
- The comment on `UpsertOIDCUser` says that an OIDC row cannot be used for password
  login. `SentinelExact` says which two requests give it a password all the same, and
  `OidcRowMayGetPassword` shows one.
- Without an mtime that changes with every content change the cache may serve an
  old pair: exactly when (`StaleExactly`), and a run (`MtimesMustDiffer`).
- The right password of an active user leads nowhere exactly when its hash is due for a
  rehash and the password is longer than the 72 bytes bcrypt takes
  (`RightPasswordLeadsOn`, `OverlongPassword`).
- The grid is right in every month but those of the years 0 to 99 and December of the
  year before 0, where the Date constructor reads two digits (`GridExact`).

Three remarks that are not shortfalls. `DELETE /api/v1/session` revokes nothing
(`ApiLogoutRevokesNothing`), while the log-out form revokes the sessions of the user
named in any cookie, accepted or not (`EpochExact`). The pending-second-factor test of
the API, said to mirror the log-in page's, differs from it for two kinds of expiry
(`PendingDiffersExactly`, `PendingDiffersHere`); no minted cookie holds either
(`PendingAgrees`). A second factor still due carries no epoch, so what ends it after a
revocation is its five minutes (`PendingEndsByTime`).

## Model

| member | source | states |
|---|---|---|
| TlsReload.CertReloader.FastPath | backend/tlsreload.go:41-49 | the read-locked test answers with the cached pair exactly when both stats worked, something is cached and both mtimes equal those recorded |
| TlsReload.CertReloader.GetCertificate | backend/tlsreload.go:38-78 | one call leaves the cache and answers as `GetCertificateSpec` says: unchanged or unloadable files keep the last good pair, an error only with nothing cached, mtimes recorded only when the stat worked |
| TlsReload.NextInv | backend/tlsreload.go:38-90 | every single step of any call, lock, load, store or file write keeps the cache invariant |
| TlsReload.RunInv | backend/tlsreload.go:38-90 | the invariant holds after every interleaving of any number of calls with any writes |
| TlsReload.CacheNeverBack | backend/tlsreload.go:50-77 | in every interleaving the cached versions of both files never go back, and what is cached stays cached |
| TlsReload.RecordedNeverNewer | backend/tlsreload.go:72-75 | in every reachable state what is cached loads, and the recorded mtimes belong to versions no newer than the loaded ones |
| TlsReload.EveryReturn | backend/tlsreload.go:45-78 | whatever a call returns matched when it was loaded; it is at least as new as the call's own stat unless the reload failed; files unchanged throughout that form a loadable pair give exactly that pair; an error only if no earlier call succeeded |
| TlsReload.NoErrorAfterSuccess | backend/tlsreload.go:61-69 | after one success no call errs |
| TlsReload.SettledPairServed | backend/tlsreload.go:38-78 | if the files are not written any more and form a loadable pair, every call that began since is answered with exactly that pair |
| TlsReload.RenewalPickedUp | backend/tlsbootstrap.go:265-270 | after the two truncate-then-write file writes of a renewal, with any calls in between, every call begun afterwards is answered with the new pair |
| TlsReload.SoloCall | backend/tlsreload.go:38-78 | the small steps of an undisturbed call, advanced to its end, are the sequential method |
| TlsReload.StaleExactly | backend/tlsreload.go:44-60 | an undisturbed call on a loadable pair misses it exactly when the mtimes are those recorded and another pair is cached |
| TlsReload.MtimesMustDiffer | backend/tlsreload.go:44-45 | a run from the start, of a call, a renewal within one tick of the clock and a second call, that answers with the old pair although the new one is in place and loads |
| TlsRenewal.NextRenewalSleep | backend/tlsbootstrap.go:304-312 | the sleep for a leaf, with 64-bit saturation of the difference and wrap-around of the doubling |
| TlsRenewal.SleepExact | backend/tlsbootstrap.go:305-311 | for every 64-bit validity the sleep is at least a minute, and which of the four ranges gives which value, wrapped products included |
| TlsRenewal.TurnExact | backend/tlsbootstrap.go:278-344 | what one turn leaves: two thirds of a new leaf's validity to sleep, or five minutes after a failure, and the old leaf exactly when nothing was written |
| TlsRenewal.Renewer.Turn | backend/tlsbootstrap.go:278-284 | one turn of the loop: overrun sleep, attempt, next sleep or five-minute backoff |
| TlsRenewal.OutlivesAttemptIff | backend/tlsbootstrap.go:321-344 | the leaf in place outlives an attempt if and only if lag, overrun and attempt fit in the validity not slept |
| TlsRenewal.NeverExpired | backend/tlsbootstrap.go:321-344 | in every infinite run from an issued leaf whose skew, backoffs and attempts fit in a third of the validity, at every instant the certificate last written is valid, a new one from the instant it is written |
| Accounts.RoleUpdateSound | backend/db/users.go:111-117 | a role update keeps the tables' invariant, and neither an epoch nor an id nor a used mark goes back |
| Accounts.StepSound | backend/db/users.go:190-193 | recording a later time step keeps accepted steps rising and the row remembering the last |
| Accounts.DisableSound | backend/db/users.go:168-176 | disabling the second factor, codes included, keeps the invariant and starts a new series of steps |
| Accounts.ReplaceCodesSound | backend/db/users.go:196-211 | a new batch of recovery codes gets ids never used before |
| Accounts.UseCodeSound | backend/db/users.go:214-217 | consuming a code is recorded once and for good |
| Accounts.UpsertSound | backend/db/users.go:266-312 | an upsert that succeeds leaves a row of that name and keeps the invariant |
| Accounts.DeleteSound | backend/db/users.go:245-257 | deleting a row with its codes and tokens keeps the invariant, and the id is not used again |
| Accounts.ExpirySound | backend/db/users.go:368-383 | the expiry sweep keeps the invariant and only raises epochs |
| Accounts.InvalidateSound | backend/db/password_reset.go:43-50 | after invalidation the user has no unused token |
| Accounts.CreateTokenSound | backend/db/password_reset.go:32-39 | a token created when none is unused keeps at most one unused token per user |
| Accounts.MarkUsedSound | backend/db/password_reset.go:77-84 | marking a token used is recorded once and for good |
| Tables.Database.UpdateUserRole | backend/db/users.go:111-117 | role and epoch change in one statement, an invalid role changes nothing |
| Tables.Database.UpdateUserActive | backend/db/users.go:120-127 | flag and epoch move in one statement: deactivation clears the flag and bumps the epoch, activation sets it and bumps nothing |
| Tables.Database.ReplaceRecoveryCodes | backend/db/users.go:196-211 | the loop inserts exactly the given hashes, in order, after the old batch is gone |
| Tables.Database.GetUnusedRecoveryCodes | backend/db/users.go:220-236 | the map holds exactly the user's unused codes |
| Tables.Database.UpsertOIDCUser | backend/db/users.go:266-312 | insert, update of an OIDC row, or refusal of a local one, as the row effect says |
| Tables.Database.ExpireOverdueTempUsers | backend/db/users.go:368-383 | the new rows, and the number of rows that were overdue |
| Tables.Database.CreateUser | backend/db/users.go:99-107 | an active local row, or nothing for an invalid role or a taken name |
| Tables.Database.CreateTempUser | backend/db/users.go:328-338 | an active temporary row with its expiry, or nothing for a taken name |
| Tables.Database.GetUserByUsername | backend/db/users.go:37-51 | the one row of that name |
| Tables.Database.BumpSessionEpoch | backend/db/users.go:130-133 | the epoch rises by one, nothing else changes |
| Tables.Database.UpdateUserPassword | backend/db/users.go:136-139 | the hash changes, nothing else |
| Tables.Database.UpdateUserInfo | backend/db/users.go:143-147 | the mail address changes, the name cannot |
| Tables.Database.UpdateUserTOTPPending | backend/db/users.go:156-159 | the pending secret changes, nothing else |
| Tables.Database.EnableUserTOTP | backend/db/users.go:162-165 | the secret is promoted, the remembered step stays |
| Tables.Database.DisableUserTOTP | backend/db/users.go:168-176 | the row's second factor, its step and its recovery codes go |
| Tables.Database.SetTOTPLastStep | backend/db/users.go:190-193 | the step is remembered |
| Tables.Database.UseRecoveryCode | backend/db/users.go:214-217 | an unused code becomes used |
| Tables.Database.DeleteUser | backend/db/users.go:245-257 | the row goes with its codes and tokens |
| Tables.Database.CreatePasswordResetToken | backend/db/password_reset.go:32-39 | one unused token, or nothing for a hash already there |
| Tables.Database.InvalidatePasswordResetTokens | backend/db/password_reset.go:43-50 | every token of the user is used, no other changes |
| Tables.Database.GetValidPasswordResetToken | backend/db/password_reset.go:54-73 | the one unused, unexpired token of that hash |
| Tables.Database.MarkPasswordResetTokenUsed | backend/db/password_reset.go:77-84 | an unused token becomes used |
| Passwords.FreshHash | backend/security/security.go:43-63 | a hash just made verifies its password and needs no rehash |
| Passwords.SentinelNeverVerifies | backend/security/security.go:43-52 | the OIDC sentinel verifies no password, whatever the hash functions do |
| Passwords.VerifyExact | backend/security/security.go:43-52 | which hash function judges a password, by the shape of the stored text; text of any other shape verifies nothing |
| Passwords.RehashExact | backend/security/security.go:57-63 | due exactly for the old scheme, an unreadable work factor or one below ten |
| Passwords.ValidatePassword | backend/security/security.go:67-95 | the flag loop accepts exactly lengths 8 to 72 with a digit, a letter and a special character |
| Sessions.AcceptedInTime | backend/middleware/session.go:117-134 | an accepted cookie of known origin is within 24 hours of its login and 8 hours of its last touch |
| Sessions.AcceptsExactly | backend/middleware/session.go:105-152 | a cookie is accepted if and only if its row is there, active and of its epoch, its birth, if stamped, is at most 24 hours ago and its last activity, if stamped, at most 8 |
| Sessions.ValidatedExactly | backend/middleware/session.go:105-152 | sliding never decides; it leaves the second of the request, a birth where there was none, and nothing else; every refusal but an anonymous one asks for a wipe |
| Sessions.RoleTable | backend/middleware/session.go:170-181 | which role may do what, case by case |
| Sessions.CookieKept | backend/middleware/session.go:136-149 | a cookie's origin stays true whatever the tables and the clock do later |
| Sessions.RoleLadder | backend/middleware/session.go:170-181 | allowed roles form a ladder; an unknown role neither allows nor is allowed |
| Requests.GateFine | backend/middleware/middleware.go:76-93 | the log-in gate mints only cookies with an origin, wiped or slid |
| Requests.SecondFactorPostFine | backend/handlers/auth.go:126-161 | a second-factor post logs in only over an accepted code or recovery code and an earlier password inside the pending time |
| Requests.LoginPostFine | backend/handlers/auth.go:44-124 | a login post keeps the invariant, also on every refusal |
| Handlers.CompleteResetSound | backend/handlers/password_reset.go:191-206 | a completed reset keeps the invariant and leaves the user no unused token |
| Handlers.ServeFine | backend/main.go:229-330 | every request keeps the tables' invariant, lets them only grow and mints no cookie without an origin |
| Server.Session.Validate | backend/middleware/session.go:105-152 | the stepwise validation leaves the values and verdict of `ValidateSession`, also on refusals |
| Server.Handler.RequireLogin | backend/middleware/middleware.go:76-93 | the gate wipes and saves on a clearing refusal, slides and saves on admission |
| Server.Handler.CompleteLogin | backend/handlers/auth.go:188-206 | the session is wiped and stamped with the row's epoch and this second |
| Server.Handler.ValidateTOTP | backend/handlers/totp.go:206-230 | true exactly for a valid code at a step later than the row's last, which is then recorded |
| Server.Handler.VerifyRecoveryCode | backend/handlers/totp.go:182-198 | whatever the map order, some unused code matching the trimmed, upper-cased text is consumed if there is one, and nothing otherwise |
| Server.Handler.SecondFactorPost | backend/handlers/auth.go:126-161 | the body does what its request function says for a code the walk may pick |
| Server.Handler.PasswordPost | backend/handlers/auth.go:79-124 | the password half: wrong, inactive, rehash, a rehash that panics, second factor due, or login |
| Server.Handler.Base | backend/handlers/handler.go:427-434 | a rendered page saves the session and gives it a CSRF token if it has none |
| Server.Handler.LoginPost | backend/handlers/auth.go:44-124 | the body does what its request function says, branch by branch |
| Server.Handler.OidcCallback | backend/handlers/oidc.go:80-224 | role mapping, default, upsert, inactive check and login in that order |
| Server.Handler.OidcLogin | backend/handlers/oidc.go:202-222 | the row the upsert returned logs in if it is active |
| Server.Handler.Logout | backend/handlers/auth.go:216-234 | bumps the epoch of the cookie's user and wipes the session |
| Server.Handler.ForgotPasswordPost | backend/handlers/password_reset.go:46-136 | invalidates, then creates, a token only past every check |
| Server.Handler.ResetPasswordPost | backend/handlers/password_reset.go:151-211 | password, epoch, token and other tokens change only past every check |
| Server.Handler.GetSession | backend/api/session.go:44-84 | validates without sliding, saves whatever the verdict, reports the state |
| Server.Handler.DeleteSession | backend/api/session.go:110-129 | wipes the caller's session and touches no row |
| Server.Handler.UsersPost | backend/handlers/users.go:36-159 | each action's effect and each refusal |
| Server.Handler.AdminUsersTempPost | backend/handlers/admin_temp.go:82-146 | role coercion, expiry choice and the one-minute minimum |
| Server.Handler.ProfilePost | backend/handlers/users.go:204-285 | a password change bumps the epoch and stamps the acting session anew |
| Server.Handler.Profile2FAStart | backend/handlers/totp.go:35-65 | a new pending secret, only while no second factor is enabled |
| Server.Handler.Profile2FAConfirm | backend/handlers/totp.go:94-133 | enables the pending secret and replaces the recovery codes |
| Server.Handler.Profile2FADisable | backend/handlers/totp.go:136-166 | needs password and an unreplayed code |
| Lineage.ServeTraced | backend/handlers/auth.go:188-206 | every cookie of a response is wiped, continues the presented session with its token and birth, or was opened by this login under its fresh token |
| Lineage.EpochExact | backend/db/users.go:111-133 | which requests raise an epoch by one, or remove a row, read off request, session and row; all others leave it |
| Lineage.SweepExact | backend/db/users.go:368-383 | every row after the sweep: an overdue, active temporary user is deactivated and revoked, no other field or row moves and nobody is removed |
| LoginOutcomes.LoginExact | backend/handlers/auth.go:44-206 | for every request: it logs a user in if and only if that user went the password path, the second-factor path or single sign-on to its end, spelled out over form, row and clock |
| LoginOutcomes.PasswordLoginExact | backend/handlers/auth.go:79-124 | the password half logs in exactly the active user of that name with that password and no second factor, when no rehash is refused, and by that path |
| LoginOutcomes.FactorLoginExact | backend/handlers/auth.go:126-161 | the second-factor post logs in if and only if the pending user is active and enrolled and either the code verifies at a step later than the last or the text matches an unused recovery code |
| LoginOutcomes.FactorConsumes | backend/handlers/auth.go:126-161 | what that costs: the time step, or exactly one matching recovery code; nothing else changes, and nothing at all when it fails |
| LoginOutcomes.PickExact | backend/handlers/totp.go:182-198 | the walk over the unused codes finds one exactly when one matches |
| LoginOutcomes.PasswordMakesFactorDue | backend/handlers/auth.go:113-120 | the right password of an enrolled user leaves a cookie for which the second factor is due for five minutes, to the second |
| LoginOutcomes.TwoStepLogin | backend/handlers/auth.go:79-161 | password, then second factor within that time on the cookie it left: a log-in exactly for a good second factor |
| LoginOutcomes.OidcLoginExact | backend/handlers/oidc.go:80-224 | single sign-on logs in exactly the active OIDC row of that name, or the row it adds, when the groups confer a role |
| LoginOutcomes.LoginOpensSession | backend/handlers/auth.go:188-206 | by whichever path: the last cookie of a log-in is accepted at once and for eight hours, exactly as long as the row stays active with that epoch |
| LoginOutcomes.PasswordChangeKeepsSession | backend/handlers/users.go:245-283 | after the own password change the re-stamped cookie is the last one saved and is accepted |
| LoginOutcomes.SlidingKeepsAlive | backend/middleware/middleware.go:76-93 | the cookie of an admitted request is accepted for eight hours more, within the day after its birth, exactly while its row is current |
| LoginOutcomes.GatedCookie | backend/middleware/middleware.go:76-93 | for every request behind the gate: the last cookie saved when it is admitted, and all that are saved when it is not |
| LoginOutcomes.PresentedCookieKept | backend/api/session.go:44-84 | polling the API session, or a page without log-in, hands the presented session back unslid |
| LoginOutcomes.LoggedOutCookie | backend/handlers/auth.go:216-234 | the log-out wipes the session exactly when the token is right, or, through the API, when there is none |
| LoginOutcomes.RefusedLoginCookies | backend/handlers/auth.go:44-161 | a refused log-in changes no row, code or history and hands the session back; only a second factor that can no longer be is forgotten |
| LoginOutcomes.RefusedSignOnCookies | backend/handlers/oidc.go:80-224 | a refused sign-on hands the session back |
| LoginOutcomes.ResetCookies | backend/handlers/password_reset.go:46-211 | neither asking for a link nor following one touches the session |
| Effects.RowExact | backend/main.go:229-330 | for every request and every existing row: taken away exactly by an administrator deleting somebody else, and otherwise, field by field, what request, session and row say |
| Effects.AddedExact | backend/handlers/users.go:43-65 | for every request: the one row it may add, by creation, temporary access or single sign-on, with role, hash, flags and expiry |
| Effects.ToggleExact | backend/handlers/users.go:107-125 | an administrator's toggle of somebody else turns the flag to its negation; no field but flag and epoch moves |
| Effects.FlagTurnsExactly | backend/db/users.go:120-124 | for every request: the flag of an existing row turns if and only if it is such a toggle |
| Effects.RoleExact | backend/handlers/users.go:84-106 | the role asked for is the role given; otherwise only role synchronisation moves a role |
| Effects.NoTokenNoChange | backend/handlers/handler.go:409-425 | without its CSRF token no form behind the gate, and no log-out, changes a row |
| Effects.ResetIsThrough | backend/handlers/password_reset.go:151-211 | a reset completes if and only if an unused, unexpired token of an active user has that hash and the password, typed twice, is acceptable |
| Effects.MailedTokenExact | backend/handlers/password_reset.go:101-111 | the tokens after an accepted request for a link: the user's old ones used, the new one open for thirty minutes, all others as they were |
| Effects.MailedLinkWorks | backend/handlers/password_reset.go:46-211 | the mailed link, followed within thirty minutes on the tables it left, completes |
| Effects.EnrolmentExact | backend/handlers/totp.go:94-133 | enrolment promotes the confirmed secret, and the codes then found unused are exactly the new batch, hash by hash |
| Effects.CodeExact | backend/db/users.go:196-217 | for every request and every recovery code: whether it goes or is used up |
| Effects.TokenExact | backend/db/password_reset.go:43-84 | for every request and every reset token: whether it goes or is used up |
| Runs.StepInv | backend/main.go:229-362 | every step of the machine keeps the invariant of worlds and only adds to what was minted |
| Runs.RunInv | backend/main.go:229-362 | so does every run |
| AccountSafety.RevocationIsForGood | backend/middleware/session.go:136-149 | once a step raises a row's epoch or deletes it, no cookie minted before is accepted in any continuation, and a later one only if a login since opened its session or it is the acting session of the user's own password change |
| AccountSafety.SessionsEndInTime | backend/middleware/session.go:117-134 | in every run an accepted cookie has exactly one login, at most 24 hours ago, and a login or sliding request of its session at most 8 hours ago |
| AccountSafety.PollingKeepsNothingAlive | backend/api/middleware.go:64-68 | 8 hours after the last request that slides or logs in, no cookie at all is accepted, however much is polled |
| Standing.InactiveStaysOut | backend/db/users.go:120-124 | in every run from a deactivation until an administrator activates the row again, the user is never logged in and no cookie of the user is accepted |
| Standing.AcceptedWithinBounds | backend/middleware/session.go:117-149 | in every run a minted cookie of a current row is accepted if and only if it is within 24 hours of its one log-in and 8 of its last activity |
| Credentials.HistoryIsTrue | backend/handlers/auth.go:126-161 | each history entry a request writes had its warrant: password verified, code valid at a later step, code unused, reset completed, session accepted |
| Credentials.HistoryHasWarrant | backend/handlers/auth.go:44-206 | in every run each history entry was written by one of its steps, a request at which the entry's warrant held |
| Credentials.RightPasswordLeadsOn | backend/handlers/auth.go:84-122 | the right password of an active user leads to a log-in or to the second factor if and only if no rehash is due or it is at most 72 bytes long |
| Credentials.OverlongPassword | backend/security/security.go:21-27 | a 73-byte password verified against a hash of the old scheme |
| Credentials.PendingEndsByTime | backend/handlers/auth.go:163-179 | after any step, a log-in by the second-factor path rests on a password accepted since, or comes within the pending time of the step |
| Credentials.SecondFactorAlways | backend/handlers/auth.go:113-161 | in every run each cookie goes back to a login that, for a row with a second factor and save for single sign-on, followed an accepted code or recovery code and, within the pending time, the password |
| Credentials.NothingServesTwice | backend/handlers/totp.go:182-230 | in every run accepted time steps rise between disables, no recovery code and no reset token serves twice, and a user has at most one unused reset token |
| Credentials.ResetIsFinal | backend/handlers/password_reset.go:168-206 | after a completed reset the new password, trimmed as the handler trims it, verifies, no token the user had is ever usable and no cookie minted before is ever accepted |
| Administration.OidcTouchesOwnRows | backend/db/users.go:262-312 | single sign-on changes no field of a local row, and of an OIDC row at most the role, when synchronised |
| Administration.MappedRoleIsBest | backend/handlers/oidc.go:27-48 | the mapped role is the best the groups confer and nothing better |
| Administration.SentinelExact | backend/db/users.go:258-265 | a row with the OIDC sentinel gets a password through exactly two requests, an administrator's reset or a completed mailed reset |
| Administration.OidcRowMayGetPassword | backend/handlers/users.go:134-150 | a table, a session and an administrator's reset after which an OIDC row verifies the password |
| Administration.RolesStayValid | backend/db/users.go:25-32 | in every run every row's role is one of the three |
| Administration.AdminRemains | backend/handlers/users.go:75-122 | without sweeps and role synchronisation an active administrator remains in every run |
| Administration.AdminAfterSweep | backend/db/users.go:368-383 | after a sweep one remains exactly when one was not overdue |
| Administration.SweepMayLeaveNone | backend/db/users.go:368-383 | a table whose one administrator is an overdue temporary user |
| Administration.AdminAfterSync | backend/db/users.go:276-287 | role synchronisation takes the last one away in exactly one case |
| Administration.SyncMayLeaveNone | backend/handlers/oidc.go:184-200 | a table whose one administrator signs on with groups that now confer viewer |
| Administration.ApiLogoutRevokesNothing | backend/api/session.go:110-129 | every cookie minted is accepted after it as before |
| Administration.PendingDiffersExactly | backend/api/session.go:86-95 | the API's pending test and the log-in page's differ for exactly two kinds of past expiry, a negative number and a positive number written as text |
| Administration.PendingDiffersHere | backend/handlers/auth.go:163-179 | one expiry of each kind |
| Administration.PendingAgrees | backend/api/session.go:86-95 | minted cookies hold only positive numbers, and the two tests agree on them |
| Administration.ReportExact | backend/api/session.go:54-67 | "authenticated" is reported exactly for an accepted cookie with no second factor pending |
| RateLimits.Prune | backend/security/security.go:141-146 | the loop keeps exactly the entries inside the window, in order |
| RateLimits.RateLimiter.Clean | backend/security/security.go:138-147 | the list becomes the live part of the full history since the last clear |
| RateLimits.RateLimiter.IsBlocked | backend/security/security.go:150-158 | blocked exactly when the full history has LimitCount live entries |
| RateLimits.RateLimiter.Register | backend/security/security.go:161-166 | the history gains this attempt and agrees with the pruned lists |
| RateLimits.RateLimiter.Clear | backend/security/security.go:169-173 | the history of that address starts anew |
| RateLimits.RateLimiter.Left | backend/security/security.go:176-185 | what is left, counted over the full history |
| RateLimits.RateLimiter.RetryAfter | backend/security/security.go:190-202 | the remaining time of the oldest live entry, zero when not blocked |
| RateLimits.BlockedExactly | backend/security/security.go:150-158 | an address is blocked exactly when its fifth newest attempt since it was cleared is less than five minutes old |
| RateLimits.IpsIndependent | backend/security/security.go:161-173 | the history of one address is that of its own events alone |
| RateLimits.BlockStandsUntilRetry | backend/security/security.go:190-202 | the block never lifts before the reported delay |
| RateLimits.RetryExactIff | backend/security/security.go:190-202 | the block lifts at the reported delay if and only if the oldest live entry is as old as the one whose leaving lifts it, as it always is with at most LimitCount live |
| RateLimits.CrowdedRetryTooShort | backend/security/security.go:190-202 | a run of four failures and then two requests inside at once after which the block still stands at the reported delay |
| RateLimits.RetryAfterHeaderExact | backend/api/middleware.go:174-176 | with LimitCount entries live when the list is pruned, waiting the rounded-up header from the later instant the delay is read at always unblocks (section 10.2.3 of RFC 9110), and a second less never does |
| RateLimits.GuardedUseBound | backend/handlers/auth.go:60-85 | with at most k requests between check and registration, live entries never exceed LimitCount - 1 + k |
| RateLimits.SequentialRetryExact | backend/handlers/auth.go:60-85 | with one request at a time the delay is always exact |
| RateLimits.ResetLimiter.Allowed | backend/handlers/password_reset.go:234-251 | allowed exactly when fewer than three requests let through are live, and only then recorded |
| RateLimits.AllowedExactly | backend/handlers/password_reset.go:234-251 | a further request is allowed exactly unless the third newest allowed one is less than fifteen minutes old |
| RateLimits.AtMostThreePerWindow | backend/handlers/password_reset.go:234-251 | any fifteen-minute window holds at most three allowed requests |
| RateLimits.RefusedNeverProlongs | backend/handlers/password_reset.go:244-247 | leaving a refused request out changes the fate of no other |
| TempCreds.Store.EvictExpired | backend/handlers/temp_creds.go:67-73 | whatever the map order, exactly the expired entries go |
| TempCreds.Store.Deposit | backend/handlers/temp_creds.go:38-46 | records the put and leaves no expired entry |
| TempCreds.Store.Withdraw | backend/handlers/temp_creds.go:49-64 | hands out what is due under the token, once, and leaves no expired entry |
| TempCreds.TakenAtMostOnce | backend/handlers/temp_creds.go:49-64 | in every history each credential is handed out by at most one take |
| TempCreds.TakenInTime | backend/handlers/temp_creds.go:49-64 | a take returns what was put under its token, at most one TTL earlier |
| TempCreds.FirstTakeServed | backend/handlers/temp_creds.go:49-64 | the first take within the TTL gets it: nothing is lost early |
| TempCreds.Store.SizeWithinOneTtl | backend/handlers/temp_creds.go:38-64 | the store's map is never larger than the puts of one TTL before its last access |
| TempCreds.SizeBounded | backend/handlers/temp_creds.go:67-73 | after an access the map fits among the puts of one TTL |
| Paths.CleanIdempotent | backend/handlers/pathsafe.go:60 | cleaning twice is cleaning once |
| Paths.EscapesIffFirstDotDot | backend/handlers/pathsafe.go:63-65 | the two escape tests ask exactly whether the first cleaned component is ".." |
| Paths.ContainedPathExact | backend/handlers/pathsafe.go:48-82 | for every root but "/", accepts exactly relative candidates, not ".", not beginning with "..", and returns root plus the cleaned components |
| Paths.ContainedAbsPathExact | backend/handlers/pathsafe.go:89-103 | accepts exactly the strict component-wise descendants |
| Paths.SiblingRefused | backend/handlers/pathsafe.go:98-101 | a sibling sharing a string prefix is refused |
| Paths.ContainmentExactWhen | backend/handlers/pathsafe.go:48-103 | for all roots and candidates, the guards do what they are for exactly when the root is not "/" or there is nothing to let in |
| Paths.SlashRootHere | backend/handlers/pathsafe.go:54-56 | the file "a" is inside "/" and refused |
| Paths.SlashRootRefusesEverything | backend/handlers/pathsafe.go:54-56 | with root "/" nothing is accepted |
| Paths.SafeNameExact | backend/handlers/pathsafe.go:108-133 | accepts exactly allowlisted names other than "." and ".."; the Base test refuses nothing more |
| Paths.IssuePathsContained | backend/handlers/certs.go:161-222 | every path built from an accepted name passes the containment check |
| Paths.ReturnTargetImage | backend/handlers/pathsafe.go:22-34 | the target is the list or the list plus a positive integer |
| Paths.ReturnTargetIdempotent | backend/handlers/pathsafe.go:22-34 | mapping twice is mapping once |
| Paths.ReturnTargetOfNumber | backend/handlers/pathsafe.go:22-34 | a user's address, leading zeros or not, goes to that user's page, and the number 0 to the list |
| Hostnames.HostnamePattern | backend/handlers/identifiers.go:12 | the pattern, as a language with existential splits, accepts exactly an optional "*." and dot-joined labels (section 2.1 of RFC 1123) |
| Hostnames.IdentifierIsOneComponent | backend/handlers/identifiers.go:20-31 | an accepted identifier is one path component |
| Hostnames.CertDirOneComponent | backend/le/lego.go:53-64 | the directory is the root plus exactly one component |
| DomainPolicy.CoversIsLabelTail | backend/handlers/cert_ops.go:105-116 | for all strings, equality or a dotted suffix is exactly being a tail of the label list |
| DomainPolicy.PolicyExact | backend/handlers/cert_ops.go:105-116 | the policy loop decides exactly membership by labels |
| DomainPolicy.LookalikeRefused | backend/handlers/cert_ops.go:105-116 | a name that ends with a suffix without a label boundary is not covered by it |
| DomainPolicy.OneName | backend/handlers/cert_ops.go:105-116 | a name, its wildcard and its absolute spelling, padded or not, are judged as one lower-case name |
| DomainPolicy.OneEntry | backend/config/config.go:167-180 | a suffix, padded or with a leading dot, is its lower-case name |
| DomainPolicy.GetEnvList | backend/config/config.go:167-180 | the loop yields exactly the trimmed, lower-cased, non-empty entries in order |
| DomainPolicy.UnrestrictedIff | backend/config/config.go:167-180 | the policy is off exactly when every entry is blank or a lone dot |
| Issuance.NothingOutsidePolicyIsSent | backend/handlers/cert_ops.go:118-128 | in every run of issue, renew, LE issue, LE renew and auto-renewal no name outside the policy and no malformed one is sent |
| Issuance.RenewalPassExact | backend/handlers/le_renewer.go:30-107 | one pass calls the issuer exactly once for each due in-policy row, settles it, and leaves every other row as it was |
| Issuance.RenewedRowExact | backend/handlers/le_renewer.go:30-107 | after one pass, column by column: a due in-policy host name that was signed is active with the certificate's own path and dates; one that was not keeps path and dates and has the reason; every other row is as it was |
| Issuance.RenewedNotDueAgain | backend/db/le_db.go:136-158 | a row renewed for thirty days or more is not selected again at that instant, and after the pass a row is selected exactly when it is due |
| Issuance.SelectionExact | backend/db/le_db.go:136-158 | a row is selected exactly when it is active, renews automatically, has an expiry and that is less than thirty days off |
| Issuance.CallExact | backend/handlers/le.go:88-109 | a job settles its own row and no other, calls once, and submits exactly a host name that is reached |
| Issuance.CertificatePath | backend/le/lego.go:53-64 | where the certificate of a host name lies, component by component |
| Issuance.LeIssueExact | backend/handlers/le.go:45-113 | which posts add the pending row and its job, and that the others change nothing |
| Issuance.LeRenewExact | backend/handlers/le.go:118-164 | a renewal inside the policy makes the row pending and queues its job; any other changes nothing |
| Issuance.StepCaExact | backend/handlers/cert_ops.go:118-164 | the CA is asked exactly for a host name inside the policy, a readable duration and two paths strictly below a certificate directory that is not "/" |
| Issuance.LeStore.PostLeIssue | backend/handlers/le.go:45-113 | the post creates one pending row and one job, or changes nothing |
| Issuance.LeStore.PostLeRenew | backend/handlers/le.go:118-164 | policy gate, status step and job |
| Issuance.LeStore.UpdateLECertStatus | backend/db/le_db.go:109-113 | status and error of one row |
| Issuance.LeStore.UpdateLECertPaths | backend/db/le_db.go:116-121 | paths and dates of one row, which becomes active |
| Issuance.LeStore.LECertExists | backend/db/le_db.go:236-240 | exactly whether some row has that domain |
| Issuance.LeStore.CallAndRecord | backend/handlers/le.go:89-108 | one call of the issuer and the row it settles |
| Issuance.LeStore.BackgroundJob | backend/handlers/le.go:88-109 | a queued job runs once, in any order with the others |
| Issuance.LeStore.GetLECertsForRenewal | backend/db/le_db.go:136-158 | exactly the due rows, each once |
| Issuance.LeStore.RunRenewal | backend/handlers/le_renewer.go:30-107 | the loop does what the pass says |
| RealIp.ContainsIsRange | backend/middleware/realip.go:95-102 | byte-wise masked membership is exactly the address range of the block (section 3.1 of RFC 4632) |
| RealIp.RightmostExact | backend/middleware/realip.go:63-70 | the scan answers with the claim of one entry to whose right no entry has one |
| RealIp.AddressExact | backend/middleware/realip.go:81-93 | a bare address, else the host of a host:port pair, and nothing else |
| RealIp.ClaimExact | backend/middleware/realip.go:64-69 | an entry claims its own trimmed address exactly when no trusted block holds it |
| RealIp.AnswerExact | backend/middleware/realip.go:55-77 | the rightmost claim of the list, else that of each single-value header in turn; nothing for an untrusted peer |
| RealIp.AnswerIsUntrusted | backend/middleware/realip.go:55-77 | a trusted address is never the answer and an untrusted peer never gets one |
| RealIp.PrependedText | backend/middleware/realip.go:60-70 | text written in front changes the answer exactly when the original list claims nothing and the text claims something else |
| RealIp.ClientFromHeadersLoop | backend/middleware/realip.go:55-77 | the right-to-left loop and the single-value headers compute that answer |
| RealIp.IpInAny | backend/middleware/realip.go:95-102 | the loop finds a containing block exactly when there is one |
| RealIp.Request.Rewrite | backend/middleware/realip.go:42-51 | the address is rewritten only for a trusted peer and only to an untrusted address |
| RealIp.ParseTrustedProxies | backend/middleware/realip.go:19-36 | accepted exactly when every non-blank entry parses and there is one; each block in order |
| ApiChain.Operation.RoleOp | backend/api/roleop.go:56-69 | an unknown role is refused; metadata, extension and security agree |
| ApiChain.Operation.PublicOp | backend/api/roleop.go:73-77 | the public mode is set and the security requirement emptied |
| ApiChain.Operation.OptionalAuthOp | backend/api/roleop.go:82-86 | the optional mode is set and the security requirement emptied |
| ApiChain.Operation.CsrfWhenSession | backend/api/roleop.go:90-93 | the CSRF check is relaxed, nothing else |
| ApiChain.Operation.RateLimited | backend/api/roleop.go:97-100 | the limiter is scoped onto the operation, nothing else |
| ApiChain.DecoratorsCommute | backend/api/roleop.go:95-100 | decorators may be applied in either order |
| ApiChain.UndeclaredNeverRuns | backend/api/middleware.go:114-119 | an operation with neither role nor auth mode runs for nobody |
| ApiChain.RoleOpExact | backend/api/roleop.go:56-100 | declared for a role, an operation runs exactly for an accepted session whose role reaches it, a body within 5 MiB, a fitting CSRF token and, when limited, an address not blocked |
| ApiChain.OpenOpExact | backend/api/roleop.go:73-100 | declared public or optional, it runs for everybody on the remaining terms |
| ApiChain.RolesAreLadder | backend/api/middleware.go:120-125 | whoever passes at a role passes at every lower one |
| ApiChain.Exchange.SessionGate | backend/api/middleware.go:56-100 | the cookies written are those of the log-in gate; public and optional operations write none and an optional one never refuses |
| ApiChain.Exchange.OptionalSession | backend/api/middleware.go:68-74 | a session that is present is validated without sliding, and the request goes on either way |
| ApiChain.Exchange.RequiredSession | backend/api/middleware.go:68-99 | no accepted session, no further: exactly one refusal, and the cookies of the log-in gate |
| ApiChain.Exchange.CsrfGate | backend/api/middleware.go:133-160 | safe methods, sessions without a token where that is allowed, and equal tokens pass; nothing else |
| ApiChain.Exchange.RoleGate | backend/api/middleware.go:106-127 | no declared role, a role too low, and the refusals of the gates behind, in that order |
| ApiChain.Exchange.RateLimitGate | backend/api/middleware.go:167-181 | refuses exactly a blocked address on a scoped operation |
| ApiChain.Exchange.RecoverGate | backend/api/middleware.go:38-47 | a panic below becomes one problem document |
| ApiChain.Exchange.Serve | backend/api/api.go:85-116 | the handler is entered, once, exactly when every gate holds; otherwise exactly one refusal is written; a panic becomes one problem document |
| Calendar.NextDayIsNextNumber | backend/static/js/datepicker.js:140-144 | the calendar successor is the next day number of section 21.4.1 of ECMA-262 |
| Calendar.NewDateIsMakeDay | backend/static/js/datepicker.js:120-125 | the Date constructor yields the date of the computed day, outside two-digit years |
| Calendar.GridExact | backend/static/js/datepicker.js:115-144 | for every year and month, 42 consecutive days from a Monday with the whole month once, in order and alone unmarked, exactly when no year in view is one the Date constructor reads as two digits |
| Calendar.Picker.RenderGrid | backend/static/js/datepicker.js:115-144 | the three loops build that grid, for any year in view |
| Calendar.DisabledAreThePast | backend/static/js/datepicker.js:108-113 | disabled are exactly the dates before today, by year, month and day |
| Calendar.Picker.Pick | backend/static/js/datepicker.js:156-166 | a past day under data-min "now" changes nothing; any other is picked, and the view moves only to another month |
| Calendar.Picker.Previous | backend/static/js/datepicker.js:225-229 | the month before the one in view |
| Calendar.Picker.Next | backend/static/js/datepicker.js:230-234 | the month after the one in view |
| Calendar.Picker.Commit | backend/static/js/datepicker.js:174-202 | a value exactly for hours and minutes in range |
| Calendar.NavigationInverse | backend/static/js/datepicker.js:225-234 | previous and next month undo each other |
| Calendar.FormatParses | backend/static/js/datepicker.js:32-34 | what is submitted parses back to what was picked, as backend/handlers/admin_temp.go:99-107 reads it |

## Left out

- TlsReload.EveryReturn: a file is read in one step; a read that straddles two writes is not split, and the mtime assumption of `DistinctTimes` is needed.
- TlsRenewal.NeverExpired: runs from the self-signed fallback certificate, whose first sleep follows ten years, are not covered.
- Server.Handler.LoginPost: the limiter's answers are inputs of the form; registering and clearing attempts are the subject of `RateLimits.GuardedUseBound`.
- Server.Handler.PasswordPost: registering a failed attempt with the limiter, likewise.
- Server.Handler.SecondFactorPost: registering a failed attempt with the limiter, likewise.
- Server.Handler.CompleteLogin: clearing the limiter, likewise.
- Server.Handler.ForgotPasswordPost: the limiter's answer is an input, and the link and the mail have no effect on the tables.
- Server.Handler.VerifyRecoveryCode: white space and case are those of ASCII.
- Tables.Database.UpsertOIDCUser: the display name and the time of the last login.
- Tables.Database.UpdateUserInfo: the display name.
- Tables.Database.DeleteUser: the clean-up of the auth log.
- Issuance.RenewedRowExact: a signed certificate whose dates cannot be parsed, which leaves the row active without dates.
- Issuance.LeStore.PostLeIssue: the mail address and the DNS provider kept in the row.
- Issuance.LeStore.UpdateLECertPaths: the path of the key file.
- RealIp.ClientFromHeadersLoop: only the first header line of each name is read, so text in front means text on that line; what a further line before it does is the sender's choice of which line is first.
- Server.Handler.ValidateTOTP: the branches for a failed read or write of the last step are not modelled, since database access succeeds.
- Server.Handler.AdminUsersTempPost: a custom time that parses to the zero instant counts as given, and the older hours field of the form is not read.
- Requests.LoginPostFine: session values the code only displays (user name, role, flashes) and string-typed expiries are not in the cookie, and neither is the age limit of the cookie codec.
- Accounts.RoleUpdateSound: the 32-bit width of the epoch column, which makes an overflowing bump an error that is only logged.
- RealIp.ParseTrustedProxies: parsing addresses, host:port pairs and blocks is a parameter; white space is that of ASCII.
- DomainPolicy.GetEnvList: case and white space are those of ASCII.
- Calendar.DisabledAreThePast: daylight saving, which may make a local day shorter or longer.
- Hostnames.HostnamePattern: label length limits, which the pattern does not have either.
- ApiChain.Exchange.Serve: panics inside a gate, the body reader's own limit for bodies of undeclared length, and the idle-deadline header.
- Template rendering, the other pages, the React spike, OpenAPI generation, health checks, admin console, settings forms: easy members only.
- The CA, ACME, OIDC, SMTP and webhook clients, backups and certificate parsing: libraries and I/O that cannot be seen.
- normalizeIssuePolicy's template table, ensureUICert's bootstrap order and the mutex around one ACME call: constants and sequencing with nothing further to prove.
- The certificates table, whose upsert may set a revoked row active again.
- Rows of the auth log, last-login stamps and display names: written, never read by what is modelled.
