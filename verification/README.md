# AccessForge verification

A Dafny model of the parts of AccessForge that decide who may do what and which
bytes and pages come out: the account and role endpoints, the login limiter, the
registry projection, the artifact storage loops, the schema parity checker with its
adoption protocol, the background jobs, and the page index and page extraction of the
worker. `dafny verify dfyconfig.toml` checks the whole project.

## How it is laid out

`AccountSpec` defines every account request as one atomic step on a state of accounts,
role assignments, grants and audit rows. `AccountService` is the database itself: a
class with one method per endpoint over stored rows, each proved to do what the step
says, behind the `RateLimiter` class for logins. On the steps stand the theorems over
whole runs: `SuperAdmins`, `Tokens`, `FailureCounter`, `AuditReplay` and, with the limiter
in the loop, `LoginLimits`; and the theorems on what each request may do and does:
`Authority`, `Replies`, `Passwords` and `AuditTrail`. `Registry` and `Migration` establish
what the guards assume: that only super_admin carries the guarded permission, and that
(user, role) is a key.

`PageRuns`, `TcmIndex`, `Subtasks`, `Extraction`, `TaskExtractor` and `Renaming` are the
worker and the desktop code it mirrors. Thread pools appear as a completion order that is
an arbitrary permutation of the work.

`Utf8` and `Storage` are the streaming loops over a map of files; a digest is a fold over
an abstract state. `SchemaParity`, with `TupleSort` for its sorted reports, and `Adoption`
are the comparator and the protocol on top of it. `Jobs` is the job runner. `Common`,
`Ordering`, `AuditMetadata` and `AccountTypes` hold what they share.

## Where the code falls short of a plain reading

Seven properties do not hold without a condition. Each has its exact condition for all
inputs, and a concrete input that shows it fail.

* A password reset or a fifth bad password can leave no active super-admin. The exact
  condition is `SuperAdmins.LosesExactlyWhenDemoted`.
* A second password change in the same microsecond as the first leaves the tokens between
  them alive. The exact condition is `Tokens.TokenLife`.
* `/status` on a locked account keeps its five failures, so five failures do not always
  mean locked. The exact condition is `FailureCounter.BoundBreaksOnlyByRelease`.
* The module_access de-duplication keeps the lowest id, enabled or not, so a user may
  regain a module. The exact condition is `Migration.DeduplicationKeepsAccessExactly`.
* A page that cannot be read makes the worker lose a code's other pages, which the
  desktop version extracts, when the code is not three-part. The exact condition is
  `TaskExtractor.VersionsAgreeExactly`.
* Whether an upload is accepted depends on the whole string only, but an oversize text
  that is also not UTF-8 is reported as one or the other depending on the cut. The exact
  condition is `Storage.TheReportIgnoresTheCutExactly`.
* The parity checker ends in an exception instead of a decision when it has to sort a
  missing name of the file beside a text. The exact condition is
  `SchemaParity.TheFileAloneDecides`, and in `SchemaParity.CheckSchema` for any model.

## Model

| member | source | states |
|---|---|---|
| `AuditMetadata.SafeIsClean` | accessforge-cloud-main/accessforge-cloud-main/backend/rbac/permissions.py:78-98 | The sanitiser leaves no mapping key with a sensitive part (password, passwd, hash, token, secret, in any case) at any depth of the metadata. |
| `AuditMetadata.SafeIsIdempotent` | accessforge-cloud-main/accessforge-cloud-main/backend/rbac/permissions.py:83-98 | Sanitising twice is sanitising once, so rows that pass through again are stable. |
| `AuditMetadata.PlainKeysAreKept` | accessforge-cloud-main/accessforge-cloud-main/backend/rbac/permissions.py:78-80 | A key without the letters p, h, k and c is never dropped; this covers every key the audit replay reads. |
| `AuditMetadata.SensitiveKeysAreDropped` | accessforge-cloud-main/accessforge-cloud-main/backend/rbac/permissions.py:78-80 | A key that holds password, passwd, hash, token or secret anywhere, in any mixture of cases, is dropped. |
| `AuditMetadata.PlainValuesAreRendered` | accessforge-cloud-main/accessforge-cloud-main/backend/rbac/permissions.py:83-98 | Text, enumeration members, instants and other objects are kept as their text, numbers and null as they are, and items one by one. |
| `AuditMetadata.OtherFieldsAreKept` | accessforge-cloud-main/accessforge-cloud-main/backend/rbac/permissions.py:83-98 | A sanitised mapping holds exactly the other keys, each with its own value sanitised. |
| `AccountTypes.ParsedRolesAreTheNamedOnes` | accessforge-cloud-main/accessforge-cloud-main/backend/admin_routes.py:67-80 | Parsing succeeds exactly when every name is a role; the result has no repeats and holds exactly the named roles. |
| `AccountTypes.TheFirstUnknownIsReported` | accessforge-cloud-main/accessforge-cloud-main/backend/admin_routes.py:78-79 | A failed parse reports the first unknown name, with only known names before it. |
| `AccountTypes.ParseRolesInOrder` | accessforge-cloud-main/accessforge-cloud-main/backend/admin_routes.py:67-80 | The loop that keeps invalid names aside until the end computes that parse. |
| `AccountSpec.RunKeepsInv` | accessforge-cloud-main/accessforge-cloud-main/backend/admin_routes.py:148-452 | Over every run of requests: emails stay unique, every role row belongs to an account, accounts and audit rows are never lost, grants never change. |
| `AccountSpec.SortedRolesAreTheSet` | accessforge-cloud-main/accessforge-cloud-main/backend/admin_routes.py:252-255 | The sorted list that is audited holds each changed role exactly once. |
| `AccountService.CountsAreHolders` | accessforge-cloud-main/accessforge-cloud-main/backend/admin_routes.py:235-242 | With (user, role) as a key, the two COUNT queries are the number of holders and zero or one. |
| `AccountService.TotalMinusTargetCountsTheOthers` | accessforge-cloud-main/accessforge-cloud-main/backend/admin_routes.py:243 | `total - target` in the guards is the number of other super-admins. |
| `AccountService.Service.UpdateUserStatus` | accessforge-cloud-main/accessforge-cloud-main/backend/admin_routes.py:148-212 | The stored rows after the status endpoint are those of the specified step, which the run theorems are about; the key on (user, role) is kept. |
| `AccountService.Service.UpdateUserRoles` | accessforge-cloud-main/accessforge-cloud-main/backend/admin_routes.py:215-257 | The same for the role endpoint: guards in order, replaced rows, one audit row for each assignment and removal. |
| `AccountService.Service.ApproveUser` | accessforge-cloud-main/accessforge-cloud-main/backend/admin_routes.py:260-313 | The same for approval. |
| `AccountService.Service.CreateAdminUser` | accessforge-cloud-main/accessforge-cloud-main/backend/admin_routes.py:316-365 | The same for account creation. |
| `AccountService.Service.UnlockUser` | accessforge-cloud-main/accessforge-cloud-main/backend/admin_routes.py:368-390 | The same for unlocking, with the limiter reset of that email exactly on success. |
| `AccountService.Service.ResetUserPassword` | accessforge-cloud-main/accessforge-cloud-main/backend/admin_routes.py:393-434 | The same for the password reset, with the limiter reset exactly on success. |
| `AccountService.Service.RejectUser` | accessforge-cloud-main/accessforge-cloud-main/backend/admin_routes.py:437-452 | The same for rejection. |
| `AccountService.Service.RegisterUser` | accessforge-cloud-main/accessforge-cloud-main/backend/auth.py:238-265 | The same for self-registration. |
| `AccountService.Service.ChangeOwnPassword` | accessforge-cloud-main/accessforge-cloud-main/backend/auth.py:273-331 | The same for the password change: three audited refusals, or a new password, stamp, cleared count and a fresh token. |
| `AccountService.Service.CreateInvitation` | accessforge-cloud-main/accessforge-cloud-main/backend/admin_routes.py:502-533 | The same for the audit row of an invitation. |
| `AccountService.Service.LogIn` | accessforge-cloud-main/accessforge-cloud-main/backend/auth.py:177-236 | The same for login, where the request is admitted exactly when the ideal limiter over the full attempt history admits it. |
| `Authority.AdministrationIsGranted` | accessforge-cloud-main/accessforge-cloud-main/backend/rbac/permissions.py:40-75 | An administrative request is carried out in its actor's name if the token is current, the account active and some role of it carries the key "admin.roles.manage" (for roles) or "admin.users.manage"; anyone else is refused with 401 or 403 and changes nothing. |
| `Authority.AcceptedRequestsAreGranted` | accessforge-cloud-main/accessforge-cloud-main/backend/rbac/permissions.py:54-66 | Whatever such request was accepted, or changed anything, had such an actor. |
| `Authority.OnlyManagersMoveTheRole` | accessforge-cloud-main/accessforge-cloud-main/backend/admin_routes.py:83-98 | The super-admin role is given or taken only by an actor who also holds "admin.roles.manage_super_admin". |
| `Authority.SuperAdminsAreMadeBySuperAdmins` | accessforge-cloud-main/accessforge-cloud-main/backend/admin_routes.py:83-98 | With that key in super_admin alone, only an active super-admin makes another. |
| `Authority.NoneComesFromNone` | accessforge-cloud-main/accessforge-cloud-main/backend/admin_routes.py:83-98 | So over every run, no super-admin comes about where there was none. |
| `Authority.RolesAreTheNamedOnes` | accessforge-cloud-main/accessforge-cloud-main/backend/admin_routes.py:246-256 | An accepted request that names roles leaves its target exactly the named roles and every other account its own. |
| `Authority.OtherRequestsMoveNoRole` | accessforge-cloud-main/accessforge-cloud-main/backend/admin_routes.py:148-452 | No other request moves any role. |
| `Authority.ManagersCanGiveTheRole` | accessforge-cloud-main/accessforge-cloud-main/backend/admin_routes.py:226-256 | A role manager with the guarded key can make a super-admin of any account. |
| `Authority.ActorsKeepTheirAccount` | accessforge-cloud-main/accessforge-cloud-main/backend/admin_routes.py:164-169 | No administrative request disables, locks or rejects its own actor, or takes the actor's super-admin role. |
| `Authority.ResetsOfSuperAdminsAreGuarded` | accessforge-cloud-main/accessforge-cloud-main/backend/admin_routes.py:402-410 | A super-admin's password is reset only by a holder of the guarded key. |
| `Authority.StatusesMoveAsAllowed` | accessforge-cloud-main/accessforge-cloud-main/backend/admin_routes.py:148-452 | Every change of a status is one of the allowed moves of its request, and of the request's own target. |
| `Authority.StatusRequestsSucceed` | accessforge-cloud-main/accessforge-cloud-main/backend/admin_routes.py:188-212 | An ordinary status request of a permitted actor is carried out. |
| `Authority.OrdinaryRolesAreGiven` | accessforge-cloud-main/accessforge-cloud-main/backend/admin_routes.py:226-313 | An ordinary request for roles, an approval or a creation by a permitted actor is carried out. |
| `Authority.PlainRequestsSucceed` | accessforge-cloud-main/accessforge-cloud-main/backend/admin_routes.py:368-390 | So are the unlock of a locked account and the rejection of a pending one. |
| `Authority.AccountsAppearAsAllowed` | accessforge-cloud-main/accessforge-cloud-main/backend/admin_routes.py:316-365 | An account comes into being pending and without roles by self-registration, or with a temporary password and the named roles by a user manager; its email was free. |
| `Passwords.ThePolicyCountsBytes` | accessforge-cloud-main/accessforge-cloud-main/backend/auth.py:60-67 | The policy asks for at least 12 characters and at most 72 bytes, by the UTF-8 encoding itself. |
| `Passwords.ChangesNeedTheCurrentPassword` | accessforge-cloud-main/accessforge-cloud-main/backend/auth.py:279-331 | A change is answered with a token if and only if the actor is signed in, gives the password in force and another acceptable one; it sets that password and nothing else moves any account. |
| `Passwords.ResetsAreDoneExactly` | accessforge-cloud-main/accessforge-cloud-main/backend/admin_routes.py:399-428 | A reset is done if and only if a permitted actor asks for it on an account that has been let in; it sets the temporary password. |
| `Passwords.OtherRequestsMoveNoPassword` | accessforge-cloud-main/accessforge-cloud-main/backend/auth.py:177-265 | No other request moves a password. |
| `Passwords.LoginsAreAnswered` | accessforge-cloud-main/accessforge-cloud-main/backend/auth.py:180-236 | A login the limiter lets through is answered with a token exactly for the account with that email and password when its status allows, with 403 when only the status does not, and with 401 otherwise. |
| `Passwords.TheNewPasswordLogsIn` | accessforge-cloud-main/accessforge-cloud-main/backend/auth.py:316-331 | After a change the new password logs in and the old one is answered with 401. |
| `Passwords.TheTemporaryPasswordLogsIn` | accessforge-cloud-main/accessforge-cloud-main/backend/admin_routes.py:414-428 | After a reset the temporary password logs in and every other one is answered with 401. |
| `Passwords.RegistrationsAreAcceptedExactly` | accessforge-cloud-main/accessforge-cloud-main/backend/auth.py:238-265 | Self-registration is accepted if and only if it is enabled, the password passes, and the email and the id are free. |
| `SuperAdmins.LosesExactlyWhenDemoted` | accessforge-cloud-main/accessforge-cloud-main/backend/admin_routes.py:164-186 | For every request in every state with an active super-admin: none is left afterwards if and only if the request is an accepted reset, a counted fifth bad password or an accepted role removal that hits the only one. |
| `SuperAdmins.SyncedRoleChangesNeverDemote` | accessforge-cloud-main/accessforge-cloud-main/backend/admin_routes.py:83-98 | When only super_admin carries the guarded permission, an accepted role change never takes the last active super-admin: its actor is another one. |
| `SuperAdmins.ActiveSuperAdminSurvives` | accessforge-cloud-main/accessforge-cloud-main/backend/admin_routes.py:226-244 | Over every run whose resets and logins demote nobody, an active super-admin remains. |
| `SuperAdmins.GuardedRunsKeepAnActiveSuperAdmin` | accessforge-cloud-main/accessforge-cloud-main/backend/admin_routes.py:148-452 | Over every run of status, roles, approve, create, unlock, reject, invite, register, change-password and successful login, an active super-admin remains. |
| `SuperAdmins.AResetCanLoseTheLastOne` | accessforge-cloud-main/accessforge-cloud-main/backend/admin_routes.py:393-434 | Outside that set it fails: the only super-admin can reset the own password and leave no active one. |
| `SuperAdmins.ABadPasswordCanLoseTheLastOne` | accessforge-cloud-main/accessforge-cloud-main/backend/auth.py:197-205 | Outside that set it fails: a fifth bad password locks the only active super-admin. |
| `SuperAdmins.RunsKeepASuperAdminRow` | accessforge-cloud-main/accessforge-cloud-main/backend/admin_routes.py:230-244 | Over every run of all requests, some super_admin row remains. |
| `Tokens.OnlyPasswordStepsMoveTheStamp` | accessforge-cloud-main/accessforge-cloud-main/backend/auth.py:70-78 | A request changes an account's stamp if and only if it is an accepted reset or change of that account's password. |
| `Tokens.LastChangeIsTheLastSet` | accessforge-cloud-main/accessforge-cloud-main/backend/auth.py:70-78 | The recursively computed last change exists exactly when some step of the run set the password. |
| `Tokens.StampAfterRun` | accessforge-cloud-main/accessforge-cloud-main/backend/auth.py:316-317 | After every run the stamp is the instant of the last accepted change, or the initial one. |
| `Tokens.TokenLife` | accessforge-cloud-main/accessforge-cloud-main/backend/auth.py:97-124 | With no assumption on the clock: a token authenticates after a run if and only if it is unexpired, the status is allowed, and either no change happened or the last change reuses the stamp it carries. |
| `Tokens.TokensLiveSevenDays` | accessforge-cloud-main/accessforge-cloud-main/backend/auth.py:80-95 | A token issued for an account as it stands authenticates there until the end of its seventh day, in whole seconds. |
| `Tokens.StampOnlyGrows` | accessforge-cloud-main/accessforge-cloud-main/backend/auth.py:317 | When every change comes after the stored stamp, the stamp strictly grows over a run. |
| `Tokens.TokensDieWithThePassword` | accessforge-cloud-main/accessforge-cloud-main/backend/auth.py:70-138 | When no change shares its instant with the stored stamp: a token lives on after a run if and only if it is unexpired, the status is allowed and no step changed its owner's password. |
| `Tokens.AnAdvancingClockGivesNewInstants` | accessforge-cloud-main/accessforge-cloud-main/backend/auth.py:317 | A clock that moves on at every change never comes back to the stored stamp. |
| `Tokens.AReusedInstantKeepsTheToken` | accessforge-cloud-main/accessforge-cloud-main/backend/admin_routes.py:414-419 | Without new instants it fails: a reset in the very microsecond of the previous change leaves the old token alive. |
| `Tokens.IssuedTokensAreLive` | accessforge-cloud-main/accessforge-cloud-main/backend/auth.py:323-331 | Every token in a reply authenticates in the state the request leaves, until it expires; one from a password change does so for active-only endpoints too. |
| `Tokens.ChangeRevokesItsOwnToken` | accessforge-cloud-main/accessforge-cloud-main/backend/auth.py:316-327 | A password change kills the token it was requested with. |
| `FailureCounter.CountMoves` | accessforge-cloud-main/accessforge-cloud-main/backend/auth.py:197-203 | One request adds one, clears or leaves the count of an account, and which of the three is decided by the request's acceptance alone. |
| `FailureCounter.CountIsConserved` | accessforge-cloud-main/accessforge-cloud-main/backend/auth.py:188-230 | In every reachable state the count is the number of bad passwords given while the account could log in since its last login, unlock, reset or change. |
| `FailureCounter.BoundBreaksOnlyByRelease` | accessforge-cloud-main/accessforge-cloud-main/backend/admin_routes.py:188-190 | The bound (count at most five, and five means locked) breaks if and only if the request is an accepted status change of a full account to something other than locked. |
| `FailureCounter.LockoutHoldsOverRuns` | accessforge-cloud-main/accessforge-cloud-main/backend/auth.py:197-205 | Over every run that never applies /status to a locked account the bound holds. |
| `FailureCounter.TheFifthBadPasswordLocks` | accessforge-cloud-main/accessforge-cloud-main/backend/auth.py:197-205 | From a clear count, up to four bad passwords in a row move only the count, and the fifth locks the account. |
| `FailureCounter.StatusCanBreakTheBound` | accessforge-cloud-main/accessforge-cloud-main/backend/admin_routes.py:188-206 | Re-activating a locked account through /status leaves it active with five failures. |
| `AuditReplay.ReplayRoleRows` | accessforge-cloud-main/accessforge-cloud-main/backend/admin_routes.py:252-255 | Replaying a block of assignment or removal rows adds or removes exactly the audited roles. |
| `AuditReplay.SetRolesIsExplained` | accessforge-cloud-main/accessforge-cloud-main/backend/admin_routes.py:246-256 | The rows a role change appends take the old profile of every account to its new one. |
| `AuditReplay.ApproveIsExplained` | accessforge-cloud-main/accessforge-cloud-main/backend/admin_routes.py:293-307 | The same for approval: its final row sets status and role set. |
| `AuditReplay.CreateUserIsExplained` | accessforge-cloud-main/accessforge-cloud-main/backend/admin_routes.py:333-357 | The same for creation, from an unknown account. |
| `AuditReplay.LoginIsExplained` | accessforge-cloud-main/accessforge-cloud-main/backend/auth.py:188-230 | The same for every outcome of a login, with the failure count and the lock. |
| `AuditReplay.StepIsExplained` | accessforge-cloud-main/accessforge-cloud-main/backend/rbac/permissions.py:101-125 | Every request appends rows that explain its effect on the status, roles and failure count of every account. |
| `AuditReplay.ReplayReproducesEveryState` | accessforge-cloud-main/accessforge-cloud-main/backend/rbac/permissions.py:101-125 | In every reachable state, folding an account's audit rows gives nothing, or exactly its current status, role set and failure count. |
| `AuditReplay.KnownStaysKnown` | accessforge-cloud-main/accessforge-cloud-main/backend/auth.py:258-261 | An account whose creation the log saw stays reproducible for the rest of the run. |
| `AuditReplay.EveryCreatedAccountIsReproduced` | accessforge-cloud-main/accessforge-cloud-main/backend/admin_routes.py:340-357 | For every account created during a run, the fold reproduces exactly its current profile. |
| `AuditReplay.AFreshLogReproducesNewAccounts` | accessforge-cloud-main/accessforge-cloud-main/backend/rbac/permissions.py:101-125 | From an empty log, every account that appears during a run, and every other the log knows, is reproduced exactly. |
| `Replies.AdministrationIsAnswered` | accessforge-cloud-main/accessforge-cloud-main/backend/admin_routes.py:148-533 | Every administrative request gets one reply, by the first thing in its way: 401 without a current token, 403 without the permission, 404 without a target, 409 for a taken email, 400 for what does not fit the target or is not a known name, 403 for the super-admin role without its key, 409 for shutting oneself out or leaving no super-admin, 500 for a taken id; with nothing in its way it is done. |
| `Authority.RolesAreSpelled` | accessforge-cloud-main/accessforge-cloud-main/backend/admin_routes.py:67-80 | Each role is asked for by its own name. |
| `AuditTrail.AdministrationIsAttributed` | accessforge-cloud-main/accessforge-cloud-main/backend/rbac/permissions.py:101-125 | Every row an administrative request appends names its actor and its target. |
| `AuditTrail.OwnRequestsAreAttributed` | accessforge-cloud-main/accessforge-cloud-main/backend/auth.py:189-321 | So does every row of a registration, a password change and a login, but for bad credentials, which name no actor. |
| `AuditTrail.RoleChangesAreLogged` | accessforge-cloud-main/accessforge-cloud-main/backend/admin_routes.py:246-255 | A role change logs an assignment for exactly the roles gained and a removal for exactly the roles lost. |
| `AuditTrail.ApprovedRolesAreLogged` | accessforge-cloud-main/accessforge-cloud-main/backend/admin_routes.py:294-297 | An approval logs an assignment for exactly the roles gained. |
| `AuditTrail.SortedRolesAreInNameOrder` | accessforge-cloud-main/accessforge-cloud-main/backend/admin_routes.py:252-255 | The rows of a role change come in the order of the roles' names. |
| `AuditTrail.StatusChangesAreLogged` | accessforge-cloud-main/accessforge-cloud-main/backend/admin_routes.py:188-205 | A status change logs one row whose action tells enabling and disabling from the rest and which keeps both statuses by name. |
| `AuditTrail.PasswordRefusalsAreLogged` | accessforge-cloud-main/accessforge-cloud-main/backend/auth.py:279-314 | A refused password change appends only failure rows with the first reason that applies: wrong current password, policy, unchanged. |
| `AuditTrail.ShutLoginsAreLogged` | accessforge-cloud-main/accessforge-cloud-main/backend/auth.py:213-223 | A right password on a shut account appends only a failure row with the reason and the account's status. |
| `AuditTrail.CreationsAreLogged` | accessforge-cloud-main/accessforge-cloud-main/backend/admin_routes.py:346-356 | An accepted creation logs the email and exactly the roles it gave. |
| `AuditTrail.InvitationsAreLogged` | accessforge-cloud-main/accessforge-cloud-main/backend/admin_routes.py:508-525 | An invitation logs one row on an entity of its own, with the email and the role it names. |
| `RateLimiter.AtMostFiveInAnyWindow` | accessforge-cloud-main/accessforge-cloud-main/backend/auth.py:158-166 | Six admissions of one email with no reset between span at least 300 seconds. |
| `RateLimiter.AdmitsExactly` | accessforge-cloud-main/accessforge-cloud-main/backend/auth.py:158-166 | An attempt is turned down if and only if the fifth last admission since the last reset is less than 300 seconds old. |
| `RateLimiter.ResetsForget` | accessforge-cloud-main/accessforge-cloud-main/backend/auth.py:169-170 | A reset forgets the email's admissions and no other email's. |
| `RateLimiter.RecentOfRecent` | accessforge-cloud-main/accessforge-cloud-main/backend/auth.py:163 | Dropping expired stamps never changes what a later window sees. |
| `RateLimiter.Expired` | accessforge-cloud-main/accessforge-cloud-main/backend/auth.py:154 | The pruning condition over a list is that none of its stamps is recent. |
| `RateLimiter.TracksWithoutExpired` | accessforge-cloud-main/accessforge-cloud-main/backend/auth.py:153-155 | Dropping exactly the expired keys keeps the table in agreement with the full history of every email. |
| `RateLimiter.TracksAfterAttempt` | accessforge-cloud-main/accessforge-cloud-main/backend/auth.py:162-166 | One attempt is decided as the full history decides it and keeps the agreement; no stored list exceeds five. |
| `RateLimiter.LoginLimiter.PruneExpired` | accessforge-cloud-main/accessforge-cloud-main/backend/auth.py:153-155 | The sweep removes exactly the keys without recent stamps and nothing else. |
| `RateLimiter.LoginLimiter.Check` | accessforge-cloud-main/accessforge-cloud-main/backend/auth.py:158-166 | An attempt is admitted if and only if fewer than five attempts admitted since the last reset are under 300 s old, pruning or not. |
| `RateLimiter.LoginLimiter.Clear` | accessforge-cloud-main/accessforge-cloud-main/backend/auth.py:169-170 | A reset forgets the email, as in the full history. |
| `LoginLimits.UncheckedLoginsDoNothing` | accessforge-cloud-main/accessforge-cloud-main/backend/auth.py:163-165 | A login the limiter turns down answers 429 and changes nothing, right password or not. |
| `LoginLimits.LiftingsAdmit` | accessforge-cloud-main/accessforge-cloud-main/backend/admin_routes.py:368-434 | After an accepted unlock or reset the next login for that email is checked, however many came before. |
| `LoginLimits.ChecksAreAdmissions` | accessforge-cloud-main/accessforge-cloud-main/backend/auth.py:177-187 | Over every run, the instants at which a password for an email is checked are the limiter's admissions, as long as no unlock or reset lifts the limit. |
| `LoginLimits.AtMostFiveChecksInAnyWindow` | accessforge-cloud-main/accessforge-cloud-main/backend/auth.py:158-187 | Over every run of all requests, at most five passwords for one email are checked in any 300 seconds between two liftings. |
| `LoginLimits.GuardedRunsAreRuns` | accessforge-cloud-main/accessforge-cloud-main/backend/auth.py:177-187 | Runs behind the limiter are runs of the requests, so the other run theorems hold of them. |
| `Registry.BuildCatalogue` | accessforge-cloud-main/accessforge-cloud-main/backend/rbac/registry.py:196-244 | The nested loops build the catalogue in registry order, admin entries last. |
| `Registry.CatalogueKeys` | accessforge-cloud-main/accessforge-cloud-main/backend/rbac/registry.py:246-260 | The catalogue's keys are the separately computed view, action and admin key sets. |
| `Registry.CatalogueIsDistinct` | accessforge-cloud-main/accessforge-cloud-main/backend/rbac/registry.py:196-244 | When every module names its permissions after itself, no two catalogue entries share a key, so the flush of the projected rows cannot clash. |
| `Registry.ModuleKeysAreHarmless` | accessforge-cloud-main/accessforge-cloud-main/backend/rbac/registry.py:247-260 | In such a registry no module key is empty or is the guarded super-admin permission. |
| `Registry.ProjectionKeepsFlags` | accessforge-cloud-main/accessforge-cloud-main/backend/tools/sync_registry.py:24-41 | Projected modules keep their enabled flag, new ones start enabled, other rows are untouched. |
| `Registry.ProjectionReflects` | accessforge-cloud-main/accessforge-cloud-main/backend/tools/sync_registry.py:24-41 | With distinct keys every registry entry is reflected by its row. |
| `Registry.ProjectionIsIdempotent` | accessforge-cloud-main/accessforge-cloud-main/backend/tools/sync_registry.py:24-41 | Projecting a reflected registry changes no module row. |
| `Registry.Database.SyncRole` | accessforge-cloud-main/accessforge-cloud-main/backend/tools/sync_registry.py:58-68 | Whatever one role held, deleting stale and adding missing rows leaves exactly the desired set and no other role changes. |
| `Registry.Database.SyncRegistry` | accessforge-cloud-main/accessforge-cloud-main/backend/tools/sync_registry.py:18-79 | From any stored state every role's grants become the expected ones over the existing keys, modules and permissions are the projection, and a second sync changes nothing. |
| `Registry.RolesFormAChain` | accessforge-cloud-main/accessforge-cloud-main/backend/rbac/registry.py:262-286 | guest, viewer, engineer, admin, super_admin are increasing permission sets, whatever stale permission rows exist. |
| `Registry.SyncedGrantsAreOrdered` | accessforge-cloud-main/accessforge-cloud-main/backend/rbac/registry.py:274-286 | After a sync the stored grants form that chain and only super_admin carries the guarded permission. |
| `Registry.AdminsAdminister` | accessforge-cloud-main/accessforge-cloud-main/backend/rbac/registry.py:262-271 | After a sync admin holds every admin key but the guarded one. |
| `Registry.ModulesAreOpen` | accessforge-cloud-main/accessforge-cloud-main/backend/rbac/registry.py:262-271 | After a sync every module can be viewed by viewer, engineer and admin, and acted in by engineer and admin. |
| `Registry.NothingElseIsGranted` | accessforge-cloud-main/accessforge-cloud-main/backend/rbac/registry.py:262-286 | After a sync guest holds nothing, no role below super_admin holds any other key, and super_admin holds every stored key. |
| `Registry.CatalogueIsStored` | accessforge-cloud-main/accessforge-cloud-main/backend/tools/sync_registry.py:43-49 | Every catalogue entry has its permission row in its business area. |
| `Registry.AdminKeysByName` | accessforge-cloud-main/accessforge-cloud-main/backend/rbac/registry.py:262-286 | After a sync each of the six admin keys, by its name, is held by super_admin and admin, and "admin.roles.manage_super_admin" by super_admin alone. |
| `Registry.ShippedExports` | accessforge-cloud-main/accessforge-cloud-main/backend/rbac/registry.py:59-183 | In the shipped registry, the export of check control, of utilization and of crew hours is held by engineer and admin and not by viewer. |
| `Registry.ShippedModulesAreNamespaced` | accessforge-cloud-main/accessforge-cloud-main/backend/rbac/registry.py:59-183 | Every shipped module names its permissions after itself. |
| `Registry.ShippedSyncGuardsSuperAdmins` | accessforge-cloud-main/accessforge-cloud-main/backend/rbac/registry.py:59-183 | A sync of the shipped registry establishes the premise of the super-admin guards. |
| `Migration.DeduplicationIsUnique` | accessforge-cloud-main/accessforge-cloud-main/alembic/versions/c9d0e1f2a3b4_integrity_indexes.py:53-66 | After the deletion the unique index can be built, for any table and key. |
| `Migration.OnlyDuplicatesAreDeleted` | accessforge-cloud-main/accessforge-cloud-main/alembic/versions/c9d0e1f2a3b4_integrity_indexes.py:53-66 | The deletion changes a table if and only if its key had duplicates. |
| `Migration.EveryGroupSurvives` | accessforge-cloud-main/accessforge-cloud-main/alembic/versions/c9d0e1f2a3b4_integrity_indexes.py:53-66 | Every key value that was present is still present. |
| `Migration.UniqueRowsAreDistinct` | accessforge-cloud-main/accessforge-cloud-main/alembic/versions/c9d0e1f2a3b4_integrity_indexes.py:53-58 | With the key unique, any listing of the table has one row for each assignment, as the counts of the guards need, and exactly the roles each user holds. |
| `Migration.DeduplicationKeepsRoles` | accessforge-cloud-main/accessforge-cloud-main/alembic/versions/c9d0e1f2a3b4_integrity_indexes.py:53-58 | No user's role set or effective permissions change. |
| `Migration.DeduplicationKeepsAccessExactly` | accessforge-cloud-main/accessforge-cloud-main/alembic/versions/c9d0e1f2a3b4_integrity_indexes.py:59-64 | The modules a user is shut out of are kept, for all users, if and only if the lowest row of each group with a disabled row is itself disabled. |
| `Migration.AnEnabledDuplicateCanWin` | accessforge-cloud-main/accessforge-cloud-main/alembic/versions/c9d0e1f2a3b4_integrity_indexes.py:59-64 | Otherwise they change: on a named table the enabled row with the lower id wins, and its user is no longer shut out. |
| `Migration.Tables.Upgrade` | accessforge-cloud-main/accessforge-cloud-main/alembic/versions/c9d0e1f2a3b4_integrity_indexes.py:47-68 | Both tables end de-duplicated, both unique keys hold, every user keeps the role set. |
| `PageRuns.AscendingIsUnique` | accessforge-cloud-main/accessforge-cloud-main/worker/redsea_toolkit.py:539-542 | An ascending page list is determined by its elements, so any completion order sorts to the same list. |
| `PageRuns.RunsAreSeparated` | accessforge-cloud-main/accessforge-cloud-main/worker/redsea_toolkit.py:539-553 | The runs are consecutive, apart from each other, and concatenate back to the pages. |
| `PageRuns.RunsAreTheMaximalBlocks` | accessforge-cloud-main/accessforge-cloud-main/worker/redsea_toolkit.py:539-553 | [a, b] is a run if and only if it is a maximal block of consecutive members of the page set. |
| `PageRuns.GroupContiguous` | accessforge-cloud-main/accessforge-cloud-main/worker/redsea_toolkit.py:539-553 | The loop computes those runs from any list, repeated and unsorted pages included. |
| `TcmIndex.RangesAreTheMaximalBlocks` | accessforge-cloud-main/accessforge-cloud-main/worker/redsea_toolkit.py:815-845 | The stored ranges of a code are exactly the maximal blocks of pages that carry it. |
| `TcmIndex.ScanSinglePdf` | accessforge-cloud-main/accessforge-cloud-main/worker/redsea_toolkit.py:815-845 | The page and match loops compute that mapping of the document; an unreadable one gives none. |
| `TcmIndex.IndexIgnoresTheOrder` | accessforge-cloud-main/accessforge-cloud-main/worker/redsea_toolkit.py:847-886 | Whatever the order in which the futures finish, the index is the dictionary of a sequential search. |
| `TcmIndex.BestAnswersTheFolder` | accessforge-cloud-main/accessforge-cloud-main/worker/redsea_toolkit.py:888-902 | An answer that is best among the stored ranges answers the folder: none exactly when no page has the code, else a maximal run as long as any block of pages anywhere. |
| `TcmIndex.AnswersAgreeOnLength` | accessforge-cloud-main/accessforge-cloud-main/worker/redsea_toolkit.py:888-902 | The length of the answer does not depend on the order. |
| `TcmIndex.TcmIndexer.BuildIndex` | accessforge-cloud-main/accessforge-cloud-main/worker/redsea_toolkit.py:847-886 | A build that is not stopped before its last completion holds exactly the folder's index under distinct keys, a stopped one that of the completions handled; the cache is saved if and only if the flag was never set and there is a document. |
| `TcmIndex.TcmIndexer.FindBestOccurrence` | accessforge-cloud-main/accessforge-cloud-main/worker/redsea_toolkit.py:888-902 | The loop returns a longest stored range; among ties, the first entry that has one and its earliest run. |
| `TcmIndex.TcmIndexer.BuildAndFind` | accessforge-cloud-main/accessforge-cloud-main/worker/redsea_toolkit.py:847-902 | Building in any order and asking answers the folder. |
| `Subtasks.HeadsAreUnambiguous` | accessforge-cloud-main/accessforge-cloud-main/worker/redsea_toolkit.py:904-922 | A family prefix is read off a code in one way only, two or three middle digits. |
| `Subtasks.FamiliesDoNotCapture` | accessforge-cloud-main/accessforge-cloud-main/worker/redsea_toolkit.py:904-922 | A code starts with a task's family prefix if and only if that is its own family. |
| `Subtasks.ThreePartCodesHaveAFamily` | accessforge-cloud-main/accessforge-cloud-main/worker/redsea_toolkit.py:904-922 | Every code of two, two or three, and two digits has a family, its first two fields. |
| `Subtasks.OnlyThreePartCodesHaveAFamily` | accessforge-cloud-main/accessforge-cloud-main/worker/redsea_toolkit.py:904-922 | Nothing else has one. |
| `Subtasks.SubtasksBeginWithTheFields` | accessforge-cloud-main/accessforge-cloud-main/worker/redsea_toolkit.py:904-922 | Its subtasks are exactly the indexed codes that begin with those fields. |
| `Subtasks.FourPartCodesExpandToNothing` | accessforge-cloud-main/accessforge-cloud-main/worker/redsea_toolkit.py:904-922 | A four-part code has no subtasks. |
| `Subtasks.OneRoundIsEnough` | accessforge-cloud-main/accessforge-cloud-main/worker/handlers.py:372-378 | For every index and every task set, a second round of expansion adds nothing. |
| `Subtasks.FindRelatedSubtasks` | accessforge-cloud-main/accessforge-cloud-main/worker/redsea_toolkit.py:904-922 | The scan of the index collects exactly the codes under the prefix. |
| `Subtasks.ExpandTasks` | accessforge-cloud-main/accessforge-cloud-main/worker/handlers.py:372-378 | The loop over the tasks computes one round, closed under related subtasks. |
| `Extraction.MatchesAreTheWanted` | accessforge-cloud-main/accessforge-cloud-main/worker/redsea_toolkit.py:1713-1755 | The matching page numbers are the pages that contain the code and are no index pages, ascending, and picking them is filtering the document. |
| `Extraction.ExtractedPagesHoldTheCode` | accessforge-cloud-main/accessforge-cloud-main/worker/redsea_toolkit.py:1757-1773 | A page is extracted if and only if its text can be read and holds the code, and it has no index marker or at most ten codes. |
| `Extraction.ScanWithThreads` | accessforge-cloud-main/accessforge-cloud-main/worker/redsea_toolkit.py:1713-1740 | Collecting in any completion order and sorting gives those numbers. |
| `Extraction.ScanParallel` | accessforge-cloud-main/accessforge-cloud-main/worker/redsea_toolkit.py:1713-1751 | So does the whole scan, with its page-by-page fallback when the thread pool raises. |
| `Extraction.ScanSequential` | accessforge-cloud-main/accessforge-cloud-main/worker/handlers.py:107-117 | The worker's scan gives the same numbers if and only if every page is readable, and aborts otherwise. |
| `Extraction.InsertRuns` | accessforge-cloud-main/accessforge-cloud-main/worker/redsea_toolkit.py:1824-1830 | Inserting [first, last] of every run gives exactly the picked pages, once each, in order. |
| `Extraction.ExtractPages` | accessforge-cloud-main/accessforge-cloud-main/worker/redsea_toolkit.py:1806-1833 | The whole pipeline, under any completion order or with no thread pool, is the plain filter of the document. |
| `Extraction.ExtractRelated` | accessforge-cloud-main/accessforge-cloud-main/worker/redsea_toolkit.py:1806-1833 | One file per code with pages, in the order of the codes, each the filter of the document. |
| `Extraction.FilesAreTheFilteredDocuments` | accessforge-cloud-main/accessforge-cloud-main/worker/redsea_toolkit.py:1820-1830 | The files are, for each code with pages, the filtered document under the code's name, and nothing else. |
| `TaskExtractor.SortedCodesAreTheCodes` | accessforge-cloud-main/accessforge-cloud-main/worker/redsea_toolkit.py:1802 | Sorting the found set keeps exactly its codes, each once and in text order. |
| `TaskExtractor.RelatedCodesAreTheFamily` | accessforge-cloud-main/accessforge-cloud-main/worker/redsea_toolkit.py:1775-1804 | The related codes are the other codes of the code's family that stand on some page, by text or by OCR of a blank page, in order. |
| `TaskExtractor.FindRelated` | accessforge-cloud-main/accessforge-cloud-main/worker/handlers.py:80-100 | The page loop computes them; for a three-part code one page that cannot be read ends it. |
| `TaskExtractor.RunExtract` | accessforge-cloud-main/accessforge-cloud-main/worker/redsea_toolkit.py:1648-1707 | The desktop version, under any completion orders and options, writes the filtered document for each related code, or else for the code alone. |
| `TaskExtractor.TheOptionsDoWhatTheySay` | accessforge-cloud-main/accessforge-cloud-main/worker/redsea_toolkit.py:1675-1705 | The base extraction writes the filtered document, without its first page on demand, in one file or one a page. |
| `TaskExtractor.ExtractInWorker` | accessforge-cloud-main/accessforge-cloud-main/worker/handlers.py:104-132 | The worker's loop over the codes writes the desktop's files, or nothing when a page cannot be read. |
| `TaskExtractor.ExtractTask` | accessforge-cloud-main/accessforge-cloud-main/worker/handlers.py:80-176 | The worker version; whenever it writes related files, every page was read and the files are exactly the desktop's. |
| `TaskExtractor.RelatedCodesComeFirst` | accessforge-cloud-main/accessforge-cloud-main/worker/redsea_toolkit.py:1648-1707 | On a readable document, one file for each code is written exactly when a related code stands on some page and some code on a wanted one; otherwise the code's own file, or none. |
| `TaskExtractor.VersionsAgreeExactly` | accessforge-cloud-main/accessforge-cloud-main/worker/handlers.py:138-173 | The two versions write the same files if and only if the code is three-part, every page can be read, or no page is wanted. |
| `TaskExtractor.AFourPartCodeCanLoseItsPages` | accessforge-cloud-main/accessforge-cloud-main/worker/handlers.py:143-173 | A four-part code whose card follows a page that cannot be read: the desktop extracts the card and the worker nothing. |
| `Utf8.AutomatonIsTheGrammar` | accessforge-cloud-main/accessforge-cloud-main/backend/storage.py:312-339 | The byte automaton accepts exactly the UTF8-octets of section 4 of RFC 3629. |
| `Utf8.TheGrammarIsTheEncoding` | accessforge-cloud-main/accessforge-cloud-main/backend/storage.py:312-339 | That grammar's characters are exactly the encodings of characters, and no two characters share one. |
| `Utf8.FailureIsForever` | accessforge-cloud-main/accessforge-cloud-main/backend/storage.py:335-339 | Once a prefix is bad, no continuation is valid. |
| `Utf8.PendingHoldsTheState` | accessforge-cloud-main/accessforge-cloud-main/backend/storage.py:312 | The bytes kept back between two calls hold all that the decoder has to remember. |
| `Utf8.IncrementalDecoder.Decode` | accessforge-cloud-main/accessforge-cloud-main/backend/storage.py:335-339 | The incremental decoder follows the automaton across calls and keeps its buffer when it raises. |
| `Storage.TypesAreTheTable` | accessforge-cloud-main/accessforge-cloud-main/backend/storage.py:88-155 | Which extensions are known, which MIME claims each admits, and the kind and type it is reported with. |
| `Storage.AcceptableContentsPass` | accessforge-cloud-main/accessforge-cloud-main/backend/storage.py:255-267 | A content passes as a PDF, ZIP-based, OLE, PNG or JPEG file if and only if it begins with that signature, and as CSV if and only if it is valid UTF-8. |
| `Storage.DescriptionsFollowTheContent` | accessforge-cloud-main/accessforge-cloud-main/backend/storage.py:269-287 | A file is described by its extension's kind and type if and only if its content passes, and as something else otherwise. |
| `Storage.DigestsArePieced` | accessforge-cloud-main/accessforge-cloud-main/backend/storage.py:331 | The digest of a whole is rendered from its pieces, absorbed one after the other. |
| `Storage.AbsorbAppend` | accessforge-cloud-main/accessforge-cloud-main/backend/storage.py:331 | Folding a digest piece by piece is folding the whole. |
| `Storage.FirstExtends` | accessforge-cloud-main/accessforge-cloud-main/backend/storage.py:328-330 | The running prefix is the first 16 bytes of everything received. |
| `Storage.SomeChunkCrosses` | accessforge-cloud-main/accessforge-cloud-main/backend/storage.py:325-327 | A stream that is too long has a chunk at which the size limit is crossed. |
| `Storage.OneChunkCrosses` | accessforge-cloud-main/accessforge-cloud-main/backend/storage.py:325-327 | It has only one, and then the whole is too long. |
| `Storage.OversizeBinariesAreTooLarge` | accessforge-cloud-main/accessforge-cloud-main/backend/storage.py:325-327 | An oversize binary is always reported as too large, however it is cut. |
| `Storage.TheReportedFaultDependsOnTheCut` | accessforge-cloud-main/accessforge-cloud-main/backend/storage.py:325-339 | With two faults in one text, which one is reported depends on the cut: two bytes are too large in one chunk and bad text in two. |
| `Storage.TheReportIgnoresTheCutExactly` | accessforge-cloud-main/accessforge-cloud-main/backend/storage.py:325-339 | Every cut of a string gets the same report if and only if it fits, is no text, or has not failed as UTF-8 within the size limit. |
| `Storage.Disk.Receive` | accessforge-cloud-main/accessforge-cloud-main/backend/storage.py:321-352 | The chunk loop ends with size, digest state and prefix of the whole string, or with the exact fault. |
| `Storage.Disk.StoreUpload` | accessforge-cloud-main/accessforge-cloud-main/backend/storage.py:296-378 | Acceptance, size, digest and kind depend on the whole byte string only; success adds exactly one file with exactly those bytes, failure leaves every file as it was. |
| `Storage.Disk.ReadFileStream` | accessforge-cloud-main/accessforge-cloud-main/backend/storage.py:423-447 | Size, digest, prefix and text validity are those of the whole file, although the decoder is fed on after an error. |
| `Storage.Disk.DescribeArtifact` | accessforge-cloud-main/accessforge-cloud-main/backend/storage.py:450-464 | The description is a function of the content and the display name. |
| `Storage.Disk.PersistOutput` | accessforge-cloud-main/accessforge-cloud-main/backend/storage.py:467-526 | The copy is described as describing the stored file would; each error is returned under exactly one condition, any failure leaves the disk as it was and an existing target is never touched. |
| `SchemaParity.CheckSchema` | accessforge-cloud-main/accessforge-cloud-main/backend/tools/schema_parity.py:339-438 | The accumulating comparator returns the decision of the set of all differences, in any iteration order, and ends in an exception if and only if two differing sets of keys, indexes or constraints are to be sorted and one of them holds a missing name beside a text under the same components. |
| `TupleSort.OrderIsDefinedExactly` | accessforge-cloud-main/accessforge-cloud-main/backend/tools/schema_parity.py:294-324 | The tuple order, which raises on a missing name against a text, is defined on all members of a set if and only if none of them clash. |
| `TupleSort.NoSortFinishes` | accessforge-cloud-main/accessforge-cloud-main/backend/tools/schema_parity.py:294-324 | No sequence of the members of a set with a clash has all its neighbours in order, so every sort of it raises. |
| `TupleSort.Sort` | accessforge-cloud-main/accessforge-cloud-main/backend/tools/schema_parity.py:294-324 | Sorting by insertion under that order raises if and only if two members clash, and returns the members in order otherwise. |
| `SchemaParity.AddSorted` | accessforge-cloud-main/accessforge-cloud-main/backend/tools/schema_parity.py:292-325 | Reporting a difference with both sides sorted raises if and only if the sets differ and one of them holds a clash. |
| `SchemaParity.OrderedNamesGetADecision` | accessforge-cloud-main/accessforge-cloud-main/backend/tools/schema_parity.py:283-325 | A decision is always returned when no such set mixes missing and text names. |
| `SchemaParity.TheFileAloneDecides` | accessforge-cloud-main/accessforge-cloud-main/backend/tools/schema_parity.py:283-325 | Against a model whose keys, indexes and constraints all have names, as the naming convention gives, no decision is returned if and only if some common table of the file holds a missing name beside a text. |
| `SchemaParity.AnUnnamedConstraintCanRaise` | accessforge-cloud-main/accessforge-cloud-main/backend/tools/schema_parity.py:305-314 | A file with an unnamed unique constraint on role_permissions beside a named one leaves the checker without a decision. |
| `SchemaParity.SafeToStampIsExact` | accessforge-cloud-main/accessforge-cloud-main/backend/tools/schema_parity.py:328-336 | safe_to_stamp if and only if tables, columns, types, nullability, keys, indexes, unique and check sets agree, any revision table holds exactly the head, and the file did not change. |
| `SchemaParity.TypesStandExactly` | accessforge-cloud-main/accessforge-cloud-main/backend/tools/schema_parity.py:138-169 | Types are compatible if and only if they are of one sort with equal declared lengths, or an enumeration found as VARCHAR, or JSON found as text or VARCHAR. |
| `SchemaParity.SafeColumnsStand` | accessforge-cloud-main/accessforge-cloud-main/backend/tools/schema_parity.py:249-267 | safe_to_stamp means that every column of the model has such a column in the file, equally nullable. |
| `SchemaParity.WrongColumnsAreIncompatible` | accessforge-cloud-main/accessforge-cloud-main/backend/tools/schema_parity.py:249-267 | A column of another type, length or nullability is never safe nor repairable. |
| `SchemaParity.UnverifiableIsExact` | accessforge-cloud-main/accessforge-cloud-main/backend/tools/schema_parity.py:328-336 | unverifiable if and only if the target could not be opened and listed, or some inspection failed and the comparison came to an end. |
| `SchemaParity.RepairRequiredIsExact` | accessforge-cloud-main/accessforge-cloud-main/backend/tools/schema_parity.py:328-336 | repair_required or better if and only if the model's schema is embedded unharmed; only surplus tables and columns lie between the two. |
| `SchemaParity.Decide` | accessforge-cloud-main/accessforge-cloud-main/backend/tools/schema_parity.py:328-336 | The decision over the list is the decision over the set of differences. |
| `SchemaParity.CompareTable` | accessforge-cloud-main/accessforge-cloud-main/backend/tools/schema_parity.py:210-325 | The table comparison appends exactly that table's differences. |
| `Adoption.RevisionsAreTheOneRow` | accessforge-cloud-main/accessforge-cloud-main/backend/tools/db_adopt.py:115-126 | No revision is recorded if and only if there is no version table, and a revision if and only if that table holds it in its one row, not empty. |
| `Adoption.NoConflictAfterParity` | accessforge-cloud-main/accessforge-cloud-main/backend/tools/db_adopt.py:224-227 | After a passing parity check the recorded revision is none or the head: the conflicting-revision branch is unreachable. |
| `Adoption.BadVersionTablesAreNeverSafe` | accessforge-cloud-main/accessforge-cloud-main/backend/tools/db_adopt.py:115-126 | A revision table that is not one non-empty row never passes the parity check. |
| `Adoption.PreservedTablesAreTheSame` | accessforge-cloud-main/accessforge-cloud-main/backend/tools/db_adopt.py:129-153 | What adopted preserves: the same tables and schema text, as many rows in each and the same first three, and the head alone in alembic_version. |
| `Adoption.FileSystem.MakeBackup` | accessforge-cloud-main/accessforge-cloud-main/backend/tools/db_adopt.py:236-243 | A backup is verified if and only if the copy finished with the source's hash; no existing file changes, whatever the copy does. |
| `Adoption.FileSystem.Verify` | accessforge-cloud-main/accessforge-cloud-main/backend/tools/db_adopt.py:252-270 | adopted if and only if revision, parity, schema text, counts, samples and table set are all as required. |
| `Adoption.FileSystem.Adopt` | accessforge-cloud-main/accessforge-cloud-main/backend/tools/db_adopt.py:204-272 | Each outcome is returned under exactly one condition; adopted if and only if the database was compatible, unstamped, confirmed and backed up, the stamp returned, and everything was preserved. No other file is touched, and every outcome before the stamp leaves the source as it was. |
| `Adoption.FileSystem.AdoptTwice` | accessforge-cloud-main/accessforge-cloud-main/backend/tools/db_adopt.py:204-272 | A second run after an adoption returns already_adopted. |
| `Jobs.MessagesFollow` | accessforge-cloud-main/accessforge-cloud-main/backend/main.py:415-424 | The progress messages of a run are those of its events, in their order. |
| `Jobs.ArtifactsFollow` | accessforge-cloud-main/accessforge-cloud-main/backend/main.py:528-560 | The outputs of a run are the artifacts of its paths, in their order. |
| `Jobs.OneAlone` | accessforge-cloud-main/accessforge-cloud-main/backend/main.py:528-560 | A message event gives its entry and a stored path its artifact; a missing path gives none. |
| `Jobs.DeletesExactly` | accessforge-cloud-main/accessforge-cloud-main/backend/main.py:427-592 | A row is gone after a run's events if and only if one of them took it. |
| `Jobs.LogsAreTheLastEntries` | accessforge-cloud-main/accessforge-cloud-main/backend/main.py:419-424 | Bounding the log at every append keeps exactly the last 200 entries ever appended. |
| `Jobs.BoundsKeep` | accessforge-cloud-main/accessforge-cloud-main/backend/main.py:417-424 | The log keeps its last 200 entries, and the error its first 2000 characters. |
| `Jobs.GeneratedNamesAreFixed` | accessforge-cloud-main/accessforge-cloud-main/backend/main.py:663-667 | A generated storage name comes through query removal, double percent-decoding and path reduction unchanged. |
| `Jobs.OlderEntriesAnswer` | accessforge-cloud-main/accessforge-cloud-main/backend/main.py:663-670 | An entry without a storage name answers to the last component of its stored path, or else of its address, whatever query follows. |
| `Jobs.PathsEndInTheirName` | accessforge-cloud-main/accessforge-cloud-main/backend/storage.py:167-170 | The name of a path is what follows its last slash; an empty or dot component is passed over. |
| `Jobs.BackslashesSeparate` | accessforge-cloud-main/accessforge-cloud-main/backend/storage.py:157-170 | Behind a backslash, too, the name is the last component of a path. |
| `Jobs.BareEntriesAnswer` | accessforge-cloud-main/accessforge-cloud-main/backend/main.py:663-670 | An entry with nothing but a display name answers to it behind the user's and the job's ids. |
| `Jobs.JobStore.PermittedExactly` | accessforge-cloud-main/accessforge-cloud-main/backend/main.py:835-866 | A module is open to a user if and only if its row is enabled and shown, asks for the registered permission, is not switched off for the user, and the user holds the permission. |
| `Jobs.JobStore.CreateJob` | accessforge-cloud-main/accessforge-cloud-main/backend/main.py:601-661 | A queued row with one scheduled run is created if and only if the module is known and visible and every input belongs to the user. |
| `Jobs.JobStore.Execute` | accessforge-cloud-main/accessforge-cloud-main/backend/main.py:522-592 | From the handler on: the row survives unless deleted, ends done exactly when the handler returned and every output was stored, with exactly those outputs and log. |
| `Jobs.JobStore.RunJob` | accessforge-cloud-main/accessforge-cloud-main/backend/main.py:427-592 | The scheduled run takes a queued row through running to done or failed, by the history that every write of the status extends; the handler runs if and only if the run-time checks pass; outputs, error and log are given exactly; no other row changes. |
| `Jobs.JobStore.JobsMoveForward` | accessforge-cloud-main/accessforge-cloud-main/backend/main.py:427-592 | In every reachable state the statuses of a job are a prefix of queued, running, done or of queued, running, failed, and its row shows the last. |
| `Jobs.PublishingRegisters` | accessforge-cloud-main/accessforge-cloud-main/backend/main.py:528-560 | Publishing under names that storage has given once keeps every output of every row registered to that row alone. |
| `Jobs.OlderAnswersAreLinked` | accessforge-cloud-main/accessforge-cloud-main/backend/main.py:663-670 | An entry of an older release answers to a generated name only by its stored path or address. |
| `Jobs.JobStore.OwnedOutput` | accessforge-cloud-main/accessforge-cloud-main/backend/main.py:673-702 | The first answering entry of the user's newest answering job is returned, and none exactly when none answers; every published output of a done job is found again by its owner under its storage name, unless an older entry links to that very name. |
| `Renaming.NameColumn` | accessforge-cloud-main/accessforge-cloud-main/worker/redsea_toolkit.py:3957-3968 | A column gets the first free candidate; the loop ends because candidates grow against finitely many used names. |
| `Renaming.NameColumns` | accessforge-cloud-main/accessforge-cloud-main/worker/redsea_toolkit.py:3957-3968 | Every header row gets one distinct, non-empty name per column. |
| `Renaming.DistinctCellsKeepTheirNames` | accessforge-cloud-main/accessforge-cloud-main/worker/redsea_toolkit.py:3957-3968 | A row of distinct, non-empty cells keeps its own names. |
| `Renaming.NamesAreDetermined` | accessforge-cloud-main/accessforge-cloud-main/worker/redsea_toolkit.py:3957-3968 | The header row determines its names. |
| `Renaming.ARowOfThree` | accessforge-cloud-main/accessforge-cloud-main/worker/redsea_toolkit.py:3961-3968 | A repeated name gets its column's number and an empty cell a name of its own, on a named row. |
| `Renaming.ThreeCandidates` | accessforge-cloud-main/accessforge-cloud-main/worker/redsea_toolkit.py:529-537 | The candidates are the path and then a number in brackets before the suffix, on a named path. |
| `Renaming.CandidatesAreDistinct` | accessforge-cloud-main/accessforge-cloud-main/worker/redsea_toolkit.py:529-537 | No two candidates of unique_path coincide, since decimal numerals are injective. |
| `Renaming.UniquePath` | accessforge-cloud-main/accessforge-cloud-main/worker/redsea_toolkit.py:529-537 | For every finite file set the loop ends with the first unused candidate within one probe more than there are files. |

## Left out

- Storage.Disk.StoreUpload: takes the extension, the normalised MIME claim, the display name and the generated target path as parameters; the parsing of client file names is not modelled.
- Adoption.FileSystem.Adopt: SHA-256 is a parameter; that the backup is the source's very content is stated under a collision-free hash, equality of hashes without it.
- RateLimiter.LoginLimiter.Check: requires a clock that does not run backwards; the table is one process's memory, which a restart empties.
- Tokens.TokensDieWithThePassword: assumes that no change of the password shares its microsecond with the stored stamp; `Tokens.TokenLife` says exactly what happens without that.
- Registry.Database.SyncRegistry: requires distinct module keys and permissions named after their module, which is proved of the shipped registry; a registry without them could fail at the flush.
- Jobs.JobStore.OwnedOutput: jobs are ordered by creation; rows with equal created_at, whose order the database leaves open, are not modelled, nor the fields of the reply that are copied from the entry.
- Jobs.JobStore.CreateJob: requires an id that no job has had, as uuid4 gives.
- Jobs.JobStore.RunJob: database failures while a run is under way, the audit rows of a run and the temporary workspace are not modelled.
- Subtasks.OneRoundIsEnough: the digit class of the pattern is a parameter, any class without the hyphen and the newline.
- TaskExtractor.VersionsAgreeExactly: compares the versions on one document that opens, with the same OCR results and the desktop's plain options; how each picks its document and the worker's note that no page was found are not modelled.
- SchemaParity.CheckSchema: indexes over expressions, whose columns have no names, are not modelled.
- Password hashing is equality of passwords, so the 72-byte truncation of bcrypt at login is not modelled; JWT signing is a token record that decodes or does not.
- SQLAlchemy sessions, flush order inside a request and concurrent requests: a request is one atomic step, and generated ids are parameters (a taken one fails the insert).
- locked_at, last_login_at, display fields, notifications, projects and profile updates; of invitations only the audit row of their creation.
- Actor names and timestamps of audit rows; the order of the rows is the order of staging.
- The branch "no roles after parsing" of approve_user and create_admin_user, which cannot be taken when the list of names is not empty.
- Display texts, icons and routes of the registry, and the stored counts that sync_registry returns.
- The texts of parity differences and their sorting; the file hash and timestamp of the parity check enter as one flag.
- Symbolic links, Windows path rules and failures of unlink in storage.
- PDF, OCR, spreadsheet and document libraries: a page is its text, the codes found in it and whether it holds an index marker, and what can fail is reading its text, not loading it.
- The on-disk cache of the page index, task stamping and the other worker handlers, and the desktop and web interfaces.
- Case folding of sensitive audit keys beyond ASCII.
