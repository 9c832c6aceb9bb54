# Verification model of the backend's stateful core

This project models, in Dafny, the parts of the backend whose promises concern every interleaving, every
sequence of requests or every input, and proves those promises of the model. `dafny verify dfyconfig.toml`
checks all of it.

- **Versioned-namespace cache** (`CacheStore`, `CacheProtocol`, `CacheFreshness`, `CacheBumps`, `RepositoryReads`).
  The cache service as a class over its two maps, and cached reads, invalidating writes and evictions as atomic
  steps of any number of concurrent readers and writers. Expiry is an eviction at any moment. History variables
  record every database state and at which one each version became current.
- **Audit hash chain** (`Audit`, `AuditProtocol`, `AuditWalk`). The hash is a free constructor of the predecessor
  hash and the row's fields, so it is injective. The paged verifier, alone and interleaved with the append under the
  chain lock and with retention.
- **Idempotency** (`Idempotency`, `IdempotencyProtocol`, `IdempotencyHistory`, `IdempotencyAnswers`). The in-memory
  store against an abstract timed map, one request from start to end, and the lock protocol of any number of requests
  on a clock that never goes back.
- **Base32 and TOTP** (`BitStrings`, `Int32Words`, `Base32`, `Base32Laws`, `Totp`). JavaScript's 32-bit operators
  bit by bit, the accumulator loops on unmasked words against the bit-string definition of section 6 of RFC 4648,
  and the codes of section 5.3 of RFC 4226 with the window of section 5.2 of RFC 6238 over any function that returns
  20-byte digests.
- **Accounts** (`Lockout`, `PasswordReset`, `Sessions`). Failed-attempt counter and lock, password history,
  refresh-token rotation. A password hash verifies exactly the password it was made from.
- **Workspaces** (`WorkspaceStore`, `WorkspaceOwnership`, `WorkspaceProvenance`). Workspaces, members, roles and
  invitations as tables updated in place by twelve use cases, what every serial sequence of them keeps, and where
  every row comes from.
- **Password detectors and audit sanitizer** (`PasswordPolicy`, `Sanitizer`). Loops and a recursive walk against
  quantified specifications.

Classes hold the mutable state; each of their methods states its whole effect through a function of the old
state and, where it answers or changes several tables, again as conditions on the tables alone (the predicates
named `...Means`). The theorems are proved about those functions over all runs. A run is a sequence of states and
actions in which every action is enabled; ids and random tokens are fresh parameters.

Where the code does not meet a property on all inputs, the exact condition is proved: `FreshIffBumped` with
`RemovedMemberStillFound`, `DeletedPermissionStillGranted` and `DeletedPermissionStillSuper` (writes that do not
bump a namespace that reads them), `AppendVerifiesIff` with the concrete `SameMillisecondBreaksChain`,
`WalkReadsAllIff` with the concrete `RetentionEndsWalk` (retention takes the cursor row away), `SecondHandlerIff`
with the concrete `LateReleaseFreesLock` and `LostReplyRunsTwice`, `JudgeMeans` (verification throws in the first
30 seconds after the epoch), `EncodeOfDecodeIff`, `ShapeKeptIff` with `ProtoEntryIsLost` (an own key `__proto__`
is dropped), `OwnerUnprotectedIffDeleted`, `TransferBackRestoresIff`.

## Model

| member | source | states |
|---|---|---|
| CacheStore.KeyInjective | src/shared/cache/cache.service.ts:66-69 | no two (namespace, version, suffix) triples share a cache key, whatever the suffix contains |
| CacheStore.KeyIsNotVersionKey | src/shared/cache/cache.service.ts:71-73 | no payload key is a version-counter key |
| CacheStore.CacheService.GetNamespaceVersion | src/shared/cache/cache.service.ts:46-54 | a missing, zero or negative counter in Redis reads as version 1; the fallback returns any number it finds, else 1 |
| CacheStore.CacheService.BumpNamespace | src/shared/cache/cache.service.ts:56-64 | one call moves exactly this namespace on by one, touches no payload, and leaves nothing servable under the new version |
| CacheStore.CacheService.BuildKey | src/shared/cache/cache.service.ts:66-69 | the key of the current version |
| CacheStore.CacheService.Wrap | src/shared/cache/cache.service.ts:38-44 | the function, which may itself use the cache or throw, is called exactly on a miss or a stored null; what it returns is stored over what it left, a throw stores nothing, a hit changes nothing |
| CacheStore.CacheService.CachedRead | src/shared/cache/cacheable.decorator.ts:44-54 | version first, then wrap: recomputes exactly when nothing is served under the current version, and is then served; a throw is passed on; no counter moves |
| CacheStore.CacheService.InvalidateAll | src/shared/cache/invalidate-cache.decorator.ts:12-31 | passes the mutation's end on; if it threw nothing is bumped, else every listed namespace moves on and serves nothing at its new version, every other version and all payloads stay |
| CacheProtocol.StepKeepsInv | src/shared/cache/cacheable.decorator.ts:44-54 | every step of a reader, writer or eviction keeps: an entry under version v derives from database states no older than the moment v became current |
| CacheProtocol.PutKeepsInv | src/shared/cache/cache.service.ts:42 | storing under the version read first keeps it, though versions have moved on meanwhile and nested reads used newer ones |
| CacheFreshness.RunKeepsInv | src/shared/cache/cache.service.ts:38-69 | the invariant holds in every state of every interleaving |
| CacheFreshness.ReadAfterBumpIsFresh | src/shared/cache/invalidate-cache.decorator.ts:17-28 | in every interleaving, a read begun after a write's bump returns what its method computes from database states no older than that write's, nested cached reads included |
| CacheFreshness.PlainReadAfterBumpIsFresh | src/shared/cache/cacheable.decorator.ts:49-53 | for a single-query method, the key's database value at one moment no earlier than the write |
| CacheFreshness.ReadAfterCreationIsFresh | src/modules/sessions/repositories/prisma-sessions.repository.ts:23-36 | a creation that bumps nothing is still seen: a read begun later never reports an older state, since a stored null is never served |
| CacheBumps.StaleWithoutBump | src/shared/cache/invalidate-cache.decorator.ts:17-28 | for any method, nested or not: if d0 gives a value that d1 alone cannot, a write from d0 to d1 that does not list the namespace has a run in which a read begun after it completed returns that value |
| CacheBumps.FreshIffBumped | src/shared/cache/cacheable.decorator.ts:49-53 | for any method whose value a write can change, all later reads are fresh in all runs exactly when the write lists the read's namespace |
| RepositoryReads.RemovedMemberStillFound | src/modules/workspaces/repositories/prisma-workspace-members.repository.ts:123-126 | removing a member bumps workspace_members only, so in some run the user lookup in that workspace still finds the user afterwards |
| RepositoryReads.DeletedPermissionStillGranted | src/modules/rbac/repositories/prisma-permissions.repository.ts:113-115 | deleting a permission bumps nothing, so in some run the membership lookup still reports it afterwards |
| RepositoryReads.DeletedPermissionStillSuper | src/modules/workspaces/repositories/prisma-workspace-members.repository.ts:72-86 | and so does the super-admin lookup, a cached read inside a cached read |
| RepositoryReads.SuperAdminFreshIffBumped | src/modules/workspaces/repositories/prisma-workspace-members.repository.ts:39-86 | for a write that changes the admin's membership, later super-admin lookups are fresh in all runs exactly when it bumps workspace_members |
| RepositoryReads.SuperAdminReadIsFresh | src/modules/workspaces/repositories/prisma-workspace-members.repository.ts:72-86 | after a bump the super-admin lookup returns a membership current at or after the write, of a workspace that was the admin workspace at or after it |
| AuditChain.AuditLogs.Create | src/modules/audit/repositories/prisma-audit-logs.repository.ts:55-100 | the new row carries the hash of a latest row by creation time, its own hash over its fields, and stands where the verifier's order puts it |
| AuditProtocol.InsertPosition | src/modules/audit/repositories/prisma-audit-logs.repository.ts:155 | a row enters an ordered log at the one position where the verifier's order puts it, all other rows staying in order |
| AuditChain.AuditLogs.DeleteOlderThan | src/modules/audit/repositories/prisma-audit-logs.repository.ts:138-143 | a row stays exactly when it was there and is not older than the cutoff; order stays, and the others are counted |
| AuditChain.RetentionDropsPrefix | src/modules/audit/repositories/prisma-audit-logs.repository.ts:138-143 | retention removes exactly a prefix of the ordered log |
| AuditChain.AuditLogs.IterateChainAsc | src/modules/audit/repositories/prisma-audit-logs.repository.ts:149-163 | a page is the rows after the cursor; the next cursor is its last id exactly when the page is full |
| AuditChain.ScanPage | src/modules/audit/use-cases/verify-audit-chain.use-case.ts:31-65 | the inner loop is the fold of one row's step over the page, its early exits included |
| AuditChain.PageKeepsSync | src/modules/audit/use-cases/verify-audit-chain.use-case.ts:27-70 | from a point where all rows so far were good, one page either reaches its end with all rows good or stops where the one-pass report would |
| AuditChain.VerifyChain | src/modules/audit/use-cases/verify-audit-chain.use-case.ts:19-82 | for every page size of at least one the paged walk terminates with the one-pass report: first failing row, good rows before it, broken_chain exactly when its link is wrong; it is the report of so many page queries of the walk that the interleaved theorems are about |
| AuditChain.Execute | src/modules/audit/use-cases/verify-audit-chain.use-case.ts:19-82 | the same with the page size of 500 |
| AuditChain.OneVerdict | src/modules/audit/use-cases/verify-audit-chain.use-case.ts:27-79 | a log has one report, valid exactly when every link and hash is right |
| AuditChain.SameEndSameRows | src/modules/audit/use-cases/verify-audit-chain.use-case.ts:27-79 | of two accepted logs ending in the same hash the shorter is a suffix of the longer |
| AuditChain.OnlyTruncationPasses | src/modules/audit/repositories/prisma-audit-logs.repository.ts:18-47 | against a log from the first row on, the only log that verifies and keeps the final hash is one cut at the front |
| AuditChain.NoFork | src/modules/audit/repositories/prisma-audit-logs.repository.ts:55-100 | no two rows of an accepted log share a predecessor |
| AuditProtocol.RunKeepsInv | src/modules/audit/repositories/prisma-audit-logs.repository.ts:55-100 | concurrent appends, rollbacks and retention keep the log ordered, intact and the lock holder's tail current |
| AuditProtocol.EveryRunVerifies | src/modules/audit/repositories/prisma-audit-logs.repository.ts:55-100 | with strictly increasing creation times every reachable log verifies as ok, scanned equal to total, without forks |
| AuditProtocol.AppendVerifiesIff | src/modules/audit/repositories/prisma-audit-logs.repository.ts:59-62 | for any clock reading, an append keeps the log verifiable exactly when the log was empty or the row sorts after the last row and was given it as predecessor |
| AuditProtocol.SameMillisecondBreaksChain | src/modules/audit/repositories/prisma-audit-logs.repository.ts:155 | two rows of one millisecond that are reported as broken_chain |
| AuditWalk.SameIdSameRow | src/modules/audit/repositories/prisma-audit-logs.repository.ts:55-100 | in every run two rows with one id, seen at any two moments, are the same row |
| AuditWalk.HonestRunNeverFails | src/modules/audit/use-cases/verify-audit-chain.use-case.ts:27-79 | with appends and retention at any page boundary the walk never reports bad_hash or broken_chain in an honest run, and the count it reports is the number of different rows it read |
| AuditWalk.WalkReadsAllIff | src/modules/audit/use-cases/verify-audit-chain.use-case.ts:27-79 | the query that ends the walk of an honest run, on a log not empty by then: if the walk is at its start or its cursor row is still stored, every row of the log has been read, else none has; and the last expected hash is the last row's exactly in the first case |
| AuditWalk.RetentionEndsWalk | src/modules/audit/repositories/prisma-audit-logs.repository.ts:149-163 | the concrete run: retention removes the cursor row between two pages, and the walk answers valid with the one remaining row unread |
| AuditWalk.StandingStill | src/modules/audit/use-cases/verify-audit-chain.use-case.ts:27-79 | on a log that stands still the interleaved walk is the walk of the verifier, ends within one query more than there are rows, and gives the one-pass report |
| IdempotencyStore.IdempotencyService.GcMemory | src/shared/idempotency/idempotency.service.ts:109-114 | removes exactly the expired entries |
| IdempotencyStore.IdempotencyService.MemorySetNx | src/shared/idempotency/idempotency.service.ts:88-93 | succeeds exactly when the unexpired view lacks the key; otherwise the view never changes |
| IdempotencyStore.IdempotencyService.MemoryGet | src/shared/idempotency/idempotency.service.ts:95-103 | the view's entry; lazy deletion is invisible from now on |
| IdempotencyStore.IdempotencyService.MemorySet | src/shared/idempotency/idempotency.service.ts:105-107 | the view holds the entry up to its deadline and lacks the key after, at every clock value |
| IdempotencyStore.IdempotencyService.TryAcquireLock | src/shared/idempotency/idempotency.service.ts:34-48 | the lock is held for its lifetime exactly when the view lacked the key |
| IdempotencyStore.IdempotencyService.Fetch | src/shared/idempotency/idempotency.service.ts:50-58 | returns the unexpired entry |
| IdempotencyStore.IdempotencyService.StoreResponse | src/shared/idempotency/idempotency.service.ts:60-78 | replaces the entry by the complete response for the time-to-live |
| IdempotencyStore.IdempotencyService.Release | src/shared/idempotency/idempotency.service.ts:80-86 | the key is free at every clock value |
| IdempotencyStore.IdempotencyService.Handle | src/shared/idempotency/idempotency.interceptor.ts:70-113 | the handler runs exactly when the key is free; a stored success is what is then replayed, a failure of the handler or of storing leaves no trace and is rethrown; a loser is replayed a response exactly when it is stored for its body, is rejected exactly when the body differs, and is told in progress otherwise |
| IdempotencyProtocol.OneHandlerPerKey | src/shared/idempotency/idempotency.interceptor.ts:77-113 | unless some winner of the key was still at work after the slot it wrote last had expired, no reachable state has two winners of that key at work |
| IdempotencyHistory.HandlerStartsIff | src/shared/idempotency/idempotency.service.ts:34-48 | in every run, timely or not, a request starts a handler exactly when the last write under its key, if any, was a release or no longer holds |
| IdempotencyHistory.SecondHandlerIff | src/shared/idempotency/idempotency.interceptor.ts:77-113 | in every run, while a winner runs, a second handler starts exactly when its lock has expired with nothing written since, or the last write since was somebody else's and was a release or no longer holds |
| IdempotencyHistory.SecondHandlerNeedsOverdue | src/shared/idempotency/idempotency.interceptor.ts:99-113 | while the winner's own lock holds, that takes a winner of the same key that was overdue before |
| IdempotencyHistory.TimelySecondHandlerIff | src/shared/idempotency/idempotency.service.ts:34-48 | if all winners of the key were timely so far, a second handler can start exactly when the running one's lock has expired |
| IdempotencyHistory.LateReleaseFreesLock | src/shared/idempotency/idempotency.service.ts:80-86 | the concrete run: an overdue winner's late release deletes the next winner's lock, and a third handler starts beside it |
| IdempotencyProtocol.NoRerunWhileStored | src/shared/idempotency/idempotency.interceptor.ts:77-113 | with the winners of that key timely until then, from a response written to the store until its time-to-live ends no request starts the handler, unless the winner was told that storing failed and has released the key |
| IdempotencyProtocol.ReplayWhileStored | src/shared/idempotency/idempotency.interceptor.ts:83-97 | and every request with the same body that fetches gets exactly that status and body, every other one is rejected |
| IdempotencyProtocol.RerunAfterRelease | src/shared/idempotency/idempotency.interceptor.ts:104-113 | right after such a release the next request for the key starts a handler |
| IdempotencyHistory.LostReplyRunsTwice | src/shared/idempotency/idempotency.interceptor.ts:99-113 | the concrete run: a response is stored but the reply is lost, a second request is given it, the winner releases the key, and a third request runs the handler again |
| IdempotencyAnswers.FetchMeans | src/shared/idempotency/idempotency.interceptor.ts:83-97 | in any state a fetch answers by the live slot: replayed, other body, or in progress, and writes nothing |
| IdempotencyAnswers.FetchWhileAtWork | src/shared/idempotency/idempotency.interceptor.ts:77-97 | with timely winners, a fetch while the handler of the key runs or its response is being stored is answered in progress, or that the body differs |
| IdempotencyAnswers.AnswersAreBacked | src/shared/idempotency/idempotency.interceptor.ts:77-113 | in every run, timely or not, an own response is what that client's handler returned, a thrown error is what it was told, and a replay was written before, whole, for the same key and body |
| IdempotencyAnswers.ReplayWasReturned | src/shared/idempotency/idempotency.interceptor.ts:83-107 | so every replay is what some handler returned earlier for a request with that key and body |
| Int32Words.ShiftLeftOrBits | src/modules/auth/services/totp.util.ts:13 | on 32-bit words, bit by bit, the shift left by k and the or with x append the k bits of x to the low bits of value, however often that has wrapped |
| Int32Words.ShiftRightBits | src/modules/auth/services/totp.util.ts:16 | `(value >>> b) & mask` reads the top a of the low a + b bits |
| Int32Words.AndIsMod | src/modules/auth/services/totp.util.ts:49-50 | a mask of a one-bits, sign bit excluded, is the remainder by 2^a |
| Base32.Base32Encode | src/modules/auth/services/totp.util.ts:8-24 | the accumulator loop on wrapping 32-bit words spells out the zero-padded bit string in groups of five (section 6 of RFC 4648) |
| Base32.Base32Decode | src/modules/auth/services/totp.util.ts:26-42 | upper-cases, strips padding and white space, rejects any other character, and packs the bits into bytes |
| Base32.DecodeLoop | src/modules/auth/services/totp.util.ts:31-41 | the loop alone, for every cleaned text |
| Base32Laws.DecodeOfEncode | src/modules/auth/services/totp.util.ts:8-42 | decoding an encoding gives back every byte sequence |
| Base32Laws.Lengths | src/modules/auth/services/totp.util.ts:8-42 | ceil(8n/5) characters, floor(5n/8) bytes |
| Base32Laws.EncodeOfDecodeIff | src/modules/auth/services/totp.util.ts:26-42 | encoding a decoding gives back the text exactly when it is in the upper-case alphabet, its length mod 8 is not 1, 3 or 6, and its spare bits are zero |
| Base32Laws.DecodesIff | src/modules/auth/services/totp.util.ts:26-36 | accepted are exactly the texts of alphabet characters in either case with white space anywhere, followed by any number of = signs; white space after those is not |
| Base32Laws.DecodeOfRendering | src/modules/auth/services/totp.util.ts:26-42 | and such a text decodes as the characters it renders |
| Base32Laws.DecodeOfRenderedEncoding | src/modules/auth/services/totp.util.ts:8-42 | so every rendering of an encoding gives back the bytes |
| Totp.GenerateCode | src/modules/auth/services/totp.util.ts:44-54 | byte by byte and digit by digit: the eight counter bytes, most significant first, are the message; the four digest bytes at the offset, without the sign bit, are the number; its last six decimal digits are the text; fails exactly on a bad secret or a counter that is no unsigned 64-bit number |
| Totp.GenerateToken | src/modules/auth/services/totp.util.ts:75-78 | that code for the number of whole 30-second steps since the epoch |
| Totp.BigEndianAt | src/modules/auth/services/totp.util.ts:47 | byte i of n in w bytes is n / 256^(w - 1 - i) mod 256 |
| Totp.CodeDigit | src/modules/auth/services/totp.util.ts:50-52 | digit k of a code below a million is n / 10^(5 - k) mod 10, leading zeros included |
| Totp.HotpSpelledOut | src/modules/auth/services/totp.util.ts:44-54 | every computed code is the six digits spelled out from the digest of the counter's eight bytes (section 5.3 of RFC 4226) |
| Totp.VerifyToken | src/modules/auth/services/totp.util.ts:80-97 | anything but six digits is refused; otherwise it throws exactly on a bad secret or without a counter on both sides, and else accepts exactly the codes of c - 1, c and c + 1; the comparison always has equal lengths |
| Totp.JudgeMeans | src/modules/auth/services/totp.util.ts:89-96 | the judgement of the three candidate codes means just that |
| Totp.CodeTextInjective | src/modules/auth/services/totp.util.ts:50-52 | padding loses nothing: equal texts are equal numbers |
| Totp.CodeIsSixDigits | src/modules/auth/services/totp.util.ts:50-52 | every code below a million is six decimal digits |
| Totp.DriftIsTolerated | src/modules/auth/services/totp.util.ts:75-97 | a code is accepted at every moment at most 30000 ms away, from 30000 ms after the epoch on |
| Totp.DriftBound | src/modules/auth/services/totp.util.ts:86-89 | 30000 ms is the largest drift the window always covers |
| Lockout.UserRow.IncrementFailedLoginAttempts | src/modules/users/repositories/prisma-users.repository.ts:162-170 | adds one and returns the new count |
| Lockout.UserRow.LockAccount | src/modules/users/repositories/prisma-users.repository.ts:172-178 | sets the lock, leaves the counter |
| Lockout.UserRow.Restore | src/modules/users/repositories/prisma-users.repository.ts:81-87 | clears the deletion mark only |
| Lockout.UserRow.ResetFailedLoginAttempts | src/modules/users/repositories/prisma-users.repository.ts:180-186 | clears counter and lock |
| Lockout.UserRow.Login | src/modules/auth/use-cases/login.use-case.ts:35-130 | on the stored fields: tokens exactly for the right password with no lock in force, a verified e-mail and no second factor, a challenge exactly with one, not verified exactly for the right password and an unverified e-mail, locked exactly under a lock, whatever the password; and the new counter, lock and deletion mark, nothing else changing |
| Lockout.LoginByEmail | src/modules/auth/use-cases/login.use-case.ts:36-47 | the same for a found account; an unknown e-mail gets the same answer as a missing password and changes nothing |
| Lockout.CounterInvariant | src/modules/auth/use-cases/login.use-case.ts:49-97 | with no reset on the way the counter is the number of wrong-password checks, and from the fifth on each has locked for 15 minutes |
| Lockout.FailuresAreSpaced | src/modules/auth/use-cases/login.use-case.ts:55-97 | from the fifth on, wrong-password checks are at least 15 minutes apart |
| Lockout.GuessesAreBounded | src/modules/auth/use-cases/login.use-case.ts:49-120 | from a zero counter and with no reset on the way, at most 5 + floor(T / 900000) wrong-password checks in any window of T ms, whatever password resets, verifications, deletions or restorations come between |
| Lockout.BoundIsReached | src/modules/auth/use-cases/login.use-case.ts:86-97 | for every number of locks there is a run that attains the bound |
| PasswordReset.AuthStore.FindRecentHashes | src/modules/auth/repositories/prisma-password-histories.repository.ts:11-20 | the newest hashes, none for a limit of zero or less |
| PasswordReset.AuthStore.Record | src/modules/auth/repositories/prisma-password-histories.repository.ts:22-46 | inserts, then keeps exactly the newest |
| PasswordReset.AuthStore.MatchesPrevious | src/modules/auth/use-cases/reset-password.use-case.ts:36-53 | the loop finds the password among the current and the stored hashes exactly when it is there |
| PasswordReset.AuthStore.Execute | src/modules/auth/use-cases/reset-password.use-case.ts:23-63 | on the tables: refused exactly without an unspent, unexpired token of an account not deleted, or for a remembered password, and then nothing changes, the token included; else that account alone gets the password, history, token cut-off, used token and revoked sessions |
| PasswordReset.ChangeLogsOut | src/modules/auth/use-cases/reset-password.use-case.ts:55-62 | after a change, in every continuation: the token is refused until issued anew, access tokens from before stay refused, the user has no un-revoked session until one is opened; the change itself leaves every other user's row, history and sessions as they were |
| PasswordReset.RunKeepsHistory | src/modules/auth/use-cases/reset-password.use-case.ts:36-59 | in every run, deletions and restorations included, the table holds exactly the last min(resets, historySize - 1) superseded passwords |
| PasswordReset.ReusedIff | src/modules/auth/use-cases/reset-password.use-case.ts:36-50 | a reset is refused exactly when the password is among the last historySize |
| PasswordReset.RecentPasswordsDiffer | src/modules/auth/use-cases/reset-password.use-case.ts:36-59 | any historySize + 1 consecutive passwords of a user are pairwise distinct |
| Sessions.SessionsRepository.FindByTokenHash | src/modules/sessions/repositories/prisma-sessions.repository.ts:38-43 | finds a session with the hash, or there is none |
| Sessions.SessionsRepository.Create | src/modules/sessions/use-cases/create-session.use-case.ts:16-27 | an un-revoked session for seven days, unless id or hash is taken |
| Sessions.SessionsRepository.Revoke | src/modules/sessions/repositories/prisma-sessions.repository.ts:56-63 | stamps one session, and reports an unknown id |
| Sessions.SessionsRepository.RevokeAllForUser | src/modules/sessions/repositories/prisma-sessions.repository.ts:65-78 | stamps exactly the user's un-revoked sessions but the excepted one |
| Sessions.SessionsRepository.DeleteExpired | src/modules/sessions/repositories/prisma-sessions.repository.ts:80-86 | removes and counts exactly those expired before the cutoff |
| Sessions.SessionsRepository.Refresh | src/modules/auth/use-cases/refresh-token.use-case.ts:16-44 | on the table: an unknown token is invalid and changes nothing; a dead one revokes exactly its user's live sessions; a live one is revoked and replaced by a fresh session of seven days unless id or hash is taken; every other session stays |
| Sessions.LookupIsUnique | src/modules/sessions/repositories/prisma-sessions.repository.ts:38-43 | with unique hashes a presented token leads to one session |
| Sessions.StepKeepsInv | src/modules/auth/use-cases/refresh-token.use-case.ts:16-36 | login, refresh, revocation, expiry and anonymization keep hashes unique and one un-revoked session and one user per login lineage |
| Sessions.RevokedStaysRevoked | src/modules/sessions/repositories/prisma-sessions.repository.ts:56-78 | in every run a session revoked or deleted is never active again |
| Sessions.AtMostOneUnrevoked | src/modules/auth/use-cases/refresh-token.use-case.ts:27-36 | in every run each login's rotation lineage has at most one un-revoked session |
| Sessions.RotatesIff | src/modules/auth/use-cases/refresh-token.use-case.ts:20-36 | with a fresh id a refresh succeeds exactly on a usable session and a hash not taken |
| Sessions.RotatesAtMostOnce | src/modules/auth/use-cases/refresh-token.use-case.ts:16-36 | in every run a session whose token has rotated once is refused at every later refresh |
| Sessions.RotationMovesLineage | src/modules/auth/use-cases/refresh-token.use-case.ts:27-36 | a rotation moves the lineage to the new session without touching another one |
| Sessions.ReuseRevokesAll | src/modules/auth/use-cases/refresh-token.use-case.ts:20-25 | a dead token leaves its user no un-revoked session and everybody else's as they were (section 5.2.2.3 of RFC 6819) |
| Sessions.ReuseLogsOut | src/modules/auth/use-cases/refresh-token.use-case.ts:20-25 | and it stays so in every continuation until that user's next login |
| Sessions.ReplayLogsOut | src/modules/auth/use-cases/refresh-token.use-case.ts:16-36 | in particular for a token rotated away at any earlier moment |
| Sessions.RefreshedMeans | src/modules/auth/use-cases/refresh-token.use-case.ts:16-44 | the same of a refresh in any run |
| Sessions.TouchedIff | src/modules/auth/use-cases/refresh-token.use-case.ts:20-25 | an action leaves a session exactly as it is unless it is about it, and ends it if it is: its own revocation or refresh, a dead token or revocation of its user, its anonymization or its expiry |
| Sessions.SessionEndsIff | src/modules/auth/use-cases/refresh-token.use-case.ts:16-36 | in every run a live session ends exactly when some action was about it, whatever tokens, known or unknown, anybody else presents |
| Sessions.LiveSessionStays | src/modules/auth/use-cases/refresh-token.use-case.ts:16-36 | and until then it is stored exactly as it was |
| WorkspaceStore.Tables.FindByUserAndWorkspace | src/modules/workspaces/repositories/prisma-workspace-members.repository.ts:39-53 | the one membership of the pair, or none exists |
| WorkspaceStore.Tables.FindByNameInWorkspace | src/modules/rbac/repositories/prisma-roles.repository.ts:102-110 | the one role of that name, or none exists |
| WorkspaceStore.Tables.CountMembersUsingRole | src/modules/rbac/repositories/prisma-roles.repository.ts:168-170 | positive exactly when some member holds the role |
| WorkspaceStore.Tables.CreateWithDefaults | src/modules/workspaces/repositories/prisma-workspaces.repository.ts:24-95 | for any list of default roles: all rows with the owner in the named role, or nothing when a slug or name clashes or the owner role is missing |
| WorkspaceStore.CreationByTables | src/modules/workspaces/repositories/prisma-workspaces.repository.ts:24-95 | done exactly when the slug is free, the names are distinct and one is the owner's role; then every default role is a row as given, the owner holds the named one and all else stays; otherwise nothing changes |
| WorkspaceStore.Tables.DeleteWorkspace | src/modules/workspaces/use-cases/delete-workspace.use-case.ts:13-22 | soft delete; not found exactly when missing or deleted, forbidden exactly for the admin and personal workspaces; only that row changes, and only when done |
| WorkspaceStore.Tables.TransferOwnership | src/modules/workspaces/use-cases/transfer-ownership.use-case.ts:30-76 | which refusal exactly when, read off the tables; else the two memberships take the roles Admin and Owner, the owner changes and both users' tokens are cut off |
| WorkspaceStore.Tables.UpdateMemberRole | src/modules/workspaces/use-cases/update-member-role.use-case.ts:28-51 | which refusal exactly when: no such member, the owner of a standing workspace, a role of another workspace; else only that membership's role changes and its user's tokens are cut off |
| WorkspaceStore.Tables.RemoveMember | src/modules/workspaces/use-cases/remove-member.use-case.ts:24-45 | which refusal exactly when: no such member, the owner, or another member without permission; else only that membership goes |
| WorkspaceStore.Tables.CreateRole | src/modules/rbac/use-cases/create-role.use-case.ts:21-44 | conflict exactly for a name the workspace has, bad request exactly for unknown keys; else one new role, never a system role |
| WorkspaceStore.Tables.UpdateRole | src/modules/rbac/use-cases/update-role.use-case.ts:24-55 | which refusal exactly when: no such role, a system role, a name another role has, unknown keys; an empty name keeps the old one; only name and description of that role change |
| WorkspaceStore.Tables.DeleteRole | src/modules/rbac/use-cases/delete-role.use-case.ts:18-34 | which refusal exactly when: no such role, a system role, one in use; else only that role goes |
| WorkspaceStore.Tables.SendInvitation | src/modules/invitations/use-cases/send-invitation.use-case.ts:42-83 | which refusal exactly when: a role of another workspace, a member or an open invitation, a taken hash; else one invitation open for seven days |
| WorkspaceStore.Tables.RevokeInvitation | src/modules/invitations/use-cases/revoke-invitation.use-case.ts:17-27 | which refusal exactly when: no own invitation, an accepted one; else only that one goes; accepted ones always stay |
| WorkspaceStore.Tables.FindByTokenHash | src/modules/invitations/repositories/prisma-invitations.repository.ts:26-31 | finds an invitation with the hash, or there is none |
| WorkspaceStore.Tables.AcceptInvitation | src/modules/invitations/use-cases/accept-invitation.use-case.ts:31-65 | done exactly when an invitation with the hash is stored, not accepted and not expired, the account exists with exactly the invited e-mail, is no member yet, and the role is stored; each refusal exactly when; done, the one new membership has the invitation's workspace and role and the invitation is marked, and otherwise nothing changes |
| WorkspaceStore.Tables.CreateUser | src/modules/users/use-cases/create-user.use-case.ts:30-56 | which refusal exactly when; else the new account joins with a role of the workspace, and nothing else changes |
| WorkspaceOwnership.StepIsSteady | src/modules/workspaces/use-cases/update-member-role.use-case.ts:28-49 | no use case but a transfer changes an owner, an owner's membership or a system role, or undoes a deletion |
| WorkspaceOwnership.StepKeepsKeys | src/modules/rbac/use-cases/update-role.use-case.ts:24-47 | every use case keeps memberships and role names unique and every member's role in the member's workspace |
| WorkspaceOwnership.StepKeepsInv | src/modules/workspaces/repositories/prisma-workspaces.repository.ts:24-95 | and every created workspace its system roles and, while not deleted, an owner who is a member with the Owner role |
| WorkspaceOwnership.OwnerHoldsOwnerRole | src/modules/workspaces/repositories/prisma-workspaces.repository.ts:138-163 | so in every serial run each created workspace not deleted has an owner who is a member holding the system role Owner it was created with |
| WorkspaceOwnership.MembersHoldRolesOfTheirWorkspace | src/modules/invitations/use-cases/accept-invitation.use-case.ts:31-59 | in every serial run every member's role exists in the member's workspace |
| WorkspaceOwnership.OwnerStaysUntilTransfer | src/modules/workspaces/use-cases/remove-member.use-case.ts:30-36 | owner and owner's membership stay as they are until a transfer or the deletion of that workspace |
| WorkspaceOwnership.SystemRolesAreFixed | src/modules/rbac/use-cases/delete-role.use-case.ts:18-33 | in every serial run a system role stays exactly as it was |
| WorkspaceOwnership.TransferSucceedsIff | src/modules/workspaces/use-cases/transfer-ownership.use-case.ts:30-76 | in a created workspace a transfer succeeds exactly for the owner, with the password, to another member; the missing-role branch is never taken |
| WorkspaceOwnership.TransferEffect | src/modules/workspaces/repositories/prisma-workspaces.repository.ts:138-163 | and it changes exactly two memberships, the owner and both token cut-offs |
| WorkspaceOwnership.TransferBackRestoresIff | src/modules/workspaces/use-cases/transfer-ownership.use-case.ts:30-76 | handing back always succeeds, and restores every table but the token cut-offs exactly when the new owner had been an admin |
| WorkspaceOwnership.OwnerUnprotectedIffDeleted | src/modules/workspaces/use-cases/remove-member.use-case.ts:30-36 | the owner can be removed or lose the role exactly when the workspace is already deleted |
| WorkspaceOwnership.AcceptedAtMostOnce | src/modules/invitations/use-cases/accept-invitation.use-case.ts:35-36 | in every run an invitation once accepted stays accepted and is never accepted again |
| WorkspaceOwnership.OrphanedIsNeverAccepted | src/modules/rbac/use-cases/delete-role.use-case.ts:26-33 | an open invitation survives the deletion of its role, which is never checked for, and in every continuation nobody joins by it |
| WorkspaceProvenance.RefusedChangesNothing | src/modules/invitations/use-cases/accept-invitation.use-case.ts:31-65 | whatever any of the twelve use cases refuses, it leaves every table as it was |
| WorkspaceProvenance.MembershipOrigin | src/modules/invitations/use-cases/accept-invitation.use-case.ts:31-59 | in every run a membership was there at the start, or was made by founding the workspace, by an open invitation sent to exactly the account's e-mail, or with a new account |
| WorkspaceProvenance.MembershipStays | src/modules/workspaces/use-cases/remove-member.use-case.ts:24-45 | in every run a membership stays its user's in its workspace until it is itself removed |
| WorkspaceProvenance.InvitationOrigin | src/modules/invitations/use-cases/send-invitation.use-case.ts:42-83 | in every run an invitation was there at the start or was sent as it is, for seven days, with a role of its workspace; e-mail, workspace, role, hash and expiry never change |
| WorkspaceProvenance.SystemRoleOrigin | src/modules/rbac/use-cases/create-role.use-case.ts:21-44 | in every run the system roles are those of the start and the three of each workspace created; no role made or changed by hand is ever one |
| PasswordPolicy.HasRepeatedRun | src/shared/utils/password-policy.util.ts:103-114 | true exactly when some window of max + 1 characters is constant, a bound below one acting as one |
| PasswordPolicy.Directions | src/shared/utils/password-policy.util.ts:119-127 | the inner loop decides whether a window goes up and whether it goes down at every step |
| PasswordPolicy.FindsSlice | src/shared/utils/password-policy.util.ts:130-135 | the loop over one keyboard row finds a slice in either direction exactly when there is one |
| PasswordPolicy.HasSequence | src/shared/utils/password-policy.util.ts:116-138 | true exactly when the lowered text has a run of consecutive codes of that length, up or down, or a keyboard-row slice in either direction |
| Text.LowerCharMeans | src/shared/utils/password-policy.util.ts:117 | exactly the upper-case letters are lowered, each to its own lower-case letter |
| Text.LowerIff | src/shared/utils/password-policy.util.ts:117 | two texts are lowered alike exactly when they differ in the case of letters only, so case never matters to the detectors or to sensitive keys |
| PasswordPolicy.RepetitionIgnoresDirection | src/shared/utils/password-policy.util.ts:103-114 | repetition is found in a text exactly when in its mirror image |
| PasswordPolicy.SequencesIgnoreDirection | src/shared/utils/password-policy.util.ts:116-138 | both kinds of sequence likewise |
| PasswordPolicy.RepetitionSurvives | src/shared/utils/password-policy.util.ts:103-114 | characters written around a repetition do not hide it |
| PasswordPolicy.SequenceSurvives | src/shared/utils/password-policy.util.ts:116-138 | characters written around a sequence do not hide it |
| PasswordPolicy.ReverseTwice | src/shared/utils/password-policy.util.ts:163-165 | reversing is its own inverse |
| Sanitizer.Sanitize | src/shared/interceptors/audit.interceptor.ts:112-127 | the recursive walk fills its clone to exactly the sanitized tree |
| Sanitizer.TruncateTwice | src/shared/interceptors/audit.interceptor.ts:129-132 | cutting a cut string gives it back |
| Sanitizer.SanitizeTwice | src/shared/interceptors/audit.interceptor.ts:112-132 | a sanitized tree is left as it is |
| Sanitizer.ShapeKeptIff | src/shared/interceptors/audit.interceptor.ts:118-126 | keys, order, lengths and all values but redacted ones and cut tails survive exactly when no visible object has an own key `__proto__` |
| Sanitizer.ProtoEntryIsLost | src/shared/interceptors/audit.interceptor.ts:118-126 | the object with just that key becomes empty |
| Sanitizer.IndistinguishableIff | src/shared/interceptors/audit.interceptor.ts:112-132 | two trees are logged alike exactly when they differ only under sensitive keys, past the cut, or in dropped entries |
| Sanitizer.SanitizedIsClean | src/shared/interceptors/audit.interceptor.ts:120-125 | no value under a sensitive key and no uncut string reaches the log |

## Left out

- NestJS wiring, controllers, DTOs, metrics, mail, OAuth, feature flags, pagination by offset, `slugify` and environment validation: no hard property.
- Postgres, Redis and Prisma are abstract stores whose single statements and transactions are atomic; a unique or foreign-key violation is an outcome.
- SHA-256, HMAC, argon2 and random generation: an injective constructor, any function with 20-byte results, a hash that verifies its own password only, and fresh parameters.
- CacheStore.CacheService.BumpNamespace: the fallback without Redis is a read then a set, so its effect is claimed for one call with nothing interleaved; the concurrent model uses the atomic bump.
- CacheStore.CacheService.GetNamespaceVersion: a counter is an integer here; text in Redis that is no integer also reads as 1 in the source.
- CacheStore.CacheService.CachedRead: the wrapped method must not bump a namespace itself; no decorated method does.
- The version counter is assumed never to be evicted, and a payload's time-to-live is modelled as an eviction at any moment.
- CacheFreshness.ReadAfterCreationIsFresh: is about a key whose own query is null before the creation, not about a nested read of such a key.
- AuditProtocol.EveryRunVerifies: needs strictly increasing creation times; what happens with equal ones is `AppendVerifiesIff`.
- AuditChain.AuditLogs.Create: metadata is an opaque value stored as written; key order of its JSON text is not modelled.
- IdempotencyProtocol.OneHandlerPerKey: needs the winners of that key to finish within their locks; what happens in every other run is `HandlerStartsIff` and `SecondHandlerIff`.
- IdempotencyStore.IdempotencyService.TryAcquireLock: the in-memory path; the Redis path is the same set-if-absent with expiry.
- Idempotency bodies are opaque texts returned unchanged, and an entry is live up to and including its deadline as in the in-memory store; Redis' own expiry instant is not modelled.
- Base32.Base32Decode: upper-casing and white space are those of ASCII.
- Totp.GenerateToken: the division by 1000 and 30 is exact, not in floating point.
- Lockout.GuessesAreBounded: requests are serial; two logins interleaved inside one request are not modelled.
- Lockout.UserRow.Login: issuing the session after the last answer, audit entries and metrics are not modelled here.
- PasswordReset.AuthStore.Record: history rows are taken to have distinct creation times, as the table is ordered by `createdAt` alone.
- PasswordReset.RunKeepsHistory: anonymization, which clears the hash of a deleted user for good, is not among the events.
- Sessions.SessionsRepository.Refresh: refreshes are serial; user agent, address and access tokens are not modelled, and token hashing is injective.
- WorkspaceStore.Tables.CreateWithDefaults: the organization row and the permission rows of the roles are not modelled.
- WorkspaceStore.Tables.CreateRole: whether all permission keys are known is a parameter.
- WorkspaceStore.Tables.UpdateRole: whether all permission keys are known is a parameter, and the permission rows are not modelled.
- WorkspaceStore.Tables.TransferOwnership: the password check is a parameter; the one-hour cache of the role list is not modelled.
- WorkspaceStore.Tables.AcceptInvitation: the e-mail of the accepting account is a parameter.
- WorkspaceStore.Tables.SendInvitation: the account with the invited e-mail is a parameter; the raw token and the e-mail sent are not modelled.
- WorkspaceStore.Tables.CreateUser: the account row is not modelled, and whether the e-mail is taken is a parameter.
- The ownership invariant is about workspaces made by the create-workspace use case; a seeded admin workspace may be in the initial tables and is only covered by the key and reference properties.
- That only one member holds the Owner role is not claimed: a role change accepts any role of the workspace.
- PasswordPolicy.HasSequence: lower-casing is that of ASCII letters.
- Sanitizer.Sanitize: the tree is finite with distinct keys per object and no dates or other class instances; integer-like keys keep the order in which entries are given.
- The length, character-class, common-password and context rules of the password policy.
