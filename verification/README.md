# Transactional protocols of the CRM server, in Dafny

This project models the parts of the CRM server whose correctness depends on order, atomicity and recovery, and
proves what they promise for every input and every run. `dafny verify dfyconfig.toml` checks everything.

Five components share one reading of "atomic":

1. **One SQLite connection, many asynchronous call chains.** `SqliteTx` gives a call chain's body an intended,
   recursive meaning, and runs the same body against a connection that only knows BEGIN, COMMIT, ROLLBACK and a
   stack of named savepoints. `SavepointRuns` follows one unit of work from its first command to its return, at any
   depth. `ConnectionLock` interleaves any number of chains over the promise-chain lock,
   `ConnectionProgress` shows that all of them finish, `TransactionRunner` is the adapter itself, updating the
   connection and the scope in place.
2. **Idempotent mutations.** `Receipts` is the receipt table, `MutationProtocol` the protocol of concurrent requests
   over it, with faults and crashes anywhere, `Answers` what the callers are told, and `Takeover` what the takeover of
   stale claims costs. `JsonText`, `CanonicalJson` and `CanonicalOrder` decide which requests count as the same.
3. **Operations and approval.** `Policy`, `Catalog`, `Executor` and `Approvals`: authorization, the approval gate, the
   review of pending actions, the nested run of a stored operation, and the way from a request to its decision.
4. **Codes, redemption and identity.** `AuthKv` (segment keys and prefix scans), `AuthCodes` (single-use codes),
   `IdentityTables` and `Redemption` (the flows that happen as a whole), `IdentityBinding` (who owns a subject),
   `SignIns` (who gets in).
5. **Workspaces and records.** `Lifecycle` (ownership and the versioned control state), `LifecycleRequests` (what each
   request answers and writes), `Deletion` with `DeletionViews` (the same deletion as the other modules see it),
   `Records` (hard deletion) and `StageStats` (pipeline aggregates).

Components 3 and 4 write their handlers as `SqliteTx` bodies with explicit fault points, so their atomicity is that of
component 1; `Executor.InterleavingsAreRuns` and `ConnectionLock.CarryOver` carry facts about single units of work to
every interleaving.

## Where the code differs from what one would expect

- A number outside the double range (`1e999`) parses to an infinite value and prints as `null`, so `canonicalJson`
  gives it the text of `null`, also inside a request body (`CanonicalJson.NonFiniteCollides`). It is faithful exactly
  on finite values (`CanonicalJson.FaithfulExactlyWhenFinite`).
- A receipt takeover rewrites the request id and the time but keeps the first claimant's action and hash
  (`packages/db/src/sqlite-hosting.ts:236-241`). If a different request takes over a stale claim, a later request like
  the dead one is answered with the outcome of the other, and a repeat of the other gets a conflict
  (`Takeover.TakeoverMisleadsReplays`). A replay answers its own request exactly when the request it replays did not
  take over another one's row (`Takeover.ReplayIsOwnExactlyWhen`).
- At most one commit per key needs the comment's assumption that a displaced claimant has crashed, and needs all of
  it. A claimant still before its transaction commits beside the one that displaced it
  (`Takeover.LiveTakeoverCommitsTwice`). One that has failed and has still to release the key releases the new claim,
  since `abandonReceipt` compares no request id (`packages/db/src/sqlite-hosting.ts:257-260`), and a third request
  gets in (`Takeover.LateAbandonCommitsTwice`). There is no other way to break the assumption, and either way leads to
  two commits (`Takeover.EveryBreachCommitsTwice`).
- Approving an expired action writes `cancelled` and then throws (`packages/core/src/catalog.ts:104-107`), which rolls
  that write back. The action stays pending; it never runs (`Catalog.ApproveMeans`).
- Codes are superseded by user and looked up by email (`packages/db/src/openauth.ts:334-336`, `375-381`), and they
  survive the deletion of a workspace and its users (`Deletion.CodesSurvive`). If the email then gets a new account
  that redeems a newer code, the earlier account's unused code is accepted after it
  (`AuthCodes.LeftoverCodeIsAccepted`), and the password it sets is the email's
  (`packages/db/src/sqlite-identity.ts:117-121`). Acceptance means the newest code of the email and purpose, and the
  current account, exactly when that account holds an unused code or no leftover one is still good
  (`AuthCodes.AcceptanceIsOwnExactlyWhen`).
- Someone who logs in before their user exists gets a subject and a waiting session. That session survives the next
  login exactly if the user was created with its subject; otherwise the login mints a second subject and the session
  dies (`IdentityBinding.SecondSubjectEndsWaiting`).
- The control-state version counts real access changes, and real transfers where there is a control row
  (`Lifecycle.VersionCountsChanges`). So it does not move when ownership is handed over inside the application, and
  a transfer in a workspace without a control row leaves another request expecting version 0 free to come through
  (`Lifecycle.GuardIsExact`, `Lifecycle.UnhostedTransfersBothChange`).
- The comment on the owner swap speaks of a corrupt state with several owners. The swap repairs it unless the target
  is one of them, in which case the answer may be that nothing has changed (`Lifecycle.TransferLeavesOneOwner`). Only
  rows that the unique index of `packages/db/src/schema.ts:55` forbids can be in that state.
- The pipeline sums leave out a stage and currency whose total is negative (`StageStats.NegativeGroupIsLeftOut`), so
  they are exact if and only if there is none (`StageStats.StatsConserve`). The operations admit no negative amount
  (`packages/core/src/domain.ts:30`), and with the amounts they admit the sums are exact (`StageStats.SumsAreExact`).

## Model

| member | source | states |
|---|---|---|
| SqliteTx.StepKeepsMeaning | packages/db/src/sqlite-tx.ts:92-134 | Every single command of a chain keeps the outcome that the recursive meaning predicts, is never refused by SQLite, and keeps frames and savepoints in step |
| SqliteTx.EnterKeepsMeaning | packages/db/src/sqlite-tx.ts:98-103 | Opening a nested or top-level transaction remembers exactly the entry state under a fresh savepoint name |
| SqliteTx.ExitKeepsMeaning | packages/db/src/sqlite-tx.ts:104-126 | Closing keeps the writes of a resolved transaction and restores the entry state of a rejected one, nested or not |
| SavepointRuns.StepKeepsHeading | packages/db/src/sqlite-tx.ts:97-134 | No command inside a call changes what the call is going to return to its caller, at whatever depth |
| SavepointRuns.UnitReturns | packages/db/src/sqlite-tx.ts:97-126 | On the flat commands a unit at any depth, with any nested and caught units inside, returns what it means and leaves transaction, savepoints and callers as at its entry |
| SavepointRuns.RejectedUnitRestores | packages/db/src/sqlite-tx.ts:107-125 | A rejected unit, nested or not, leaves the connection showing exactly the state at its entry |
| TransactionRunner.Adapter.WithTransaction | packages/db/src/sqlite-tx.ts:92-134 | The call does what the recursive meaning of its body says and hands the connection back with the same transaction and savepoints open |
| TransactionRunner.Adapter.Nested | packages/db/src/sqlite-tx.ts:99-115 | The savepoint form, command by command, does what a nested transaction means |
| TransactionRunner.Adapter.Outermost | packages/db/src/sqlite-tx.ts:116-126 | The BEGIN/COMMIT form does what a transaction means and leaves no transaction open |
| TransactionRunner.Adapter.Perform | packages/db/src/sqlite-tx.ts:74-134 | Any body, with loops, catches and nested transactions, ends as its meaning says |
| ConnectionLock.SerialEquivalence | packages/db/src/sqlite-tx.ts:47-134 | For every interleaving, what is committed equals running the calls one at a time in grant order, and each call ends as it would there |
| ConnectionLock.Exclusive | packages/db/src/sqlite-tx.ts:47-78 | At most one holder, first come first served, the scope flag agrees with the connection, and it is handed on idle |
| ConnectionLock.RejectedContributesNothing | packages/db/src/sqlite-tx.ts:116-126 | In the serial run a rejected `withTransaction` call leaves the database as it found it |
| ConnectionLock.NothingEarly | packages/db/src/sqlite-tx.ts:117-121 | While a transaction runs, disk still holds what its predecessors left |
| ConnectionLock.NoDeadlock | packages/db/src/sqlite-tx.ts:47-62 | While a call is unfinished, some call can move |
| ConnectionLock.CarryOver | packages/db/src/sqlite-tx.ts:47-134 | What every call keeps when it runs alone holds of the committed database under every interleaving |
| ConnectionLock.Reachable | packages/db/src/sqlite-tx.ts:47-134 | The lock, order and isolation invariant holds in every reachable state |
| ConnectionProgress.StepCountsDown | packages/db/src/sqlite-tx.ts:92-134 | Each command lowers the number of steps a chain still has to make by exactly one |
| ConnectionProgress.CountsDown | packages/db/src/sqlite-tx.ts:47-134 | Each step of the whole system other than a new call lowers its remaining steps by one |
| ConnectionProgress.EveryCallFinishes | packages/db/src/sqlite-tx.ts:47-62 | From every reachable state the calls made so far can all finish |
| JsonText.UnescapeEscape | packages/hosting-control/src/server.ts:663-665 | JSON string escaping can be read back, whatever follows |
| JsonText.PrintInjective | packages/hosting-control/src/server.ts:663-665 | Parsed finite values with the same JSON text are the same value |
| JsonText.PrintArray | packages/hosting-control/src/server.ts:663-665 | Arrays are printed in brackets with commas between the items |
| JsonText.PrintObject | packages/hosting-control/src/server.ts:663-665 | Objects are printed in braces, each key quoted and a colon before its value |
| JsonText.EscapesAre | packages/hosting-control/src/server.ts:663-665 | The escapes of strings, character by character |
| CanonicalJson.SortDecidesSame | packages/hosting-control/src/server.ts:667-678 | Two values sort to the same value exactly when they differ in member order only, at every depth |
| CanonicalJson.CanonicalDecidesSame | packages/hosting-control/src/server.ts:662-678 | Equal canonical text means equal up to member order, with non-finite numbers read as null |
| CanonicalJson.NonFiniteCollides | packages/hosting-control/src/server.ts:662-665 | A non-finite number and null have the same canonical text and are different |
| CanonicalJson.FaithfulExactlyWhenFinite | packages/hosting-control/src/server.ts:662-678 | A value is told apart from every finite value that is not the same if and only if it is finite |
| CanonicalJson.CanonicalStable | packages/hosting-control/src/server.ts:663-678 | Canonicalising again changes nothing, and the sorted value is the same value |
| CanonicalJson.StableIsCanonical | packages/core/src/operations/helpers.ts:29-37 | The replacer-based stable text equals the canonical text |
| CanonicalJson.SameRequest | packages/hosting-control/src/server.ts:225-225 | Two requests have the same hashed text exactly for the same action, path and body up to member order |
| CanonicalJson.FieldChanges | packages/core/src/operations/helpers.ts:45-54 | The reported changes are exactly the listed fields that differ, with their old and new values |
| CanonicalJson.MissingReadsAsNull | packages/core/src/operations/helpers.ts:45-54 | A field missing on one side differs exactly if the other side has something else than null |
| CanonicalOrder.CanonicalInOrder | packages/hosting-control/src/server.ts:667-678 | The members of a canonical object come in one order: array indices by number, then the other keys by code units |
| CanonicalOrder.IndexExactlyWhen | packages/hosting-control/src/server.ts:671-675 | A key is an array index exactly if it is the decimal notation of a number below 2^32 - 1 |
| Receipts.ReceiptStore.BeginReceipt | packages/db/src/sqlite-hosting.ts:221-246 | Insert, takeover of a stale pending row, or refusal with the row, and the table each leaves |
| Receipts.ReceiptStore.CompleteReceipt | packages/db/src/sqlite-hosting.ts:247-256 | Completes the row of the key, whoever holds it |
| Receipts.ReceiptStore.AbandonReceipt | packages/db/src/sqlite-hosting.ts:257-260 | Deletes the row of the key only while it is pending |
| Receipts.CompletedStays | packages/db/src/sqlite-hosting.ts:221-260 | No begin or abandon, and no completion of another key, touches a completed row |
| Receipts.ClaimedExactlyWhen | packages/db/src/sqlite-hosting.ts:221-246 | A key can be claimed exactly when it is free or has been pending for more than a minute, and what the claim writes |
| Receipts.OutcomesAre | packages/db/src/sqlite-hosting.ts:247-260 | Completion keeps everything but the outcome; release takes exactly a pending row |
| MutationProtocol.MutationIsAtomic | packages/hosting-control/src/server.ts:245-272 | Change, receipt and audit row commit together exactly when nothing fails; otherwise the store is unchanged |
| MutationProtocol.TransactStepIsTheTransaction | packages/hosting-control/src/server.ts:245-273 | The protocol's commit step is the meaning of that transaction, fault by fault |
| MutationProtocol.AtMostOnce | packages/hosting-control/src/server.ts:227-291 | Over every run of concurrent, failing and crashing requests, at most one mutation per key commits |
| MutationProtocol.CompletedMeansCommitted | packages/hosting-control/src/server.ts:242-291 | A receipt is completed exactly when a mutation of its key committed, and whatever commit of the key there is, the receipt holds its status and stored body |
| MutationProtocol.CompletedForever | packages/db/src/sqlite-hosting.ts:247-260 | A completed receipt is never changed or removed, also when work after the commit throws |
| MutationProtocol.LateRequestsReplay | packages/hosting-control/src/server.ts:227-240 | A request that arrives after the completion replays the stored answer or conflicts; its steps change no business data and no receipt, commit nothing and write at most its audit row |
| MutationProtocol.OnlyCommitsChangeBusiness | packages/hosting-control/src/server.ts:242-291 | Business data changes only in the commit of a request holding its claim, by what its build says |
| MutationProtocol.NeverAuditedTwice | packages/hosting-control/src/server.ts:177-185 | No request is audited twice, also not one that throws after its commit |
| Answers.LiveAnswersAreWhole | packages/hosting-control/src/server.ts:246-284 | Over every run: a live answer is that of the build that committed, with its status and all of its data, one-time material included, under the request id; no body for 204 |
| Answers.AnswersSayWhatWasMet | packages/hosting-control/src/server.ts:227-241 | Over every run: a conflict, a request in progress and a replay are what the request met under its key when it began |
| Answers.ReplayRepeatsACommit | packages/hosting-control/src/server.ts:200-209 | Over every safe run: a replay has the status and the data of a commit of its key, under the request id of that commit |
| Answers.ReplayHidesOnlyOneTime | packages/hosting-control/src/server.ts:249-262 | Over every safe run: the live answer and any replay of it have the same status and the same data in the same order, but for the one-time fields, which only the live one shows |
| Answers.AuditTells | packages/hosting-control/src/server.ts:155-185 | Over every run: the audit calls a request done exactly when it committed or was given a replay |
| Answers.CanBeAnswered | packages/hosting-control/src/server.ts:214-292 | From any state a request that has not crashed is answered within four steps of its own |
| Takeover.LiveTakeoverCommitsTwice | packages/db/src/sqlite-hosting.ts:233-244 | Displacing a claimant that is still at work lets a key commit twice |
| Takeover.LateAbandonReopens | packages/db/src/sqlite-hosting.ts:257-260 | A displaced claimant that releases the key late releases the new claim: a third request claims it by a safe step, and two now take it for theirs |
| Takeover.LateAbandonCommitsTwice | packages/db/src/sqlite-hosting.ts:257-260 | And from there both commit |
| Takeover.EveryBreachCommitsTwice | packages/db/src/sqlite-hosting.ts:233-244 | From every reachable state, any takeover that breaks the assumption leads to two more commits of the key, if the changes are accepted |
| Takeover.TakeoverMisleadsReplays | packages/db/src/sqlite-hosting.ts:233-245 | Safe steps after which a request is answered with another one's outcome, and a repeat of that other one conflicts |
| Takeover.TakeoverAnswersForTheFirst | packages/db/src/sqlite-hosting.ts:236-241 | Whatever happens between claim and commit, the completed receipt carries another request's action and hash exactly when the claim took over another request's row |
| Takeover.ReplayIsOwnExactlyWhen | packages/hosting-control/src/server.ts:228-239 | A replay answers its own request, and a repeat is replayed instead of refused, exactly when the replayed request did not take over another one's row |
| Takeover.ReplaysAnswerTheirOwn | packages/hosting-control/src/server.ts:228-239 | If takeovers are by the same request, every replayed answer is that of a committed mutation with the key, action and hash of the request that gets it |
| Policy.DirectRunNeedsAuthority | packages/core/src/catalog.ts:168-193 | Exactly which callers run an operation without approval |
| Policy.AgentOutranksItsUserExactlyWhen | packages/core/src/catalog.ts:168-193 | An agent does on its own what its user could not exactly for a riskless operation reserved to requesters above the user's role |
| Policy.DistrustOnlyDelays | packages/core/src/catalog.ts:187-193 | What an agent runs under one trust profile it runs or may ask for under any other; only the trust in the risk decides which |
| Policy.WaitsExactlyWhen | packages/core/src/catalog.ts:168-193 | Exactly which calls wait for approval: those of an agent within its scopes to a risky operation, below the role or short of the trust |
| Policy.RolesAreOrdered | packages/core/src/policy.ts:6-11 | Which role reaches which floor, role by role |
| Policy.TrustCovers | packages/core/src/policy.ts:81-89 | Which risks each trust profile covers |
| Catalog.NestedMeans | packages/core/src/catalog.ts:111-116 | The nested run keeps the target's writes exactly when it and its release succeed |
| Catalog.ApproveChecks | packages/core/src/catalog.ts:92-109 | The checks let exactly the pending, unexpired, known actions of others through, and refuse the others with the error of their case |
| Catalog.ApproveMeans | packages/core/src/catalog.ts:92-149 | Approved with the target's writes, failed with the failure on record and no trace of the target, or nothing changed, and exactly when each |
| Catalog.SmallReviewMeans | packages/core/src/operations/approval-ops.ts:40-142 | Reject, cancel, cancel-own and get-own: when each succeeds, what it settles and records, the row it returns, and the error it refuses with |
| Executor.RunOperation | packages/core/src/catalog.ts:195-287 | The executor as it runs on the adapter: result and database as specified, connection idle again |
| Executor.ExecutorFrame | packages/core/src/catalog.ts:195-287 | What ok, pending approval (with the whole stored row) and error each mean for the database, for every catalog, caller, input, handler and fault |
| Executor.UnitKeepsSettled | packages/db/src/repositories.ts:2275-2306 | No unit of work touches an action that has left `pending` |
| Executor.SettledForever | packages/db/src/repositories.ts:2275-2306 | Over every run an action leaves `pending` at most once |
| Executor.ApprovedAtMostOnce | packages/core/src/catalog.ts:92-149 | Of all approvals of an action at most one commits, and what it leaves: the target's writes with the action approved, or the state before it with the action failed |
| Executor.StatusTellsWhatHappened | packages/core/src/catalog.ts:92-149 | In every run an action that was pending is found approved exactly when an approval of it committed with its target's writes, and failed exactly when one committed without them |
| Executor.InterleavingsAreRuns | packages/db/src/sqlite-tx.ts:47-134 | Under every interleaving of executor calls the committed database is the end of a run of units of work |
| Approvals.ApprovalDecides | packages/core/src/catalog.ts:92-149 | On the columns of the row: an approval commits exactly when it may and nothing breaks, and leaves the stored operation run on its stored input, or its failure on record, with reviewer, note and result |
| Approvals.SmallReviewDecides | packages/core/src/operations/approval-ops.ts:40-142 | On the columns of the row: who may reject, cancel or look, and the status, reviewer, note and audit row each leaves |
| Approvals.WhatWasAskedIsDecided | packages/core/src/catalog.ts:240-251 | Over every run: what an approval decides on is the operation the agent called, on the input it was parsed from, within seven days, and not for an agent of the same client |
| Approvals.NoAgentApprovesItself | packages/core/src/catalog.ts:95-103 | Over every run: once an agent of a client was told to wait, no agent of that client ever decides the action |
| Approvals.ApprovalAnswers | packages/core/src/catalog.ts:92-149 | The answer of an approval is the stored operation's, or the error of its case; an agent's attempt on its own request is audited |
| Approvals.CallAnswers | packages/core/src/catalog.ts:195-287 | What every call answers while nothing breaks, error by error |
| AuthKv.JoinSplit | packages/db/src/openauth.ts:31-37 | Splitting a key loses nothing |
| AuthKv.SplitUndoesJoin | packages/db/src/openauth.ts:31-37 | Splitting undoes joining exactly for non-empty keys without a separator inside a segment |
| AuthKv.FilterIsSegmentPrefix | packages/db/src/openauth.ts:135-142 | The string filter of a scan is a whole-segment prefix test |
| AuthKv.LikeIsPrefix | packages/db/src/openauth.ts:56-64 | The escaped LIKE pattern matches exactly what starts with the prefix, up to ASCII case |
| AuthKv.FoldsTogether | packages/db/src/openauth.ts:61-64 | Which units the comparison takes for the same: the two cases of 26 letters |
| AuthKv.LivesUntil | packages/db/src/openauth.ts:68-76 | A row lives until its expiry, and forever without one |
| AuthKv.CleanupTakes | packages/db/src/openauth.ts:101-103 | The cleanup takes exactly the rows whose expiry is past |
| AuthKv.KvStore.Get | packages/db/src/openauth.ts:68-76 | A live row, or nothing; an expired row is dropped |
| AuthKv.KvStore.ScanPrefix | packages/db/src/openauth.ts:101-108 | Exactly the live rows that start with the prefix up to case; expired rows are cleaned up |
| AuthKv.KvStore.Scan | packages/db/src/openauth.ts:135-143 | Exactly the live keys whose segments extend the prefix segments, with their values |
| AuthKv.KvStore.FilterSegments | packages/db/src/openauth.ts:138-142 | The loop over the candidate rows keeps all and only the whole-segment matches |
| AuthCodes.CodeTable.IssueAuthCode | packages/db/src/openauth.ts:314-351 | Refuses in an exhausted window, otherwise supersedes and inserts |
| AuthCodes.CodeTable.VerifyAndConsume | packages/db/src/openauth.ts:371-395 | The verdict and the attempt bookkeeping of one guess |
| AuthCodes.CodesAreSingleUse | packages/db/src/openauth.ts:314-395 | Over every run each code is accepted at most once, one unused code per user and purpose, with attempts left |
| AuthCodes.NeverAfterNewer | packages/db/src/openauth.ts:371-395 | No code is accepted after a newer one of its user and purpose was issued, nor twice; the cap check before the comparison never decides |
| AuthCodes.AcceptanceIsOwnExactlyWhen | packages/db/src/openauth.ts:334-381 | Every acceptance is of the email's newest code and its current account exactly when that account holds an unused code or no leftover one is still good |
| AuthCodes.AcceptedExactlyWhenNewest | packages/db/src/openauth.ts:371-395 | In that case a guess is accepted exactly when it is the newest code of email and purpose, the account's own, unused and unexpired |
| AuthCodes.LeftoverCodeIsAccepted | packages/db/src/openauth.ts:334-381 | A run in which an earlier account's code is accepted after the current account redeemed a newer one |
| AuthCodes.WrongGuessOnlyCounts | packages/db/src/openauth.ts:371-395 | Every verdict, and that a refusal changes only the attempt bookkeeping of one code; the tenth uses it up |
| AuthCodes.SlidingWindowBound | packages/db/src/openauth.ts:320-328 | Every 15-minute window, wherever it starts, holds at most 5 codes of an email, both purposes together |
| AuthCodes.IssuedExactlyWhen | packages/db/src/openauth.ts:311-350 | Over every run: a code is refused exactly when five of its email were created in the last 15 minutes; otherwise the account's unused codes of the purpose are superseded and a fresh one is added |
| AuthCodes.CodesLastExactly | packages/db/src/openauth.ts:275-278 | Over every run: while a code is the active one, its guess is accepted for seven days (setup) or one hour (reset), and never afterwards |
| AuthCodes.AcceptedIsRecent | packages/db/src/openauth.ts:367-399 | Over every run: whatever guess is accepted was issued to that user for that email and purpose, not longer ago than a code of the purpose lives |
| IdentityTables.Tables.EndUserSessions | packages/db/src/openauth.ts:250-263 | Exactly the user's sessions and the refresh tokens behind them are removed |
| IdentityTables.Tables.InvalidateSubjectRefreshTokens | packages/db/src/openauth.ts:222-228 | The rows the scan finds are removed, the expired ones cleaned up |
| IdentityTables.InvalidatedLeaves | packages/db/src/openauth.ts:222-228 | No live refresh token of the subject is left; every other live row stays |
| IdentityTables.EndingIs | packages/db/src/openauth.ts:250-263 | Ending a user's sessions takes exactly those sessions and the tokens they were opened with |
| IdentityTables.RefreshKeyIs | packages/db/src/openauth.ts:234-241 | Where the token "subject:id" is kept, and which texts are no token |
| IdentityTables.KeysSpelled | packages/db/src/openauth.ts:155-161 | The keys as they are spelled in the store |
| IdentityTables.PasswordIsNoRefresh | packages/db/src/openauth.ts:155-160 | No refresh-token scan, up to case, reaches a password |
| IdentityTables.PasswordKeysDiffer | packages/db/src/openauth.ts:155-155 | Each email has its own password key, whatever characters it holds |
| IdentityTables.Tables.SetPassword | packages/db/src/openauth.ts:195-198 | The credential is the email's from then on, and no other email's credential and no other row changes |
| IdentityTables.Tables.HasPassword | packages/db/src/openauth.ts:200-202 | Whether there is a live credential; the lookup costs nobody theirs |
| Redemption.RedemptionIsAtomic | packages/db/src/sqlite-identity.ts:115-130 | All or nothing under a fault after any statement; success spends the code, replaces the credential, lifts the forced change, and a reset locks earlier holders out |
| Redemption.RedeemedMeans | packages/db/src/openauth.ts:579-594 | What the writes after an accepted code amount to, and everything they leave alone |
| Redemption.RedeemCodeAndSetPassword | packages/db/src/sqlite-identity.ts:115-130 | The flow as it runs on the adapter does what its meaning says, joining a transaction that is open |
| Redemption.IssueIsAtomic | packages/db/src/sqlite-identity.ts:109-113 | Issuing to a member resolves exactly when it may, in one piece; otherwise nothing has changed |
| Redemption.IssuedLocksOut | packages/db/src/openauth.ts:352-359 | A reset code leaves the user no session and no row under their refresh prefix, takes nobody else's session, and from the login store exactly the user's tokens |
| IdentityBinding.IdentityRows.ResolveAuthSuccess | packages/db/src/sqlite-identity.ts:133-141 | Binding and record together, as one step |
| IdentityBinding.IdentityRows.BindAuthSuccess | packages/db/src/openauth.ts:474-520 | Not invited, disabled, unprovisioned or linked, and the rows each leaves |
| IdentityBinding.IdentityRows.ResolveSessionAny | packages/db/src/auth.ts:107-138 | Adoption, refusal or plain resolution of a session, and the rows each leaves |
| IdentityBinding.SubjectNeverChanges | packages/db/src/openauth.ts:493-517 | Over every run a user's subject, once set, stays |
| IdentityBinding.SubjectBelongsToOneEmail | packages/db/src/openauth.ts:474-520 | Over every run a subject belongs to one email, on users, records, waiting sessions and answers |
| IdentityBinding.BoundUsersAreDistinct | packages/db/src/repositories.ts:466-487 | No two users share a subject, and a bound user is never pending |
| IdentityBinding.WaitingSurvivesExactlyWhen | packages/db/src/auth.ts:113-132 | A waiting session whose email has an active user survives exactly when the user has no subject or its own, and is then the user's session |
| IdentityBinding.LoginAnswersFirstExactlyWhen | packages/db/src/openauth.ts:480-517 | When a login answers a subject that was minted earlier |
| IdentityBinding.SecondSubjectEndsWaiting | packages/db/src/auth.ts:113-125 | After a login the waiting session survives exactly if the user was bound to its subject |
| SignIns.OwnSessionSignsInExactlyWhen | packages/db/src/auth.ts:146-154 | A user's session signs in exactly while it lasts and the user is active, not disabled and a member |
| SignIns.WaitingSessionIsAdopted | packages/db/src/auth.ts:113-134 | A waiting session whose email has an active user becomes that user's, with every column it writes, or is dropped if the user is bound to another subject |
| SignIns.OtherSessionsChangeNothing | packages/db/src/auth.ts:107-137 | Any other session changes nothing and goes on waiting, or is none |
| SignIns.KnownLoginMeans | packages/db/src/openauth.ts:480-517 | What a login of a known email answers and writes; the disabled are turned away |
| SignIns.UnknownLoginMeans | packages/db/src/openauth.ts:480-500 | What a login of an unknown email answers and writes, with registration open or not |
| SignIns.ProvisionMeans | packages/hosting-control/src/lifecycle.ts:66-105 | The owner a provisioning adds: active and bound with a credential, pending and unbound without |
| SignIns.EnrolmentMeans | packages/db/src/repositories.ts:450-531 | Invited users are pending, created ones active, taken emails add nobody |
| SignIns.DisablingMeans | packages/db/src/repositories.ts:466-487 | The status a disabling and an enabling leave |
| SignIns.DeletionMeans | packages/db/src/repositories.ts:532-563 | A deleted user leaves no row, membership, record or session, and everybody else keeps theirs |
| SignIns.OpeningMeans | packages/db/src/auth.ts:58-76 | A new session is there until its time; opening it sweeps out exactly the expired ones |
| SignIns.DisabledAreNeverSignedIn | packages/db/src/auth.ts:146-154 | Over every run: whoever is disabled is not signed in, by whatever session, until enabled again |
| SignIns.DeletedAreNeverSignedIn | packages/db/src/auth.ts:146-154 | Over every run: whoever is deleted is never signed in again |
| SignIns.EndedSessionsStayEnded | packages/db/src/repositories.ts:504-509 | Over every run: sessions of a user that were ended are none any more, whatever becomes of the user |
| Lifecycle.HostingRows.ProvisionInTransaction | packages/hosting-control/src/lifecycle.ts:66-129 | A new workspace with its owner and version 1, or nothing at all |
| Lifecycle.HostingRows.SetWorkspaceAccess | packages/hosting-control/src/lifecycle.ts:186-215 | The guarded access change and its audit entry, or the unchanged state |
| Lifecycle.HostingRows.TransferWorkspaceOwner | packages/hosting-control/src/lifecycle.ts:275-328 | The guarded transfer, for whichever rows the two queries find |
| Lifecycle.HostingRows.SwapOwners | packages/db/src/sqlite-hosting.ts:440-446 | The two updates make the target owner and every other owner an admin |
| Lifecycle.HostingRows.HandOver | packages/db/src/repositories.ts:564-587 | The hand-over inside the application |
| Lifecycle.ExactlyOneOwner | packages/hosting-control/src/lifecycle.ts:66-328 | Over every run of lifecycle requests each workspace has exactly one owner |
| Lifecycle.TransferLeavesOneOwner | packages/hosting-control/src/lifecycle.ts:301-310 | Whichever owner row the query returns, a transfer leaves the target as sole owner exactly when it was no owner or the only one before |
| Lifecycle.TransferIsFramed | packages/hosting-control/src/lifecycle.ts:275-328 | When a transfer is done, changed and versioned, and everything it leaves alone |
| Lifecycle.RepeatedTransferKeepsTwoOwners | packages/hosting-control/src/lifecycle.ts:303-306 | The state, forbidden by the unique index, in which a repeated transfer keeps two owners |
| Lifecycle.HandOverKeepsVersion | packages/db/src/repositories.ts:564-587 | The hand-over succeeds exactly for an active member, leaves one owner, and does not move the version |
| Lifecycle.VersionCountsChanges | packages/db/src/sqlite-hosting.ts:344-363 | For every request the version rises by one exactly for a real access change, or a real transfer where there is a control row |
| Lifecycle.AtMostOneChanges | packages/hosting-control/src/lifecycle.ts:186-321 | Of all requests carrying the same expected version, at most one changes anything |
| Lifecycle.GuardIsExact | packages/hosting-control/src/lifecycle.ts:186-321 | A request that met its version and changed something is the last one to do so in every further run exactly if it set the access state or there is a control row |
| Lifecycle.UnhostedTransfersBothChange | packages/hosting-control/src/lifecycle.ts:312-319 | Without a control row two transfers expecting version 0 both change the owner |
| LifecycleRequests.AccessIsSet | packages/hosting-control/src/lifecycle.ts:186-215 | The control row has the mode and expiry that were asked for, or the request is refused; every other row is as it was |
| LifecycleRequests.AccessStays | packages/hosting-control/src/lifecycle.ts:186-321 | Over every run: the mode and expiry of a workspace stay until access is set again, whoever owns it meanwhile |
| LifecycleRequests.EligibleExactlyWhen | packages/hosting-control/src/lifecycle.ts:169-175 | Whom a transfer accepts, status by status |
| LifecycleRequests.QueriesFind | packages/db/src/sqlite-hosting.ts:412-439 | Which rows the member and the owner query may return |
| LifecycleRequests.TransferAnswers | packages/hosting-control/src/lifecycle.ts:275-306 | When a transfer is refused, and as what, and when the owner changes |
| LifecycleRequests.TransferWrites | packages/hosting-control/src/lifecycle.ts:308-328 | What a transfer that changes the owner answers and writes, row by row |
| LifecycleRequests.HandOverIs | packages/db/src/repositories.ts:564-587 | What a hand-over inside the application answers and writes |
| LifecycleRequests.ProvisionIs | packages/hosting-control/src/lifecycle.ts:66-129 | What a provisioning answers and writes, with its defaults |
| LifecycleRequests.InvitationIs | packages/db/src/repositories.ts:511-531 | What an invitation answers and writes |
| LifecycleRequests.UserDeletionIs | packages/db/src/repositories.ts:532-563 | When a user can be deleted, and which rows go |
| LifecycleRequests.WorkspaceDeletionIs | packages/db/src/sqlite-hosting.ts:471-502 | Which rows go with a workspace, and that all others stay |
| Deletion.ListIsComplete | packages/db/src/sqlite-hosting.ts:85-109 | The list names every table with a workspace column |
| Deletion.Database.DeleteWorkspace | packages/db/src/sqlite-hosting.ts:471-502 | Exactly the doomed rows are gone and no other row has changed; an absent workspace changes nothing |
| Deletion.Database.DeletePermanently | packages/hosting-control/src/lifecycle.ts:382-388 | Then the access and outbox rows go and the service audit forgets the workspace |
| Deletion.NothingIsLeft | packages/db/src/sqlite-hosting.ts:471-502 | After the sweep no scoped table mentions the workspace, and every former member who can still be met is a member of a remaining workspace |
| Deletion.NothingNamesIt | packages/hosting-control/src/lifecycle.ts:382-388 | After the whole deletion no row of any table names the workspace |
| DeletionViews.LifecycleAgrees | packages/db/src/sqlite-hosting.ts:471-502 | The deletion of the tables and that of the lifecycle leave the same workspaces, users, memberships and control rows |
| DeletionViews.BindingAgrees | packages/db/src/sqlite-hosting.ts:486-499 | And the identity store loses exactly the users who belonged to the workspace alone, with their sessions; its users, sessions and members are those of the tables |
| DeletionViews.RecordsAgree | packages/db/src/sqlite-hosting.ts:479-481 | The record and link tables are left with the other workspaces' rows, unchanged, as `Records.WithoutWorkspace` says, and with references that stay within their workspace none is left dangling |
| Deletion.OthersAreFramed | packages/db/src/sqlite-hosting.ts:482-499 | Rows, users and sessions of other workspaces are unchanged |
| Deletion.CodesSurvive | packages/db/src/sqlite-hosting.ts:471-502 | Every setup and reset code and every login-store row is left behind |
| Records.RemovedStaysSound | packages/db/src/repositories.ts:717-730 | After a removal no link, tag, value, list entry, stakeholder or column refers to a missing record |
| Records.WithoutWorkspaceStaysSound | packages/db/src/sqlite-hosting.ts:479-481 | The same rule holds after the rows of a whole workspace are gone |
| Records.RulesCover | packages/db/src/repositories.ts:717-730 | The statements of each kind strike exactly the links that refer to the record |
| Records.ColumnsCover | packages/db/src/repositories.ts:723-725 | And null exactly the columns that can |
| Records.RecordStore.HardDeleteCompany | packages/db/src/repositories.ts:717-730 | The statements amount to the removal of the record and everything that refers to it, and nothing else |
| Records.RecordStore.HardDeletePerson | packages/db/src/repositories.ts:881-895 | The same for a person |
| Records.RecordStore.HardDeleteEngagement | packages/db/src/repositories.ts:1257-1273 | The same for an engagement |
| Records.RecordStore.HardDeleteDeal | packages/db/src/repositories.ts:1406-1421 | The same for a deal |
| Records.RecordStore.HardDeleteOffering | packages/db/src/repositories.ts:1576-1582 | The same for an offering |
| Records.RecordStore.HardDeleteActivity | packages/db/src/repositories.ts:1805-1807 | The same for an activity, to which nothing refers |
| StageStats.Collect | packages/db/src/repositories.ts:1504-1512 | One entry per stage that occurs, holding what its groups bring and no more |
| StageStats.GroupsPartition | packages/db/src/repositories.ts:1494-1503 | Summed over the groups, each aggregate is that of the deals |
| StageStats.EntriesAreExact | packages/db/src/repositories.ts:1493-1513 | Each stage's count is the number of its unarchived deals, its sums their amounts |
| StageStats.DealCountsFor | packages/db/src/repositories.ts:1494-1503 | What one more deal counts for: one, its amount, and its weighted amount, unless it is archived, of another pipeline or without a stage |
| StageStats.StatsConserve | packages/db/src/repositories.ts:1493-1513 | Counts add up to the deals with a stage; sums add up to their amounts if and only if no group is negative |
| StageStats.SumsAreExact | packages/db/src/repositories.ts:1493-1513 | With amounts that are not negative the sums of every currency add up to the deals' amounts |
| StageStats.NegativeGroupIsLeftOut | packages/db/src/repositories.ts:1508-1508 | The negative amount, written past the operations, whose group is left out |
| StageStats.WeightedIsClose | packages/db/src/repositories.ts:1498-1510 | A rounded weighted value is at most its sum and within one half of the exact one |
| StageStats.RoundedHalfUp | packages/db/src/repositories.ts:1509-1509 | Halves are rounded up |

## Left out

- SQLite refusing a statement, breaking a transaction off by itself, SQLITE_BUSY and other processes on the file: a failing command is a fault point of the body, and one process owns the connection.
- Bodies that do not end, and sibling nested calls that run at the same time: bodies are finite trees with bounded loops, and nested units of one chain run one after another, as savepoints need.
- The lookup of the scope in the asynchronous context: whether a call joins or queues is told by where it stands, inside a chain or at its top. The flag is set with BEGIN, in one step, where the code sets it just before.
- The two clock readings of one issue or scan (`packages/db/src/openauth.ts:318-320`, `103-106`): one moment stands for both.
- AuthCodes.AcceptanceIsOwnExactlyWhen: breaks ties of creation time towards the later row, where the query orders by creation time alone (`packages/db/src/openauth.ts:380`); it is exact up to codes of two accounts issued in one millisecond.
- Port calls outside a transaction that take no lock, such as previews: they only read.
- The HTTP and MCP servers, cookies, parsing of requests, scrypt, SHA-256, randomness and the delivery of codes: a hash stands for the text it is taken of, and new ids and subjects are fresh.
- Trimming and lower-casing of emails and the normalising of codes: both are in their normalised form.
- The spelling of numbers in JSON: a number is its text as printed, and only whether it is finite matters.
- The PostgreSQL adapter and the operations not shown: a target operation is an arbitrary change that leaves the pending actions alone, and it is the only kind that carries a risk.
- The target hash of a receipt, review times and the actor columns of an audit row.
- AuthKv's counter (`increment`), and the JSON encoding of stored values.
- IdentityBinding.IdentityRows.ResolveAuthSuccess: keeps the record of an email's subject in a map by email instead of a row under its subject key, and every recorded value is a subject, so the test of its `acct_` prefix is left out.
- IdentityBinding.SubjectBelongsToOneEmail: assumes that a waiting session is opened with the email and subject a login answered with.
- Role changes through `users.update`, whose guard is not part of this model; they are not events of the one-owner runs.
- Lifecycle.HostingRows.ProvisionInTransaction: takes the resolved email; how a subject leads to it is `IdentityBinding.ProvisionEmail`. Default pipelines and the outbox row are left out.
- Owner recovery, inspection and the outbox sweep: compositions of what is modelled, with easy contracts.
- The rest of `deletePermanently` (a user's codes, keys, saved views and assignments): unconditional deletes and updates; the runs of `AuthCodes` remove no code.
- Tags, lists and field definitions as ends of links: `Records` is about links to records.
- StageStats.WeightedIsClose: the query's floating-point division and sum are exact here, in hundredths.
