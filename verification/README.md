# Agent Gateway control plane: a verified model

This project models the control plane of Agent Gateway in Dafny and proves what it promises over every
input, every interleaving and every reachable state. SQLite transactions and regions under a mutex are
atomic steps; clocks, random values, answers of other components and the scheduling of threads are
arbitrary; digests and MACs are constructors, so no two inputs share one.

| file | what it models |
|---|---|
| `AdminCredentials.dfy`, `AdminService.dfy` | the administrator credential table, its authority revision, and the service whose methods change it |
| `SessionManager.dfy`, `SessionSystem.dfy` | browser sessions derived from credentials, and every interleaving of their users with revocations |
| `RotationWorkflow.dfy`, `RotationOrder.dfy` | the rotation command, a server, a lossy network and other administrators; what comes before what |
| `ConstraintCache.dfy`, `SingleFlight.dfy` | the weight-bounded FIFO cache and concurrent single-flight compilation over it |
| `Principals.dfy`, `Admission.dfy` | agent principals with revisions, and the evaluate/confirm protocol fenced by them |
| `AuditLog.dfy`, `AuditReads.dfy` | the append-only log with retention, its validator, and cursor traversals |
| `CollectionPages.dfy` | filtered, sorted pages of principals and grants |
| `OneEdit.dfy`, `Ulid.dfy`, `JsonPointer.dfy`, `SurrogateScan.dfy` | algorithms with exact specifications |
| `Wrappers.dfy` | `Option` and `Result` |

`dafny verify dfyconfig.toml` checks the whole project.

How the parts fit: `AdminCredentials.Step` is the committed effect of each credential transaction;
`AdminService` proves that its methods commit such a step or change nothing; `SessionSystem` and
`RotationWorkflow` let anybody take such steps at any time. Identities are the numbers that their 26
characters spell, which `Ulid.IdOrder` justifies. A failed or rolled-back transaction is no step.

One expectation does not hold of the code: that the gateway's own mutations never make a principal unreadable.
A mutation stores the clock unclamped, and readers refuse a principal updated before it was created or before
its credential was issued, so a clock that steps back can make agent authentication unavailable until the row is
written again. `Principals.ClockBehindCreation` gives such a run; `Principals.ClockDecides` and
`Principals.AvailableWhileInTime` say exactly when it happens.

## Model

| member | source | states |
|---|---|---|
| `AdminCredentials.StepKeepsInv` | agent-gateway/internal/admin/credentials.go:55-77 | Every committed create, revoke, rotation, reset or initialization keeps at most 128 rows, unique verifiers, and row revisions below the gateway counter. |
| `AdminCredentials.StepKeepsGoverned` | agent-gateway/internal/admin/credentials.go:206-216 | No transaction removes the last active non-expiring credential; initialization and reset install one. |
| `AdminCredentials.AlwaysGoverned` | agent-gateway/internal/admin/service.go:95-109 | In every state after initialization there is an active non-expiring credential and never a row too many. |
| `AdminCredentials.PruneIsDetermined` | agent-gateway/internal/admin/credentials.go:357-367 | The pruning rule (exactly as many as needed, only revoked or expired rows, oldest first) names one set of rows. |
| `AdminService.RoomDecides` | agent-gateway/internal/admin/credentials.go:350-367 | With enough revoked or expired rows there is a set the pruning rule names, and a candidate is refused exactly when a row left behind clashes with it. |
| `AdminCredentials.StepRaisesAuthority` | agent-gateway/internal/admin/credentials.go:237-243 | Every effective transaction leaves a strictly greater authority revision, even when pruning deletes the row that held the maximum; unrelated counter increments leave the table alone. |
| `AdminCredentials.SameRevisionSameTable` | agent-gateway/internal/admin/credentials.go:145-152 | Two equal readings of the authority revision prove that the table was the same at every moment between them. |
| `AdminCredentials.ConditionalCommitIsUndisturbed` | agent-gateway/internal/admin/credentials.go:56-64 | A conditional create or a rotation that commits against a revision proves nobody changed authority since it was read (If-Match, section 13.1.1 of RFC 9110). |
| `AdminCredentials.NeverActiveAgain` | agent-gateway/internal/admin/credentials.go:196-235 | A credential that is revoked or pruned is not active in any later state until its identity is inserted anew. |
| `AdminCredentials.StepKeepsIdentity` | agent-gateway/internal/admin/credentials.go:170-183 | A retained row keeps its verifier, fingerprint, creation time and expiry. |
| `AdminCredentials.AcceptedUntilWithdrawn` | agent-gateway/internal/admin/service.go:327-343 | From creation to acceptance, over every history: a reader takes the bearer for its credential exactly while the row is retained, nobody withdrew it and its expiry, if any, lies ahead; and for no other credential. |
| `AdminCredentials.PermanentUntilWithdrawn` | agent-gateway/internal/admin/credentials.go:331-342 | A credential without expiry is never pruned while nobody withdraws it. |
| `AdminCredentials.InsertionStores` | agent-gateway/internal/admin/service.go:327-343 | An insertion stores the candidate's secret, fingerprint, creation time and expiry, active at the new revision. |
| `AdminCredentials.CreateRetains` | agent-gateway/internal/admin/credentials.go:65-77 | A create leaves every other retained row alone and drops only revoked or expired ones. |
| `AdminCredentials.ResetRetains` | agent-gateway/internal/admin/service.go:140-149 | A reset leaves every other retained row revoked, with its other columns as they were. |
| `AdminCredentials.RevocationStores` | agent-gateway/internal/admin/credentials.go:170-178 | Revoking and rotating change one row, from active to revoked at the new revision. |
| `AdminCredentials.PruneMeans` | agent-gateway/internal/admin/credentials.go:350-367 | By the columns: as many rows go as are past 127, each revoked or expired, and each older, by creation time and then identity, than any such row that stays. |
| `AdminCredentials.SeenMeans` | agent-gateway/internal/admin/credentials.go:284-297 | A reader sees a row as active exactly if it is stored active and its expiry, if any, is later; as revoked exactly if it is stored revoked. |
| `AdminService.AdminService.QueryAuthorityRevision` | agent-gateway/internal/admin/credentials.go:237-243 | The scan returns the maximum revision over the retained rows, zero for none. |
| `AdminService.AdminService.Authenticate` | agent-gateway/internal/admin/service.go:169-207 | Answers with a credential exactly when it is active, unexpired and its verifier is the digest of an administrator bearer; an agent bearer is always a domain mismatch. |
| `AdminService.AdminService.PruneForInsert` | agent-gateway/internal/admin/credentials.go:306-369 | Succeeds exactly when enough rows are revoked or expired, and then deletes just the rows the pruning rule names. |
| `AdminService.AdminService.Create` | agent-gateway/internal/admin/credentials.go:40-81 | Succeeds exactly with a valid expiry, the present revision and a candidate the pruned table admits, and then commits the create step; each error exactly in its case, with no change. |
| `AdminService.AdminService.Revoke` | agent-gateway/internal/admin/credentials.go:196-235 | Commits the revoke step or changes nothing; refuses exactly the last permanent credential; an inactive one is a no-op. |
| `AdminService.AdminService.CompleteRotation` | agent-gateway/internal/admin/credentials.go:142-194 | Commits the rotation step or changes nothing; stale and conflict errors each exactly in their case. |
| `AdminService.AdminService.Initialize` | agent-gateway/internal/admin/service.go:95-109 | Succeeds exactly on an empty table and installs one permanent credential. |
| `AdminService.AdminService.Reset` | agent-gateway/internal/admin/service.go:135-150 | Succeeds exactly on a table that is not empty and admits the candidate once everything is revoked; it never fails for lack of capacity, only for a clash with a row that stays. |
| `SessionManager.CloseAllKeepsChannels` | agent-gateway/internal/admin/sessions.go:358-364 | Closing sessions keeps the law that a done channel was closed once exactly if its session left the map. |
| `SessionManager.AdmitKeepsChannels` | agent-gateway/internal/admin/sessions.go:143-157 | Inserting a session with a fresh channel keeps the law. |
| `SessionManager.SessionRegistry.DoReserve` | agent-gateway/internal/admin/sessions.go:329-340 | A place is given exactly while there is one and no shutdown, and then the limit still holds; each error exactly in its case. |
| `SessionManager.SessionRegistry.DoAdmit` | agent-gateway/internal/admin/sessions.go:132-157 | Inserts exactly when not shutting down, authenticated again and the identifier is new; each error exactly in its case with no change; keeps the channel law. |
| `SessionManager.SessionRegistry.DoVisit` | agent-gateway/internal/admin/sessions.go:159-224 | Succeeds exactly with a live unexpired session, an active parent and the token; ends exactly the expired and orphaned; a cancelled read or a bad token changes nothing; no other session is touched. |
| `SessionManager.SessionRegistry.DoSweep` | agent-gateway/internal/admin/sessions.go:279-296 | The sweep loop closes exactly the expired sessions and those with an inactive parent, each channel once. |
| `SessionManager.SessionRegistry.DoShutdown` | agent-gateway/internal/admin/sessions.go:311-327 | Shutdown closes every session, once. |
| `SessionManager.SessionRegistry.DoLogout` | agent-gateway/internal/admin/sessions.go:268-277 | Logging out succeeds exactly for a live session, ends it, closes its channel once and touches nothing else. |
| `SessionManager.SessionRegistry.DoInvalidate` | agent-gateway/internal/admin/sessions.go:348-356 | Invalidation closes exactly the sessions of the credential, or all of them. |
| `SessionSystem.RevokedParentHasNoSession` | agent-gateway/internal/admin/sessions.go:132-157 | In every interleaving, once an invalidation covering a committed revocation has run, no live session has that credential as parent, then or later, whatever exchanges were under way. |
| `SessionSystem.RevocationsAreOwed` | agent-gateway/internal/admin/service.go:274-284 | While a session of a revoked credential lives, an invalidation that will close it is still owed. |
| `SessionSystem.WithinCapacity` | agent-gateway/internal/admin/sessions.go:108-157 | Live sessions plus reservations never exceed 128, and reservations are exactly the exchanges in flight. |
| `SessionSystem.ChannelsCloseOnce` | agent-gateway/internal/admin/sessions.go:358-364 | In every reachable state a channel was closed once exactly if its session left the map, else never. |
| `SessionSystem.NoSessionAfterShutdown` | agent-gateway/internal/admin/sessions.go:311-327 | After shutdown no session is live and none is ever added, also by exchanges already past their reservation. |
| `SessionSystem.SessionOrigin` | agent-gateway/internal/admin/sessions.go:108-157 | Every live session goes back to an exchange whose bearer authenticated as its parent under the mutex, and lives for a week from that exchange's clock reading. |
| `SessionSystem.LoggedOutStaysOut` | agent-gateway/internal/admin/sessions.go:268-277 | After a logout the identifier names no session until an exchange inserts one under it again. |
| `SessionSystem.VisitIsWithinLifetime` | agent-gateway/internal/admin/sessions.go:183-224 | A visit that succeeds comes within a week of the exchange its session goes back to, with an active parent and the token. |
| `SessionSystem.SweepDecides` | agent-gateway/internal/admin/sessions.go:279-296 | A sweep ends exactly the expired sessions and those whose parent it read as inactive. |
| `SessionSystem.DeliveryDecides` | agent-gateway/internal/admin/sessions.go:348-356 | A delivered invalidation ends exactly the sessions of its credential, or all. |
| `SessionSystem.VisitDecides` | agent-gateway/internal/admin/sessions.go:159-224 | A visit refreshes, ends or leaves alone exactly the session it names. |
| `SessionSystem.InsertInstalls` | agent-gateway/internal/admin/sessions.go:140-157 | An exchange that has authenticated gets its session and gives its reservation up, unless the identifier is taken. |
| `SessionSystem.RevokesExactly` | agent-gateway/internal/admin/credentials.go:196-235 | The credentials a transaction is taken to revoke are those it finds active and leaves inactive. |
| `SessionSystem.StepKeepsInv` | agent-gateway/internal/admin/sessions.go:108-157 | Every step of every thread keeps accounting, locking, owed invalidations and the channel law. |
| `RotationWorkflow.RevokesOnlyAfterProof` | agent-gateway/cmd/agent-gateway/online_admin_rotation.go:60-76 | The revocation takes effect only when the replacement bearer is in the file and was read back, the server authenticated it as the replacement, and the table is the one the create left; afterwards the replacement still governs. |
| `RotationWorkflow.RotatedMeansRevoked` | agent-gateway/cmd/agent-gateway/online_admin_rotation.go:94-106 | A report of success, by the normal path or by the recovery read, means the old credential is not active then or later, unless its identity was inserted since the server last showed it revoked. |
| `RotationWorkflow.ReportIsAccurate` | agent-gateway/cmd/agent-gateway/online_admin_rotation.go:234-240 | A report of success names the old credential as revoked and, as the active permanent replacement, the very metadata the server created. |
| `RotationWorkflow.SuccessIsSettled` | agent-gateway/cmd/agent-gateway/online_admin_rotation.go:94-106 | Success without recovery is reported only after the authority was read while the table was exactly as the completion left it. |
| `RotationWorkflow.EarlyFailureNeverRevokes` | agent-gateway/cmd/agent-gateway/online_admin_rotation.go:60-74 | After any failure up to the verification of the replacement, the command never revokes anything. |
| `RotationWorkflow.NothingIsReplayed` | agent-gateway/cmd/agent-gateway/online_admin_rotation.go:199-206 | However requests and replies are lost or late, there is at most one create and one revocation. |
| `RotationWorkflow.StepKeepsInv` | agent-gateway/cmd/agent-gateway/online_admin_rotation.go:25-107 | Every step of command, server and other administrators keeps the protocol invariant. |
| `RotationWorkflow.AuthenticationFences` | agent-gateway/cmd/agent-gateway/online_admin_rotation.go:69-74 | While the table is as the create left it, only the replacement can be authenticated with the published bearer. |
| `RotationOrder.ConsentComesFirst` | agent-gateway/cmd/agent-gateway/online_admin_rotation.go:56-62 | Nothing is created and nothing revoked unless the operator agreed before. |
| `RotationOrder.DeclinedStaysDeclined` | agent-gateway/cmd/agent-gateway/online_admin_rotation.go:56-58 | A refused confirmation ends the command with that report, and nothing is ever created for it. |
| `RotationOrder.CreateIsConditional` | agent-gateway/cmd/agent-gateway/online_admin_rotation.go:37-60 | The create takes effect only after the old credential was shown active, with the operator's bearer, and on the very table whose authority the command was told. |
| `RotationOrder.PublishDecides` | agent-gateway/cmd/agent-gateway/online_admin_rotation.go:64-69 | Only a file that holds the bearer, written and read back without error, is verified, and with that bearer. |
| `RotationOrder.CreatingDecides` | agent-gateway/cmd/agent-gateway/online_admin_rotation.go:123-137 | Only another active credential without expiry, at the revision of its tag, is published; a refusal and an unusable answer are told apart. |
| `RotationOrder.CompletingDecides` | agent-gateway/cmd/agent-gateway/online_admin_rotation.go:76-94 | A refusal leaves the rotation incomplete, a sound completion is checked further, anything else is followed up by one read. |
| `RotationOrder.FinalDecides` | agent-gateway/cmd/agent-gateway/online_admin_rotation.go:94-106 | Success needs the final reads to repeat the completion, the replacement and the completion's revision. |
| `RotationOrder.RecoveringDecides` | agent-gateway/cmd/agent-gateway/online_admin_rotation.go:199-206 | The recovery read reports success exactly when it shows the old credential revoked. |
| `RotationOrder.FailureDecides` | agent-gateway/cmd/agent-gateway/online_admin_rotation.go:76-92 | Without a usable reply only an uncertain completion sends anything more, one read; each other wait ends with its own failure. |
| `RotationOrder.ReadAnswers` | agent-gateway/internal/api/handler.go:659-670 | The server's reads show the row asked for, column by column, or the maximum revision. |
| `ConstraintCache.InsertionKeepsLongestSuffix` | agent-gateway/internal/authorization/constraint_cache.go:70-83 | After every insertion the contents are the longest suffix of the insertion history within both bounds: FIFO without needless eviction. |
| `ConstraintCache.EnterKeepsValid` | agent-gateway/internal/authorization/constraint_cache.go:42-65 | The first critical section keeps map, list, weight, history and flights consistent. |
| `ConstraintCache.FinishKeepsValid` | agent-gateway/internal/authorization/constraint_cache.go:69-87 | The second critical section does too, whatever the compilation gave. |
| `ConstraintCache.KeepIsSuffix` | agent-gateway/internal/authorization/constraint_cache.go:71-77 | What eviction keeps is a suffix that leaves room, and anything longer would not. |
| `ConstraintCache.CacheWeight` | agent-gateway/internal/authorization/constraints.go:202-208 | The loop computes the compiled part of an entry's weight. |
| `ConstraintCache.WeightIs` | agent-gateway/internal/authorization/constraint_cache.go:68 | An entry weighs 256 and its source, 64 a byte kept, 512 an atom, 64 an instruction and 4 a rune. |
| `ConstraintCache.FinishCaches` | agent-gateway/internal/authorization/constraint_cache.go:70-83 | A success within the weight is cached as compiled, so that the next lookup hits; anything else leaves the contents alone. |
| `ConstraintCache.CompiledConstraintCache.Evict` | agent-gateway/internal/authorization/constraint_cache.go:71-77 | The eviction loop terminates, never finds the list empty, and keeps just that suffix. |
| `ConstraintCache.CompiledConstraintCache.Lookup` | agent-gateway/internal/authorization/constraint_cache.go:42-65 | A hit, a joined flight, saturation or a new flight, each exactly in its case; the invariant of the fields is kept. |
| `ConstraintCache.CompiledConstraintCache.Complete` | agent-gateway/internal/authorization/constraint_cache.go:68-87 | Caches a light enough success, publishes the outcome, retires the flight and keeps the invariant; the running weight and map are those of the list. |
| `SingleFlight.RefinesCompiler` | agent-gateway/internal/authorization/constraint_cache.go:37-89 | In every interleaving each finished call got the compiler's result for its own source, or the length error exactly for long sources, or the flight-limit error. |
| `SingleFlight.CacheBounds` | agent-gateway/internal/authorization/constraint_cache.go:70-83 | In every reachable state no source is both cached and in flight, the weight is the sum of entry weights, and all bounds hold. |
| `SingleFlight.OneCompilerPerSource` | agent-gateway/internal/authorization/constraint_cache.go:48-65 | No source is compiled by two calls at once. |
| `SingleFlight.LimitMeansFourCompiling` | agent-gateway/internal/authorization/constraint_cache.go:55-58 | The flight-limit error is given only while four other sources are being compiled. |
| `SingleFlight.NoOrphanWaiter` | agent-gateway/internal/authorization/constraint_cache.go:48-52 | A waiting call's flight is settled or some call is compiling it. |
| `SingleFlight.SettledOnce` | agent-gateway/internal/authorization/constraint_cache.go:84-86 | A flight is settled exactly once and its outcome never changes. |
| `SingleFlight.CallsFinish` | agent-gateway/internal/authorization/constraint_cache.go:48-52 | A compiling call finishes with its own result, and a waiting call with the same once its flight is settled. |
| `SingleFlight.SettledIsCached` | agent-gateway/internal/authorization/constraint_cache.go:81-88 | After a success within the weight the source is cached with that result. |
| `Principals.StepKeepsInv` | agent-gateway/internal/authorization/credential_mutations.go:84-99 | Every mutation keeps revisions in 64 bits, credentials only on active principals, and credentials distinct. |
| `Principals.StepAdvances` | agent-gateway/internal/authorization/principal_mutations.go:133-170 | A mutation leaves a principal alone or raises its revision, never removes one, and advances the authorization revision with every change of policy. |
| `Principals.NeverCurrentAgain` | agent-gateway/internal/authorization/admission.go:136-189 | A binding that was current and then was not is never current again. |
| `Principals.MutationRetires` | agent-gateway/internal/authorization/credential_mutations.go:143-160 | Issuing, revoking or editing retires every binding its principal had. |
| `Principals.VerifyAnswers` | agent-gateway/internal/authorization/admission.go:136-189 | In a sound table the binding check reports damage exactly when the principal's times are out of order, and otherwise holds exactly for the stored binding. |
| `Principals.ClockDecides` | agent-gateway/internal/authorization/authentication.go:106-180 | Authentication, which reads every principal, stays available after a mutation exactly if the stored clock reading is not before the principal's creation nor before the issue of a credential it keeps. |
| `Principals.AvailableWhileInTime` | agent-gateway/internal/authorization/credential_mutations.go:84-99 | Over whole runs, authentication is available throughout exactly if every mutation is in time. |
| `Principals.ClockBehindCreation` | agent-gateway/internal/authorization/credential_mutations.go:84-99 | A concrete run in which issuing to one principal with the clock behind its creation makes authentication unavailable to another. |
| `Principals.IssuedCanBeRevoked` | agent-gateway/internal/authorization/credential_mutations.go:44-46 | The overflow guard of issuing leaves room to revoke what was issued. |
| `Principals.StepStores` | agent-gateway/internal/authorization/principal_mutations.go:133-170 | What issuing, revoking and editing store, column by column: disabling empties the credential slot, and only a change of state or policy advances the authorization revision. |
| `Principals.CollidesMeans` | agent-gateway/internal/authorization/credential_mutations.go:74-83 | A credential collides exactly with one of the same identity, verifier or fingerprint. |
| `Principals.PrincipalTable.IssueCredential` | agent-gateway/internal/authorization/credential_mutations.go:31-116 | Succeeds exactly when preflight and transaction see the same active principal at the expected revision below the guards and nothing collides; each error exactly in its case, with no change. |
| `Principals.PrincipalTable.RevokeCredential` | agent-gateway/internal/authorization/credential_mutations.go:118-168 | Succeeds exactly at the expected revision with a credential and room in both counters; each error exactly in its case, with no change. |
| `Admission.AdmittedOnce` | agent-gateway/internal/authorization/confirmation.go:50-93 | However many candidates a lease has and however confirmations race, a lease is admitted at most once. |
| `Admission.AdmittedRightfully` | agent-gateway/internal/authorization/confirmation.go:60-92 | Every admission happens while not draining, from a pending lease, with the stored binding equal to the lease's, the revision equal to the evaluation's and the evaluated policy still in force. |
| `Admission.MutationFences` | agent-gateway/internal/authorization/leases.go:309-320 | A lease taken before its principal is issued, revoked or edited is not admitted after, even by a confirmation already under way. |
| `Admission.CandidateOrigin` | agent-gateway/internal/authorization/confirmation.go:37-40 | Every candidate goes back to an evaluation that allowed, of a pending lease with a current binding, and stands for the revision and policy evaluated. |
| `Admission.SubjectOrigin` | agent-gateway/internal/authorization/confirmation.go:29-93 | Nobody is admitted without an allowing evaluation of that very lease. |
| `Admission.EvaluationDecides` | agent-gateway/internal/authorization/confirmation.go:29-45 | An allowing evaluation of a pending, current lease leaves an unused candidate; any other leaves none; the gate is free afterwards. |
| `Admission.ConfirmationDecides` | agent-gateway/internal/authorization/confirmation.go:76-92 | A confirmation that is alive and not draining admits a lease still pending, as one subject; otherwise nobody; the gate is free afterwards. |
| `Admission.ClaimedOnce` | agent-gateway/internal/authorization/confirmation.go:51-53 | A candidate is claimed by at most one confirmation, ever. |
| `Admission.DrainStopsAdmission` | agent-gateway/internal/authorization/leases.go:322-335 | Once a drain has begun nobody is admitted any more. |
| `Admission.PendingIsUpToDate` | agent-gateway/internal/authorization/leases.go:309-320 | Whenever nobody is cancelling, no pending lease lags behind its principal: what a mutation outdates it cancels before it lets go of the gate. |
| `Admission.PhaseMoves` | agent-gateway/internal/authorization/leases.go:54-76 | A lease's phase moves only from pending to admitted, cancelled or released, or from admitted to released, each by its own action. |
| `Admission.StepKeepsInv` | agent-gateway/internal/authorization/confirmation.go:29-93 | Every step of every thread keeps gate ownership, candidate dating, binding order and one-shot admission. |
| `AuditLog.AppendKeepsValid` | agent-gateway/internal/audit/repository.go:57-91 | Appending to a valid log, at any clock reading and with the retention trigger, gives a valid log with one more sequence. |
| `AuditLog.AppendShape` | agent-gateway/internal/storage/migrations/015_control_audit.sql:67-75 | On a valid log the trigger drops at most the oldest row, exactly when there would be 65537, and sets the flag then. |
| `AuditLog.AppendFails` | agent-gateway/internal/audit/repository.go:57-91 | On a valid log an append fails exactly for bad input, a repeated identity or an exhausted counter. |
| `AuditLog.RunIsValid` | agent-gateway/internal/audit/repository.go:57-91 | After any appends under any clock the log is exactly the newest 65536 events, each with its number and the latest clock reading so far, and pruned exactly when more were appended. |
| `AuditLog.AttemptedCoversHistory` | agent-gateway/internal/audit/repository.go:95-109 | An answer speaks for all of history: yes exactly when some append ever recorded the attempt; no answer exactly when events are gone. |
| `AuditLog.AuditStore.AppendTx` | agent-gateway/internal/audit/repository.go:57-91 | Keeps a valid log valid; on one it fails exactly for bad input, a repeated identity or an exhausted counter, and otherwise the newest row is the one returned, next in sequence and not before its clock reading. |
| `AuditLog.AuditStore.ValidateTx` | agent-gateway/internal/audit/repository.go:216-262 | The one-pass validator accepts exactly the valid logs. |
| `AuditReads.TraversalIsSnapshot` | agent-gateway/internal/audit/reads.go:48-126 | A traversal that ends without error returns, in strictly descending sequence, exactly the matching events of the first page's snapshot, despite appends, renames and varying limits. |
| `AuditReads.StaleOrNext` | agent-gateway/internal/audit/reads.go:37-80 | What a continuing query gets, exactly: errors of their own for a bad limit, other filters and a replaced history; stale if the oldest event is gone or the matching targets are not the first page's; otherwise a page. |
| `AuditReads.IssuedCursorsDecode` | agent-gateway/internal/audit/reads.go:102-110 | Every cursor issued over a valid log passes the decoder's range checks and gives back what was bound. |
| `AuditReads.FirstPageDecides` | agent-gateway/internal/audit/reads.go:31-56 | A first query over a valid log fails only for a bad limit or another generation. |
| `AuditReads.PageSize` | agent-gateway/internal/audit/reads.go:97-112 | A page is never larger than asked for, and smaller only if it is the last. |
| `AuditReads.EachFilterNarrows` | agent-gateway/internal/audit/reads.go:160-186 | Without filters everything matches, and each filter narrows by its own column and nothing else. |
| `AuditReads.DecodeErrors` | agent-gateway/internal/audit/reads.go:229-244 | Which cursors are out of range, of another process or not sealed with the key. |
| `AuditReads.DecodeInvertsEncode` | agent-gateway/internal/audit/reads.go:199-245 | The decoder accepts exactly the encodings under its key of in-range cursors of its epoch. |
| `AuditReads.RowsAre` | agent-gateway/internal/audit/reads.go:160-186 | The list statement's rows are exactly the qualifying events, newest first. |
| `AuditReads.SearchSelects` | agent-gateway/internal/audit/search.go:60-69 | With target search an event is selected exactly when its own target matches by identity or current name. |
| `AuditReads.CollectRows` | agent-gateway/internal/audit/reads.go:97-112 | The row loop returns the first page-full and a cursor exactly when a further row exists. |
| `CollectionPages.StrictTotalOrder` | agent-gateway/internal/authorization/collection_query.go:307-325 | For distinct identities the comparator is a strict total order, in either direction and for every sort key. |
| `CollectionPages.EachKeySorts` | agent-gateway/internal/authorization/collection_query.go:307-325 | What comes first under each sort key and direction, by the column the key names and then by identity. |
| `CollectionPages.EachSearchNarrows` | agent-gateway/internal/authorization/collection_query.go:345-355 | Each search narrows by its own name and identity, a grant's target by server and tool together. |
| `CollectionPages.EachFilterNarrows` | agent-gateway/internal/authorization/collection_query.go:345-355 | Each exact filter narrows by its own column; sort and direction by none. |
| `CollectionPages.ArrangementIsUnique` | agent-gateway/internal/authorization/collection_query.go:307-325 | There is only one ordered arrangement, so the sorting algorithm does not matter. |
| `CollectionPages.SortSorts` | agent-gateway/internal/authorization/collection_query.go:307-325 | Sorting permutes, and orders when identities are distinct. |
| `CollectionPages.ArrangedIs` | agent-gateway/internal/authorization/collection_query.go:301-325 | The arrangement holds exactly the matching candidates in strict order. |
| `CollectionPages.TraversalIsArranged` | agent-gateway/internal/authorization/collection_query.go:326-343 | The pages of a traversal that never goes stale, with any limits, concatenate to the sorted filter of the first candidates. |
| `CollectionPages.PageAccounting` | agent-gateway/internal/authorization/collection_query.go:339-342 | Each offset is the sum of earlier page lengths, the total is constant, and all pages fall within the first one's cursor lifetime. |
| `CollectionPages.StaleMeans` | agent-gateway/internal/authorization/collection_query.go:294-329 | Exactly which cursors are taken: unexpired, sealed with the key, for this collection, question and candidate list, and at a place whose item before is the one it names. |
| `CollectionPages.ContinuesOrStale` | agent-gateway/internal/authorization/collection_query.go:294-300 | Whatever page came before, its continuation succeeds exactly while collection, query and candidates are unchanged and the traversal's first lifetime lasts; otherwise it is stale. |
| `CollectionPages.SelectPage` | agent-gateway/internal/authorization/collection_query.go:279-343 | The method with the filter loop computes the specified page or error. |
| `OneEdit.WithinOneEdit` | agent-gateway/internal/authorization/collection_query.go:410-439 | The greedy matcher answers true exactly when the sequences are equal or one insertion, deletion, substitution or adjacent transposition apart. |
| `OneEdit.FirstMismatchDecides` | agent-gateway/internal/audit/search.go:115-144 | One edit suffices exactly when the rest agrees after a swap, a skip on either side or a replacement at the first mismatch. |
| `OneEdit.Symmetric` | agent-gateway/internal/authorization/collection_query.go:410-439 | Being within one edit is symmetric. |
| `Ulid.Encode` | agent-gateway/internal/admin/id.go:25-37 | The 26 characters spell the base-32 numeral of the 128-bit value and match the identity pattern. |
| `Ulid.NewId` | agent-gateway/internal/admin/id.go:11-38 | An identity is the numeral of timestamp and entropy; errors exactly for a timestamp outside 48 bits or short entropy. |
| `Ulid.IdOrder` | agent-gateway/internal/admin/id.go:25-37 | Lexicographic order of identities is numeric order, and equal text means equal number. |
| `Ulid.AlphabetIsClass` | agent-gateway/cmd/agent-gateway/online_reads.go:15 | The alphabet's characters are just those of the identity pattern's class. |
| `Ulid.LessIsLexicographic` | agent-gateway/internal/authorization/collection_query.go:316-323 | Text comparison is decided by the first place of difference, a proper prefix first. |
| `Ulid.LaterIsGreater` | agent-gateway/internal/admin/id.go:11-38 | A later millisecond gives a greater string, whatever the entropy. |
| `Ulid.CollisionMeansSameInputs` | agent-gateway/internal/audit/producer.go:201-228 | Two identities agree only if timestamp and entropy agree. |
| `JsonPointer.WriteThenRead` | agent-gateway/internal/authorization/constraints.go:237-267 | Every nonempty list of segments is read back from its pointer (sections 3 and 4 of RFC 6901). |
| `JsonPointer.ReadThenWrite` | agent-gateway/internal/authorization/constraints.go:237-267 | Every accepted pointer is the one written for its segments. |
| `JsonPointer.PointersDoNotAlias` | agent-gateway/internal/authorization/constraints.go:237-267 | Different accepted pointers denote different segments. |
| `JsonPointer.EscapeIs` | agent-gateway/internal/authorization/constraints.go:277-280 | A tilde is written ~0, a slash ~1 and anything else as itself. |
| `JsonPointer.FieldPointsAtMember` | agent-gateway/internal/authorization/constraints.go:277-280 | A diagnostic field decodes to exactly the operator and the member name, for every member name. |
| `JsonPointer.CompileJsonPointer` | agent-gateway/internal/authorization/constraints.go:237-267 | The split-and-decode loops compute the pointer's segments or reject it. |
| `JsonPointer.ValidGrantPointer` | agent-gateway/cmd/agent-gateway/online_grants.go:228-242 | The client's single scan accepts exactly what the server's compiler accepts, for valid UTF-8. |
| `SurrogateScan.AcceptsIsPaired` | agent-gateway/internal/api/http_grants.go:215-238 | The scan's rule holds exactly when every escaped high surrogate is immediately followed by an escaped low one and no low one stands alone (sections 7 and 8.2 of RFC 8259). |
| `SurrogateScan.CodeUnitIsNumeral` | agent-gateway/internal/api/http_grants.go:223-232 | Four digits, found by division and written in either case each, read as the number they are digits of. |
| `SurrogateScan.SurrogateBits` | agent-gateway/internal/api/http_grants.go:225-233 | The scan's two ranges are the code units that begin with the bits 110110 and 110111. |
| `SurrogateScan.LoneSurrogate` | agent-gateway/internal/api/http_grants.go:228-231 | The literal of a lone high surrogate is well-formed and is not paired. |
| `SurrogateScan.PairedSurrogates` | agent-gateway/internal/api/http_grants.go:211-240 | On every well-formed string literal the scan stays in bounds, terminates and accepts exactly the paired ones. |

## Left out

- AdminCredentials.NeverActiveAgain: speaks of runs in which the identity is not inserted again; by `Ulid.CollisionMeansSameInputs` that takes the same millisecond and the same 80 random bits, which the model does not rule out.
- SessionSystem.RevokedParentHasNoSession: has the same proviso, and says nothing of credentials that merely expired.
- RotationWorkflow.RotatedMeansRevoked: has the same proviso for the old identity, from the moment the server last showed it revoked.
- AdminService.AdminService.Authenticate: takes the unique verifier column for granted; every transaction keeps it.
- AuditReads.SearchSelects: takes target kinds without a slash; the gateway's kinds are fixed words.
- SessionManager.SessionRegistry.DoVisit: joins `Bootstrap` and `Authenticate`, which differ in the token check only; cookies and returned expiry times are not modelled.
- Admission.AdmittedRightfully: says nothing of time passing between evaluation and confirmation, since confirmation does not check grant expiry again.
- SQLite, the store latch and busy errors: a transaction commits or leaves no trace; revision counters of the administrator table are unbounded.
- SHA-256, HMAC, base64, JSON rendering and their length limits on cursors and events: digests and MACs are constructors; sizes are not measured.
- Unicode normalization, word splitting and name search: which names match is arbitrary; only the one-edit comparison at its core is modelled.
- `EvaluateAdmission`'s policy evaluation: the decision is arbitrary; policy is a value whose changes advance the authorization revision.
- `PatchPrincipal`, principal creation and grant changes are steps of the principal table without a method of their own; validation of their input is not modelled.
- Display names attached to audit pages, and reading one audit event by its identity.
- The bounded wait and work count of the authority gate: the gate is a lock that one thread holds.
- Attempt, outcome and cause records of `producer.go`: how their fields are filled is not modelled; they reach the log as events of any content.
- Files and terminals: publishing a bearer is one step that leaves any contents and may report any error.
- The HTTP layer: routing, problem mapping, cookies, and decoding of bodies other than URL strings.
- The rendering of recovery guidance and of tables, and all other commands.
