# Mossward core protocols

A Dafny model of the parts of Mossward whose correctness depends on more than one function, with proofs over every input, every run or every reachable state.

Operations are given twice where the source changes state. A specification function, or a trace of durable states, says what an operation does. A class method or a loop performs it the way the source does and is proved equal to the specification. The theorems are about the specification, so they hold of the methods.

- **Endpoint-agent self-update (Unix).** `AgentVersion`, `AgentUpdate`, `AgentUpdateRuns`, `AgentUpdateGuarantees`. The disk is the installed executable, the transaction record, the known-good copies and the staged candidates. An operation is the sequence of disks it leaves behind. A run is any sequence of boots, check-ins with or without an offer, and stops. Each can suffer any set of input/output failures and a crash after any durable step, including the failed directory sync that leaves the old process running next to the new executable.
- **Relay frame queue.** `RelayFrame`, `RelayQueue`, `RelayQueueRuns`, `RelayQueueLanes`, `RelayQueueBlocking`, `RelayQueueMigration`. The table is a sequence of rows in rowid order and each SQL transaction is one step. Runs are arbitrary sequences of calls on any valid table, new or migrated, with any clock. The migration is cut at any transaction and rerun.
- **Relay route failover.** `RelayFailover`.
- **Upload windows, connection gate, heartbeat suppression and its policy.** `UploadWindow`, `ConnectionGate`, `HeartbeatSuppression`, `HeartbeatPolicy`.
- **Migration copy order.** `CopyOrder`.
- **Identity keyring rotation.** `IdentityKeyring`, over an abstract authenticated cipher: what is sealed opens with the same key, nonce and associated data. That it opens with no other key or data is assumed where it is stated (`IdentityKeyring.HeaderIsBound`).
- **Version orders, check catalog and coverage scope.** `VulnerabilityVersion`, `VulnerabilityMeaning`, `SemanticVersion`, `CheckCatalog`, `CheckCatalogRuns`, `CoverageScope`.
- `GoStrings`, `GoTime` and `Sequences` hold what these share: byte order, sorting, splitting, decimal conversion, units of time and filtering.

Instants are integers of nanoseconds since the epoch, and `ZERO_TIME` is Go's zero time. A `char` is one byte of a Go string. `int` in the source is 64 bits wide. The clock, random keys and tokens, nonces, the encoded length of a frame, the verdict on a signature, and input/output failures are parameters.

Where the code does less than its name or its documentation suggests, the model follows the code and the exact condition is proved:

- The scan for a window's last close looks at eight start dates. It misses the close of eight days ago while last night's window is still open and is the only weekday selected (`HeartbeatSuppression.ScanExactIff`, `HeartbeatSuppression.ScanMissesExample`). Suppression uses the scan only when all windows are closed, where it is exact (`HeartbeatSuppression.ScanExactWhenClosed`).
- The catalog's comparison is not always the precedence of section 11 of Semantic Versioning 2.0.0. For all accepted versions it is exactly when they read the same: integer conversion, where it succeeds, must leave the first difference in the order of section 11, and core numbers that exceed an int are taken for equal (`SemanticVersion.AgreementIff`). The code puts `1.0.0--5` below `1.0.0-0`, and section 11 the other way round (`SemanticVersion.HyphenExample`).
- The same comparison reports each of two versions higher than the other exactly when their prereleases first differ in two spellings of one number; call that a clash (`SemanticVersion.AntisymmetryIff`). Take "not lowered" to mean that the version before is at most as high as the version after. Then a run without rollback approvals never lowers the active version of a check, between any two points, exactly when no activation clashes with the version it replaces (`CheckCatalogRuns.NeverLoweredIff`). Seven accepted calls on empty tables, two of them clashing, end with a version that is below an earlier one (`CheckCatalogRuns.LoweredExample`). It takes two clashes for the code itself to report the later version lower (`SemanticVersion.OneClashNotReported`).
- A claim fails if the frame it selects has become too old, although later frames are valid (`RelayQueueBlocking.BlockedExample`). Such a frame goes on failing claims exactly as long as it is neither purged nor acknowledged with its last token and everything served before it is held (`RelayQueueBlocking.BlockedIff`).
- An agent takes up an offer exactly when nothing on disk is in its way (`AgentUpdateRuns.OfferActivatesIff`). A known-good copy of the running version is in the way of every offer, so an agent that was rolled back, stopped while prepared, or failed its first download never changes again (`AgentUpdateRuns.FrozenForGood`, `AgentUpdateRuns.FailedDownloadFreezes`).

## Model

| member | source | states |
|---|---|---|
| `AgentVersion.VersionHasNoSlash` | internal/agentupdate/manifest.go:27 | a version accepted by the pattern cannot leave the directory when used in a file name |
| `AgentVersion.UpgradeIrreflexive` | internal/agentupdate/version.go:8-32 | no version is an upgrade of itself, which the commit rule depends on |
| `AgentVersion.UpgradeTransitive` | internal/agentupdate/version.go:8-32 | an upgrade of an upgrade is an upgrade, for all strings |
| `AgentVersion.OlderTransitive` | internal/agentupdate/version.go:17-31 | the order on parsed versions, release above prerelease, is transitive |
| `AgentVersion.UpgradeTotal` | internal/agentupdate/version.go:8-32 | parsable versions that neither upgrades are the same release and prerelease |
| `AgentVersion.TextParses` | internal/agentupdate/version.go:34-49 | a written release is read as the decimal values of its three numerals and its prerelease |
| `AgentVersion.UpgradeMeaning` | internal/agentupdate/version.go:8-32 | of two written releases the target is an upgrade exactly when the first numeral that differs has the smaller value in the current one, or the numbers are the same and the current prerelease is lower |
| `AgentVersion.UpgradeIsWritten` | internal/agentupdate/version.go:8-49 | for all strings, only written releases are upgrades or upgraded, and then the current one is lower |
| `AgentVersion.ParseVersion` | internal/agentupdate/version.go:34-49 | the array-filling loop succeeds exactly on parsable versions and yields their numbers and prerelease |
| `AgentVersion.ComputeOlder` | internal/agentupdate/version.go:17-31 | the comparison loop decides the strict order on parsed versions |
| `AgentVersion.ComputeIsUpgrade` | internal/agentupdate/version.go:8-32 | the whole comparison decides the upgrade relation, which is "lower in the numbers as written, and a prerelease below its release" by `UpgradeMeaning` |
| `AgentUpdate.Installation.Save` | internal/agentupdate/transaction.go:151-163 | only a valid transaction is recorded, in one durable step; otherwise the disk is as before |
| `AgentUpdate.Installation.Recover` | internal/agentupdate/recover_unix.go:13-65 | performs exactly the durable steps of the recovery trace and nothing when no rollback is due |
| `AgentUpdate.Installation.RollBack` | internal/agentupdate/recover_unix.go:50-64 | intent saved, known-good renamed, completion saved, stopping at whichever step fails |
| `AgentUpdate.Installation.ConfirmHealthy` | internal/agentupdate/transaction.go:128-149 | commits, marks a late update for rollback, or changes nothing, as the confirmation trace says; what a late one means is `AgentUpdateGuarantees.MissedDeadlineIsFinal` |
| `AgentUpdate.Installation.Activate` | internal/agentupdate/activate_unix.go:14-62 | the candidate is verified before the awaiting record, and the record is durable before the rename |
| `AgentUpdate.Installation.ApplyUpdateOffer` | internal/agentapp/update.go:18-59 | an offer that is no upgrade changes nothing; otherwise the running executable is preserved first |
| `AgentUpdate.Installation.Install` | internal/agentapp/update.go:42-58 | stage, record as prepared, activate, each step durable before the next |
| `AgentUpdateRuns.RecoverSafe` | internal/agentupdate/recover_unix.go:13-65 | every disk a recovery leaves behind is safe, wherever it is cut |
| `AgentUpdateRuns.ConfirmSafe` | internal/agentupdate/transaction.go:128-149 | confirmation leaves only safe disks, and nothing awaits health after it succeeds |
| `AgentUpdateRuns.RunningVersion` | internal/agentapp/app.go:190-195 | a process that handles an offer is the installed executable and not older than the original |
| `AgentUpdateRuns.ActivateSafe` | internal/agentupdate/activate_unix.go:40-61 | every disk an activation leaves behind is safe; a failed one leaves process and disk coupled |
| `AgentUpdateRuns.InstallSafe` | internal/agentapp/update.go:42-58 | staging, recording and activating leave only safe disks |
| `AgentUpdateRuns.OfferSafe` | internal/agentapp/update.go:18-59 | every disk the handling of any offer leaves behind is safe |
| `AgentUpdateRuns.CheckInSafe` | internal/agentapp/app.go:190-195 | confirmation followed by an offer leaves only safe disks |
| `AgentUpdateRuns.StepSafe` | cmd/mossward-agent/platform_unix.go:22 | boots, check-ins and stops, failing or crashing anywhere, keep the invariant |
| `AgentUpdateRuns.RunKeepsInv` | internal/agentapp/app.go:190-195 | the invariant holds after every run |
| `AgentUpdateRuns.ActivateRecorded` | internal/agentupdate/activate_unix.go:52-58 | at every cut of an activation, the record precedes the new executable |
| `AgentUpdateRuns.OfferRecorded` | internal/agentapp/update.go:18-59 | nor does any cut of the handling of an offer |
| `AgentUpdateRuns.CheckInRecorded` | internal/agentapp/app.go:190-195 | nor does any cut of a check-in |
| `AgentUpdateRuns.StepRecorded` | cmd/mossward-agent/platform_unix.go:22 | no event, cut anywhere, removes a record or replaces the executable without leaving one |
| `AgentUpdateRuns.UnrecordedIsOriginal` | internal/agentupdate/activate_unix.go:52-58 | in every run, without a record there never was one and the executable is the one the run started with |
| `AgentUpdateRuns.InstalledMatchesRecord` | internal/agentupdate/activate_unix.go:52-58 | in every run the executable is the recorded previous or target one: previous while prepared or rolled back, target with the promised version once committed |
| `AgentUpdateRuns.RollbackAlwaysPossible` | internal/agentupdate/transaction.go:66-100 | in every run, an executable other than the original that is neither committed nor the recorded previous one has a durable record, awaiting health or due for rollback, and an intact known-good copy |
| `AgentUpdateRuns.NeverDowngraded` | internal/agentapp/update.go:29-32 | in every run a settled executable is the original or an upgrade of it |
| `AgentUpdateRuns.OldProcessIsInert` | internal/agentupdate/activate_unix.go:56-61 | the old process left running after a failed directory sync can neither commit nor change the disk |
| `AgentUpdateRuns.CommitRule` | internal/agentupdate/transaction.go:128-149 | a check-in commits if and only if the running version is the target's before the deadline and the save works; the target is then what runs and what is installed |
| `AgentUpdateRuns.RollbackRecordedFirst` | internal/agentupdate/recover_unix.go:50-56 | no recovery changes the disk before the rollback is recorded |
| `AgentUpdateRuns.PreparedValid` | internal/agentupdate/transaction.go:103-122 | the transaction made for an unobstructed offer passes its own validation |
| `AgentUpdateRuns.OfferActivatesIff` | internal/agentapp/update.go:18-59 | for every disk, running version and offer: without failures the offer ends in a restart if and only if it is an upgrade, the artifact is the promised one and neither copy exists yet |
| `AgentUpdateRuns.OfferActivates` | internal/agentapp/update.go:18-59 | without failures an installable offer ends awaiting health with the artifact installed |
| `AgentUpdateRuns.UpdateSucceeds` | internal/agentupdate/transaction.go:128-149 | offer, restart and check-in before the deadline end committed with the new executable running |
| `AgentUpdateRuns.LateRecovery` | internal/agentupdate/recover_unix.go:21-64 | once a rollback is due, a recovery cut anywhere stays on the way back, and one without failures finishes |
| `AgentUpdateRuns.LateBootStep` | cmd/mossward-agent/platform_unix.go:22 | a boot after the deadline runs the agent only if the rollback is complete |
| `AgentUpdateRuns.RecoveryConverges` | internal/agentupdate/recover_unix.go:21-64 | any number of boots failing or crashing anywhere, then one that completes, end rolled back with the known-good bytes, and recovering again does nothing |
| `AgentUpdateRuns.EveryDueRollbackCompletes` | internal/agentupdate/recover_unix.go:21-64 | the same from every reachable agent whose rollback is due |
| `AgentUpdateRuns.FrozenStep` | internal/agentupdate/transaction.go:66-73 | no event changes the disk of an idle agent whose version has a known-good copy, and it stays that way |
| `AgentUpdateRuns.FrozenRun` | internal/agentupdate/transaction.go:66-73 | nor does any sequence of events |
| `AgentUpdateRuns.IdleAgentUpdatesIff` | internal/agentapp/app.go:190-195 | a safe idle agent takes up an offer at a check-in if and only if nothing is in its way |
| `AgentUpdateRuns.LeftoverIsFrozen` | internal/agentupdate/transaction.go:66-73 | prepared and rolled-back agents have such a copy |
| `AgentUpdateRuns.FailedDownloadFreezes` | internal/agentapp/update.go:38-49 | an agent whose first download failed keeps the copy alone and never changes again |
| `AgentUpdateRuns.FrozenForGood` | internal/agentupdate/transaction.go:66-73 | in every run, an agent that is prepared, rolled back or idle with such a copy has reached its last disk |
| `AgentUpdateRuns.RollbackIsFinal` | internal/agentupdate/transaction.go:66-73 | in every run, once rolled back, the disk never changes again |
| `AgentUpdateGuarantees.NeverLowered` | internal/agentapp/update.go:29-32 | in every run a settled executable is not lower than the original, in the numbers and prereleases that their versions are written with |
| `AgentUpdateGuarantees.MissedDeadlineRecorded` | internal/agentupdate/transaction.go:142-146 | a check-in of the target at or after its deadline records that a rollback is required, fails, and does nothing else |
| `AgentUpdateGuarantees.NextIsNewer` | internal/agentapp/update.go:29-41 | whatever is installed after a missed update is an upgrade of the version that missed |
| `AgentUpdateGuarantees.OfferMissed` | internal/agentapp/update.go:18-59 | no cut of an offer brings a missed update back |
| `AgentUpdateGuarantees.CheckInMissed` | internal/agentupdate/transaction.go:128-149 | no cut of a check-in, with any clock, commits a missed update |
| `AgentUpdateGuarantees.MissedStep` | internal/agentupdate/transaction.go:124-149 | one event keeps a missed update missed |
| `AgentUpdateGuarantees.MissedRun` | internal/agentupdate/transaction.go:124-149 | any sequence of events keeps a missed update missed |
| `AgentUpdateGuarantees.MissedDeadlineIsFinal` | internal/agentupdate/transaction.go:128-149 | in every run a check-in past the deadline records the rollback, and in every continuation with any clock that update is never committed; its record becomes rolled back or gives way to another version |
| `AgentUpdateGuarantees.NextBootRollsBack` | internal/agentupdate/recover_unix.go:13-65 | in every run, from a record that requires a rollback the next boot that completes restores the verified known-good executable, whatever its clock says |
| `AgentUpdateGuarantees.RecoverVerified` | internal/agentupdate/recover_unix.go:39-64 | every cut of a recovery leaves the executable alone or replaces it by a copy that has the recorded size and digest |
| `AgentUpdateGuarantees.ActivateVerified` | internal/agentupdate/activate_unix.go:40-62 | every cut of an activation leaves the executable alone or replaces it by a candidate that has the recorded size and digest |
| `AgentUpdateGuarantees.OfferVerified` | internal/agentapp/update.go:18-59 | the same for every cut of an offer |
| `AgentUpdateGuarantees.CheckInVerified` | internal/agentapp/update.go:18-59 | the same for every cut of a check-in |
| `AgentUpdateGuarantees.NothingUnverified` | internal/agentupdate/activate_unix.go:40-62 | from any disk, a damaged one included, no event installs an executable that was not checked against the record |
| `AgentUpdateGuarantees.OfferInOrder` | internal/agentapp/update.go:38-58 | an unobstructed offer changes one thing at a time: known-good copy, candidate, prepared record, awaiting record, executable |
| `AgentUpdateGuarantees.UnusableRecordStops` | internal/agentupdate/transaction.go:165-181 | a record that does not validate stops recovery and check-in and stays as it is |
| `AgentUpdateGuarantees.OfferRefused` | internal/agentapp/update.go:22-32 | an invalid manifest is an error and one that is no upgrade is skipped, both without a trace on disk |
| `RelayQueue.Pick` | internal/relaytransport/queue.go:176-184 | the selected row is claimable and served before every other claimable row; none is selected only when none is claimable |
| `RelayQueue.FilterKeepsValid` | internal/relaytransport/queue.go:210-252 | deleting any rows keeps order, unique messages and both limits |
| `RelayQueue.EnqueueKeepsValid` | internal/relaytransport/queue.go:99-140 | an enqueue never exceeds the item or byte limit and never duplicates a message |
| `RelayQueue.LeasingKeepsValid` | internal/relaytransport/queue.go:185-239 | changing leases and counting attempts keeps the table valid |
| `RelayQueue.ClaimKeepsValid` | internal/relaytransport/queue.go:161-208 | a claim keeps the table valid |
| `RelayQueue.ReleaseKeepsValid` | internal/relaytransport/queue.go:228-239 | a release keeps the table valid |
| `RelayQueue.ApplyKeepsValid` | internal/relaytransport/queue.go:99-252 | every call keeps limits, row order, unique messages and genuine rows |
| `RelayQueue.Queue.constructor` | internal/relaytransport/queue.go:71-97 | a new queue is empty and valid |
| `RelayQueue.Queue.Enqueue` | internal/relaytransport/queue.go:99-140 | a rejected, duplicate or overflowing frame changes nothing; an accepted one is the newest row with its own priority |
| `RelayQueue.Queue.Claim` | internal/relaytransport/queue.go:161-208 | leases the selected row with one more attempt, or changes nothing |
| `RelayQueue.Queue.Acknowledge` | internal/relaytransport/queue.go:210-226 | deletes the rows carrying message and token, and reports success exactly for one row |
| `RelayQueue.Queue.Release` | internal/relaytransport/queue.go:228-239 | frees the rows carrying message and token, and reports success exactly for one row |
| `RelayQueue.Queue.PurgeExpired` | internal/relaytransport/queue.go:241-252 | deletes exactly the rows older than the maximum age and counts them |
| `RelayQueueRuns.Rows` | internal/relaytransport/queue.go:99-252 | after any run from a valid table the limits hold and live message identifiers are unique |
| `RelayQueueRuns.AtMostOneCarrier` | internal/relaytransport/queue.go:210-226 | at most one row can leave with one acknowledgement |
| `RelayQueueRuns.AcknowledgeConserves` | internal/relaytransport/queue.go:210-226 | an acknowledgement removes just the frame it reports |
| `RelayQueueRuns.PurgeConserves` | internal/relaytransport/queue.go:241-252 | a purge removes just the frames it counts |
| `RelayQueueRuns.ApplyConserves` | internal/relaytransport/queue.go:99-252 | every call keeps the balance of frames in and out |
| `RelayQueueRuns.NothingLost` | internal/relaytransport/queue.go:99-252 | over every run, the frames found and accepted are the queued ones plus the acknowledged plus the purged, as multisets |
| `RelayQueueRuns.AcknowledgeRemovesOne` | internal/relaytransport/queue.go:210-226 | the current token removes its own row and no other |
| `RelayQueueRuns.EnqueueRule` | internal/relaytransport/queue.go:99-140 | each answer of an enqueue if and only if its condition on the frame, the clock, the messages queued and the room left; an accepted frame is one more row, behind all others, and nothing else changes |
| `RelayQueueRuns.RefusedOutright` | internal/relaytransport/queue.go:161-214 | a claim without a positive lease and an acknowledgement without message or token are refused and change nothing |
| `RelayQueueRuns.PurgeCounts` | internal/relaytransport/queue.go:241-252 | a purge answers with the number of frames it removed, and keeps just the rows within retention |
| `RelayQueueRuns.FrameRoundTrip` | internal/relaytransport/queue.go:99-226 | enqueue, claim and acknowledge deliver the frame that was enqueued and leave the queue empty |
| `RelayQueueRuns.AcknowledgeRejected` | internal/relaytransport/queue.go:210-239 | a token no row carries is rejected for acknowledge and release, and nothing changes |
| `RelayQueueRuns.ReleaseFreesOne` | internal/relaytransport/queue.go:228-239 | the current token frees its own row and keeps its attempts |
| `RelayQueueRuns.ReleaseRejectedOrReleased` | internal/relaytransport/queue.go:228-239 | a release that is not accepted changes nothing |
| `RelayQueueRuns.ClaimEffect` | internal/relaytransport/queue.go:185-207 | a delivery carries the frame, token, attempt and deadline of the one row that changed |
| `RelayQueueRuns.StillHeld` | internal/relaytransport/queue.go:161-252 | a lease survives every call that does not let its message go |
| `RelayQueueRuns.HeldThrough` | internal/relaytransport/queue.go:161-252 | a lease survives any stretch of a run that does not let its message go |
| `RelayQueueRuns.LeaseExclusive` | internal/relaytransport/queue.go:161-208 | between a claim and its deadline no other call of the run is given the message, unless it was released or enqueued anew |
| `RelayQueueRuns.TokenAfterClaim` | internal/relaytransport/queue.go:185-207 | a fresh token is on the claimed message alone |
| `RelayQueueRuns.TokenStays` | internal/relaytransport/queue.go:99-252 | no call moves a token to another message |
| `RelayQueueRuns.TokenThrough` | internal/relaytransport/queue.go:99-252 | no stretch of a run moves a token to another message |
| `RelayQueueRuns.ReclaimClears` | internal/relaytransport/queue.go:161-208 | reclaiming a message takes the old token off the table |
| `RelayQueueRuns.StaleTokenVoid` | internal/relaytransport/queue.go:210-239 | once a message is reclaimed, its old token is rejected for good and without effect |
| `RelayQueueRuns.AttemptsStep` | internal/relaytransport/queue.go:185-207 | one call moves each row's attempt number by its deliveries in that call |
| `RelayQueueRuns.AttemptsCountClaims` | internal/relaytransport/queue.go:185-207 | in every run a row's attempt number is the number of its deliveries since it was enqueued, counting those recorded before the run |
| `RelayQueueRuns.FramesStayWellFormed` | internal/relaytransport/protocol.go:60-84 | in every run the queued frames stay well formed and none is from the future |
| `RelayQueueRuns.ClaimOnValidFrames` | internal/relaytransport/queue.go:161-208 | on valid frames a claim is empty exactly when every row is under an unexpired lease |
| `RelayQueueRuns.PurgedFramesValid` | internal/relaytransport/queue.go:241-252 | what a purge leaves is valid at that time, because retention is at most thirty days |
| `RelayQueueRuns.ClaimAfterPurgeProgresses` | internal/relaytransport/queue.go:241-252 | after any run, a purge and then a claim at the same time never meets an invalid frame |
| `RelayQueueLanes.FirstClaimable` | internal/relaytransport/queue.go:176-184 | a lane serves its earliest row that nobody holds |
| `RelayQueueLanes.PickServesLanes` | internal/relaytransport/queue.go:176-184 | the one query over the table refines three first-in-first-out lanes |
| `RelayQueueLanes.ClaimServesHighestLane` | internal/relaytransport/queue.go:161-208 | a claim delivers the oldest free frame of the highest lane that has one, and exactly when it fails it changes nothing |
| `RelayQueueLanes.UrgentFirst` | internal/relaytransport/queue.go:382-391 | no other frame is delivered while an alert is free, and no log batch while anything else is |
| `RelayQueueLanes.EnqueueJoinsItsLane` | internal/relaytransport/queue.go:134-135 | an accepted frame joins the end of its own lane and no other |
| `RelayQueueLanes.LeasingKeepsLanes` | internal/relaytransport/queue.go:161-239 | claims and releases keep every lane's frames in order |
| `RelayQueueLanes.DeletingKeepsLaneOrder` | internal/relaytransport/queue.go:210-252 | deleting from the table is deleting from the lanes, in order |
| `RelayQueueBlocking.WaitingStep` | internal/relaytransport/queue.go:161-252 | a frame that is too old and free stays queued and free, unless the call purges it or acknowledges it with its last token |
| `RelayQueueBlocking.GoneStep` | internal/relaytransport/queue.go:99-140 | once gone it cannot be enqueued again |
| `RelayQueueBlocking.WaitingRun` | internal/relaytransport/queue.go:161-252 | over every run it is still queued exactly when no call removed it |
| `RelayQueueBlocking.AtFrontIff` | internal/relaytransport/queue.go:176-184 | a claim selects a frame if and only if it is free and everything served before it is held |
| `RelayQueueBlocking.FrontBlocks` | internal/relaytransport/queue.go:198-203 | a frame that is too old fails the claim that selects it, and nothing changes |
| `RelayQueueBlocking.BlockedIff` | internal/relaytransport/queue.go:161-252 | over every run with a clock that does not go back, such a frame fails a claim if and only if it was not removed since and everything served before it is held |
| `RelayQueueBlocking.BlockedExample` | internal/relaytransport/queue.go:161-208 | in every empty queue with room for two frames, of any encoded lengths, a run whose claim fails although the second frame is valid and free |
| `RelayQueueMigration.StepKeepsFrames` | internal/relaytransport/queue.go:305-380 | each migration transaction keeps frames, order and priorities |
| `RelayQueueMigration.OpenIsPrefix` | internal/relaytransport/queue.go:272-303 | an interrupted opening leaves behind one of the databases of the complete one |
| `RelayQueueMigration.OpenKeepsFrames` | internal/relaytransport/queue.go:272-303 | so does an opening interrupted anywhere |
| `RelayQueueMigration.OpenFinishes` | internal/relaytransport/queue.go:272-303 | an opening that is not interrupted reaches schema 3 |
| `RelayQueueMigration.MigrationPreservesQueue` | internal/relaytransport/queue.go:272-380 | any interrupted openings and one complete one give the schema 3 table of the original frames in order |
| `RelayQueueMigration.MigratedRowIsGenuine` | internal/relaytransport/queue.go:326-380 | a migrated row is the row enqueueing its frame would write: own priority, no lease, no attempts |
| `RelayQueueMigration.MigratedRowsAreGenuine` | internal/relaytransport/queue.go:326-380 | a table that schema 1 stored for frames migrates to genuine rows |
| `RelayQueueMigration.MigratedQueueOpens` | internal/relaytransport/queue.go:272-380 | a migrated table of genuine rows within the limits is valid, so every theorem about runs applies to it |
| `RelayQueueMigration.QueueDatabase.Migrate` | internal/relaytransport/queue.go:272-303 | leaves behind exactly the databases that an interruption can cut between and reaches schema 3 from every consistent one, refuses a newer schema, and loses no frame whatever happens |
| `RelayQueueMigration.QueueDatabase.CreateTables` | internal/relaytransport/queue.go:273-283 | creates what is missing, one statement after the other |
| `RelayQueueMigration.QueueDatabase.MigrateDeliveryQueue` | internal/relaytransport/queue.go:305-324 | adds empty leases, or rolls back |
| `RelayQueueMigration.QueueDatabase.MigratePriorityQueue` | internal/relaytransport/queue.go:326-380 | the row-by-row updates give every row the priority of its frame, or roll back |
| `RelayFailover.ExtendRoutes` | internal/relaytransport/failover.go:142-170 | the checks made route by route are validity of the whole list |
| `RelayFailover.ValidatePolicy` | internal/relaytransport/failover.go:142-170 | accepts exactly the valid policies |
| `RelayFailover.AvailableRouteIds` | internal/relaytransport/failover.go:172-190 | a route is available exactly when it has one observation, fresh and healthy |
| `RelayFailover.AvailableMeaning` | internal/relaytransport/failover.go:172-190 | available means that exactly one observation in the list names the route, and that one is healthy, not too old and at most five minutes ahead |
| `RelayFailover.HealthMeaning` | internal/relaytransport/failover.go:72-130 | the routes whose health counts are the approved ones that are available |
| `RelayFailover.AvailabilityOrderIndependent` | internal/relaytransport/failover.go:172-190 | the order of the observations does not matter |
| `RelayFailover.SortRoutesSorts` | internal/relaytransport/failover.go:61-70 | the controller keeps the same routes in priority order |
| `RelayFailover.FirstOtherIsBest` | internal/relaytransport/failover.go:80-96 | the first other available route has the best priority of all others |
| `RelayFailover.SelectMeaning` | internal/relaytransport/failover.go:72-97 | stays if and only if the route is available below the threshold, else goes to the best other route, and fails exactly when there is none, changing nothing; the decision names both routes, the reason, the failures and the time |
| `RelayFailover.ApproveMeaning` | internal/relaytransport/failover.go:115-130 | a route the server asks for is taken if and only if it is approved and available now; the decision and the new state are spelled out, and otherwise nothing changes |
| `RelayFailover.RecordMeaning` | internal/relaytransport/failover.go:99-113 | a result counts exactly for the active route: success clears the failures, failure adds one up to the threshold |
| `RelayFailover.ComputeFirstOther` | internal/relaytransport/failover.go:80-96 | the loop finds that route |
| `RelayFailover.FailoverController.constructor` | internal/relaytransport/failover.go:61-70 | starts without a route, with sorted routes |
| `RelayFailover.FailoverController.Select` | internal/relaytransport/failover.go:72-97 | new state and decision are those of the specified selection |
| `RelayFailover.FailoverController.RecordDelivery` | internal/relaytransport/failover.go:99-113 | counts a failure up to the threshold, resets on success, and an inactive route is an error without effect |
| `RelayFailover.FailoverController.SelectApprovedRoute` | internal/relaytransport/failover.go:115-130 | switches if and only if the route is approved and available in the observations given, with a zero counter, and otherwise changes nothing |
| `RelayFailover.RunMeaning` | internal/relaytransport/failover.go:72-130 | in every run the active route is none or approved and the counter is the failures since the last success or selection, up to the threshold |
| `RelayFailover.StepMeaning` | internal/relaytransport/failover.go:72-130 | an event selects anew exactly under its guard, and then an approved route that its own observations show available |
| `RelayFailover.ChangesOnlyToAvailable` | internal/relaytransport/failover.go:72-130 | in every run the active route changes only to an approved route that the event that changed it showed healthy and fresh |
| `UploadWindow.Validate` | internal/relaywindow/window.go:18-40 | accepts exactly the valid windows, with distinct weekdays |
| `UploadWindow.MinutesDecide` | internal/relaywindow/window.go:50-58 | comparing whole minutes is comparing instants |
| `UploadWindow.ContainingDay` | internal/relaywindow/window.go:50-58 | only the windows of today and, across midnight, yesterday can contain the present |
| `UploadWindow.OpenIsMembership` | internal/relaywindow/window.go:42-59 | open means membership in the weekly union of half-open intervals, across midnight too |
| `HeartbeatSuppression.ScanIsMaximum` | internal/relaywindow/heartbeat.go:51-71 | the scan yields the latest past close of its start dates |
| `HeartbeatSuppression.MostRecentClose` | internal/relaywindow/heartbeat.go:51-71 | the loop computes the scan of eight start dates |
| `HeartbeatSuppression.ScanCovers` | internal/relaywindow/heartbeat.go:51-71 | every past close of any week is at most the scanned one, unless it fell on the weekday still open |
| `HeartbeatSuppression.ScanExactWhenClosed` | internal/relaywindow/heartbeat.go:51-71 | while a window is closed, the scan is its last close over all past weeks |
| `HeartbeatSuppression.ScanExactIff` | internal/relaywindow/heartbeat.go:51-71 | for every valid window, exactly when the scan is right |
| `HeartbeatSuppression.OtherNightsScan` | internal/relaywindow/heartbeat.go:51-71 | a second selected weekday makes the scan right even while the window is open |
| `HeartbeatSuppression.OnlyLastNightScan` | internal/relaywindow/heartbeat.go:51-71 | with only the open weekday selected, the scan is right only if there is no earlier close to miss |
| `HeartbeatSuppression.ScanMissesExample` | internal/relaywindow/heartbeat.go:51-71 | a concrete open window whose last close the scan misses |
| `HeartbeatSuppression.OpenIdsMeaning` | internal/relaywindow/heartbeat.go:23-34 | some window is listed as open exactly when an enabled window contains the present |
| `HeartbeatSuppression.GraceMeaning` | internal/relaywindow/heartbeat.go:43-47 | with all windows closed, the grace test means some window closed within the grace period |
| `HeartbeatSuppression.LastCloseMeaning` | internal/relaywindow/heartbeat.go:22-43 | with all windows closed, the reported close is the latest of all windows and weeks |
| `HeartbeatSuppression.Survey` | internal/relaywindow/heartbeat.go:22-39 | one invalid window is an error; otherwise the open windows in order and the latest scanned close |
| `HeartbeatSuppression.HeartbeatAlertSuppression` | internal/relaywindow/heartbeat.go:16-49 | alerts are suppressed exactly when delay is allowed and a window is open or closed within grace; reason, windows and last close are the true ones |
| `ConnectionGate.ExtendWindows` | internal/relaywindow/gate.go:36-53 | the checks made window by window are soundness of the whole policy |
| `ConnectionGate.Admit` | internal/relaywindow/gate.go:36-53 | rejects exactly policies with an invalid window or an empty or repeated identifier |
| `ConnectionGate.Evaluate` | internal/relaywindow/gate.go:25-62 | allows exactly when both clocks are set and at most five minutes apart, the policy is valid and the trusted time is in an enabled window, and lists just the open windows; otherwise names the first thing wrong |
| `HeartbeatPolicy.ComputeResolve` | internal/relayheartbeat/policy.go:29-78 | partitioning, merging and sorting compute the resolution, which `ResolveMeaning` and `GroupsSuppressTogether` give a meaning |
| `HeartbeatPolicy.MergeGroups` | internal/relayheartbeat/policy.go:57-72 | the loop over the groups computes the merge |
| `HeartbeatPolicy.MergeIsMeaning` | internal/relayheartbeat/policy.go:57-72 | deny wins, and the shortest grace period wins |
| `HeartbeatPolicy.MergePermutes` | internal/relayheartbeat/policy.go:57-77 | the merge does not depend on the order of the groups |
| `HeartbeatPolicy.ResolveOrderIndependent` | internal/relayheartbeat/policy.go:29-78 | the same valid policies in any order give the same result |
| `HeartbeatPolicy.ResolveMeaning` | internal/relayheartbeat/policy.go:29-78 | one override decides, several deny; groups allow exactly when there are some and all allow, with a grace period that some group has and none is below, and zero when denied |
| `HeartbeatPolicy.SourceMeaning` | internal/relayheartbeat/policy.go:29-78 | the result names what it rests on, and each source if and only if its condition holds |
| `HeartbeatPolicy.GroupsSuppressTogether` | internal/relayheartbeat/policy.go:54-78 | without an override an alert is silenced exactly when there are group policies and each of them on its own would silence it |
| `HeartbeatPolicy.OverrideSuppresses` | internal/relayheartbeat/policy.go:42-53 | with one override an alert is silenced exactly when the override silences it; with several, never |
| `HeartbeatPolicy.SuppressionMonotone` | internal/relaywindow/heartbeat.go:16-49 | a narrower policy never suppresses more |
| `HeartbeatPolicy.GroupNeverWidens` | internal/relayheartbeat/policy.go:29-78 | one more group policy never turns a raised alert into a suppressed one, unless it is the first policy that applies |
| `CopyOrder.CollectReady` | internal/datamigration/preflight.go:126-132 | a pass finds exactly the ready tables, in whatever order the map is visited |
| `CopyOrder.LayeredOrder` | internal/datamigration/preflight.go:124-139 | the loop terminates with a result that no map iteration order affects |
| `CopyOrder.LayerSound` | internal/datamigration/preflight.go:126-137 | adding a sorted layer of ready tables keeps the order free of duplicates and dependencies first |
| `CopyOrder.PathDescends` | internal/datamigration/preflight.go:124-139 | along every chain of dependencies, positions in the order go down |
| `CopyOrder.SoundMeansAcyclic` | internal/datamigration/preflight.go:124-139 | a complete order exists only without a cycle |
| `CopyOrder.WaitingPath` | internal/datamigration/preflight.go:133-135 | tables that all wait for each other give chains of any length |
| `CopyOrder.StuckMeansCycle` | internal/datamigration/preflight.go:133-135 | a pass that finds nothing has found a cycle |
| `CopyOrder.LayersMeaning` | internal/datamigration/preflight.go:124-139 | success is equivalent to an acyclic graph of known tables, and the order lists each table once after its dependencies |
| `CopyOrder.ClosedIffKnown` | internal/datamigration/preflight.go:98-123 | the graph is closed exactly when every relevant reference names a known table |
| `CopyOrder.ReferenceMeaning` | internal/datamigration/preflight.go:106-123 | an edge of the graph is a foreign key between two different tables that are both copied |
| `CopyOrder.CycleMeaning` | internal/datamigration/preflight.go:106-135 | a cycle of the graph is a cycle of foreign keys |
| `CopyOrder.SoundMeaning` | internal/datamigration/preflight.go:124-139 | a sound order of the graph copies every table after those its foreign keys name |
| `CopyOrder.TablesToCopy` | internal/datamigration/preflight.go:94-105 | every table that is not excluded, once |
| `CopyOrder.KnownReferences` | internal/datamigration/preflight.go:111-122 | the references without self and excluded tables, or one that is unknown |
| `CopyOrder.CollectDependencies` | internal/datamigration/preflight.go:106-123 | the dependency graph, or a reference to an unknown table |
| `CopyOrder.SqliteCopyOrder` | internal/datamigration/preflight.go:93-140 | over the foreign keys themselves: reports a missing table if and only if a foreign key names one, else a cycle if and only if there is one, else lists every table to copy once, after all the tables its foreign keys name |
| `CopyOrder.ParentsMeaning` | internal/datamigration/destination_schema.go:93-118 | the dependencies are the constraints between two different tables |
| `CopyOrder.DestinationCopyOrder` | internal/datamigration/destination_schema.go:93-134 | panics exactly on a constraint whose child is not listed, and otherwise succeeds exactly on distinct tables whose constraints are known and acyclic, with a dependency-first permutation |
| `IdentityKeyring.EnvelopeLayout` | internal/auth/secretbox.go:112-150 | header, key identifier, nonce and sealed text can be told apart again |
| `IdentityKeyring.DecryptEncrypted` | internal/auth/secretbox.go:112-141 | what one box encrypts, every box with that key decrypts |
| `IdentityKeyring.HeaderIsBound` | internal/auth/secretbox.go:112-150 | in every keyring a ciphertext that lost its header, or got that of another key, no longer opens |
| `IdentityKeyring.LegacyReadable` | internal/auth/secretbox.go:126-150 | a ciphertext without a header is readable with the bare key, unless it looks like an envelope |
| `IdentityKeyring.LargerRingReads` | internal/auth/secretbox.go:126-150 | adding keys makes nothing unreadable |
| `IdentityKeyring.BeginKeepsReading` | internal/auth/secretbox.go:54-85 | the box of a begun rotation is what the file on disk parses to, and reads every stored secret |
| `IdentityKeyring.ReencryptedReads` | internal/store/identity_rotation.go:60-102 | re-encrypted rows are readable before and after the old key is dropped |
| `IdentityKeyring.BegunReadable` | internal/auth/secretbox.go:54-85 | every crash point of beginning a rotation leaves all secrets readable |
| `IdentityKeyring.FinishReadable` | internal/auth/secretbox.go:91-110 | re-encrypting and finalizing leave all secrets readable |
| `IdentityKeyring.RotationKeepsSecrets` | cmd/mossward/main.go:328-338 | at every crash point of a rotation the key file on disk reads every stored secret; a completed one keeps the active key alone |
| `IdentityKeyring.RotationInstallsNewKey` | cmd/mossward/main.go:328-338 | a completed rotation from a single key leaves just the new key |
| `IdentityKeyring.PendingRing` | internal/auth/secretbox.go:62-84 | a rotation begun from a single key has two keys on disk, the new one active |
| `IdentityKeyring.CrashedIsPending` | cmd/mossward/main.go:328-338 | wherever a rotation from a single key crashes, the key file is the old one or the rotation is pending |
| `IdentityKeyring.RecoveryCopyStays` | internal/auth/secretbox.go:233-247 | before the key file changes a copy of it is kept under the new key; it stays, replaces no earlier copy, and reads every secret as it was stored then |
| `IdentityKeyring.ResumedStores` | internal/auth/secretbox.go:62-84 | a resumed rotation ignores the key it draws and ends with the pending one alone |
| `IdentityKeyring.PendingStep` | internal/auth/secretbox.go:62-84 | one interrupted rotation or stored secret leaves the pending key in place |
| `IdentityKeyring.PendingRun` | internal/auth/secretbox.go:62-84 | any number of interrupted rotations and stored secrets leave the pending key in place and all secrets readable |
| `IdentityKeyring.ResumeKeepsPendingKey` | internal/auth/secretbox.go:62-84 | once a new key is on disk, any interrupted rotations and stored secrets and then one complete rotation end with that key alone, whatever keys are drawn |
| `IdentityKeyring.PutKeepsSecrets` | internal/auth/secretbox.go:112-124 | storing a secret keeps all others readable |
| `IdentityKeyring.StepKeepsSecrets` | cmd/mossward/main.go:328-338 | a rotation, crashed or not, and a stored secret keep all secrets readable |
| `IdentityKeyring.NoSecretLost` | cmd/mossward/main.go:328-338 | over every run of crashed or completed rotations and stored secrets, no secret is lost |
| `IdentityKeyring.IdentityStore.BeginRotation` | internal/auth/secretbox.go:54-85 | writes exactly the key files of a begun rotation and returns the box they parse to |
| `IdentityKeyring.IdentityStore.RotateCiphertexts` | internal/store/identity_rotation.go:31-102 | re-encrypts all rows in one step, or none if a row does not decrypt |
| `IdentityKeyring.IdentityStore.FinalizeRotation` | internal/auth/secretbox.go:91-110 | drops every key but the active one |
| `IdentityKeyring.IdentityStore.RotateIdentityKey` | cmd/mossward/main.go:328-338 | goes through exactly the stores of the rotation, and succeeds if and only if the keyring parses and every row decrypts, leaving the active key alone |
| `VulnerabilityVersion.PartOrder` | internal/intelligence/version.go:73-93 | parts are totally ordered, numbers above words |
| `VulnerabilityVersion.CompareIsTotalPreorder` | internal/intelligence/version.go:57-96 | a total preorder on all strings, equal exactly when the parts without trailing zeros are |
| `VulnerabilityVersion.ComputeRun` | internal/intelligence/version.go:118-122 | the inner loop finds the end of the first maximal run of digits, or of other bytes |
| `VulnerabilityVersion.ComputeParts` | internal/intelligence/version.go:115-133 | the scanning loop splits into maximal runs of digits and of other bytes |
| `VulnerabilityVersion.ComputeTrimmed` | internal/intelligence/version.go:98-113 | the loop drops just the trailing zero parts |
| `VulnerabilityVersion.ComputeCompare` | internal/intelligence/version.go:61-95 | the loop compares part by part, a missing part counting as an empty word |
| `VulnerabilityVersion.ComputeCompareVersions` | internal/intelligence/version.go:57-96 | computes the comparison, whose direction `VulnerabilityMeaning.CompareMeaning` and `VulnerabilityMeaning.DottedOrder` fix |
| `VulnerabilityVersion.BetweenBounds` | internal/intelligence/version.go:34-55 | each of the four bounds is kept by anything in between |
| `VulnerabilityVersion.AffectedIsConvex` | internal/intelligence/version.go:34-55 | whatever lies between two affected versions is affected |
| `VulnerabilityVersion.CleanedAffectedIsConvex` | internal/intelligence/version.go:34-55 | the same directly on versions that cleaning leaves alone |
| `VulnerabilityMeaning.RunsOf` | internal/intelligence/version.go:115-133 | every text is made of runs of digits and runs of other bytes in turn |
| `VulnerabilityMeaning.PartsOfRuns` | internal/intelligence/version.go:115-133 | the parser reads a text as the values of its runs: saturated numbers, and words without the separators |
| `VulnerabilityMeaning.SignificantIsTrimmed` | internal/intelligence/version.go:98-107 | what trimming leaves is what is left without the zeros at the end |
| `GoStrings.LessMeaning` | internal/intelligence/version.go:88-93 | words compare in the order of bytes: the first difference decides, and a string is above its own beginning |
| `VulnerabilityMeaning.CompareSign` | internal/intelligence/version.go:61-95 | the loop is negative exactly when at the first difference the left part is smaller or missing |
| `VulnerabilityMeaning.CompareMeaning` | internal/intelligence/version.go:57-96 | for all texts: negative exactly when the significant values of the left are below those of the right, positive exactly the other way round, zero exactly when they are the same |
| `VulnerabilityMeaning.DottedIsRuns` | internal/intelligence/version.go:115-133 | numerals joined by dots are read as their numbers |
| `VulnerabilityMeaning.DottedIsClean` | internal/intelligence/version.go:135-138 | cleaning leaves numerals joined by dots alone |
| `VulnerabilityMeaning.DottedOrder` | internal/intelligence/version.go:57-96 | numerals joined by dots compare as their numbers do, one after the other, an unwritten number counting as zero |
| `VulnerabilityMeaning.AffectedMeaning` | internal/intelligence/version.go:34-55 | for numerals joined by dots, being affected is membership in the interval of numbers that the five bounds describe |
| `VulnerabilityMeaning.CleanMeaning` | internal/intelligence/version.go:135-138 | surrounding space, letter case and one leading "v" make no difference |
| `SemanticVersion.ComputeCompareIdentifiers` | internal/checkcatalog/catalog.go:152-184 | the loop compares by the first difference, then by length |
| `SemanticVersion.ComputeCompareVersions` | internal/checkcatalog/catalog.go:115-136 | core numbers decide first, then the prereleases |
| `SemanticVersion.DecimalInjective` | internal/checkcatalog/catalog.go:158-176 | numerals without leading zeros denote different numbers |
| `SemanticVersion.IdentifierAgreementIff` | internal/checkcatalog/catalog.go:158-176 | for all pairs of different identifiers, exactly when the comparison is their precedence in section 11 of Semantic Versioning 2.0.0 |
| `SemanticVersion.ListAgreementIff` | internal/checkcatalog/catalog.go:152-184 | for all lists, decided at their first difference |
| `SemanticVersion.ListZero` | internal/checkcatalog/catalog.go:152-184 | lists compare equal exactly when they are equal |
| `SemanticVersion.SplitInjective` | internal/checkcatalog/catalog.go:153 | different prereleases have different identifier lists |
| `SemanticVersion.PrereleaseAgreementIff` | internal/checkcatalog/catalog.go:125-184 | for all prereleases, exactly when the comparison is their precedence |
| `SemanticVersion.PrereleaseZero` | internal/checkcatalog/catalog.go:125-184 | prereleases compare equal exactly when they are equal |
| `SemanticVersion.SplitIsSaturated` | internal/checkcatalog/catalog.go:138-150 | an accepted version is compared at face value, except that a number exceeding an int becomes the largest int |
| `SemanticVersion.ParsedAgreementIff` | internal/checkcatalog/catalog.go:115-136 | the same over core numbers of any size, where numbers that exceed an int are taken for equal |
| `SemanticVersion.AgreementIff` | internal/checkcatalog/catalog.go:115-184 | for all accepted versions: the comparison is the precedence of section 11 if and only if they read the same |
| `SemanticVersion.OrdinaryReads` | internal/checkcatalog/catalog.go:115-184 | ordinary versions read the same, so for them the comparison is the precedence |
| `SemanticVersion.ComparisonIsPrecedence` | internal/checkcatalog/catalog.go:115-184 | in particular ordinary versions compare as section 11 says, and equal exactly when nothing but build metadata differs |
| `SemanticVersion.ListsTransitive` | internal/checkcatalog/catalog.go:152-184 | the same for lists of identifiers, all strings |
| `SemanticVersion.PrereleasesTransitive` | internal/checkcatalog/catalog.go:125-184 | the same for prereleases, all strings |
| `SemanticVersion.ComparisonIsPreorder` | internal/checkcatalog/catalog.go:115-184 | being at most as high is reflexive and transitive on all versions, ordinary or not |
| `SemanticVersion.ComparisonIsTotalPreorder` | internal/checkcatalog/catalog.go:115-184 | on ordinary versions it is also antisymmetric in sign: a total preorder |
| `SemanticVersion.IdentifierAntisymmetryIff` | internal/checkcatalog/catalog.go:158-176 | two identifiers compare inconsistently exactly when they denote one number |
| `SemanticVersion.ListAntisymmetryIff` | internal/checkcatalog/catalog.go:152-184 | two lists compare inconsistently exactly when they first differ that way, and then each is reported higher |
| `SemanticVersion.AntisymmetryIff` | internal/checkcatalog/catalog.go:115-184 | for all versions, exactly when the comparison is consistent, and what it reports when it is not |
| `SemanticVersion.OneClashNotReported` | internal/checkcatalog/catalog.go:115-184 | with a single clash in a chain of versions that otherwise never get lower, the last is not reported lower than the first |
| `SemanticVersion.OrdinaryDoNotClash` | internal/checkcatalog/catalog.go:152-184 | ordinary versions always compare consistently |
| `SemanticVersion.LeadingZeroExample` | internal/checkcatalog/catalog.go:152-184 | 1.0.0-01 and 1.0.0-1 are accepted, and each is reported higher than the other |
| `SemanticVersion.HyphenExample` | internal/checkcatalog/catalog.go:152-184 | two accepted versions, 1.0.0--5 and 1.0.0-0, that the code orders against section 11 |
| `SemanticVersion.CircularExample` | internal/checkcatalog/catalog.go:152-184 | three accepted versions, each reported higher than the one before, the last lower than the first |
| `SemanticVersion.CircularClashes` | internal/checkcatalog/catalog.go:152-184 | each of the three clashes with the one before |
| `CheckCatalog.FindVersion` | internal/store/check_catalog.go:71-73 | finds a row with that check and version, or there is none |
| `CheckCatalog.ActiveVersion` | internal/store/check_catalog.go:75-77 | the version of an active row of the check, or there is none |
| `CheckCatalog.ApplyKeepsValid` | internal/checkcatalog/catalog.go:67-113 | every operation keeps versions unique and at most one active version per check |
| `CheckCatalog.ActivationTakesEffect` | internal/store/check_catalog.go:102-122 | the activated version is the active one, and other checks are untouched |
| `CheckCatalog.ActivationRetires` | internal/store/check_catalog.go:102-120 | the version that was active becomes retired, the activated one active, and every other row stays |
| `CheckCatalog.StepNeverLowers` | internal/checkcatalog/catalog.go:99-113 | for every catalog, one operation without rollback approval leaves the active version at least as high as before if and only if it does not ask for a trusted version that clashes with it |
| `CheckCatalog.EnvelopesImmutable` | internal/checkcatalog/catalog.go:82-97 | no operation changes or drops an imported check, and only a verified import from a trusted publisher adds one |
| `CheckCatalog.ImportRule` | internal/checkcatalog/catalog.go:82-97 | each answer of an import if and only if its condition on trust, signature and the stored version of that name; only a new verified envelope is staged |
| `CheckCatalog.ActivationRule` | internal/checkcatalog/catalog.go:99-113 | activation succeeds if and only if a trusted publisher signed that version and it is not reported lower than the active one or rollback is approved |
| `CheckCatalogRuns.Run` | internal/checkcatalog/catalog.go:67-113 | every run keeps the tables valid |
| `CheckCatalogRuns.NotLoweredBetween` | internal/checkcatalog/catalog.go:99-113 | without clashes no two points of a run are out of order |
| `CheckCatalogRuns.NeverLoweredIff` | internal/checkcatalog/catalog.go:99-113 | in every run without rollback approvals, the active version is not lowered between any two points if and only if no activation clashes with the version it replaces |
| `CheckCatalogRuns.RunStaysOrdinary` | internal/checkcatalog/catalog.go:82-97 | importing ordinary versions keeps the catalog ordinary in every run |
| `CheckCatalogRuns.OrdinaryNoClash` | internal/checkcatalog/catalog.go:99-113 | with ordinary versions only, no activation of any run clashes with the version it replaces |
| `CheckCatalogRuns.OrdinaryNeverPrecedes` | internal/checkcatalog/catalog.go:99-113 | with ordinary versions only and without rollback approvals, the active version never precedes an earlier one in the sense of section 11 of Semantic Versioning 2.0.0, between any two points of a run |
| `CheckCatalogRuns.LoweredExample` | internal/checkcatalog/catalog.go:99-113 | for every check, signer and signatures: seven accepted calls on empty tables without rollback approval, two of them clashing, that end with a version below an earlier one |
| `CheckCatalogRuns.RecordedKeyStays` | internal/checkcatalog/catalog.go:67-76 | between any two points of every run, a recorded public key never changes |
| `CheckCatalogRuns.TrustHistory` | internal/checkcatalog/catalog.go:67-80 | in every run a key is trusted if and only if it was accepted at some time and not revoked since |
| `CheckCatalogRuns.RevokedShutOut` | internal/checkcatalog/catalog.go:78-113 | from a revocation until the key is accepted again, nothing signed with it is imported or activated, in every run |
| `CheckCatalog.Service.constructor` | internal/checkcatalog/catalog.go:65 | starts with valid empty tables |
| `CheckCatalog.Service.TrustPublisher` | internal/checkcatalog/catalog.go:67-76 | accepts a named full-size key exactly when no other key has its identifier, and changes no recorded key and no other publisher |
| `CheckCatalog.Service.RevokePublisher` | internal/checkcatalog/catalog.go:78-80 | leaves the publisher untrusted, every recorded key and every other publisher as they were |
| `CheckCatalog.Service.Import` | internal/checkcatalog/catalog.go:82-97 | stages a verified check once, and a different signature for the same version is a conflict |
| `CheckCatalog.Service.Activate` | internal/checkcatalog/catalog.go:99-113 | activates under the rule proved above, or changes nothing |
| `CoverageScope.CoarserBlock` | internal/coveragepolicy/policy.go:62-69 | addresses sharing a long prefix share every shorter one |
| `CoverageScope.LongerPrefixInside` | internal/coveragepolicy/policy.go:62-69 | a prefix that passes the test has no address outside |
| `CoverageScope.ShorterPrefixOutside` | internal/coveragepolicy/policy.go:62-69 | a shorter prefix always has an address outside |
| `CoverageScope.CoversIsInclusion` | internal/coveragepolicy/policy.go:62-69 | the prefix test is inclusion of address sets in one family, as in section 3.1 of RFC 4632 |
| `CoverageScope.MaskedSameAddresses` | internal/coveragepolicy/policy.go:50-60 | clearing the host bits keeps the set of addresses |
| `CoverageScope.MaskedIsLowest` | internal/coveragepolicy/policy.go:35-57 | clearing the host bits leaves the lowest address of the prefix |
| `CoverageScope.MaskIsCanonical` | internal/coveragepolicy/policy.go:35-57 | two prefixes have one masked form if and only if they stand for the same addresses |
| `CoverageScope.ScopeTestMeaning` | internal/coveragepolicy/policy.go:62-69 | the search over the server prefixes means that one of them contains every address |
| `CoverageScope.Normalize` | internal/coveragepolicy/policy.go:16-48 | accepts exactly named, distinct, in-scope policies of allowed size, and returns the trimmed name and the prefixes with the host bits cleared |
| `CoverageScope.ParsePrefixes` | internal/coveragepolicy/policy.go:50-60 | fails exactly on text that is no prefix |
| `CoverageScope.AcceptedWithinScope` | internal/coveragepolicy/policy.go:28-47 | every address of an accepted policy lies in one prefix of the server's scope |
| `CoverageScope.AcceptedWithoutRepeats` | internal/coveragepolicy/policy.go:28-47 | no two prefixes of an accepted policy stand for the same addresses |

## Left out

- HTTP handlers, web interface, command-line parsing and service control: no state of their own.
- The Windows update path, whose second process is service control.
- Cryptography, TLS, X.509, JSON and compression: digests are injective, sealing round-trips, a stored frame either decodes or does not.
- Power loss that reorders renames whose directory was not synced: every rename is durable at once, and a crash is one of the process.
- Manifest signature, expiry, platform and address checks, and downloading: an offer is a manifest that passed them, with the bytes its address serves.
- Liveness of repeated offers: an existing known-good or staged file makes a later attempt fail, as `AgentUpdateRuns.FrozenForGood` states.
- `Peek` and `Stats` of the queue, which only read; the queue file's permissions and locking.
- Wrap-around of 64-bit instants and durations, and exhaustion of rowids.
- Daylight saving and the time zone database: a zone is a fixed offset from UTC.
- The mutexes of the failover controller and the queue: each call is one step.
- `validateDestination`, `mappedSourceColumns`, row conversion and sequence repair of the data migration: column checks and database behaviour.
- A server that keeps an old keyring in memory while another process rotates it: rotation asks for the service to be stopped.
- Case folding and white space beyond ASCII; the text form of addresses and IPv6 zones; catalog timestamps.
- Module version comparison, inventory collectors, probes, notifications, worker leasing and scheduling.
- HeartbeatPolicy.ResolveOrderIndependent: stated for validated policies, as they are stored; a negative grace period would survive a deny before it and not a deny after it.
- RelayQueueRuns.StaleTokenVoid: requires that the random delivery tokens of a run differ.
- IdentityKeyring.NoSecretLost: requires that a drawn key that is used has a new identifier.
- RelayQueueMigration.MigratedQueueOpens: requires the found table to be within the limits, which a queue opened with smaller limits than before is not.
