# Apolysis: verified model of the audit trail

Apolysis observes the processes of a session, decides which session a kernel event belongs to, and keeps an audit trail
that must survive concurrency, crashes and rollback. This project models the parts where that is hard and proves what
they are for. `dafny verify dfyconfig.toml` checks everything.

| files | what they model |
|---|---|
| `PriorityQueue.dfy`, `Pipeline.dfy`, `PipelineHistory.dfy`, `PipelineRuns.dfy`, `PipelineDrain.dfy`, `PipelineErrors.dfy` | the five-level bounded queue as a class over its deques, the submit / drain / shutdown protocol as interleaved atomic steps of any number of submitters and writers, the same read off the schedule alone, a bound on how long shutdown takes, and what a sink error strands |
| `Registry.dfy`, `SessionRegistry.dfy`, `RegistryRuns.dfy`, `RegistryAnswers.dfy`, `Ownership.dfy` | the session registry: what each operation does as a function on values, the class with the real fields proved to do it, what every operation keeps, what it answers case by case, how long sessions stay, and the index against the history over every run |
| `Daemon.dfy`, `DaemonState.dfy`, `DaemonRuns.dfy`, `DaemonRestart.dfy`, `DaemonLives.dfy`, `DaemonScope.dfy`, `DaemonHome.dfy`, `DaemonStorage.dfy`, `DaemonReplay.dfy` | the daemon's clone / scope command / persist / commit calls with rollback, start-up from the session logs, and runs of calls and restarts with any failures |
| `HashChain.dfy`, `HashChainStore.dfy`, `HashChainCodec.dfy` | the hash chain on raw bytes: framing, validation, append, recovery with quarantine |
| `Rotation.dfy` | the rotating JSONL file over numbered files |
| `Restore.dfy`, `RestoreProof.dfy`, `RestorePlan.dfy`, `RestoreSuccess.dfy`, `RestoreAnswers.dfy`, `RestoreTree.dfy` | capture, restore plan and restore execution over an abstract file system and a service controller |
| `ProcessTree.dfy`, `ProcessKill.dfy` | the closure over a frozen process table, the parent walks, the kill order |
| `ExecArgv.dfy` | the kernel-side argv writer over its fixed buffer, marker decoration and stripping |
| `JsonStrings.dfy`, `JsonStandard.dfy` | the JSON string printers and the policy reader's list scanner |
| `Chunked.dfy`, `ChunkedFailures.dfy` | the chunked-body decoder (section 7.1 of RFC 9112) |
| `Common.dfy` | shared datatypes |

Code that changes state is a class or a method with the source's loops, proved equal to a function on values; the
theorems are then about that function, so a wrong step in either fails. SHA-256, serde and UTF-8 decoding are parameters
with the laws stated where they are used; time is a parameter `now`; what fails outside the daemon during a call is a
parameter of the call.

Some properties are false of the code without a condition. Each has a lemma with a run or an input that shows the
failure, and a theorem that the property holds if and only if a condition does that can be looked at before the call:

* **Ownership.** A session keeps its list of cgroup ids after it ends, and ending it again drops those ids from the
  index whoever owns them now (`ReuseLosesOwnership`). The index answers the history if and only if no ending of the run
  takes an id another session owns (`OwnershipExactly`); that holds in particular when no id is offered under two
  sessions (`OwnershipRefinement`).
* **Kernel scope.** For the same reason kernel set and index can part (`ReuseLosesScope`). They agree if and only if no
  call that goes through takes over a waiting id that is missing from the index (`ScopeSagaExactly`); without reuse that
  always holds, across restarts too (`ScopeSaga`). A session closed with ids attached and registered anew cannot be
  closed until its ids are discovered again (`ReRegisteredCannotClose`); a close goes through if and only if every id
  the session lists is in the index (`CloseSucceedsExactly`).
* **Restart.** A session that start-up does not bring back leaves its log unclosed, and when it is registered anew the
  log gives it the old ids (`StaleIdsComeBack`); and a close can take an id from a session whose log keeps it
  (`TakenIdStaysInLog`). Logs and live sessions agree if and only if every registration that goes through meets a log
  whose unclosed ids are the ones waiting for the session, and no close that goes through takes an id of another
  registered session (`AgreementExactly`); without reuse and before the first restart that always holds
  (`RestartAgreement`).
* **Sink errors.** When the sink fails, `run_writer` leaves what is queued, and one submit can still be answered
  Accepted behind it (`AcceptedAfterTheError`); exactly what is stranded is `ErrorStrands` and `StrandedForever`.
* **Restore plan.** Two captured files whose ids become the same backup name overwrite each other's copy: the capture
  answers Ok, but it can never be planned (`ClashIsMet`, `ClashIsNeverPlanned`). Planning after a capture succeeds if
  and only if there is no such clash and the managed services are supported (`PlanAfterCaptureExactly`); executing it
  succeeds if and only if nothing is in the way (`RestoreSucceedsExactly`).
* **JSON lists.** The policy scanner does not read the `\u` escapes of the repository's own printer
  (`ControlCharacterRefused`), so a list comes back if and only if its control characters are only newline, return and
  tab (`ListRoundTrip`). It takes the first quoted key and the first colon behind it (`EarlierValueMisread`): it finds a
  field's own text if and only if no colon stands between that key and the field's colon (`ValueTextExactly`).
* **Chunked bodies.** `chunk_end + 2` is an unchecked addition (`OverflowMet`, `PanicsExactly`).
* **Argv text.** The writer drops the separator behind an empty first argument (`EmptyFirstArgument`): the text is the
  ordinary join if and only if the first argument is not empty or there is at most one (`PackedIsJoinedExactly`).

## Model
| member | source | states |
|---|---|---|
| `PriorityQueue.RunIsSound` | crates/apolysis-accountability/src/queue.rs:79-141 | over every push/pop sequence: depth never exceeds capacity, pushes = pops + depth + sheds + refusals, per priority the accepted records are those that left in acceptance order followed by those still queued, and only Ordinary records are ever shed |
| `PriorityQueue.NextOutOf` | crates/apolysis-accountability/src/queue.rs:97-111 | the record popped next is the earliest one queued of the highest priority present, so scanning the levels from the top finds it |
| `PriorityQueue.ProtectedLeaveOnlyByPop` | crates/apolysis-accountability/src/queue.rs:79-141 | over every run, an accepted record above Ordinary leaves only by a pop, in acceptance order |
| `PriorityQueue.ProtectedRefusedOnlyWhenFull` | crates/apolysis-accountability/src/queue.rs:79-95 | a record above Ordinary is refused if and only if the queue is full and holds no Ordinary record |
| `PriorityQueue.PushExactly` | crates/apolysis-accountability/src/queue.rs:79-95 | after any run and for every priority: an entry is accepted if and only if there is room; without room one above Ordinary takes the place of the oldest Ordinary record if there is one; anything else is refused; and in each case what the queue holds afterwards |
| `PriorityQueue.OrdinaryPushRemovesNothing` | crates/apolysis-accountability/src/queue.rs:79-95 | pushing an Ordinary entry never removes a queued record |
| `PriorityQueue.PopExactly` | crates/apolysis-accountability/src/queue.rs:97-111 | a pop hands out the oldest record of the first level that is not empty, from Integrity down to Ordinary, and leaves the rest in order; nothing exactly when nothing is queued |
| `PriorityQueue.RepresentsTake` | crates/apolysis-accountability/src/queue.rs:97-141 | removing the head of one level removes, in the arrival-ordered list of everything queued, the first record of that priority and nothing else |
| `PriorityQueue.OnlyRemove` | crates/apolysis-accountability/src/queue.rs:97-111 | removing one record leaves the order of every other priority alone and shortens its own by that record |
| `PriorityQueue.BoundedPriorityQueue.constructor` | crates/apolysis-accountability/src/queue.rs:72-77 | a new queue is empty and agrees with the arrival-ordered reference |
| `PriorityQueue.BoundedPriorityQueue.Push` | crates/apolysis-accountability/src/queue.rs:79-95 | the per-level deques and the counters follow the arrival-ordered reference: refuse, shed the oldest Ordinary record and take the new one, or just take it |
| `PriorityQueue.BoundedPriorityQueue.Pop` | crates/apolysis-accountability/src/queue.rs:97-111 | returns the earliest surviving record of the highest non-empty priority, and nothing exactly when the queue is empty |
| `PriorityQueue.BoundedPriorityQueue.ShedOldestOrdinary` | crates/apolysis-accountability/src/queue.rs:131-141 | drops the earliest Ordinary record when there is one and touches nothing otherwise |
| `PipelineRuns.DrainSafety` | crates/apolysis-daemon/src/pipeline.rs:82-170 | in every interleaving, when `run_writer` returns Ok the queue is empty, submission is closed, written and failed are the numbers of times the sink answered so, written + failed = accepted minus shed, and per priority the records the sink saw are the accepted ones in order (Ordinary ones minus those shed) |
| `PipelineHistory.ScheduleDecides` | crates/apolysis-daemon/src/pipeline.rs:82-170 | linearizability: after any schedule the queue is the sequential queue after the pushes and pops in the order they were made; every submit is answered Closed, exactly behind the closed gate, or with what the sequential queue answers to its record; the one running writer is the first that was called and has counted the answers of the sink one by one; gate, stored permit and shutdown request are what the schedule says |
| `PipelineHistory.WakesAreNotified` | crates/apolysis-daemon/src/pipeline.rs:82-160 | each wake-up of the writer by a notification uses one up: there are never more of them than notifications |
| `PipelineHistory.StopsOnlyOnRequest` | crates/apolysis-daemon/src/pipeline.rs:149-160 | a writer is stopping, or has returned Ok, only if shutdown was requested in the schedule |
| `PipelineRuns.SummaryUnderMutex` | crates/apolysis-daemon/src/pipeline.rs:149-155 | when the writer returns Ok no submitter is between taking the mutex and dropping it |
| `PipelineHistory.CallsArePossible` | crates/apolysis-daemon/src/pipeline.rs:82-130 | in every state shutdown can be requested and new calls can be made, and the first call for the writer is let in |
| `PipelineRuns.DrainedForever` | crates/apolysis-daemon/src/pipeline.rs:82-98 | whatever happens after that return, queue and sink never change again, and every submit that had not pushed by then is answered Closed |
| `PipelineRuns.NoLostWakeUp` | crates/apolysis-daemon/src/pipeline.rs:86-160 | in every reachable state a parked writer over a non-empty queue has a stored permit or a submitter that still has to notify, and at most one caller ever passed the start gate |
| `PipelineRuns.NoDeadlock` | crates/apolysis-daemon/src/pipeline.rs:82-170 | in every reachable state with a writer that has not returned, some call under way can move, unless the writer is parked with nothing queued and no shutdown |
| `PipelineRuns.ReachableInv` | crates/apolysis-daemon/src/pipeline.rs:82-170 | every reachable state has one mutex holder inside its locked region, one writer, no admitted submitter once the writer sealed the queue, and pops = sink answers plus the record in hand |
| `Pipeline.StepKeepsInv` | crates/apolysis-daemon/src/pipeline.rs:82-170 | each of the fifteen kinds of atomic step keeps all of that |
| `PipelineRuns.StepStaysDrained` | crates/apolysis-daemon/src/pipeline.rs:82-98 | no single step of anyone undoes the drained state |
| `PipelineErrors.ErrorStrands` | crates/apolysis-daemon/src/pipeline.rs:131-147 | in every interleaving, when `run_writer` returns the error of the sink submission is closed, written and failed are the numbers of times the sink answered so, and every record accepted was answered for by the sink, is the one in hand, is still queued or was shed as Ordinary, in acceptance order above Ordinary |
| `PipelineErrors.StrandedForever` | crates/apolysis-daemon/src/pipeline.rs:82-147 | whatever happens after that return the sink answers for nothing more, the queue changes at most by one push, that of the submitter that was past its second check, and every submit that was not past it is answered Closed |
| `PipelineErrors.AcceptedAfterTheError` | crates/apolysis-daemon/src/pipeline.rs:82-147 | that push is met: for any two records there is a run in which the second submit is answered Accepted after the writer has returned the error, and its record stays queued |
| `PipelineDrain.ShutdownEnds` | crates/apolysis-daemon/src/pipeline.rs:82-170 | once the writer has accepted shutdown, every schedule takes at most a fixed number of steps of calls under way, whatever new calls arrive, and while the writer has not returned such a step is possible: so it returns |
| `PipelineDrain.StepDecreasesWork` | crates/apolysis-daemon/src/pipeline.rs:82-170 | each step of a call under way uses up some of that number, and no other action adds to it |
| `SessionRegistryCode.SessionRegistry.Register` | crates/apolysis-accountability/src/session.rs:120-153 | the code's new fields and answer are those of the specification, including what a register that stops halfway leaves behind |
| `SessionRegistryCode.SessionRegistry.Renew` | crates/apolysis-accountability/src/session.rs:155-175 | as specified, with every error and its precedence |
| `SessionRegistryCode.SessionRegistry.Deactivate` | crates/apolysis-accountability/src/session.rs:373-386 | as specified: status set, id list kept, listed ids gone from the index whoever owns them |
| `SessionRegistryCode.SessionRegistry.Expire` | crates/apolysis-accountability/src/session.rs:193-206 | in whatever order due sessions are visited, exactly the due ones end and exactly the ids they list leave the index |
| `SessionRegistryCode.SessionRegistry.DiscoverCgroup` | crates/apolysis-accountability/src/session.rs:223-246 | as specified: attach, conflict, pending capacity, or one more pending id |
| `SessionRegistryCode.SessionRegistry.AssociateCgroup` | crates/apolysis-accountability/src/session.rs:208-221 | as specified, errors in the code's order |
| `SessionRegistryCode.SessionRegistry.ApplyRetention` | crates/apolysis-accountability/src/session.rs:303-318 | in whatever order eligible sessions are visited, exactly they are purged and exactly the ids they list leave the index |
| `Registry.InsertSorted` | crates/apolysis-accountability/src/session.rs:223-246 | pushing an absent id and sorting keeps an id list strictly sorted |
| `Registry.TotalUpdate` | crates/apolysis-accountability/src/session.rs:223-246 | replacing one pending entry changes the total of pending ids by exactly the difference in length |
| `RegistryRuns.AttachAllEffect` | crates/apolysis-accountability/src/session.rs:143-150 | attaching a list fails if and only if some id is owned elsewhere; on success exactly those ids are added to the session and to the index, everything else untouched |
| `RegistryRuns.RegisterEffect` | crates/apolysis-accountability/src/session.rs:120-153 | register succeeds if and only if the intent is valid, there is room and no pending id is owned elsewhere; then the session is active with its pending ids moved in; every other refusal changes nothing |
| `RegistryRuns.EndingEffect` | crates/apolysis-accountability/src/session.rs:177-206 | close, degrade, expire and purge end exactly the sessions they report and remove exactly the ids those list |
| `RegistryRuns.PerformKeepsInv` | crates/apolysis-accountability/src/session.rs:108-246 | every operation that is not refused keeps: sessions within capacity, pending count = total of pending ids within its limit, pending and session keys disjoint, id lists strictly sorted, every index entry backed by an active session or a pending entry listing it; a refusal changes nothing except a register stopped by a conflict |
| `RegistryRuns.CommitRunKeepsInv` | crates/apolysis-accountability/src/session.rs:108-386 | over every run that commits only successful operations the invariant holds, whatever ids are offered |
| `RegistryRuns.RenewRevivesWithoutIds` | crates/apolysis-accountability/src/session.rs:155-206 | a session that expired is renewed exactly when the new expiry lies ahead; it is then active until that expiry and lists the same ids, but owns none of them |
| `RegistryRuns.PurgeAndExpireCommute` | crates/apolysis-accountability/src/session.rs:193-318 | expiring and purging at one time commute: the same sessions are purged and the tables are equal, so an unnoticed expiry does not matter |
| `RegistryRuns.PurgeIsComplete` | crates/apolysis-accountability/src/session.rs:303-318 | one purge leaves nothing to purge at that time, and waiting never makes a session ineligible |
| `RegistryAnswers.ValidateIntentExactly` | crates/apolysis-accountability/src/intent.rs:106-121 | which intents are valid, and which of the seven reasons is given for any other, in the order of the checks |
| `RegistryAnswers.RegisterAnswers` | crates/apolysis-accountability/src/session.rs:120-153 | the answer to a registration by the first obstacle, with the first conflicting id and its owner, and whether the session is new or replaced |
| `RegistryAnswers.RenewAnswers` | crates/apolysis-accountability/src/session.rs:155-175 | the answer to a renewal by the first obstacle, and what it changes |
| `RegistryAnswers.AssociateAnswers` | crates/apolysis-accountability/src/session.rs:208-221 | the answer to an association by the first obstacle, and what it changes |
| `RegistryAnswers.DiscoverAnswers` | crates/apolysis-accountability/src/session.rs:223-246 | the answer to a discovery for a known and for an unknown session by the first obstacle, and what it changes |
| `RegistryAnswers.EndAnswers` | crates/apolysis-accountability/src/session.rs:177-191 | closing and degrading are refused exactly for a session that is not there, and give the session the status of their kind |
| `RegistryAnswers.ExpireExactly` | crates/apolysis-accountability/src/session.rs:193-206 | a session ends exactly when it is active and its expiry has come, and is then expired |
| `RegistryAnswers.PurgeExactly` | crates/apolysis-accountability/src/session.rs:303-397 | a purge takes exactly the sessions of the tenant that are closed, expired, or active past their expiry, and whose expiry lies back 7, 30 or 365 days by tier |
| `RegistryAnswers.KeptUntilRetention` | crates/apolysis-accountability/src/session.rs:303-397 | over every run: a session that was there and is not any more was purged in between, for its own tenant, at a time by which it was over and its retention too; so none goes before that time, and no degraded or unexpired active one ever |
| `Ownership.OwnershipExactly` | crates/apolysis-accountability/src/session.rs:120-386 | over every run, whatever ids are offered: the index answers s for c exactly when some successful association of c with s was not followed by an end of s, after every prefix, if and only if no ending in the run takes an id whose owner is not being ended; such a run keeps the tables consistent and no register meets a cgroup conflict |
| `Ownership.StepFollowsExactly` | crates/apolysis-accountability/src/session.rs:120-386 | one operation, of any kind, moves the index as its event says if and only if it takes no foreign id |
| `Ownership.EndingTakesForeignIdsExactly` | crates/apolysis-accountability/src/session.rs:177-206 | close, degrade, expire and purge keep every association of the sessions they do not end if and only if no id listed by a session being ended is owned by one that is not |
| `Ownership.OwnershipRefinement` | crates/apolysis-accountability/src/session.rs:120-386 | in a run with no id offered under two sessions the condition always holds, so the index answers the history and no register ever meets a conflict |
| `Ownership.ReuseLosesOwnership` | crates/apolysis-accountability/src/session.rs:373-386 | for any two sessions and any id there is a run after which history says the second owns the id and the index has lost it |
| `Ownership.HalfwayRegisterBreaksInv` | crates/apolysis-accountability/src/session.rs:143-150 | for any two sessions and two ids there is a run to consistent tables in which a valid register is refused and leaves an index entry nothing backs |
| `DaemonStateCode.DaemonState.Register` | crates/apolysis-daemon/src/state.rs:124-147 | commits registry and log together or neither, by working on a clone |
| `DaemonStateCode.DaemonState.Renew` | crates/apolysis-daemon/src/state.rs:149-171 | commits registry and log together or neither |
| `DaemonStateCode.DaemonState.Close` | crates/apolysis-daemon/src/state.rs:173-207 | the untrack loop, its rollback loop and the commit have the specified effect for every failure position |
| `DaemonStateCode.DaemonState.DiscoverCgroup` | crates/apolysis-daemon/src/state.rs:325-373 | early answer from the index, scope command, persist, rollback and commit have the specified effect |
| `DaemonStorage.AnswersExactly` | crates/apolysis-daemon/src/state.rs:124-502 | what every call answers: the refusal of the registry if there is one, then a failing scope command, then a failing or unavailable storage, success exactly when it passes all three or the index answers already; and writing stays possible exactly when no call meets the storage in vain |
| `DaemonStorage.CommitsExactly` | crates/apolysis-daemon/src/state.rs:124-373 | a call that succeeds beyond the index commits what the registry makes of it and exactly one record, of its own kind, at the end of the log of its session; no other log changes |
| `DaemonStorage.OutcomesExactly` | crates/apolysis-daemon/src/state.rs:124-373 | a registration that succeeds says whether the session is new, and a discovery whether it is known |
| `DaemonStorage.WritableExactly` | crates/apolysis-daemon/src/state.rs:487-502 | over every run of calls and restarts: writing is possible exactly as long as no call since the last start-up has answered that storage failed |
| `DaemonStorage.StorageFailureIsFinal` | crates/apolysis-daemon/src/state.rs:487-502 | once some call of a run has answered that storage failed, until a restart no call changes the registry or a log, whatever fails or works again, and every call whose checks and scope commands pass answers that storage failed |
| `DaemonStateCode.ReplayActiveSession` | crates/apolysis-daemon/src/state.rs:640-693 | the replay loop answers the fold of the log, an error exactly where the fold has one |
| `DaemonReplay.ReplayExactly` | crates/apolysis-daemon/src/state.rs:640-693 | for any log, whatever its records: replay fails exactly when a registration has no intent; it answers a session exactly when one was registered, is not closed since and expires later, with the last intent as renewed since and exactly the ids discovered and not forgotten by a closing or a registration behind one |
| `DaemonStateCode.RebuildRegistry` | crates/apolysis-daemon/src/state.rs:50-101 | the start-up loop gives the specified registry for every directory order |
| `DaemonStateCode.StartUp` | crates/apolysis-daemon/src/state.rs:43-122 | start-up gives the rebuilt registry over the same logs, with exactly the ids of its index tracked (crates/apolysis-daemon/src/runtime.rs tracks them), or does not come up |
| `DaemonRuns.CloseSaga` | crates/apolysis-daemon/src/state.rs:173-207 | a close keeps kernel set and index equal in every outcome and on failure changes nothing, for any ids |
| `DaemonRuns.DiscoverSaga` | crates/apolysis-daemon/src/state.rs:325-373 | a discovery answers from the index, or commits registry, kernel set and log together, or changes nothing |
| `DaemonRuns.HandleKeepsInv` | crates/apolysis-daemon/src/state.rs:124-373 | every call that meets the condition of `AgreementExactly`, with any failures and any ids, keeps the registry invariant and the agreement of every log with the live session, in every life of the daemon; a failed one commits nothing |
| `DaemonRuns.InstalledLogsExactly` | crates/apolysis-daemon/src/state.rs:124-147 | after a registration, whatever ids were offered, the session's log agrees with the live session if and only if the ids that were waiting for it are the unclosed ids of the log |
| `DaemonRestart.RestoreOne` | crates/apolysis-daemon/src/state.rs:50-101 | restoring one more session never fails and adds exactly its part of the live index |
| `DaemonRestart.RebuildFits` | crates/apolysis-daemon/src/state.rs:50-101 | rebuilding from logs that agree, in any directory order, never fails and gives the live registry restricted to the sessions that are open and not expired |
| `DaemonLives.AgreementExactly` | crates/apolysis-daemon/src/state.rs:43-373 | over every run of calls and restarts, with any failures and any reuse of ids: the daemon always comes up and replaying a session's log always yields a session exactly when the live one exists, is not closed and expires later, with the same intent and exactly the ids the live index maps to it, if and only if every registration that went through met a log whose unclosed ids were the ones waiting, and no close that went through took an id of another registered session |
| `DaemonLives.MismatchShows` | crates/apolysis-daemon/src/state.rs:640-693 | a registration that goes through otherwise makes log and live session differ at once |
| `DaemonLives.TakingShows` | crates/apolysis-daemon/src/state.rs:173-207 | a close that takes an id of another registered session leaves the id in that session's log, which then differs from the live session |
| `DaemonLives.RestartKeepsInv` | crates/apolysis-daemon/src/state.rs:43-122 | a restart from logs that agree always comes up and agrees with the logs from then on |
| `DaemonLives.RebuildAgreement` | crates/apolysis-daemon/src/state.rs:50-101 | after any run that meets the condition, restarts included, rebuilding in any directory order never fails and gives the live registry restricted to the sessions that are open and not expired |
| `DaemonLives.StaleIdsComeBack` | crates/apolysis-daemon/src/state.rs:640-693 | for any two registrations of a session and any id: when the first expires with the id, is left behind by a restart and is followed by the second, the log gives the session an id the live one does not own |
| `DaemonScope.TakenIdStaysInLog` | crates/apolysis-daemon/src/state.rs:173-207 | for any two sessions and any id there is a run of calls that all go through after which a session's log gives it an id the live one lost to a close of the other |
| `DaemonHome.AgreementAtHome` | crates/apolysis-daemon/src/state.rs:43-373 | in a run with no id offered under two sessions: the daemon always comes up and the logs always agree if and only if every registration that went through met a log whose unclosed ids were the ones waiting |
| `DaemonHome.RestartAgreement` | crates/apolysis-daemon/src/state.rs:640-693 | in such a run without restarts the condition always holds: every log agrees at every time |
| `DaemonScope.ScopeSagaExactly` | crates/apolysis-daemon/src/state.rs:124-373 | over every run of calls and restarts, with any scope and storage failures and any reuse of ids: kernel set and index agree after every step if and only if no call that went through took over a waiting id missing from the index |
| `DaemonScope.ScopeStep` | crates/apolysis-daemon/src/state.rs:124-373 | one call, any failures, any ids: the tables stay consistent, a failed call changes nothing, and agreement is kept if and only if the call failed or met that condition |
| `DaemonScope.StartUpAgrees` | crates/apolysis-daemon/src/state.rs:43-122 | a start-up from any logs begins with consistent tables and a kernel set that agrees |
| `DaemonScope.NothingTrackedWithoutScope` | crates/apolysis-daemon/src/state.rs:43-373 | over every run of a daemon without a scope controller the kernel set is never touched |
| `DaemonHome.ScopeSaga` | crates/apolysis-daemon/src/state.rs:124-373 | in every run of calls and restarts with no id offered under two sessions, whatever fails and whatever stale ids the logs hold, the condition holds: kernel set and index agree after every step, and as long as the daemon comes up they agree after any further call, even one that offers an id again, and a failed call leaves registry, kernel set and logs as they were |
| `DaemonHome.RebuildAtHome` | crates/apolysis-daemon/src/state.rs:50-101 | rebuilding from logs that hold ids only under the session they belong to, stale or not, in any order, gives consistent tables that do so too |
| `DaemonScope.ReuseLosesScope` | crates/apolysis-daemon/src/state.rs:173-207 | for any two sessions and any id there is a run in which every call goes through and the index holds an id the kernel does not track |
| `DaemonScope.CloseSucceedsExactly` | crates/apolysis-daemon/src/state.rs:173-207 | after any run that meets the scope condition, with a scope and nothing failing outside, a close succeeds if and only if the session exists and every id it lists is in the index |
| `DaemonScope.ReRegisteredCannotClose` | crates/apolysis-daemon/src/state.rs:173-207 | for any two registrations and any id there is a run after which a close of the session fails at the scope whatever the failures, and succeeds once the id is discovered again |
| `HashChain.BigEndianInjective` | crates/apolysis-store/src/hash_chain.rs:347-359 | fixed-width big-endian numbers are equal only for equal numbers |
| `HashChain.BigEndianBytes` | crates/apolysis-store/src/hash_chain.rs:347-358 | byte by byte, most significant first |
| `HashChain.FramedLayout` | crates/apolysis-store/src/hash_chain.rs:347-358 | the bytes that are hashed: four that spell the schema version and eight that spell the sequence, most significant first, then the previous hash, then the payload |
| `HashChain.HashText` | crates/apolysis-store/src/hash_chain.rs:347-369 | a record hash is two lower-case hexadecimal digits per byte of the digest, the high one first, and the chain starts from sixty-four zeros |
| `HashChain.HexInjective` | crates/apolysis-store/src/hash_chain.rs:361-369 | hex text is equal only for equal bytes |
| `HashChain.EncodeHex` | crates/apolysis-store/src/hash_chain.rs:361-369 | the loop produces two digits per byte, high nibble first |
| `HashChain.FramedInjective` | crates/apolysis-store/src/hash_chain.rs:347-359 | two hashed messages are equal only if schema version, sequence, previous hash and payload all are |
| `HashChain.NextInList` | crates/apolysis-store/src/hash_chain.rs:215-232 | walking the collected newline positions meets the lines that searching for the next newline meets |
| `HashChain.NewlinePositions` | crates/apolysis-store/src/hash_chain.rs:215-225 | collects every newline position, ascending |
| `HashChain.ScanLines` | crates/apolysis-store/src/hash_chain.rs:215-315 | the validation loop gives the reference scan: records, sequence, hash, valid length and first bad line |
| `HashChain.ValidateLineExactly` | crates/apolysis-store/src/hash_chain.rs:317-345 | what a line is rejected for: the first of no record, another sequence, another previous hash, a hash that is not that of its own contents |
| `HashChain.VerifyExisting` | crates/apolysis-store/src/hash_chain.rs:215-261 | read-only verification is the reference scan of the whole file |
| `HashChain.ValidateExisting` | crates/apolysis-store/src/hash_chain.rs:263-315 | the scan used by recovery rejects exactly when something follows the first bad line |
| `HashChainStores.HashChainStore.AppendJson` | crates/apolysis-store/src/hash_chain.rs:158-188 | appends one complete line that continues the chain, or refuses an unreadable payload and changes nothing |
| `HashChainStores.CreateOrRecover` | crates/apolysis-store/src/hash_chain.rs:106-156 | keeps the valid prefix, quarantines the rest and continues from the last kept record |
| `HashChainStores.AppendedExactly` | crates/apolysis-store/src/hash_chain.rs:158-188 | what was appended as number k carries the given version and payload, the number of its place counted from one, the hash of the record before it, and the hash of exactly these |
| `HashChainStores.ImageLines` | crates/apolysis-store/src/hash_chain.rs:158-188 | a file of records is the printed records, each with one line feed behind it and none inside |
| `HashChainStores.RecoverConserves` | crates/apolysis-store/src/hash_chain.rs:106-156 | the kept file and the quarantined bytes are the bytes found; what is quarantined is one line at most; the store goes on with the number behind the last record |
| `HashChainStores.RecoverRejects` | crates/apolysis-store/src/hash_chain.rs:263-315 | a rejection names the number the first bad line should have had and what is wrong with it |
| `HashChainStores.TornWriteRecovery` | crates/apolysis-store/src/hash_chain.rs:106-188 | for every file produced by appends and every length it is cut to, recovery succeeds, returns exactly the records whose newline survived, quarantines what follows, and further appends give a file that verifies and holds survivors and new records |
| `HashChainStores.CrashesAndAppends` | crates/apolysis-store/src/hash_chain.rs:106-188 | over any alternation of appends with cuts at any length followed by recovery: every recovery succeeds, and the file verifies and holds exactly the appended records whose line survived each cut |
| `HashChainCodec.LawfulCodecExists` | crates/apolysis-store/src/hash_chain.rs:317-345 | what is assumed of the record printer, parser and digest can be met |
| `HashChainStores.RecoverAgreesWithVerify` | crates/apolysis-store/src/hash_chain.rs:80-156 | on arbitrary bytes recovery rejects if and only if the first bad line is followed by a byte; otherwise it reports what verification reports, prefix plus quarantine are the original bytes, the prefix verifies, and recovering again changes nothing |
| `HashChainStores.ChainUniqueness` | crates/apolysis-store/src/hash_chain.rs:215-359 | two files that verify with the same last hash hold the same records, or exhibit two different messages with one digest or a message hashing to the starting value |
| `HashChainStores.SameHashSameRecords` | crates/apolysis-store/src/hash_chain.rs:317-359 | the same for two linked record lists |
| `HashChainStores.WholeExactly` | crates/apolysis-store/src/hash_chain.rs:106-156 | the number of surviving records counts exactly those whose line ends within the cut |
| `HashChainStores.CutImage` | crates/apolysis-store/src/hash_chain.rs:263-315 | a cut file is its whole lines and a rest without newline |
| `HashChainStores.ScanImage` | crates/apolysis-store/src/hash_chain.rs:263-345 | scanning linked records and a rest without newline finds exactly those records and stops at the rest |
| `HashChainStores.AppendAllHolds` | crates/apolysis-store/src/hash_chain.rs:158-188 | after any appends the file is the lines of linked records and the store continues from the last |
| `Rotation.JsonlStore.Append` | crates/apolysis-store/src/lib.rs:77-89 | rotates before the line exactly when the counted bytes and the line exceed the budget of a non-empty file, then appends line and newline |
| `Rotation.Create` | crates/apolysis-store/src/lib.rs:52-74 | a policy without bytes or without archives is refused, in this order, and otherwise the active file is created or truncated among the files there |
| `Rotation.JsonlStore.Rotate` | crates/apolysis-store/src/lib.rs:104-128 | for whatever archives exist, gaps included, every file moves up one, the one at the limit is dropped, higher ones stay |
| `Rotation.JsonlStore.Rename` | crates/apolysis-store/src/lib.rs:104-128 | moves one file to a name that must be free: each call proves that no rename overwrites a live archive |
| `Rotation.MoveOne` | crates/apolysis-store/src/lib.rs:104-128 | halfway through the loop the next target name is free and the remaining files are untouched |
| `Rotation.RotationHistory` | crates/apolysis-store/src/lib.rs:77-128 | starting without archives, after any appends the files read oldest to newest are a whole-record suffix of everything appended, only a full set of archives ever loses records, each file is within the budget or holds one record, and no file was closed early: the next file's first record did not fit behind it |
| `Rotation.AppendHistory` | crates/apolysis-store/src/lib.rs:77-128 | one append keeps all of that, the saturating byte counter included |
| `Restore.Host.CaptureBackupManifest` | crates/apolysis-validation/src/lib.rs:3122-3135 | one entry per source in order, as the specification captures them |
| `Restore.Host.PlanRestoreActions` | crates/apolysis-validation/src/lib.rs:3202-3290 | one restoring action per entry in order, then the validation-owned paths sorted and each once, then the captured state of each managed service in the order of names, or the first error |
| `Restore.Host.VerifyRestoreInputs` | crates/apolysis-validation/src/lib.rs:3599-3713 | every file action is checked against the manifest and its backup copy, and every service action against the captured state, before anything changes |
| `Restore.Host.ExecuteRestorePlan` | crates/apolysis-validation/src/lib.rs:3292-3333 | checks, then actions in order until one fails, each with the specified effect on the files or the service commands issued |
| `RestoreAnswers.CaptureSourceExactly` | crates/apolysis-validation/src/lib.rs:3418-3495 | what the capture of one source answers and writes, for each of the five things that can be found |
| `RestoreAnswers.CaptureStops` | crates/apolysis-validation/src/lib.rs:3122-3135 | a capture that fails has captured the sources before the failing one and stopped there |
| `RestoreAnswers.PlanEntryExactly` | crates/apolysis-validation/src/lib.rs:3206-3247 | what any entry is planned to, or why not |
| `RestoreAnswers.PlanServiceExactly` | crates/apolysis-validation/src/lib.rs:3260-3283 | what any managed service is planned to, or why not; of several states captured for it the last counts |
| `RestoreAnswers.CheckActionExactly` | crates/apolysis-validation/src/lib.rs:3599-3690 | which actions of any plan pass: none on the root, every removal of a validation-owned path, and otherwise those the last manifest entry of their id stands for in kind, path, target or backup path, with an intact copy for a file |
| `RestoreAnswers.CheckFailures` | crates/apolysis-validation/src/lib.rs:3599-3690 | what a failed check says, in the order of the checks |
| `RestoreAnswers.CheckServiceExactly` | crates/apolysis-validation/src/lib.rs:3691-3713 | a service step passes exactly when both its states are those of the last state captured for the service |
| `RestoreAnswers.VerifyInputsExactly` | crates/apolysis-validation/src/lib.rs:3599-3713 | any plan passes exactly when both versions are one and every file and service step passes on its own |
| `RestoreAnswers.ExecuteStops` | crates/apolysis-validation/src/lib.rs:3292-3333 | an execution answers Ok exactly with the number of steps, all done in order; otherwise nothing was changed, when the checks fail, or every step before the failing one was done and none behind it |
| `RestoreAnswers.RestoreFileFailures` | crates/apolysis-validation/src/lib.rs:3715-3765 | when and why restoring a file fails, in the order of its checks, and that nothing but directories is added then |
| `RestoreAnswers.RestoreLinkFailures` | crates/apolysis-validation/src/lib.rs:3800-3820 | when and why restoring a link fails |
| `RestoreAnswers.RemoveFailures` | crates/apolysis-validation/src/lib.rs:3822-3836 | a removal fails exactly on the root and below a file, and then changes nothing |
| `RestoreAnswers.ServiceFailures` | crates/apolysis-validation/src/lib.rs:3317-3328 | a service takes two commands; when the first is refused the second is not issued |
| `RestoreAnswers.CaptureStarts` | crates/apolysis-validation/src/lib.rs:3122-3125 | a capture does not start exactly when something stands in the way of its directory |
| `RestoreAnswers.PathBeforeExactly` | crates/apolysis-validation/src/lib.rs:3250-3258 | the order of paths is the lexicographic one, component by component and character by character |
| `RestoreAnswers.SortManagedStable` | crates/apolysis-validation/src/lib.rs:3259-3260 | managed inputs of one service keep their order |
| `RestoreAnswers.SafeBackupNameExactly` | crates/apolysis-validation/src/lib.rs:3497-3507 | a backup name is the id with everything but ASCII letters, digits, hyphens and underscores made an underscore |
| `RestoreProof.RestoreIdentity` | crates/apolysis-validation/src/lib.rs:3202-3836 | capture on one file system, plan on any other, execute on any third: if all answer Ok every captured path has its captured kind, bytes or link target, and mode, even when ids collide in the backup names or the backups were altered |
| `RestoreProof.RestoreRemovesOwned` | crates/apolysis-validation/src/lib.rs:3202-3333 | for any manifest, after all actions of a plan succeeded no validation-owned path is left |
| `RestoreTree.NothingLeftBelow` | crates/apolysis-validation/src/lib.rs:3202-3836 | on a file system that is a tree, nothing is left below a validation-owned path either, nor below a file or link that was put back, and everything that is there has its directories |
| `RestoreTree.CaptureKeepsTree` | crates/apolysis-validation/src/lib.rs:3122-3135 | a capture, complete or not, keeps the tree |
| `RestoreTree.RemoveExactly` | crates/apolysis-validation/src/lib.rs:3822-3836 | a removal takes away the path with all that is below it and nothing else |
| `RestoreProof.RestoreServicesInOrder` | crates/apolysis-validation/src/lib.rs:3202-3333 | and the commands issued restore, service by service in the order of names and after the last file action, the captured unit file state and then the captured active state |
| `RestoreProof.SortPathsAscending` | crates/apolysis-validation/src/lib.rs:3250-3258 | the validation-owned paths of a plan come in strictly ascending order |
| `RestorePlan.PlanAfterCaptureExactly` | crates/apolysis-validation/src/lib.rs:3202-3290 | straight after a capture that answered Ok, planning succeeds if and only if no two captured files share a backup name and differ, and the managed services are supported |
| `RestorePlan.ClashIsNeverPlanned` | crates/apolysis-validation/src/lib.rs:3497-3597 | a capture whose backup names clash is refused by every later planning, whatever happened to the files |
| `RestorePlan.ClashIsMet` | crates/apolysis-validation/src/lib.rs:3418-3507 | there are two files and two ids for which the capture answers Ok and the names clash |
| `RestoreSuccess.RestoreSucceedsExactly` | crates/apolysis-validation/src/lib.rs:3202-3836 | with paths that are not in each other's way and different ids: executing a plan for a captured manifest answers Ok if and only if, as seen before it starts, every backup copy holds the captured bytes, every directory on the way to a file or link is there or can be created, no directory stands where a file belongs or where it is first copied to, no file stands above a path to be absent, no step is interrupted and the service controller accepts the commands in order |
| `RestoreSuccess.ApplyExactly` | crates/apolysis-validation/src/lib.rs:3715-3836 | one action succeeds if and only if nothing is in its way and the copy it reads is there |
| `RestoreSuccess.ClearUndisturbed` | crates/apolysis-validation/src/lib.rs:3292-3333 | whether a later action will find its way clear does not change by an earlier one that does not aim at, above or below what the later one looks at |
| `RestoreSuccess.VerifiedExactly` | crates/apolysis-validation/src/lib.rs:3599-3713 | the checks before an execution pass if and only if no path is the file system root and every backup copy holds the captured bytes |
| `RestoreProof.CaptureDescribes` | crates/apolysis-validation/src/lib.rs:3418-3495 | every manifest entry describes what was at its path before the capture began, although capturing creates directories and backup files |
| `RestoreProof.CheckedBackupGood` | crates/apolysis-validation/src/lib.rs:3584-3713 | an action that passes the checks reads a copy with the captured bytes of its own path |
| `RestoreProof.ApplyRestores` | crates/apolysis-validation/src/lib.rs:3715-3836 | one successful action puts back what its entry describes |
| `RestoreProof.StepProgress` | crates/apolysis-validation/src/lib.rs:3292-3333 | an action keeps the paths restored so far and the copies still to be read |
| `RestoreProof.ApplyLeavesAlone` | crates/apolysis-validation/src/lib.rs:3715-3846 | an action changes nothing but its path, what is below it, its temporary name and missing directories above |
| `ProcessTree.DiscoverScopePids` | crates/apolysis-observer/src/live.rs:54-86 | terminates on every table and returns the least set with the root that is closed under threads, children and parent links; an error exactly for pid 0 or when the top directory cannot be listed |
| `ProcessKill.IsDescendantOf` | crates/apolysis-runtime/src/lib.rs:755-770 | terminates on every table, cyclic ones included; true exactly for processes whose walk up meets the root before it comes to pid 0 |
| `ProcessKill.ReachesIsDescends` | crates/apolysis-runtime/src/lib.rs:755-770 | when pid 0 is no process of the table that is to reach the root by parent links at all |
| `ProcessKill.DepthFromRoot` | crates/apolysis-runtime/src/lib.rs:730-747 | the number of parent links to the first meeting with the root, none exactly when there is none before pid 0 |
| `ProcessKill.RoundForEver` | crates/apolysis-runtime/src/lib.rs:730-770 | a walk that came back to an earlier process without meeting the root never meets it |
| `ProcessKill.ClosureIsFamily` | crates/apolysis-observer/src/live.rs:54-86 | with parent links only, the least closed set is the root and exactly the processes the parent walk accepts |
| `ProcessKill.KillOrder` | crates/apolysis-runtime/src/lib.rs:708-728 | one target per process of the family with its depth, strictly descending |
| `ProcessKill.DescendantsDieFirst` | crates/apolysis-runtime/src/lib.rs:708-728 | on an acyclic table every process is killed before each of its ancestors |
| `ProcessKill.DeeperThanAncestor` | crates/apolysis-runtime/src/lib.rs:730-747 | on an acyclic table a descendant's depth is strictly greater |
| `ExecArgv.PendingExec.AppendExecArgvArg` | ebpf/observer/apolysis_observer.bpf.c:212-256 | every write stays in the buffer, the text stays NUL-terminated at the offset, and text and flags grow as specified |
| `ExecArgv.PendingExec.ReadExecArgv` | ebpf/observer/apolysis_observer.bpf.c:258-280 | the same for the whole loop over an arbitrary argv |
| `ExecArgv.UntruncatedText` | ebpf/observer/apolysis_observer.bpf.c:212-280 | without the argv flag every argument up to the terminating slot was readable, short and captured whole |
| `ExecArgv.WrittenExactly` | ebpf/observer/apolysis_observer.bpf.c:212-280 | what any argv is written to: of the leading pointers, at most eight, as many are taken as find room, each cut to thirty-one characters; and both truncation flags, if and only if |
| `ExecArgv.FlagsStay` | ebpf/observer/apolysis_observer.bpf.c:212-280 | a truncation flag once set is never lost |
| `ExecArgv.PackedIsJoinedExactly` | ebpf/observer/apolysis_observer.bpf.c:212-256 | the captured text is the arguments joined by spaces if and only if the first is not empty or there is at most one |
| `ExecArgv.EmptyFirstArgument` | ebpf/observer/apolysis_observer.bpf.c:212-256 | the other side is met: for every second argument the text behind an empty first one lacks the separator |
| `ExecArgv.FixedString` | crates/apolysis-observer/src/abi.rs:143-149 | the longest prefix without NUL |
| `ExecArgv.ReadBack` | crates/apolysis-observer/src/abi.rs:143-149 | reading the buffer back gives the text before the offset |
| `ExecArgv.DecorateShape` | crates/apolysis-observer/src/live.rs:1893-1916 | a non-empty payload is followed by one comma and marker per flag, in order |
| `ExecArgv.DecorateEmpty` | crates/apolysis-observer/src/live.rs:1893-1916 | without a payload the markers stand alone, with no comma in front |
| `ExecArgv.StripDecoratedExactly` | crates/apolysis-observer/src/process_context.rs:71-92 | for every subset of flags, stripping gives the text back if and only if it does not itself end in a marker that is looked for before one that was added |
| `ExecArgv.CommandRecovered` | crates/apolysis-observer/src/process_context.rs:71-92 | then the command comes back, trimmed, and nothing exactly when it is blank |
| `ExecArgv.PrefixExactly` | crates/apolysis-observer/src/process_context.rs:71-82 | both spellings of the prefix are read alike, and nothing else is an exec command |
| `ExecArgv.ReadHoldsNoNul` | ebpf/observer/apolysis_observer.bpf.c:212-280 | as user strings end at their NUL, the captured text holds none |
| `ExecArgv.ExecRoundTrip` | ebpf/observer/apolysis_observer.bpf.c:212-280 | write, read back, decorate and strip an untruncated argv with a non-empty first argument: the arguments joined by spaces, trimmed |
| `JsonStrings.JsonString` | crates/apolysis-core/src/lib.rs:782-798 | the printing loop quotes the text and escapes every character on its own |
| `JsonStrings.MatchingDelimiter` | crates/apolysis-policy/src/lib.rs:984-1015 | returns the first place at which the nesting outside strings is back to zero, none exactly when there is none; the depth never goes below zero |
| `JsonStrings.ParseJsonStringAt` | crates/apolysis-policy/src/lib.rs:1040-1070 | the loop answers the string's value or its first error |
| `JsonStrings.ConsumedJsonStringLen` | crates/apolysis-policy/src/lib.rs:1072-1089 | the loop answers the extent up to the closing quote |
| `JsonStrings.ParseJsonStringArrayItems` | crates/apolysis-policy/src/lib.rs:1017-1038 | the loop collects the items in order, skipping stray commas, or stops at the first error |
| `JsonStrings.JsonValueStart` | crates/apolysis-policy/src/lib.rs:965-971 | the value is the text behind the first colon behind the first quoted key |
| `JsonStrings.JsonStringArray` | crates/apolysis-policy/src/lib.rs:926-938 | the whole scanner, on every text |
| `JsonStrings.StringValueExactly` | crates/apolysis-policy/src/lib.rs:1040-1070 | on every text: it reads as a given string if and only if it starts with a quote, a spelling of that string and a quote |
| `JsonStrings.PrintedStringReads` | crates/apolysis-policy/src/lib.rs:1040-1089 | a printed string, whatever follows, is read back or refused with the `\u` escape, and its extent is always found |
| `JsonStandard.StandardReadsPrinted` | crates/apolysis-core/src/lib.rs:782-798 | for every string: a decoder of the standard (section 7 of RFC 8259) gets exactly it from the printed text, the digits of a control character included |
| `JsonStandard.EscapedExactly` | crates/apolysis-core/src/lib.rs:782-798 | exactly the quote, the backslash and the control characters of both blocks are escaped |
| `JsonStandard.ScannerIsStandard` | crates/apolysis-policy/src/lib.rs:1040-1070 | what the scanner reads without raw control characters is what a decoder of the standard reads |
| `JsonStandard.StringErrors` | crates/apolysis-policy/src/lib.rs:1040-1070 | why a text is no string: no quote at its start, no closing quote, or the first escape that is not one of the six, which is named |
| `JsonStandard.StringLengthExactly` | crates/apolysis-policy/src/lib.rs:1072-1089 | the extent of a string is up to its own closing quote |
| `JsonStandard.StrayCommasSkipped` | crates/apolysis-policy/src/lib.rs:1017-1038 | leading, trailing and doubled commas and white space do not matter as long as a comma stands between any two strings |
| `JsonStandard.MissingComma` | crates/apolysis-policy/src/lib.rs:1017-1038 | between two strings without a comma the scanner stops |
| `JsonStandard.MissingFieldIsEmpty` | crates/apolysis-policy/src/lib.rs:926-971 | a field that is not there, or has no colon, is an empty list |
| `JsonStandard.FieldRefused` | crates/apolysis-policy/src/lib.rs:926-938 | a value that is no list is refused, and so is a list that is not closed |
| `JsonStrings.PrintedStringIsFlat` | crates/apolysis-policy/src/lib.rs:984-1015 | brackets, quotes and backslashes inside a printed string never move the nesting depth |
| `JsonStrings.PrintedArrayCloses` | crates/apolysis-visibility/src/lib.rs:322-329 | a printed array's first bracket is matched by its own last one, whatever its strings contain and whatever follows |
| `JsonStrings.ListRoundTrip` | crates/apolysis-policy/src/lib.rs:926-1089 | for every list, key and surrounding text that meets that condition: the same list comes back if all control characters have short escapes, and otherwise the scanner refuses the printer's escape |
| `JsonStrings.FirstFieldRoundTrip` | crates/apolysis-policy/src/lib.rs:926-1089 | a document that starts with the field needs no hypothesis on what follows: the list comes back if and only if its control characters have short escapes |
| `JsonStrings.ControlCharacterRefused` | crates/apolysis-policy/src/lib.rs:1040-1070 | for every control character without a short escape, a printed list that holds it does not come back |
| `JsonStrings.ValueTextExactly` | crates/apolysis-policy/src/lib.rs:965-971 | whatever stands around a field, also its quoted key elsewhere: the text read as its value is its own if and only if no colon stands between the first quoted key of the document and the field's colon |
| `JsonStrings.EarlierValueMisread` | crates/apolysis-policy/src/lib.rs:965-971 | the other side is met: when an earlier list holds the key's name and another field lies between, that field's list is returned instead |
| `Chunked.DecodeChunkedBody` | crates/apolysis-daemon/src/adapter.rs:1470-1498 | the loop ends on every input with every slice in bounds and gives the reference outcome |
| `Chunked.FindCrlf` | crates/apolysis-daemon/src/adapter.rs:1500-1506 | the first line end at or behind a place, none exactly when there is none |
| `Chunked.DecodedExactly` | crates/apolysis-daemon/src/adapter.rs:1470-1498 | decoding succeeds with some data if and only if the body starts with chunks carrying that data, each announced by its size line, and a line of size zero |
| `ChunkedFailures.FailedExactly` | crates/apolysis-daemon/src/adapter.rs:1470-1498 | a body is refused with an error if and only if behind good chunks it goes on with that fault: no line end any more, a size line that is no text or no size, a chunk that would end beyond the machine word, one that is not all there, or one without a line end behind it |
| `Chunked.ChunkedRoundTrip` | crates/apolysis-daemon/src/adapter.rs:1470-1498 | any chunks, line ends in the data and extensions included, with any bytes behind the last line, decode to the concatenated data |
| `Chunked.PanicsExactly` | crates/apolysis-daemon/src/adapter.rs:1470-1498 | the unchecked addition overflows if and only if, behind good chunks, a line announces a chunk ending within two bytes of the largest machine word |
| `Chunked.OverflowMet` | crates/apolysis-daemon/src/adapter.rs:1470-1498 | such a body exists for every decoder: eighteen bytes that announce a chunk ending at the largest machine word |
| `Chunked.SizeLineRead` | crates/apolysis-daemon/src/adapter.rs:1470-1498 | a hexadecimal size with an extension or none is read as that size |
| `ChunkedFailures.ParseSizeExactly` | crates/apolysis-daemon/src/adapter.rs:1470-1498 | a token is a size exactly when it spells it in hexadecimal digits of either case, leading zeros and a plus sign allowed, and the size fits the machine word |
| `ChunkedFailures.HexValueExactly` | crates/apolysis-daemon/src/adapter.rs:1470-1498 | which characters are digits, and of which value |
| `ChunkedFailures.LineSizeExactly` | crates/apolysis-daemon/src/adapter.rs:1470-1498 | the size of a line is what stands before the first semicolon, trimmed |
| `Chunked.AsciiIsLawful` | crates/apolysis-daemon/src/adapter.rs:1470-1498 | what is asked of UTF-8 decoding of a size line can be met: plain ASCII decoding does |
| `Chunked.SentChunkIsGood` | crates/apolysis-daemon/src/adapter.rs:1470-1498 | so every chunk of a conforming sender is one the round trip covers |

## Left out
- Atomics are sequentially consistent, the mutex is never poisoned, and the counters of queue and pipeline are unbounded; `stats` is only the queue's counters.
- Registry.Insert: the source pushes and sorts; on a list that is sorted already this is insertion.
- Declarations inside a session intent are stored and compared but have no structure; only the fields that are validated or used by the registry do.
- The order of lists handed out (`list_for_tenant`, retention reports, `expire`) is not modelled; they are sets.
- Log directories are named by session id, and log records other than the four that replay looks at are one kind.
- `apply_retention` of the daemon and `mark_session_degraded` are not among its calls; they change the index outside the two-phase form. Their registry effects are operations of the registry theorems.
- Daemon.Note: a record appended through `persist`, whose failed write makes the storage unavailable. The pipeline's writer uses `persist_record`, which on a failed write degrades the session instead; of that path only the records that are written are calls here.
- DaemonScope.ScopeSagaExactly: rollback commands succeed and untracking succeeds only for a present id, as the kernel map answers.
- DaemonLives.AgreementExactly: the configuration stays the same, every restart lists each log once, and the clock does not run backwards from one restart to the next; of a session a restart did not bring back, its log is asked about times from that restart on.
- SHA-256, serde and UTF-8 are parameters. The hash-chain theorems need: a record printer that parses back and prints no newline, and a digest of 32 bytes; collision freedom is not assumed, the theorem exhibits the collision.
- HashChain.ScanLines: the loops of `verify_existing` and `validate_existing` are one method, as they differ only in what happens at the first bad line.
- Quarantine file naming, fsync, flushing and partial buffered writes; a crash is a truncation.
- Rotation.RotationHistory: starts without archives; `Rotate` alone is proved for any archives.
- Restore: file owners, what the service controller does with a command, the Kubernetes context, relative paths, and links in the middle of a path or in place of a backup copy or temporary file (writing through them counts as a failure). A path is absolute and is the list of its components.
- RestoreProof.RestoreIdentity: no source lies below another, below a validation-owned path, below the backup root, or has the temporary name another restore uses; the checksum is assumed free of collisions.
- RestoreSuccess.RestoreSucceedsExactly: beyond that, ids and paths of sources differ, no source is above the backup root or a validation-owned path, nothing lies below a temporary name, and validation-owned paths are not nested.
- ProcessKill.KillOrder: sending the signals is not modelled.
- The sorted vector `discover_process_tree_scope_pids` returns is the set of its elements.
- ExecArgv: one byte is one character, so lossy UTF-8 conversion is not modelled; memory read past a user string's NUL counts as zero.
- `ProcessContextTable::observe` would only add map insertions and removals.
- JsonStrings: positions count characters, not UTF-8 bytes; every delimiter is ASCII, so the scans stop at the same places.
- `AsyncJsonlStore`, sockets, HTTP framing around the chunked body, metrics, configuration, BPF loading, the policy matrices, redaction and the validation gates.
