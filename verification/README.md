# m-ui: a Dafny model of the parts that must agree

m-ui keeps an SQLite desired state, a revision history, a Mihomo configuration file, a running process and an installed
core in agreement, by protocols made of compensation, compare-and-swap and fail-closed steps. This project models those
protocols and the data transformations they rest on, and proves what they keep. `dafny verify dfyconfig.toml` checks all
of it.

## How the model is built

- **Code that changes things step by step is imperative Dafny.** The publisher, the startup reconciler, the core file
  store, the core manager, the endpoint store, the runtime boundary, the supervisor, the coordinator and the login limiter
  are classes whose methods follow the branches of the Go code. Loops of the source (validation, the expiry batch,
  compilation, the node codec, the back-off) are methods with invariants, proved against specification functions.
- **Every sub-step may fail.** `Fault()` decides it and counts in a ghost field `faults`. A theorem whose hypothesis is
  "`faults` did not change" speaks of runs in which every sub-step worked, one that bounds its growth of runs in which at
  most so many failed. A failed COMMIT, row update, rename-then-sync or
  marker write may or may not have taken effect.
- **A crash may come between any two durable effects.** `Host` and `FileStore` record every durable state in `trace`;
  `Crash` puts the machine back into any one of them. What holds of every entry of `trace` survives a crash anywhere.
- **Concurrent processes are interleaved one atomic step at a time** (`Readiness`, `Supervisor`), in any order.
- **Uninterpreted**: the compiler as the publisher sees it, SHA-256, the snapshot codec, encryption (opening is the inverse
  of sealing), the protocol modules and the YAML encoder, and the syntactic checks of validation. They are function-valued
  fields of `Env`, `Rules` and `Backend`; nothing assumes a digest to be injective.

| file | contents |
|---|---|
| Sequences, Text | options, filtering, sorting; white space |
| RevisionLedger, RevisionHistory | the revision table and all runs over it |
| PublicationModel, Host | durable state, what it means for it to agree, and a machine that fails |
| Publisher | publishing, compensation, the uncertain commit |
| Startup | startup reconciliation |
| Lifecycle | rollback, crash safety, whole runs |
| CoreFiles, CoreManager | the core's directory tree; update, rollback, bootstrap, fail-closed |
| FailClosed | core manager, publisher, expiry and startup reconciliation joined behind the safety gate |
| Endpoints | endpoint settings and the runtime boundary |
| Readiness | startup lease, ready lock, lifecycle marker, finalizer preflight |
| Supervisor, Coordinator | the managed process; the operation semaphore |
| PortRanges, PortText, DesiredState, Expiry, Compiler | port fields, validation, the expiry batch, canonical compilation |
| NodeSecrets, NodeCodec | node secrets at rest, in responses and in updates |
| LoginLimiter | login back-off |

## Main results

1. **Publication** (`Publication.Publisher.Publish`). For every choice of failing sub-step: success means that desired
   state, active revision, archives and file are all the new ones; an ordinary error means all are the old ones; every other
   ending has the degraded bit set, or says that the mark itself could not be written. Without faults the request and the
   present state alone decide how it ends. One failed sub-step is always compensated: what can be published ends in a failed
   compensation only after two, and in a lost mark only after three.
2. **Uncertain commit** (`Publication.Publisher.ReconcileCommit`). Success only when database and file are both new, plain
   failure only when both are old; which mixtures it repairs is stated exactly.
3. **Crash safety** (`PublicationLifecycle.PublishThenCrashThenRestart`, `PublicationLifecycle.RunWithCrashes`). After a
   crash at any durable effect, if a revision is active the pre-runtime reconciliation either restores agreement or leaves
   the degraded bit set, and without faults of its own it stops only to report an owed restart behind a degraded bit that was
   set before. Over any run of publications, rollbacks, startups, outside edits and crashes, what startup needs is never lost
   and no revision number is reused. A crash before anything was ever published is the exception, and it is a real one
   (`PublicationLifecycle.FirstPublicationCutShort`). When startup goes on, before and after Mihomo runs and during the
   cutover, and which mark it leaves otherwise, is exact (`StartupReconciliation.Reconciler.ReconcileStartup`).
4. **Revision history** (`RevisionHistory.HistoryIsSound`, `RevisionHistory.FullPruneExact`).
5. **Core update and rollback** (`CoreManager.Manager.Update`, `CoreManager.Manager.Rollback`). After the swap an error means
   that the previous tree is current, verified running and on record, or that the latch is set; without a previous core it is
   always the latch. One failed sub-step is always undone where retention spares the previous core, and a latch without
   marker or degraded bit takes three. The tree that was current is never lost (`CoreFiles.ActivateThenCrashThenRecover`);
   that retention spares the backup a revert needs depends on the clock, exactly as `CoreFiles.SparedExactly` says.
6. **Fail-closed is absorbing** (`FailClosed.RunClosed`). Once the marker is set, or the latch while its process lives, in
   every run of core operations, publications, expiry batches, startup reconciliations and commands nothing is accepted, and
   desired state, revision history, settings and core stay as they are, until `Bootstrap` or `AdoptExternal` has installed a
   core; configuration and processes change only by a reconciliation or a restart in the run itself. The gate of the publisher and of the expiry scheduler is the core manager's own
   answer; an answer that cannot be had counts as closed. Without faults the way out opens exactly for a process that has
   latched (`CoreManager.RecoverThenBootstrap`), and an open gate stops nothing else (`FailClosed.PublishGated`).
7. **Endpoints** (`Endpoints.ApplyKeeps`, `Endpoints.NoABA`, `Endpoints.EndpointStore.Clear`,
   `Endpoints.RuntimeBoundary.Act`). A requirement is cleared only for the settings it was read with, and always then.
8. **Readiness**. Safety: `Readiness.RunKeeps` and the lemmas after it. What can be had, however everybody else runs:
   `Readiness.GuardIsGranted`, `Readiness.FinalizerIsCommissioned`, `Readiness.StartupPublishes`.
9. **Supervisor** (`Supervisor.ManagedProcess.Interleave`, `Supervisor.ManagedProcess.ReturnFromCallback`).
10. **Data**: `Compiler.Compile`, `Compiler.CompilationIsCanonical`, `Expiry.BatchIsValid`, `DesiredState.ValidInPlainTerms`,
    `PortText.ListIsWritten`, `NodeSecrets.ValidRoundTrips`, `NodeSecrets.NewSecretsWin`, `LoginLimiter.Delay`.

## Where the code does less than one might expect

- Every first publication that succeeds passes a moment at which a crash leaves the new configuration in place with no
  revision in the database, and the next start takes that for a sound state
  (`PublicationLifecycle.FirstPublicationCutShort`).
- A clock set back makes retention remove the backup just made (`CoreFiles.ClockSetBackLosesTheBackup`).
- `Bootstrap` and `AdoptExternal` release exactly what their own process has latched. Every process recovers first, and so
  latches on the marker it finds; a marker that another process writes between that recovery and the installation stays, and
  the system with it closed although a core has been installed (`CoreManager.RecoverThenBootstrap`, exactly then).
- A command's publisher has no safety gate. The marker stops it, through the degraded bit; the latch of a service whose
  marker and degraded bit could not be written does not (`FailClosed.PublishByCommand`, exactly).
- A valid Trojan node whose Shadowsocks wrapper is disabled keeps the wrapper's password in the clear part of its row, and a
  client that sends the response back loses it (`NodeSecrets.DisabledWrapperKeepsItsPassword`).
- The back-off loop overshoots by one unit for an odd ceiling in one case, stated exactly (`LoginLimiter.Delay`); the
  shipped ceiling is even.
- A no-op core update ignores whether the saved state could be read back before it saves: if not, only the current core is
  left on record, and exactly then (`CoreManager.Manager.Update`; `CoreManager.NoOpLosesTheRecord` is an instance). The
  scheduler, which has lost its schedule with it, asks again at once (`CoreManager.UpdateThenDue`).

## Model

| member | source | states |
|---|---|---|
| RevisionLedger.NextNumber | internal/store/managed.go:1425-1434 | the next number is larger than every number in the table |
| RevisionLedger.ActiveRevision | internal/store/managed.go:1436-1473 | the lookup finds the active row, reports none only if there is none, and several otherwise |
| RevisionLedger.LookupIsTotal | internal/store/managed.go:1436-1473 | with at most one active row it never reports several and finds the one there is |
| RevisionLedger.InsertRow | internal/store/managed.go:1475-1501 | insertion fails exactly on a used identity or number and otherwise adds that row alone |
| RevisionLedger.InsertWellFormed | internal/store/managed.go:1475-1501 | insertion keeps both uniqueness constraints |
| RevisionLedger.ActivationIsExclusive | internal/store/managed.go:1503-1539 | afterwards the named row, and no other, is active |
| RevisionLedger.ExpiredByRank | internal/store/managed.go:1697-1732 | a row is given up exactly when it is inactive and at least `keep` newer inactive rows exist |
| RevisionLedger.NewestIsKept | internal/store/managed.go:1697-1732 | positive retention never gives up the row with the highest number |
| RevisionLedger.DeleteRow | internal/store/managed.go:1734-1752 | deletion removes the rows of that identity, sparing an active one |
| RevisionHistory.PublishedRow | internal/store/managed.go:1475-1539 | publishing makes the new row the only active one under the next number and retires its predecessor |
| RevisionHistory.HistoryIsSound | internal/store/managed.go:1425-1752 | in every run of publications, failures and partial retention passes: at most one active row, exactly one once anything was published, no durable pending row, and strictly increasing numbers |
| RevisionHistory.RunsFromEmpty | internal/store/managed.go:1425-1752 | the same for every run from the empty table |
| RevisionHistory.NumbersAreConsecutive | internal/store/managed.go:1425-1434 | no run skips a revision number, whatever is published, fails or is forgotten |
| RevisionHistory.FullPruneExact | internal/publisher/publisher.go:1856-1884 | a full retention pass keeps exactly the active rows and the `keep` newest inactive ones |
| RevisionHistory.FullPruneBound | internal/publisher/publisher.go:1856-1884 | at most `keep` inactive rows remain |
| RevisionHistory.DeleteIsOneStep | internal/publisher/publisher.go:1856-1884 | deleting the next expired row takes the pass exactly one step further |
| RevisionHistory.ExpiredIsNotActive | internal/publisher/publisher.go:1856-1884 | no expired row shares the identity, and so the files, of the active one |
| RevisionHistory.PruneSameActive | internal/publisher/publisher.go:1856-1884 | an interrupted retention pass never changes which revision is active |
| RevisionHistory.FailSameActive | internal/store/managed.go:1669-1695 | nor does recording a failed revision |
| PublicationHost.Host.WriteSynced | internal/publisher/files.go:56-85 | creating a file: success means that it did not exist and has the content; a crash may leave it partly written; recoverability is kept unless it is an archive of the active revision |
| PublicationHost.Host.ReplaceConfig | internal/publisher/files.go:111-119 | the rename moves the candidate over the configuration or does nothing, and may stand although an error is returned |
| PublicationHost.Host.RemoveSynced | internal/publisher/files.go:121-129 | removal takes away that file and no other, and may stand although an error is returned |
| PublicationHost.Host.Commit | internal/store/managed.go:1563-1574 | after an error the database is the old or the new one; success means the new one |
| PublicationHost.Host.MarkDegraded | internal/store/managed.go:1615-1637 | the mark changes the degraded bit alone; success means that it is set |
| PublicationHost.Host.CompleteCutover | internal/store/managed.go:1070-1125 | the pending marker is cleared only together with the degraded bit, and never past an unrelated degraded reason |
| PublicationHost.Host.EnsureFile | internal/publisher/publisher.go:1616-1629 | an archive file that exists is kept as it is |
| PublicationHost.Host.ArchiveRevision | internal/publisher/publisher.go:1603-1634 | success leaves both archives with the revision's content; nothing but these two files changes |
| PublicationHost.Host.Reload | internal/publisher/publisher.go:1753-1761 | success, by reload or by restart, leaves the process with the current file |
| PublicationHost.Host.WaitHealthy | internal/publisher/publisher.go:1763-1780 | success means a process and Controller seen alive |
| PublicationHost.Host.Crash | internal/publisher/publisher.go:767-1085 | a crash leaves any one of the durable states since the checkpoint and no process |
| PublicationModel.Renamed | internal/publisher/files.go:111-119 | a rename puts the candidate's content in place, removes the candidate and leaves the rest |
| Publication.Publisher.Publish | internal/publisher/publisher.go:767-1085 | the outcome trichotomy for every failing sub-step, each refusal for its own reason and with nothing touched, and without faults exactly which request ends how; one failed sub-step alone is always compensated, and degraded mode takes two, a lost mark three |
| Publication.Publisher.PublishAdmitted | internal/publisher/publisher.go:813-873 | from the transaction on: the same without the gates |
| Publication.Publisher.Remember | internal/publisher/publisher.go:813-895 | the active publication is verified and remembered; its disagreement with itself, and nothing else, degrades without a fault |
| Publication.Publisher.CheckCandidate | internal/publisher/publisher.go:916-1010 | everything that can still end the publication before the file is replaced, and what each such end leaves |
| Publication.Publisher.PublishMutation | internal/publisher/publisher.go:851-895 | a mutation or compilation that fails leaves everything as it was |
| Publication.Publisher.PublishCandidate | internal/publisher/publisher.go:896-933 | the candidate file and the backup copy are no part of any outcome, and are gone afterwards |
| Publication.Publisher.InstallCandidate | internal/publisher/publisher.go:919-1010 | up to the replacement every failure leaves the old state; a file changed by somebody else degrades |
| Publication.Publisher.InstallPrepared | internal/publisher/publisher.go:979-1085 | the prepared candidate becomes a new agreement or is compensated |
| Publication.Publisher.Prepare | internal/publisher/publisher.go:919-978 | validation, archiving and insertion can fail without touching desired state, active revision or file; a rejected candidate is kept with its row and archives, and archives stay only with a row |
| Publication.Publisher.KeepAndArchive | internal/publisher/publisher.go:944-966 | the backup copy and both archives are in place before anything is replaced |
| Publication.Publisher.Install | internal/publisher/publisher.go:1011-1085 | success: the committed database, the new file, and a process that has loaded it and passed a health wait unless a restart is owed; after a single failed sub-step the old state is back and the failed revision on record |
| Publication.Publisher.ReplaceAndLoad | internal/publisher/publisher.go:1011-1046 | the replacement and its health wait, with no runtime change when a restart is owed |
| Publication.Publisher.CommitInstalled | internal/publisher/publisher.go:1047-1085 | a commit that returns, or one whose error has been resolved |
| Publication.Publisher.Admit | internal/publisher/publisher.go:771-805 | every gate refuses before anything is touched, and without faults refuses for nothing else |
| Publication.Publisher.VerifyActive | internal/publisher/publisher.go:1543-1601 | success means that database, archives and file agree with the active revision; without faults it succeeds whenever they do |
| Publication.Publisher.AbortChanged | internal/publisher/publisher.go:1201-1229 | a file changed meanwhile is left alone and the system asked into degraded mode |
| Publication.Publisher.FailAfterReplacement | internal/publisher/publisher.go:1231-1275 | either the previous file is back and what the process loads follows it, or the degraded bit is set or reported lost; not putting back takes a failed sub-step, a lost mark another |
| Publication.Publisher.RestorePrevious | internal/publisher/publisher.go:1782-1818 | success means the previous content, or no file and a stopped process; without faults it succeeds |
| Publication.Publisher.RecordFailure | internal/publisher/publisher.go:1502-1541 | recording a failure changes neither desired state, active revision, degraded bit nor the active archives; without faults the failed row and the archives of a rejected candidate are there to stay, and retention applied |
| Publication.Publisher.RecordRow | internal/store/managed.go:1669-1695 | the ledger gains exactly the failed row or nothing |
| Publication.Publisher.Classify | internal/publisher/publisher.go:1289-1349 | each verdict implies what it says of the database, and without faults the converse holds |
| Publication.Publisher.ReconcileCommit | internal/publisher/publisher.go:1277-1446 | success only if database and file are new, plain failure only if both are old, otherwise degraded; without faults exactly which mixtures end how, and an unresolved end of a recognizable mixture takes a failed sub-step |
| Publication.Publisher.AcceptCommit | internal/publisher/publisher.go:1350-1444 | a new database with a new, old or missing file ends in success or degraded mode, and never loses the commit |
| Publication.Publisher.RejectCommit | internal/publisher/publisher.go:1365-1412 | an old database ends with the old file or in degraded mode |
| Publication.Publisher.Unresolved | internal/publisher/publisher.go:1448-1464 | an unclassifiable commit is reported and marked |
| Publication.Publisher.FinishSuccessful | internal/publisher/publisher.go:1481-1500 | maintenance after success cannot take success back |
| Publication.Publisher.Prune | internal/publisher/publisher.go:1856-1884 | the ledger has taken some steps of a retention pass; only archives of expired revisions may be gone; success removes every expired row and both its files and leaves at most the history limit of inactive ones |
| Publication.Publisher.RemoveRevision | internal/publisher/publisher.go:1864-1882 | one revision's turn: files first, then exactly that row |
| Publication.Publisher.PublishCompiled | internal/publisher/publisher.go:1665-1722 | success leaves the compiled configuration in the file; before startup, or with a restart owed, the process is not touched |
| Publication.NextIsRecoverable | internal/publisher/publisher.go:967-1085 | the database a commit is about to make durable is already recoverable, since its archives exist |
| StartupReconciliation.Reconciler.ReconcileStartup | internal/publisher/publisher.go:282-619 | nil means agreement once there is an active revision; a degraded return means the degraded bit; outside the cutover only file and degraded bit change; without faults it succeeds exactly when `Reconcilable` holds, before and after startup and in the cutover, and otherwise leaves exactly the mark `MarkLeft` |
| StartupReconciliation.Reconciler.VerifyDurable | internal/publisher/publisher.go:434-514 | success exactly when archives and recompiled durable state carry the active digest, up to faults |
| StartupReconciliation.Reconciler.Settle | internal/publisher/publisher.go:516-590 | a file that does not match is rewritten from durable state |
| StartupReconciliation.Reconciler.Finish | internal/publisher/publisher.go:524-619 | what remains for a matching file: the degraded bit is cleared only after startup is allowed to look at the process |
| StartupReconciliation.Reconciler.InstallBaseline | internal/publisher/publisher.go:345-406 | the cutover's empty baseline is published before the process starts, or the system is marked; without faults exactly when it succeeds |
| StartupReconciliation.Reconciler.Mark | internal/publisher/publisher.go:684-705 | a degraded return means that the bit is set; failing to set it is fatal |
| StartupReconciliation.Reconciler.Clear | internal/publisher/publisher.go:638-682 | a failed clear is compensated by marking again |
| StartupReconciliation.Reconciler.ReloadAndCheck | internal/publisher/publisher.go:621-636 | success means that the process has loaded the current file and passed a health wait; without faults it succeeds exactly if the process runs |
| StartupReconciliation.Reconciler.Complete | internal/publisher/publisher.go:1118-1146 | the cutover is completed or the system is marked |
| PublicationLifecycle.Rollback | internal/publisher/publisher.go:707-765 | success makes an archived desired state current again under a new number, read at the present time, and has the process load it unless a restart is or was owed; a revision that was never published, or whose archives do not match, changes nothing; in a sound system any other succeeds exactly if it compiles |
| PublicationLifecycle.FindRow | internal/store/managed.go:1654-1667 | the revision of that identity, if there is one |
| PublicationLifecycle.PublishThenCrashThenRestart | internal/publisher/publisher.go:282-1085 | crash safety: after a crash at any durable effect of any publication, startup restores agreement with the active revision or leaves the degraded bit; without an active revision it leaves the file alone; when it stops without faults is stated exactly |
| PublicationLifecycle.FirstPublicationCutShort | internal/publisher/publisher.go:408-416 | every first publication that succeeds has passed a moment at which a crash leaves the new configuration in place without any revision, and which the next start, without faults of its own, takes for sound |
| PublicationLifecycle.RunWithCrashes | internal/publisher/publisher.go:282-1085 | over every run of operations and crashes, recoverability, the published flag and all assigned numbers are kept |
| PublicationLifecycle.Perform | internal/publisher/publisher.go:168-180 | one operation of such a run |
| CoreFiles.FileStore.Activate | internal/core/filesystem.go:372-446 | activation installs the staged tree with the previous one as its named backup, or leaves the disk as it was or with the previous tree among the backups, and after a single failed sub-step as it was; at most two backups after success; the previous tree stays on disk throughout |
| CoreFiles.FileStore.MakeRoom | internal/core/filesystem.go:386-433 | a core becomes a backup, a placeholder is removed; a failed sync is undone where possible |
| CoreFiles.FileStore.Prune | internal/core/filesystem.go:618-639 | success keeps exactly the newest backups; a failure keeps at least those and no unsound newcomer |
| CoreFiles.FileStore.RemoveBackup | internal/core/filesystem.go:633-637 | one removal, which may leave a tree that no longer validates |
| CoreFiles.FileStore.Restore | internal/core/filesystem.go:462-485 | success puts the remembered backup back and cleans up; in every case its tree stays on disk; without faults it succeeds exactly when that backup validates and there is a core to replace |
| CoreFiles.FileStore.SweepFailed | internal/core/filesystem.go:478-485 | cleaning up after a restore touches only the failed tree |
| CoreFiles.FileStore.RevertActivation | internal/core/filesystem.go:487-498 | no activation, nothing to do; with a backup it is restored, without faults whenever it validates; without one the installed tree is removed |
| CoreFiles.FileStore.LatestBackup | internal/core/filesystem.go:563-583 | the newest backup that validates |
| CoreFiles.FileStore.StageBackup | internal/core/filesystem.go:585-601 | a validated copy in staging; neither current core nor backups change |
| CoreFiles.FileStore.Stage | internal/core/filesystem.go:143-168 | a new tree in staging and nowhere else |
| CoreFiles.FileStore.RemoveStage | internal/core/filesystem.go:603-608 | touches staging only |
| CoreFiles.FileStore.Recover | internal/core/filesystem.go:77-102 | success leaves an empty staging area and no damaged current core; core and backups are not touched |
| CoreFiles.FileStore.SetMarker | internal/core/filesystem.go:522-561 | sets or clears the marker and nothing else; an error does not say whether it did |
| CoreFiles.SparedExactly | internal/core/filesystem.go:618-639 | retention spares the backup just made exactly when fewer than `keep` older backups carry a later name |
| CoreFiles.IncreasingClockSpares | internal/core/filesystem.go:402-405 | an increasing clock is enough |
| CoreFiles.ClockSetBackLosesTheBackup | internal/core/filesystem.go:402-405 | a clock set back is a counterexample |
| CoreFiles.ActivateThenRestore | internal/core/filesystem.go:372-485 | activation followed by a successful restore gives back the same tree; without faults it succeeds exactly under the rank condition |
| CoreFiles.ActivateThenCrashThenRecover | internal/core/filesystem.go:77-446 | conservation: after a crash anywhere in an activation and the next start's recovery the previous core is current or a backup |
| CoreFiles.RestoreThenCrashThenRecover | internal/core/filesystem.go:77-485 | the same for a restore |
| CoreFiles.Find | internal/core/filesystem.go:462-470 | the tree stored under a backup name |
| CoreManager.Manager.SafetyBlocked | internal/core/manager.go:166-183 | never answers "open" while latch, marker or degraded bit is set; takes a marker into memory |
| CoreManager.Manager.Admit | internal/core/manager.go:500-530 | Update and Rollback start only with nothing pending, managed, and nothing closed |
| CoreManager.Manager.Update | internal/core/manager.go:500-701 | success: new core current, verified running and on record; no-op: disk, process, latch and degraded bit as before and the check on record, exactly unless the saved state could not be read back; an error after the swap is put back or latched, and after a single failed sub-step put back wherever retention spares the previous core; refused while closed; the previous tree is kept; without faults success is characterized |
| CoreManager.Manager.UpdateAdmitted | internal/core/manager.go:539-701 | the same after the gates; after a failed read in front of a no-op only the current core is left on record |
| CoreManager.Manager.InstallRelease | internal/core/manager.go:561-701 | download, validate, install |
| CoreManager.Manager.StageRelease | internal/core/manager.go:561-612 | only a tree that is what the release identity promised gets staged |
| CoreManager.Manager.Install | internal/core/manager.go:614-701 | the common end: in service, or compensated; an error before the swap changes no record; how many sub-steps must fail before the latch, and before a missing mark |
| CoreManager.Manager.Conclude | internal/core/manager.go:631-701 | from the swap on: in service, or put back, or latched, with the number of failed sub-steps each takes |
| CoreManager.Manager.Rollback | internal/core/manager.go:703-811 | success puts the newest sound backup into service; errors as for Update, a single failed sub-step included; without faults it succeeds exactly if it is let in, a sound backup exists and no damaged core is in the way |
| CoreManager.Manager.InstallBackup | internal/core/manager.go:735-811 | the same after the gates, without faults exactly unless a damaged core is in the way |
| CoreManager.Manager.RestoreAfterFailure | internal/core/manager.go:975-1011 | success: previous tree current, verified running, on record; impossible without a previous core; without faults it succeeds exactly if the backup validates |
| CoreManager.Manager.FailAfterActivation | internal/core/manager.go:1013-1046 | put back, or latched with the marker set or the process not left running; latching takes a failed sub-step wherever the backup validates, a missing mark another |
| CoreManager.Manager.RestartAndVerify | internal/core/manager.go:924-961 | success: the process runs the current tree at the expected version |
| CoreManager.Manager.CheckLocked | internal/core/manager.go:443-498 | success records the resolved release and schedules the next check; a channel that cannot be asked counts as checked; the recorded core never changes |
| CoreManager.Manager.Check | internal/core/manager.go:417-441 | refuses while closed without touching anything; without faults it refuses for nothing else but an unmanaged core |
| CoreManager.Manager.UpdateSettings | internal/core/manager.go:315-390 | refuses while closed; the installation mode never changes; the next check is now for a new channel, one interval after the last otherwise, and absent without automation; without faults it succeeds exactly for acceptable settings of an open managed core |
| CoreManager.Manager.Due | internal/core/manager.go:1101-1118 | false while closed; without faults exactly when a check is due |
| CoreManager.Manager.Recover | internal/core/manager.go:199-246 | success: staging clean, installed core on record, marker taken into memory and database; of the saved state only the current core and the progress mark are rewritten; without a marker latch and degraded bit stay |
| CoreManager.Manager.Bootstrap | internal/core/manager.go:813-868 | success: the given core is current and on record; the only exit from fail-closed; without faults success is characterized, and it releases exactly what this process had latched |
| CoreManager.Manager.AdoptExternal | internal/core/manager.go:870-922 | the same, and nothing is done while a sound core is installed |
| CoreManager.Manager.InstallOffline | internal/core/manager.go:845-868 | an installation that fails changes neither latch nor marker, and after a single failed sub-step not the core; without faults it succeeds exactly unless a damaged core is in the way, and then opens a closed manager exactly if the latch was set |
| CoreManager.Manager.RecordOffline | internal/core/manager.go:850-866 | the installed core goes on record or is reverted; a set latch is released only together with its marker, and without faults it is |
| CoreManager.Undone | internal/core/filesystem.go:462-470 | restoring an activation gives back the core that was current before it |
| CoreManager.SparedIsRecoverable | internal/core/filesystem.go:402-470 | a sound previous core that retention spares can be put back after the swap |
| CoreManager.Perform | internal/core/manager.go:199-1118 | one operation of the core manager; closed, it accepts none and changes neither settings, process, saved state nor disk, but for what recovery, a restart or an offline installation may |
| CoreManager.RestartLatchesAgain | internal/core/manager.go:199-228 | a restart does not lose the marker |
| CoreManager.UpdateThenDue | internal/core/manager.go:539-559 | after a no-op the scheduler is due again after the interval, or at once if the saved state was lost |
| CoreManager.NoOpLosesTheRecord | internal/core/manager.go:545-559 | a record that a no-op whose read fails loses, next to what it should have become; the two outcomes always differ |
| CoreManager.RecoverThenBootstrap | internal/app/commands.go:557-559 | a process that recovers and then bootstraps without faults is open afterwards, exactly unless another process has failed closed between the two |
| FailClosed.PublishGated | internal/publisher/publisher.go:793-801 | the manager's answer, or the lack of one, decides; closed means that nothing changes; without faults a publication succeeds exactly if the manager is open and the request publishable |
| FailClosed.ExpireGated | internal/scheduler/expiry.go:94-166 | what is published is the valid, non-empty batch of the present state; closed means that nothing changes; without faults success is characterized |
| FailClosed.ReconcileGated | internal/publisher/publisher.go:282-619 | startup reconciliation of a closed service rewrites nothing in the database but degraded bit and cutover marker, the cutover's baseline included |
| FailClosed.RecoverByCommand | internal/app/commands.go:557-559 | a command takes the marker into the degraded bit that publications see |
| FailClosed.PublishByCommand | internal/app/commands.go:560-577 | a command publishes without a gate; the marker stops it and the latch of the service does not: without faults exactly |
| FailClosed.PerformStep | internal/core/manager.go:166-1118 | one step of the whole service; closed, it accepts nothing and changes nothing but what `KeptShut` names |
| FailClosed.RunClosed | internal/core/manager.go:166-1118 | fail-closed is absorbing: in every run of core operations, publications, expiry batches, reconciliations and commands nothing is accepted, and desired state, history, settings and core stay as they are, and so do files and processes but for a reconciliation or restart of the run itself, until an offline installation succeeds |
| Endpoints.EndpointStore.constructor | internal/store/managed.go:234-417 | a seeded store satisfies the invariant |
| Endpoints.EndpointStore.Replace | internal/store/managed.go:1218-1317 | the generation rises by one exactly if a field changes; a pending record, if any, is the active settings; the invariant is kept |
| Endpoints.EndpointStore.Clear | internal/store/managed.go:806-958 | a clear that is done has applied exactly the named halves and owes exactly what still differs; it changes something only for the pending record it was prepared for; without faults it is done exactly unless that record has changed |
| Endpoints.ClearApplies | internal/store/managed.go:884-957 | the same as a law about any state of a seeded store |
| Endpoints.ApplyKeeps | internal/store/managed.go:806-1317 | no pending record exactly if last-applied equals active, and flags that are exactly the differing halves: kept by every replacement and clear |
| Endpoints.RunKeeps | internal/store/managed.go:806-1317 | the same over every run |
| Endpoints.GenerationCountsChanges | internal/store/managed.go:1247-1254 | the generation counts exactly the changes of an endpoint field |
| Endpoints.NoABA | internal/store/managed.go:853-957 | a clear prepared from earlier settings has an effect only if the active settings were the same at every moment since |
| Endpoints.FieldsAloneWouldNotDo | internal/store/managed.go:853-866 | comparing the fields without the generation would not give that |
| Endpoints.RuntimeBoundary.Start | internal/service/runtime_boundary.go:140-169 | refused on a running process while a restart is owed; otherwise as Act |
| Endpoints.RuntimeBoundary.Restart | internal/service/runtime_boundary.go:171-189 | completion pays the restart owed when it began |
| Endpoints.RuntimeBoundary.Finalize | internal/service/runtime_boundary.go:242-260 | the same without starting anything |
| Endpoints.RuntimeBoundary.StopOrReload | internal/service/runtime_boundary.go:120-134 | never applies settings; a reload is refused while a restart is owed |
| Endpoints.RuntimeBoundary.Conclude | internal/service/runtime_boundary.go:151-168 | the clear follows a passed wait, and without faults completes whenever the settings were left alone |
| Endpoints.RuntimeBoundary.Act | internal/service/runtime_boundary.go:115-260 | whatever others do meanwhile, the Mihomo half of last-applied advances only past a successful health wait, to exactly the candidate read before it, and only if the settings were undisturbed |
| Readiness.MoveBalances | internal/mihomo/startup_readiness.go:59-359 | every step of every role, dying in the middle of a write included, takes only free locks and leaves it with exactly the locks due at its new place |
| Readiness.MoveWritesUnderLock | internal/mihomo/startup_readiness.go:59-178 | tokens change only under the exclusive locks, and nobody locks the ready file exclusively without the lease |
| Readiness.MoveKeepsTokens | internal/mihomo/startup_readiness.go:94-178 | a process's own steps keep the tokens that it relies on |
| Readiness.StepKeeps | internal/mihomo/startup_readiness.go:59-359 | the lock table accounts for every process, after any step of any process, deaths included |
| Readiness.RunKeeps | internal/mihomo/startup_readiness.go:59-359 | in every interleaving |
| Readiness.RunsFromNobody | internal/mihomo/startup_readiness.go:59-359 | from empty lock files |
| Readiness.AtMostOnePublishedOwner | internal/mihomo/startup_readiness.go:142-178 | at most one process has published readiness |
| Readiness.PublishedOwnerIsUndisturbed | internal/mihomo/startup_readiness.go:59-178 | while an owner has published, both tokens are its own, and nothing that others do, failed second startups included, changes either |
| Readiness.ReadyIsRefusedOnlyByAPublishedOwner | internal/mihomo/startup_readiness.go:83-92 | observers never make a startup's ready lock fail |
| Readiness.PublishingIsNeverRefused | internal/mihomo/startup_readiness.go:149-161 | a startup that got through always gets the ready lock when it publishes |
| Readiness.GuardBlocksStartups | internal/mihomo/startup_readiness.go:217-359 | while a guard is held no startup is under way and none can begin |
| Readiness.GuardsAreWitnessed | internal/mihomo/startup_readiness.go:273-359 | a guard is granted only if during that very attempt a published owner held the ready lock |
| Readiness.RolesBegin | internal/mihomo/startup_readiness.go:59-359 | every role begins whenever the lock it begins with is free |
| Readiness.FinalizersBegin | internal/app/commands.go:333-439 | a finalizer that sees no marked operation goes on to its attempt |
| Readiness.GuardIsGranted | internal/mihomo/startup_readiness.go:273-359 | a guard can be had: while a published owner lives, three steps of an attempt are enough, however everybody else runs in between |
| Readiness.FinalizerIsCommissioned | internal/app/commands.go:333-439 | a finalizer with a guard that finds the coordinator free gets to work, however everybody else runs in between |
| Readiness.LiveOperationIsLeftAlone | internal/app/commands.go:333-439 | while a marked operation lives, a finalizer steps aside for it |
| Readiness.StartupPublishes | internal/mihomo/startup_readiness.go:59-215 | a startup with the lease publishes within seven steps unless another owner has published, however everybody else runs in between |
| Readiness.EndingsAreHonest | internal/mihomo/startup_readiness.go:59-359 | an attempt without a ready owner polls again or gives up as its role demands; readiness is announced by nothing but a publication that went through |
| Readiness.TokensDecide | internal/mihomo/startup_readiness.go:322-342 | a guard is granted only on the token of the lease; resetting and withdrawing readiness blank the token |
| Readiness.HoldersCanLeave | internal/mihomo/startup_readiness.go:200-359 | whoever holds readiness, a guard, the commission or the operation can give it back at once |
| Readiness.CommissionIsExclusive | internal/app/commands.go:333-439 | the finalizer is handed the coordinator only with the guard held and no marker live, and this stays so while it works |
| Readiness.ExitsHoldNothing | internal/app/commands.go:333-439 | every exit, deaths included, releases everything |
| Readiness.MarkerImpliesCoordinator | internal/mihomo/lifecycle_marker.go:97-135 | a marker held exclusively belongs to the holder of the coordinator |
| Supervisor.ManagedProcess.StartSecondSection | internal/mihomo/managed.go:146-154 | a child is started only where none is, under a new generation; a failed start stays desired |
| Supervisor.ManagedProcess.AbortSection | internal/mihomo/managed.go:390-402 | names the child of its own attempt or nobody |
| Supervisor.ManagedProcess.Deliver | internal/mihomo/managed.go:403-409 | a signal ends only the child it was sent to |
| Supervisor.ManagedProcess.ObserveExit | internal/mihomo/managed.go:261-299 | a desired process that exits gets the recovery loop there is, or a new one; without a boundary it is given up |
| Supervisor.ManagedProcess.WakeLoop | internal/mihomo/managed.go:301-342 | the boundary is called only for a process that is desired and not shut down |
| Supervisor.ManagedProcess.ReturnFromCallback | internal/mihomo/managed.go:343-373 | the loop leaves by success exactly if the process is undesired, shut down, or active with no exit since the call began; a failed call doubles the wait up to its bound; the fifth failure gives up |
| Supervisor.ManagedProcess.AppendLog | internal/mihomo/managed.go:456-469 | the last thousand non-empty messages are kept |
| Supervisor.ManagedProcess.RecentLogs | internal/mihomo/managed.go:215-231 | the last messages ever logged, as many as asked for |
| Supervisor.ManagedProcess.PerformEvent | internal/mihomo/managed.go:118-431 | every section, exit and signal keeps the invariant |
| Supervisor.ManagedProcess.Interleave | internal/mihomo/managed.go:118-431 | in every interleaving at most one live child and at most one recovery loop, alive exactly while restarting, with at most five calls |
| Coordinator.Coordinator.TryAcquire | internal/operation/coordinator.go:68-87 | granted exactly if nobody holds it and the file lock is free |
| Coordinator.Coordinator.Release | internal/operation/coordinator.go:93-105 | only the first call releases, and only its own hold |
| Coordinator.Coordinator.Interleave | internal/operation/coordinator.go:37-105 | at most one operation runs, however releases are repeated |
| PortRanges.OverlapIsASharedPort | internal/domain/validate.go:141-143 | ranges overlap exactly if they share a port |
| PortRanges.NeighboursSuffice | internal/domain/validate.go:124-129 | in a sorted list neighbours are apart exactly if all pairs are |
| PortRanges.SortDisjoint | internal/domain/validate.go:124-129 | sorting does not change whether the ranges are disjoint |
| PortRanges.ParsePortRanges | internal/domain/validate.go:99-131 | accepts exactly the well-formed lists of pairwise disjoint ranges, and returns them sorted |
| PortText.PortIsWritten | internal/domain/validate.go:108-122 | a port is read exactly from the texts that write it, leading zeros allowed |
| PortText.RangeIsWritten | internal/domain/validate.go:103-122 | a range is read exactly from a port, or two ports in order around a hyphen, with white space around them or not |
| PortText.ListIsWritten | internal/domain/validate.go:99-123 | which ranges a port field stands for: exactly those its comma-separated parts write, in their order |
| Text.BlankTrimsAway | internal/publisher/publisher.go:771-773 | a reason is blank exactly if trimming leaves nothing of it |
| PortRanges.ParseRange | internal/domain/validate.go:108-122 | an accepted range lies within 1 to 65535 |
| PortRanges.SinglePort | internal/domain/validate.go:133-139 | a port exactly when the field stands for that one port |
| DesiredState.ValidateState | internal/domain/validate.go:28-97 | the loop over the nodes decides exactly `Valid`, which is validity in plain terms |
| DesiredState.ValidInPlainTerms | internal/domain/validate.go:28-97 | what is accepted is stated without the functions the code computes with: no shared names, no port claimed twice, users in force where they are needed |
| DesiredState.ValidateNode | internal/domain/validate.go:160-294 | decides exactly `NodeValid`, and so `PlainlyValidNode` |
| DesiredState.ValidateUsers | internal/domain/validate.go:221-243 | decides exactly uniqueness of identities, names and credentials and acceptability of each user |
| DesiredState.AddClaims | internal/domain/validate.go:64-92 | comparing each range with all earlier ones finds a clash exactly if there is one |
| DesiredState.ClaimsMatch | internal/domain/validate.go:64-92 | and the clashes it can find are exactly those between different nodes |
| DesiredState.OneNodePerPort | internal/domain/validate.go:60-96 | in a valid state no two nodes claim the same port of the same listen address |
| DesiredState.EffectiveUsers | internal/domain/model.go:481-493 | exactly the users that are enabled and have no expiry or one still to come, as often and in the order in which they are listed |
| DesiredState.EffectiveShrinks | internal/domain/model.go:481-493 | time only takes effective users away |
| Expiry.DisableExpired | internal/scheduler/expiry.go:121-133 | disables exactly the enabled users whose expiry has come and counts them |
| Expiry.DisableAll | internal/scheduler/expiry.go:119-134 | the same over all nodes, with the identities of those affected |
| Expiry.DisableEmptied | internal/scheduler/expiry.go:138-149 | disables exactly the affected nodes left without effective users |
| Expiry.RunBatch | internal/scheduler/expiry.go:94-166 | refuses while fail-closed; nothing to do exactly without expired users; otherwise the batch if it is valid |
| Expiry.EffectiveUnchanged | internal/scheduler/expiry.go:121-133 | every node's effective users at batch time are the same before and after |
| Expiry.EnabledExactly | internal/scheduler/expiry.go:138-149 | of the enabled nodes exactly those with an effective user stay enabled |
| Expiry.BatchIsValid | internal/scheduler/expiry.go:151-156 | a state valid at an earlier time is valid again after the batch |
| Expiry.BatchIsIdempotent | internal/scheduler/expiry.go:135-137 | a second run at the same time finds nothing |
| Compiler.Compile | internal/publisher/compiler.go:30-89 | filter, sort and emit: one listener for each enabled node in order of their names, made from exactly the names and credentials of its users in force; none only for an invalid state or a node its module refuses |
| Compiler.EnabledNodes | internal/publisher/compiler.go:43-48 | the enabled nodes in their order |
| Compiler.CompileNodes | internal/publisher/compiler.go:69-75 | the listeners in order, or none if one fails |
| Compiler.ListenersAreEmitted | internal/publisher/compiler.go:43-77 | every enabled node gets the listener of exactly its users in force, or there is one that gets none |
| Compiler.BeforeIsTotal | internal/publisher/compiler.go:49-54 | the order of names is total |
| Compiler.SortByName | internal/protocol/registry.go:185-194 | sorting elements with distinct names gives strictly increasing names |
| Compiler.SameElementsSameList | internal/publisher/compiler.go:49-54 | there is only one strictly increasing list of given elements |
| Compiler.UsersAreCanonical | internal/protocol/registry.go:185-194 | the sorted effective users of a valid node depend only on the set of their names and credentials |
| Compiler.CompilationIsCanonical | internal/publisher/compiler.go:30-89 | valid states with the same settings and the same enabled nodes up to order, identities, profiles, history and ineffective users compile to the same document |
| Compiler.OrderLeavesNoTrace | internal/publisher/compiler.go:43-77 | the order of nodes leaves no trace |
| NodeSecrets.MovePasswords | internal/store/node_codec.go:68-93 | the loop blanks every password and leaves the last one of each name in the map |
| NodeSecrets.ReadPasswords | internal/store/node_codec.go:145-163 | the loops fill all, or only blank, passwords from the map |
| NodeSecrets.FillRestores | internal/store/node_codec.go:68-163 | passwords kept by name come back exactly if accounts of one name agree |
| NodeCodec.Encode | internal/store/node_codec.go:39-120 | every secret of the selected stream security, of an enabled wrapper, of mKCP and of Hysteria2 moves from the clear part to the sealed one, and nothing else changes |
| NodeCodec.Decode | internal/store/node_codec.go:122-186 | every sealed secret goes back to where Encode found it |
| NodeCodec.WriteThenRead | internal/store/node_codec.go:39-186 | reading back what was written gives the node exactly if accounts of one name agree |
| NodeSecrets.StoredRoundTrip | internal/store/node_codec.go:39-186 | the exact condition, about the functions that Encode and Decode compute |
| NodeCodec.Redact | internal/httpapi/management.go:1520-1599 | a response has no secrets and is otherwise the node |
| NodeSecrets.RedactedHasNoSecrets | internal/httpapi/management.go:1520-1599 | redaction removes every secret and changes nothing that has none |
| NodeCodec.Preserve | internal/service/management.go:1330-1406 | fills exactly the blanks, and nothing across protocols |
| NodeCodec.ShowThenSave | internal/service/management.go:1330-1406 | a valid node that is shown and sent back is unchanged exactly unless a disabled wrapper keeps a password |
| NodeSecrets.RedactedRoundTrip | internal/service/management.go:1330-1406 | the exact condition over all configurations, invalid ones included |
| NodeSecrets.NewSecretsWin | internal/service/management.go:1330-1406 | a secret that an update brings is never overwritten; one left blank becomes the stored one, if there is one |
| NodeSecrets.BlankAccountsByName | internal/service/management.go:1351-1384 | a blank account password becomes that of the last stored account of its name |
| NodeSecrets.OnlyBlanksChange | internal/service/management.go:1330-1406 | nothing but blank secrets and public keys changes |
| NodeSecrets.ShownIsBlank | internal/httpapi/management.go:1520-1599 | a response has a blank for every secret there is |
| NodeSecrets.ClearPartIsBlank | internal/store/node_codec.go:39-120 | the clear part of a row has exactly the secrets that are not kept apart |
| NodeSecrets.SlotsAreAll | internal/httpapi/management.go:1520-1599 | and these are all: what a response shows, with them, is the whole configuration |
| NodeSecrets.StoredIsRedacted | internal/store/node_codec.go:39-120 | the clear part is free of secrets exactly under these conditions |
| NodeSecrets.ValidRoundTrips | internal/store/node_codec.go:39-186 | both round trips for valid nodes |
| NodeSecrets.DisabledWrapperKeepsItsPassword | internal/store/node_codec.go:97-100 | the one gap, as a counterexample |
| LoginLimiter.Delay | internal/auth/limiter.go:62-73 | the doubling loop gives min(ceiling, base * 2^(failures-1)) exactly unless it overshoots |
| LoginLimiter.EvenCeilingIsExact | internal/auth/limiter.go:64-70 | an even ceiling never overshoots |
| LoginLimiter.SaturationIsInvisible | internal/auth/limiter.go:59-61 | that counting stops at 31 shows exactly if the ceiling has not been reached by then |
| LoginLimiter.DefaultsReachTheCeiling | internal/auth/limiter.go:25-36 | with the shipped constants it has |
| LoginLimiter.Limiter.Failure | internal/auth/limiter.go:54-82 | the ideal delay of the whole streak, and from then on the rest of it; every other key waits as long as before |
| LoginLimiter.Limiter.RetryAfter | internal/auth/limiter.go:42-52 | the rest of the delay, never more than the ceiling |
| LoginLimiter.Limiter.Success | internal/auth/limiter.go:84-88 | forgets that key alone |
| LoginLimiter.Limiter.Cleanup | internal/auth/limiter.go:90-96 | removes exactly the attempts past retention, which changes no wait from then on if retention covers the ceiling |

## Left out

- SQL, SQLite, WAL and migrations: tables are values, a transaction is one atomic commit whose error does not say whether it took effect.
- YAML, JSON, gzip, SHA-256, AES-GCM and Argon2: uninterpreted functions; a snapshot decodes to what was encoded, a sealed secret opens to what was sealed under the same purpose.
- Per-protocol listeners, share links, capability tables, HTTP routing, sessions, the GitHub client, audit texts, error redaction, logging and the web front end.
- flock, rename, fsync, signals, /proc, systemd and OpenRC: steps that may fail. That fsync makes earlier effects durable in order is assumed.
- Deadlines and timers: a wait succeeds or fails. The recovery backoff is a number that doubles.
- UUIDs: a draw is assumed to be one that no row, file, backup or token uses (`Fresh`, `Unused`).
- Path containment, symbolic links, file owners and permissions: their refusals are among the faults.
- Publication: several active rows in one table are reported by the lookup but cannot arise, so the branch that handles them is not a separate outcome.
- Publication: the branch for a previous durable state that does not match the active revision is not separate, since verification has just compared the same compilation.
- Publication: the mutation of a request is a function of the desired state; the audit entry is a fault of the commit.
- StartupReconciliation.Reconciler.ReconcileStartup: whether Mihomo runs is part of the state, and nobody else starts or stops it within one reconciliation; with a restart owed it promises agreement of the files, not a loaded process.
- Publication.Publisher.Publish: a degraded mark that cannot be written is reported in the result (`markLost`) rather than assumed to succeed.
- CoreFiles: a backup name is its place in string order; that two names never coincide is assumed of the UUID.
- CoreFiles.FileStore.Activate: the undo renames are best effort, so a failed activation may leave the previous tree among the backups with no current core; conservation of the tree is what is claimed.
- CoreManager: result texts and times of the saved state, `Status`, `ScheduleStartupCheck` and the variant repository without transactional settings.
- Endpoints: pre-bootstrap databases without a last-applied row; the model starts from a seeded store.
- Publication: `restartPending` stands for the endpoint store's pending record with its Mihomo flag (module Endpoints); these two modules are not joined into one state.
- Publication: somebody else's edit of the configuration comes at one point of a publication, in front of the last comparison before the replacement; an edit after that comparison is overwritten, as in the code.
- FailClosed: the gate is asked before the publisher's other gates rather than between them, so that a refused request may have taken the marker into memory; the expiry batch is computed right before its transaction rather than inside it; of the degraded bit's reason only whether it is the cutover's is kept. The process as the core manager and as the publisher sees it are two records.
- FailClosed: status, validation and readiness commands, which publish nothing; a rollback, by the service or by a command, is one of its publications.
- Endpoints: what the process has loaded; claims are about the store and about the health wait that comes before a clear.
- Readiness: an absent lock file and one with an empty token are the same; errors of unlock followed by close count as released; the coordinator appears as one lock, its in-process part is in Coordinator.
- Readiness: that the marker is taken only by an operation that holds the coordinator is part of the modelled owner role, as the callers of the marker do it.
- Coordinator: whether the lock file is free is an input of each attempt; the other processes that may hold it are in Readiness.
- Supervisor: the waiter's branch for a command that is no longer current, which the invariant rules out; generations do not wrap.
- Supervisor: an exit between giving up and the end of the loop is dropped, as in the code; only the success branch carries a promise.
- DesiredState: host, DNS, URL, UUID, name and protocol checks are the opaque parts of `Rules`; validation reports whether there are errors, not their texts; legacy endpoint normalization.
- PortRanges.Sort: the order of ranges with equal starts, which are refused anyway.
- Compiler: strings are compared character by character, which for UTF-8 is the order of bytes.
- NodeSecrets: everything in a node that is not secret is one opaque field per block; the flags that tell which secrets are set; JSON cloning.
- LoginLimiter: the lock, the key's normalization, and 64-bit overflow, which the comparison before each doubling rules out.
