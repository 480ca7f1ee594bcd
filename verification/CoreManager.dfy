/** The core manager: update, rollback and bootstrap of the managed core, compensation, and the fail-closed latch. */
module CoreManager {
  import opened Sequences
  import opened CoreFiles

  datatype Settings = Settings(managed: bool, autoUpdate: bool, channel: string, interval: int)

  datatype CoreState = CoreState(
    current: Option<Manifest>,
    available: Option<string>,
    lastCheck: Option<int>,
    nextCheck: Option<int>,
    inProgress: bool)

  const NOTHING_SAVED := CoreState(None, None, None, None, false)

  /**
   * The saved state once an update has found that the resolved release is the current core. The code ignores whether
   * the state could be read back before the save; if it could not, only the current core is left of it.
   */
  function AfterNoOp(manifest: Manifest, identity: string, now: int, interval: int, forgot: bool): CoreState {
    if forgot then NOTHING_SAVED.(current := Some(manifest))
    else CoreState(Some(manifest), Some(identity), Some(now), Some(now + interval), false)
  }

  /** What the process is known to run: the tree it was last restarted from, once its version has been checked. */
  datatype Runtime = Stopped | Unverified | Running(tree: Option<string>, version: string)

  datatype Refusal = Busy | RestartRequired | External | Degraded | NoBackup | Failure

  datatype Outcome = Installed(manifest: Manifest) | Unchanged(manifest: Manifest) | Failed(reason: Refusal)

  /** Validate: the two channels and the four allowed intervals, in seconds. */
  predicate Acceptable(settings: Settings) {
    settings.channel in {"release", "alpha"} && settings.interval in {21600, 43200, 86400, 604800}
  }

  class Manager {
    const files: FileStore
    var settings: Settings
    var saved: CoreState
    /** The degraded bit in the database. */
    var degraded: bool
    /** The in-memory fail-closed latch. */
    var latch: bool
    var runtime: Runtime
    var endpointPending: bool

    constructor (files: FileStore, settings: Settings, saved: CoreState, degraded: bool, endpointPending: bool)
      requires files.Valid()
      ensures Valid() && this.files == files && this.settings == settings && this.saved == saved
      ensures this.degraded == degraded && !latch && this.endpointPending == endpointPending
    {
      this.files, this.settings, this.saved, this.degraded := files, settings, saved, degraded;
      this.latch, this.runtime, this.endpointPending := false, Unverified, endpointPending;
    }

    ghost predicate Valid()
      reads files`disk, files`trace
    {
      files.Valid()
    }

    /** Some safety record says that an operator has to look first. */
    predicate Closed()
      reads `latch, files`disk
    {
      latch || files.disk.marker
    }

    /** Nothing a core operation could have changed has changed. */
    twostate predicate Untouched()
      reads this, files`disk
    {
      && files.disk == old(files.disk) && saved == old(saved) && runtime == old(runtime) && degraded == old(degraded)
      && (latch <==> old(latch) || (latch && old(files.disk.marker)))
    }

    /** systemDegraded: the latch, then the durable marker, then the database. */
    method SafetyBlocked() returns (blocked: Option<bool>)
      modifies `latch, files`faults
      ensures Closed() || degraded ==> blocked != Some(false)
      ensures blocked == Some(true) ==> Closed() || degraded
      ensures latch == old(latch) || (latch && files.disk.marker)
      ensures files.faults >= old(files.faults)
      ensures files.faults == old(files.faults) ==> blocked == Some(old(Closed()) || degraded)
      ensures blocked == Some(false) ==> latch == old(latch)
    {
      if latch {
        return Some(true);
      }
      var marked := files.FailClosed();
      if marked.None? {
        return None;
      }
      if marked.value {
        latch := true;
        return Some(true);
      }
      var failed := files.Fault();
      return if failed then None else Some(degraded);
    }

    /** SaveCoreState: an error does not say whether the row was written. */
    method Save(next: CoreState) returns (ok: bool)
      modifies `saved, files`faults
      ensures saved == next || (!ok && saved == old(saved))
      ensures files.faults >= old(files.faults) && (files.faults == old(files.faults) ==> ok)
    {
      var failed := files.Fault();
      var applied: bool := *;
      if !failed || applied {
        saved := next;
      }
      ok := !failed;
    }

    /** Restart, wait until healthy, and have binary and Controller both report the expected version. */
    method RestartAndVerify(expected: string) returns (ok: bool)
      modifies `runtime, files`faults
      ensures ok ==> runtime == Running(files.disk.current, expected)
      ensures files.faults >= old(files.faults) && (files.faults == old(files.faults) ==> ok)
    {
      var failed := files.Fault();
      if failed {
        runtime := Unverified;
        return false;
      }
      runtime := Running(files.disk.current, expected);
      ok := true;
    }

    method StopProcess() returns (ok: bool)
      modifies `runtime, files`faults
      ensures !runtime.Running? && (ok ==> runtime.Stopped?)
      ensures files.faults >= old(files.faults) && (files.faults == old(files.faults) ==> ok)
    {
      var failed := files.Fault();
      runtime := if failed then Unverified else Stopped;
      ok := !failed;
    }

    // -------------------------------------------------------------- compensation

    /** There is a previous core, and the backup it became validates. */
    predicate Recoverable(activation: Activation, previous: Option<Manifest>)
      reads files`disk
    {
      previous.Some? && files.Restorable(activation) && files.disk.current.Some?
    }

    /** restoreAfterFailure */
    method RestoreAfterFailure(activation: Activation, previous: Option<Manifest>) returns (ok: bool)
      requires Valid() && activation.activated
      modifies `saved, `runtime, files`disk, files`trace, files`faults
      ensures Valid() && |old(files.trace)| <= |files.trace| && files.disk.marker == old(files.disk.marker)
      ensures ok ==>
        && previous.Some? && old(files.Restorable(activation)) && RestoredFrom(old(files.disk), files.disk, activation)
        && runtime == Running(files.disk.current, previous.value.version) && saved.current == previous
      ensures previous.None? ==> !ok && !runtime.Running?
      ensures forall tree :: Remembered(old(files.disk), activation, tree) && old(files.Kept(tree)) ==> files.Kept(tree)
      ensures files.faults >= old(files.faults)
      // without faults it restores whenever there is a backup to restore, and otherwise takes the new core away
      ensures files.faults == old(files.faults) && previous.Some? ==> (ok <==> old(Recoverable(activation, previous)))
      ensures files.faults == old(files.faults) && previous.Some? && !ok ==> runtime == old(runtime)
      ensures files.faults == old(files.faults) && previous.None? ==>
        && runtime.Stopped? && (activation.backup.None? ==> files.disk == old(files.disk).(current := None))
    {
      hide RestoredFrom, Remembered, FileStore.Kept, FileStore.Valid, FileStore.Restorable;
      if previous.None? {
        var reverted := files.RevertActivation(activation);
        var stopped := StopProcess();
        return false;
      }
      ok := files.Restore(activation);
      if ok {
        ok := RestartAndVerify(previous.value.version);
        if ok {
          var failed := files.Fault();
          if failed {
            return false;
          }
          ok := Save(saved.(current := previous, inProgress := false));
        }
      }
    }

    /** Sub-steps that must have failed if the marker or the degraded bit is missing. */
    function Unmarked(): nat
      reads `degraded, files`disk
    {
      if degraded && files.disk.marker then 0 else 1
    }

    /** failAfterActivation: either everything is put back, or the manager fails closed. */
    method FailAfterActivation(activation: Activation, previous: Option<Manifest>)
      requires Valid() && activation.activated
      modifies `saved, `runtime, `latch, `degraded, files`disk, files`trace, files`faults
      ensures Valid() && |old(files.trace)| <= |files.trace|
      ensures latch || (previous.Some? && old(files.Restorable(activation)) && RestoredFrom(old(files.disk), files.disk, activation)
        && runtime == Running(files.disk.current, previous.value.version) && saved.current == previous
        && files.disk.marker == old(files.disk.marker))
      ensures previous.None? ==> latch
      ensures latch && !old(latch) ==> files.disk.marker || !runtime.Running?
      // failing closed takes a failed sub-step where there is something to restore, and a mark that is missing another
      ensures latch && !old(latch) ==>
        files.faults >= old(files.faults) + (if old(Recoverable(activation, previous)) then 1 else 0) + Unmarked()
      // a process is stopped only where there was no core before, or the marker could not be set
      ensures files.faults == old(files.faults) && previous.Some? && latch && !old(latch) ==> runtime == old(runtime)
      ensures old(files.disk.marker) ==> files.disk.marker
      ensures old(latch) ==> latch
      ensures forall tree :: Remembered(old(files.disk), activation, tree) && old(files.Kept(tree)) ==> files.Kept(tree)
      ensures files.faults >= old(files.faults)
    {
      hide RestoredFrom, Remembered, FileStore.Kept, FileStore.Valid, FileStore.Restorable;
      var restored := RestoreAfterFailure(activation, previous);
      if restored {
        return;
      }
      latch := true;
      ghost var tree := if activation.backup.Some? && Find(old(files.disk).backups, activation.backup.value).Some?
                        then Find(old(files.disk).backups, activation.backup.value).value else "";
      RememberedTree(old(files.disk), activation, tree);
      var marked := files.SetMarker(true, tree);
      var failed := files.Fault();
      var applied: bool := *;
      degraded := degraded || !failed || applied;
      if !marked {
        var stopped := StopProcess();
      }
    }

    /** How many sub-steps must have failed at least, once a swap has been made. */
    function Price(ok: bool, spared: bool): nat
      reads `latch, `degraded, files`disk
    {
      if ok then 0 else if !latch then 1 else 1 + (if spared then 1 else 0) + Unmarked()
    }

    /** The previous core is current again, verified running, and on record. */
    predicate PutBack(before: Disk, previous: Option<Manifest>)
      reads `runtime, `saved, files`disk
    {
      && previous.Some? && files.disk.current == before.current
      && runtime == Running(before.current, previous.value.version) && saved.current == previous
    }

    /** The core with this manifest is current, verified running, and on record. */
    predicate InService(manifest: Manifest)
      reads `runtime, `saved, files`disk
    {
      && files.disk.current.Some? && files.CurrentTree() == Sound(manifest)
      && runtime == Running(files.disk.current, manifest.version) && saved.current == Some(manifest)
    }

    /** The common end of Update and Rollback: activate, restart, verify, record; compensate for any failure. */
    method Install(staged: nat, previous: Option<Manifest>, manifest: Manifest, updated: bool, name: int, ghost tree: string)
      returns (ok: bool)
      requires Valid() && Unused(files.disk.backups, name) && !latch
      requires staged in files.disk.staging && files.inspect(files.disk.staging[staged]) == Sound(manifest)
      requires previous.Some? ==> files.CurrentTree() == Sound(previous.value)
      modifies `saved, `runtime, `latch, `degraded, files`disk, files`trace, files`swaps, files`faults
      ensures Valid() && |old(files.trace)| <= |files.trace|
      ensures old(files.Kept(tree)) && Watched(old(files.disk), name, tree) ==> files.Kept(tree)
      ensures ok ==> files.disk.current == Some(old(files.disk).staging[staged])
      ensures ok ==> InService(manifest) && !latch && (HasCore(old(files.disk)) ==> old(files.CurrentTree()).Sound?)
      ensures files.swaps >= old(files.swaps)
      ensures !ok && files.swaps > old(files.swaps) ==> latch || PutBack(old(files.disk), previous)
      ensures !ok && files.swaps > old(files.swaps) && previous.None? ==> latch
      // one failed sub-step alone is undone wherever retention spares the previous core
      ensures files.swaps == old(files.swaps) && files.faults <= old(files.faults) + 1 && HasCore(old(files.disk)) ==>
        files.disk == old(files.disk)
      ensures files.swaps > old(files.swaps) ==> files.faults >= old(files.faults) + Price(ok, previous.Some? && Spares(old(files.disk), name))
      ensures ok ==> saved == (if updated then old(saved).(current := Some(manifest), available := Some(manifest.compressed), inProgress := false)
                               else old(saved).(current := Some(manifest)))
      ensures files.swaps == old(files.swaps) ==>
        && !ok && !latch && saved == old(saved) && runtime == old(runtime) && degraded == old(degraded)
        && (files.disk == old(files.disk) || files.disk == old(files.disk).(current := None, backups := MovedAside(old(files.disk), name)))
      ensures old(files.disk.marker) ==> files.disk.marker
      ensures latch ==> files.disk.marker || !runtime.Running?
      ensures files.faults >= old(files.faults)
      ensures files.faults == old(files.faults) && !old(files.CurrentTree()).Invalid? && (previous.None? ==> !HasCore(old(files.disk))) ==> ok
      ensures files.faults == old(files.faults) ==>
        files.disk.staging == if ok then old(files.disk).staging - {staged} else old(files.disk).staging
    {
      hide Last, Ascending, Without, MovedAside, FileStore.Kept, FileStore.Restorable, Watched, Remembered, Spares;
      ghost var before := files.disk;
      var activation, activated := files.Activate(staged, name, tree);
      ok := false;
      if !activated {
        if activation.activated {
          Undone(files, before, activation, name, tree);
          SparedIsRecoverable(this, before, activation, previous, name);
          FailAfterActivation(activation, previous);
        }
        return;
      }
      Undone(files, before, activation, name, tree);
      SparedIsRecoverable(this, before, activation, previous, name);
      ok := Conclude(activation, previous, manifest, updated);
    }

    /** From the swap on: restart, verify, record; compensate for any failure. */
    method Conclude(activation: Activation, previous: Option<Manifest>, manifest: Manifest, updated: bool) returns (ok: bool)
      requires Valid() && activation.activated && !latch && files.CurrentTree() == Sound(manifest)
      modifies `saved, `runtime, `latch, `degraded, files`disk, files`trace, files`faults
      ensures Valid() && |old(files.trace)| <= |files.trace|
      ensures ok ==> InService(manifest) && !latch && files.disk == old(files.disk)
      ensures ok ==> saved == (if updated then old(saved).(current := Some(manifest), available := Some(manifest.compressed), inProgress := false)
                               else old(saved).(current := Some(manifest)))
      ensures !ok && !latch ==>
        && previous.Some? && old(files.Restorable(activation)) && RestoredFrom(old(files.disk), files.disk, activation)
        && runtime == Running(files.disk.current, previous.value.version) && saved.current == previous
      ensures !ok && previous.None? ==> latch
      ensures latch ==> files.disk.marker || !runtime.Running?
      ensures old(files.disk.marker) ==> files.disk.marker
      ensures files.faults >= old(files.faults) + Price(ok, old(Recoverable(activation, previous)))
      ensures forall tree :: Remembered(old(files.disk), activation, tree) && old(files.Kept(tree)) ==> files.Kept(tree)
    {
      hide RestoredFrom, Remembered, FileStore.Kept, FileStore.Valid, FileStore.Restorable;
      ok := false;
      var verified := RestartAndVerify(manifest.version);
      if !verified {
        FailAfterActivation(activation, previous);
        return;
      }
      var failed := files.Fault();
      if failed {
        FailAfterActivation(activation, previous);
        return;
      }
      var recorded := Save(if updated then saved.(current := Some(manifest), available := Some(manifest.compressed), inProgress := false)
                           else saved.(current := Some(manifest)));
      failed := files.Fault();   // the audit entry
      if !recorded || failed {
        FailAfterActivation(activation, previous);
        return;
      }
      ok := true;
    }

    // -------------------------------------------------------------- update and rollback

    /** The gates in front of Update and Rollback. */
    method Admit() returns (refusal: Option<Refusal>)
      modifies `latch, files`faults
      ensures refusal.None? ==> !old(Closed()) && !degraded && !endpointPending && settings.managed && latch == old(latch)
      ensures latch == old(latch) || (latch && files.disk.marker)
      ensures files.faults >= old(files.faults)
      ensures files.faults == old(files.faults) ==>
        (refusal.None? <==> !endpointPending && settings.managed && !old(Closed()) && !degraded)
    {
      var failed := files.Fault();   // the coordinator
      if failed {
        return Some(Busy);
      }
      failed := files.Fault();
      if failed {
        return Some(Failure);
      }
      if endpointPending {
        return Some(RestartRequired);
      }
      failed := files.Fault();
      if failed {
        return Some(Failure);
      }
      if !settings.managed {
        return Some(External);
      }
      var blocked := SafetyBlocked();
      return if blocked.None? then Some(Failure) else if blocked.value then Some(Degraded) else None;
    }

    /**
     * checkLocked: resolve the channel's newest release and schedule the next check. `answered` tells whether the
     * channel could be asked; if not, the check counts as made all the same.
     */
    method CheckLocked(identity: string, now: int) returns (resolved: bool, ghost answered: bool)
      modifies `saved, files`faults
      ensures saved == old(saved)
           || saved == old(saved).(lastCheck := Some(now), nextCheck := Some(now + settings.interval))
           || saved == old(saved).(available := Some(identity), lastCheck := Some(now), nextCheck := Some(now + settings.interval))
      ensures resolved ==>
        saved == old(saved).(available := Some(identity), lastCheck := Some(now), nextCheck := Some(now + settings.interval))
      ensures files.faults >= old(files.faults) && (files.faults == old(files.faults) ==> resolved)
      ensures resolved ==> answered
      ensures !answered && files.faults <= old(files.faults) + 1 ==>
        saved == old(saved).(lastCheck := Some(now), nextCheck := Some(now + settings.interval))
    {
      var unresolved := files.Fault();
      answered := !unresolved;
      var failed := files.Fault();
      resolved := false;
      if failed {
        return;
      }
      var next := saved.(lastCheck := Some(now), nextCheck := Some(now + settings.interval));
      if unresolved {
        var recorded := Save(next);
        return;
      }
      resolved := Save(next.(available := Some(identity)));
      if resolved {
        failed := files.Fault();
        resolved := !failed;
      }
    }

    /** recordUpdateFailure and clearUpdateMarker: best effort, and neither touches the recorded core. */
    method EndProgress()
      modifies `saved, files`faults
      ensures saved == old(saved) || saved == old(saved).(inProgress := false)
      ensures files.faults >= old(files.faults)
      ensures files.faults == old(files.faults) ==> saved == old(saved).(inProgress := false)
    {
      var failed := files.Fault();
      if !failed {
        var recorded := Save(saved.(inProgress := false));
      }
    }

    /** Files.Current(): an I/O error is an error other than "not there". */
    method Inspect() returns (found: Inspection)
      modifies files`faults
      ensures found == files.CurrentTree() || found.Invalid?
      ensures files.faults >= old(files.faults)
      ensures files.faults == old(files.faults) ==> found == files.CurrentTree()
    {
      var failed := files.Fault();
      return if failed then Invalid else files.CurrentTree();
    }

    /**
     * Install the channel's newest release. `identity` is what the channel resolves to, `release` the tree its asset
     * unpacks to, and `name` the name a backup made now would get. `forgot` tells whether the saved state could not be
     * read back in front of a no-op's save.
     */
    method Update(identity: string, release: string, name: int, now: int, ghost tree: string)
      returns (outcome: Outcome, ghost forgot: bool)
      requires Valid() && Unused(files.disk.backups, name)
      modifies `saved, `runtime, `latch, `degraded, files`disk, files`trace, files`swaps, files`faults
      ensures Valid() && |old(files.trace)| <= |files.trace|
      ensures old(Closed()) || old(degraded) || endpointPending || !settings.managed ==> outcome.Failed? && Untouched()
      ensures outcome.Installed? ==>
        files.swaps > old(files.swaps) && InService(outcome.manifest) && outcome.manifest.compressed == identity
      ensures outcome.Unchanged? ==>
        && files.disk == old(files.disk) && runtime == old(runtime) && files.swaps == old(files.swaps)
        && latch == old(latch) && degraded == old(degraded) && files.CurrentTree() == Sound(outcome.manifest)
      // a no-op records the check that found it, exactly unless the state read back before was lost
      ensures outcome.Unchanged? ==> saved == AfterNoOp(outcome.manifest, identity, now, settings.interval, forgot)
      ensures forgot ==> !outcome.Installed? && files.faults > old(files.faults)
      ensures outcome.Failed? ==> Compensated(old(files.disk), old(files.CurrentTree()), old(files.swaps), old(saved.current), old(runtime))
      // one failed sub-step alone is undone wherever retention spares the previous core
      ensures files.swaps == old(files.swaps) && files.faults <= old(files.faults) + 1 && HasCore(old(files.disk)) ==>
        files.disk == old(files.disk).(staging := files.disk.staging)
      ensures files.swaps > old(files.swaps) ==>
        files.faults >= old(files.faults) + Price(!outcome.Failed?, old(files.CurrentTree()).Sound? && Spares(old(files.disk), name))
      ensures files.faults <= old(files.faults) + 1 && old(files.CurrentTree()).Sound? && Spares(old(files.disk), name) ==>
        (outcome.Failed? && files.swaps > old(files.swaps) ==> !latch && PutBack(old(files.disk), Some(old(files.CurrentTree()).manifest)))
      ensures outcome.Installed? ==>
        saved == CoreState(Some(outcome.manifest), Some(identity), Some(now), Some(now + settings.interval), false)
      ensures old(files.Kept(tree)) && Watched(old(files.disk), name, tree) ==> files.Kept(tree)
      ensures files.swaps >= old(files.swaps) && files.faults >= old(files.faults)
      ensures old(Closed()) ==> Closed()
      // without faults no update is left marked as in progress
      ensures files.faults == old(files.faults) ==> !saved.inProgress || saved == old(saved)
      ensures files.faults == old(files.faults) ==>
        (!outcome.Failed? <==>
           !old(Closed()) && !old(degraded) && !endpointPending && settings.managed && !old(files.CurrentTree()).Invalid?
           && (Served(old(files.CurrentTree()), identity)
               || (Genuine(release, identity) && (old(files.CurrentTree()).Missing? ==> !HasCore(old(files.disk))))))
      ensures files.faults == old(files.faults) ==> files.disk.staging == old(files.disk).staging
    {
      hide FileStore.Kept, FileStore.Valid;
      forgot := false;
      var refusal := Admit();
      if refusal.Some? {
        outcome := Failed(refusal.value);
        return;
      }
      var failed := files.Fault();
      outcome := Failed(Failure);
      if failed {
        return;
      }
      var started := Save(saved.(inProgress := true));
      if !started {
        return;
      }
      outcome, forgot := UpdateAdmitted(identity, release, name, now, tree);
      EndProgress();
    }

    /** Current already is the resolved release. */
    predicate Served(current: Inspection, identity: string) {
      current.Sound? && current.manifest.compressed == identity
    }

    /** The downloaded tree is what the release identity promised. */
    predicate Genuine(release: string, identity: string) {
      files.inspect(release).Sound? && files.inspect(release).manifest.compressed == identity
    }

    /** There is no core in the way, or one that validates. */
    predicate CanMoveAside()
      reads files`disk
    {
      HasCore(files.disk) ==> files.CurrentTree().Sound?
    }

    /** How an operation may fail: before the swap nothing but the disk path changed; after it, put back or closed. */
    ghost predicate Compensated(before: Disk, previous: Inspection, swaps: nat, recorded: Option<Manifest>, ran: Runtime)
      reads `latch, `runtime, `saved, files`disk, files`swaps
    {
      if files.swaps == swaps then
        && (files.disk.current == before.current || files.disk.current.None?) && files.disk.marker == before.marker
        && (saved.current == recorded || (previous.Sound? && saved.current == Some(previous.manifest)))
        && runtime == ran
      else
        latch || (previous.Sound? && PutBack(before, Some(previous.manifest)))
    }

    method UpdateAdmitted(identity: string, release: string, name: int, now: int, ghost tree: string)
      returns (outcome: Outcome, ghost forgot: bool)
      requires Valid() && Unused(files.disk.backups, name) && !latch && !files.disk.marker
      modifies `saved, `runtime, `latch, `degraded, files`disk, files`trace, files`swaps, files`faults
      ensures Valid() && |old(files.trace)| <= |files.trace|
      ensures outcome.Installed? ==>
        files.swaps > old(files.swaps) && InService(outcome.manifest) && outcome.manifest.compressed == identity
      ensures outcome.Unchanged? ==>
        && files.disk == old(files.disk) && runtime == old(runtime) && files.swaps == old(files.swaps)
        && latch == old(latch) && degraded == old(degraded) && files.CurrentTree() == Sound(outcome.manifest)
      // a no-op records the check that found it, exactly unless the state read back before was lost
      ensures outcome.Unchanged? ==> saved == AfterNoOp(outcome.manifest, identity, now, settings.interval, forgot)
      ensures forgot ==> !outcome.Installed? && files.faults > old(files.faults)
      ensures outcome.Failed? ==> Compensated(old(files.disk), old(files.CurrentTree()), old(files.swaps), old(saved.current), old(runtime))
      ensures files.swaps == old(files.swaps) && files.faults <= old(files.faults) + 1 && HasCore(old(files.disk)) ==>
        files.disk == old(files.disk).(staging := files.disk.staging)
      ensures files.swaps > old(files.swaps) ==>
        files.faults >= old(files.faults) + Price(!outcome.Failed?, old(files.CurrentTree()).Sound? && Spares(old(files.disk), name))
      ensures outcome.Installed? ==>
        saved == CoreState(Some(outcome.manifest), Some(identity), Some(now), Some(now + settings.interval), false)
      ensures old(files.Kept(tree)) && Watched(old(files.disk), name, tree) ==> files.Kept(tree)
      ensures files.swaps >= old(files.swaps) && files.faults >= old(files.faults)
      ensures files.faults == old(files.faults) ==>
        (!outcome.Failed? <==>
           !old(files.CurrentTree()).Invalid?
           && (Served(old(files.CurrentTree()), identity)
               || (Genuine(release, identity) && (old(files.CurrentTree()).Missing? ==> !HasCore(old(files.disk))))))
      ensures files.faults == old(files.faults) ==> files.disk.staging == old(files.disk).staging
    {
      hide FileStore.Kept, FileStore.Valid, MovedAside, Last;
      outcome, forgot := Failed(Failure), false;
      ghost var answered;
      var resolved;
      resolved, answered := CheckLocked(identity, now);
      if !resolved {
        EndProgress();
        return;
      }
      var current := Inspect();
      if Served(current, identity) {
        var failed := files.Fault();
        forgot := failed;
        var base := if failed then NOTHING_SAVED else saved;
        var recorded := Save(base.(current := Some(current.manifest), inProgress := false));
        outcome := if recorded then Unchanged(current.manifest) else Failed(Failure);
        return;
      }
      if current.Invalid? {
        EndProgress();
        return;
      }
      outcome := InstallRelease(identity, release, current, name, tree);
    }

    /** Download, unpack, run and validate the candidate in staging. */
    method StageRelease(identity: string, release: string, ghost tree: string) returns (staged: Option<nat>)
      requires Valid()
      modifies files`disk, files`trace, files`faults
      ensures Valid() && |old(files.trace)| <= |files.trace| && (old(files.Kept(tree)) ==> files.Kept(tree))
      ensures files.disk == old(files.disk).(staging := files.disk.staging)
      ensures staged.Some? ==>
        && staged.value !in old(files.disk).staging && files.disk.staging == old(files.disk).staging[staged.value := release]
        && Genuine(release, identity)
      ensures staged.None? && files.faults == old(files.faults) ==> files.disk.staging == old(files.disk).staging
      ensures files.faults >= old(files.faults)
      ensures files.faults == old(files.faults) ==> (staged.Some? <==> Genuine(release, identity))
    {
      hide FileStore.Kept, FileStore.Valid;
      staged := files.Stage(release, tree);
      if staged.Some? {
        var failed := files.Fault();
        if failed || !Genuine(release, identity) {
          files.RemoveStage(staged.value, tree);
          staged := None;
        }
      }
    }

    /** Download into staging, validate the candidate, install it. */
    method InstallRelease(identity: string, release: string, current: Inspection, name: int, ghost tree: string)
      returns (outcome: Outcome)
      requires Valid() && Unused(files.disk.backups, name) && !latch && !files.disk.marker
      requires !current.Invalid? && current == files.CurrentTree()
      modifies `saved, `runtime, `latch, `degraded, files`disk, files`trace, files`swaps, files`faults
      ensures Valid() && |old(files.trace)| <= |files.trace| && !outcome.Unchanged?
      ensures outcome.Installed? ==>
        files.swaps > old(files.swaps) && InService(outcome.manifest) && outcome.manifest.compressed == identity
      ensures outcome.Failed? ==> Compensated(old(files.disk), current, old(files.swaps), old(saved.current), old(runtime))
      ensures files.swaps == old(files.swaps) && files.faults <= old(files.faults) + 1 && HasCore(old(files.disk)) ==>
        files.disk == old(files.disk).(staging := files.disk.staging)
      ensures files.swaps > old(files.swaps) ==>
        files.faults >= old(files.faults) + Price(!outcome.Failed?, old(files.CurrentTree()).Sound? && Spares(old(files.disk), name))
      ensures outcome.Installed? ==>
        saved == old(saved).(current := Some(outcome.manifest), available := Some(identity), inProgress := false)
      ensures old(files.Kept(tree)) && Watched(old(files.disk), name, tree) ==> files.Kept(tree)
      ensures files.swaps >= old(files.swaps) && files.faults >= old(files.faults)
      ensures files.faults == old(files.faults) ==>
        (!outcome.Failed? <==> Genuine(release, identity) && (current.Missing? ==> !HasCore(old(files.disk))))
      ensures files.faults == old(files.faults) ==> files.disk.staging == old(files.disk).staging
    {
      hide FileStore.Kept, FileStore.Valid, MovedAside, Last;
      var staged := StageRelease(identity, release, tree);
      if staged.None? {
        EndProgress();
        return Failed(Failure);
      }
      var manifest := files.inspect(release).manifest;
      var previous := if current.Sound? then Some(current.manifest) else None;
      var installed := Install(staged.value, previous, manifest, true, name, tree);
      if !installed {
        EndProgress();
      }
      files.RemoveStage(staged.value, tree);
      return if installed then Installed(manifest) else Failed(Failure);
    }

    /** Put the newest sound backup back into service. */
    method Rollback(name: int, ghost tree: string) returns (outcome: Outcome)
      requires Valid() && Unused(files.disk.backups, name)
      modifies `saved, `runtime, `latch, `degraded, files`disk, files`trace, files`swaps, files`faults
      ensures Valid() && |old(files.trace)| <= |files.trace| && !outcome.Unchanged?
      ensures old(Closed()) || old(degraded) || endpointPending || !settings.managed ==> outcome.Failed? && Untouched()
      ensures outcome.Installed? ==>
        && InService(outcome.manifest)
        && files.disk.current.Some?
        && exists b :: b in old(files.disk).backups && old(files.NewestSound(b)) && b.tree == files.disk.current.value
      ensures outcome.Failed? ==> Compensated(old(files.disk), old(files.CurrentTree()), old(files.swaps), old(saved.current), old(runtime))
      // one failed sub-step alone is undone wherever retention spares the previous core
      ensures files.swaps == old(files.swaps) && files.faults <= old(files.faults) + 1 && HasCore(old(files.disk)) ==>
        files.disk == old(files.disk).(staging := files.disk.staging)
      ensures files.swaps > old(files.swaps) ==>
        files.faults >= old(files.faults) + Price(!outcome.Failed?, old(files.CurrentTree()).Sound? && Spares(old(files.disk), name))
      ensures files.faults <= old(files.faults) + 1 && old(files.CurrentTree()).Sound? && Spares(old(files.disk), name) ==>
        (outcome.Failed? && files.swaps > old(files.swaps) ==> !latch && PutBack(old(files.disk), Some(old(files.CurrentTree()).manifest)))
      ensures outcome.Installed? ==> saved == old(saved).(current := Some(outcome.manifest))
      ensures old(files.Kept(tree)) && Watched(old(files.disk), name, tree) ==> files.Kept(tree)
      ensures files.swaps >= old(files.swaps) && files.faults >= old(files.faults)
      ensures old(Closed()) ==> Closed()
      // without faults it succeeds exactly if it is let in, finds a sound backup and a core it can move aside
      ensures files.faults == old(files.faults) ==>
        (outcome.Installed? <==>
           !old(Closed()) && !old(degraded) && !endpointPending && settings.managed
           && old(CanMoveAside()) && exists b :: b in old(files.disk).backups && files.inspect(b.tree).Sound?)
      ensures files.faults == old(files.faults) ==> files.disk.staging == old(files.disk).staging
    {
      hide FileStore.Kept, FileStore.Valid, MovedAside, Last;
      var refusal := Admit();
      if refusal.Some? {
        return Failed(refusal.value);
      }
      var newest := files.LatestBackup();
      if newest.None? {
        return Failed(NoBackup);
      }
      outcome := InstallBackup(newest.value, name, tree);
    }

    method InstallBackup(newest: Backup, name: int, ghost tree: string) returns (outcome: Outcome)
      requires Valid() && Unused(files.disk.backups, name) && !latch && !files.disk.marker
      requires newest in files.disk.backups && files.inspect(newest.tree).Sound?
      modifies `saved, `runtime, `latch, `degraded, files`disk, files`trace, files`swaps, files`faults
      ensures Valid() && |old(files.trace)| <= |files.trace| && !outcome.Unchanged?
      ensures outcome.Installed? ==> InService(outcome.manifest) && files.disk.current == Some(newest.tree)
      ensures outcome.Failed? ==> Compensated(old(files.disk), old(files.CurrentTree()), old(files.swaps), old(saved.current), old(runtime))
      ensures files.swaps == old(files.swaps) && files.faults <= old(files.faults) + 1 && HasCore(old(files.disk)) ==>
        files.disk == old(files.disk).(staging := files.disk.staging)
      ensures files.swaps > old(files.swaps) ==>
        files.faults >= old(files.faults) + Price(!outcome.Failed?, old(files.CurrentTree()).Sound? && Spares(old(files.disk), name))
      ensures outcome.Installed? ==> saved == old(saved).(current := Some(outcome.manifest))
      ensures old(files.Kept(tree)) && Watched(old(files.disk), name, tree) ==> files.Kept(tree)
      ensures files.swaps >= old(files.swaps) && files.faults >= old(files.faults)
      ensures files.faults == old(files.faults) ==> (outcome.Installed? <==> old(CanMoveAside()))
      ensures files.faults == old(files.faults) ==> files.disk.staging == old(files.disk).staging
    {
      hide FileStore.Kept, FileStore.Valid, MovedAside, Last;
      NothingIsMissing(files);
      FoundByName(files, newest);
      var staged := files.StageBackup(newest.name, tree);
      if staged.None? {
        return Failed(Failure);
      }
      var manifest := files.inspect(newest.tree).manifest;
      var current := Inspect();
      var previous := if current.Sound? then Some(current.manifest) else None;
      var installed := Install(staged.value, previous, manifest, false, name, tree);
      files.RemoveStage(staged.value, tree);
      return if installed then Installed(manifest) else Failed(Failure);
    }

    // -------------------------------------------------------------- installing without a running system

    /** An installed core releases what the process has latched, together with the marker, and nothing else. */
    predicate Released(latched: bool, marked: bool)
      reads `latch, files`disk
    {
      !latch && files.disk.marker == (marked && !latched)
    }

    /** The common end of Bootstrap and AdoptExternal: no restart, and the only way out of the fail-closed latch. */
    method InstallOffline(content: string, manifest: Manifest, name: int, ghost tree: string) returns (ok: bool)
      requires Valid() && Unused(files.disk.backups, name) && files.inspect(content) == Sound(manifest)
      modifies `saved, `latch, files`disk, files`trace, files`swaps, files`faults
      ensures Valid() && |old(files.trace)| <= |files.trace|
      ensures old(files.Kept(tree)) && Watched(old(files.disk), name, tree) ==> files.Kept(tree)
      ensures ok ==> files.disk.current == Some(content) && saved.current == Some(manifest)
      ensures !ok ==> latch == old(latch) && files.disk.marker == old(files.disk.marker)
      ensures old(Closed()) && !Closed() ==> ok && old(latch)
      ensures !old(latch) ==> latch == old(latch) && files.disk.marker == old(files.disk.marker)
      ensures ok && !latch && old(latch) ==> !files.disk.marker
      ensures files.swaps >= old(files.swaps) && files.faults >= old(files.faults)
      // one failed sub-step alone leaves the previous core, or its absence
      ensures !ok && files.faults <= old(files.faults) + 1 && (HasCore(old(files.disk)) ==> Spares(old(files.disk), name)) ==>
        KeptCore(old(files.disk), files.disk)
      ensures files.faults == old(files.faults) ==> (ok <==> old(CanMoveAside()))
      ensures files.faults == old(files.faults) && ok ==> Released(old(latch), old(files.disk.marker))
    {
      hide FileStore.Kept, FileStore.Valid, FileStore.Restorable, Last, MovedAside, Remembered, NewerThan, RestoredFrom, Find, Ascending;
      ok := false;
      var staged := files.Stage(content, tree);
      if staged.None? {
        return;
      }
      ghost var before := files.disk;
      BackupsAscend(files);
      var activation, activated := files.Activate(staged.value, name, tree);
      ghost var previous := if HasCore(before) && files.inspect(before.current.value).Sound?
                            then Some(files.inspect(before.current.value).manifest) else None;
      if !activated {
        if activation.activated {
          RevertOffline(before, activation, name, tree);
        }
        files.RemoveStage(staged.value, tree);
        return;
      }
      Undone(files, before, activation, name, tree);
      SparedIsRecoverable(this, before, activation, previous, name);
      ghost var middle, faults := files.disk, files.faults;
      ok := RecordOffline(activation, manifest, tree);
      if !ok && files.faults <= faults + 1 && (HasCore(before) ==> Spares(before, name)) {
        RevertedKeeps(before, middle, files.disk, activation);
      }
      files.RemoveStage(staged.value, tree);
    }

    /** Take back a core whose activation did not come to its end. */
    method RevertOffline(ghost before: Disk, activation: Activation, ghost name: int, ghost tree: string)
      requires Valid() && activation.activated && Ascending(before.backups, ByName) && Unused(before.backups, name)
      requires activation.backup == (if HasCore(before) then Some(name) else None)
      requires Last(files.disk.backups, KEPT_BACKUPS) == Last(MovedAside(before, name), KEPT_BACKUPS)
      requires files.OnlyLoses(MovedAside(before, name), files.disk.backups)
      requires files.disk.current.Some? && (HasCore(before) ==> files.inspect(before.current.value).Sound?)
      modifies files`disk, files`trace, files`faults
      ensures Valid() && |old(files.trace)| <= |files.trace| && files.disk.marker == old(files.disk.marker)
      ensures old(files.Kept(tree)) && Watched(before, name, tree) ==> files.Kept(tree)
      ensures files.faults >= old(files.faults)
      ensures files.faults == old(files.faults) && (HasCore(before) ==> Spares(before, name)) ==> KeptCore(before, files.disk)
    {
      hide FileStore.Kept, FileStore.Valid, FileStore.Restorable, FileStore.OnlyLoses, Last, MovedAside, Remembered, NewerThan, RestoredFrom, Find,
        Ascending;
      ghost var middle := files.disk;
      ghost var previous := if HasCore(before) then Some(files.inspect(before.current.value).manifest) else None;
      Undone(files, before, activation, name, tree);
      SparedIsRecoverable(this, before, activation, previous, name);
      var reverted := files.RevertActivation(activation);
      if reverted {
        RevertedKeeps(before, middle, files.disk, activation);
      }
    }

    /** The installed core goes on record or is reverted; a set latch is released with its marker. */
    method RecordOffline(activation: Activation, manifest: Manifest, ghost tree: string) returns (ok: bool)
      requires Valid() && activation.activated
      modifies `saved, `latch, files`disk, files`trace, files`faults
      ensures Valid() && |old(files.trace)| <= |files.trace|
      ensures ok ==> saved.current == Some(manifest) && files.disk.current == old(files.disk).current
      ensures !ok ==> latch == old(latch) && files.disk.marker == old(files.disk.marker)
      ensures !old(latch) ==> latch == old(latch) && files.disk.marker == old(files.disk.marker)
      ensures old(Closed()) && !Closed() ==> ok && old(latch)
      ensures ok && !latch && old(latch) ==> !files.disk.marker
      ensures ok || Remembered(old(files.disk), activation, tree) ==> old(files.Kept(tree)) ==> files.Kept(tree)
      ensures files.faults >= old(files.faults)
      ensures files.faults == old(files.faults) ==> ok && Released(old(latch), old(files.disk.marker))
      // one failed sub-step alone is undone
      ensures !ok && files.faults <= old(files.faults) + 1 && old(files.disk.current).Some? ==>
        && (activation.backup.None? ==> files.disk == old(files.disk).(current := None))
        && (old(files.Restorable(activation)) ==> RestoredFrom(old(files.disk), files.disk, activation))
    {
      hide FileStore.Kept, FileStore.Valid, Last, MovedAside, Remembered;
      var failed := files.Fault();
      ok := false;
      if !failed {
        ok := Save(saved.(current := Some(manifest)));
      }
      if !ok {
        var reverted := files.RevertActivation(activation);
      } else if latch {
        var cleared := files.SetMarker(false, tree);
        if cleared {
          latch := false;
        }
      }
    }

    /** The current core already is this binary. */
    predicate SameBinary(content: string)
      reads files`disk
    {
      && files.CurrentTree().Sound? && files.inspect(content).Sound?
      && files.CurrentTree().manifest.binary == files.inspect(content).manifest.binary
    }

    method Bootstrap(content: string, name: int, ghost tree: string) returns (outcome: Outcome)
      requires Valid() && Unused(files.disk.backups, name)
      modifies `saved, `latch, files`disk, files`trace, files`swaps, files`faults
      ensures Valid() && |old(files.trace)| <= |files.trace|
      ensures old(files.Kept(tree)) && Watched(old(files.disk), name, tree) ==> files.Kept(tree)
      ensures outcome.Installed? ==>
        && files.disk.current == Some(content) && files.inspect(content) == Sound(outcome.manifest)
        && saved.current == Some(outcome.manifest)
      ensures outcome.Unchanged? ==> files.CurrentTree() == Sound(outcome.manifest)
      ensures !outcome.Installed? ==> latch == old(latch) && files.disk.marker == old(files.disk.marker)
      ensures old(Closed()) && !Closed() ==> outcome.Installed? && old(latch)
      ensures files.swaps >= old(files.swaps) && files.faults >= old(files.faults)
      ensures files.faults == old(files.faults) ==>
        (outcome.Installed? <==> files.inspect(content).Sound? && old(CanMoveAside()) && !old(SameBinary(content)))
      ensures files.faults == old(files.faults) && outcome.Installed? ==> Released(old(latch), old(files.disk.marker))
      // one failed sub-step alone leaves the previous core, or its absence
      ensures !outcome.Installed? && files.faults <= old(files.faults) + 1 && (HasCore(old(files.disk)) ==> Spares(old(files.disk), name)) ==>
        KeptCore(old(files.disk), files.disk)
    {
      hide FileStore.Kept, FileStore.Valid;
      var failed := files.Fault();   // the coordinator, then reading the source tree
      if failed || !files.inspect(content).Sound? {
        return Failed(Failure);
      }
      var manifest := files.inspect(content).manifest;
      var current := Inspect();
      if current.Sound? && current.manifest.binary == manifest.binary {
        return Unchanged(current.manifest);
      }
      failed := files.Fault();   // run and validate the candidate
      if failed {
        return Failed(Failure);
      }
      var ok := InstallOffline(content, manifest, name, tree);
      return if ok then Installed(manifest) else Failed(Failure);
    }

    method AdoptExternal(content: string, name: int, ghost tree: string) returns (outcome: Outcome)
      requires Valid() && Unused(files.disk.backups, name)
      modifies `saved, `latch, files`disk, files`trace, files`swaps, files`faults
      ensures Valid() && |old(files.trace)| <= |files.trace|
      ensures old(files.Kept(tree)) && Watched(old(files.disk), name, tree) ==> files.Kept(tree)
      ensures outcome.Installed? ==>
        && files.disk.current == Some(content) && files.inspect(content) == Sound(outcome.manifest)
        && saved.current == Some(outcome.manifest)
      ensures outcome.Unchanged? ==> files.disk == old(files.disk) && files.CurrentTree() == Sound(outcome.manifest)
      ensures !outcome.Installed? ==> latch == old(latch) && files.disk.marker == old(files.disk.marker)
      ensures old(Closed()) && !Closed() ==> outcome.Installed? && old(latch)
      ensures files.swaps >= old(files.swaps) && files.faults >= old(files.faults)
      ensures files.faults == old(files.faults) ==>
        (outcome.Installed? <==> files.inspect(content).Sound? && !old(HasCore(files.disk)))
      ensures files.faults == old(files.faults) && outcome.Installed? ==> Released(old(latch), old(files.disk.marker))
      // one failed sub-step alone leaves the previous core, or its absence
      ensures !outcome.Installed? && files.faults <= old(files.faults) + 1 && (HasCore(old(files.disk)) ==> Spares(old(files.disk), name)) ==>
        KeptCore(old(files.disk), files.disk)
    {
      hide FileStore.Kept, FileStore.Valid;
      NothingIsMissing(files);
      var failed := files.Fault();
      if failed {
        return Failed(Busy);
      }
      var current := Inspect();
      if current.Sound? {
        return Unchanged(current.manifest);
      }
      failed := files.Fault();
      if failed || !files.inspect(content).Sound? {
        return Failed(Failure);
      }
      var manifest := files.inspect(content).manifest;
      var ok := InstallOffline(content, manifest, name, tree);
      return if ok then Installed(manifest) else Failed(Failure);
    }

    // -------------------------------------------------------------- start, settings and the scheduler

    /** A new m-ui process: memory is gone. */
    method Restart()
      modifies `latch, `runtime
      ensures !latch && runtime.Unverified?
    {
      latch, runtime := false, Unverified;
    }

    /** Recover: clean staging, take the durable marker back into memory, put the installed core on record. */
    method Recover(ghost tree: string) returns (ok: bool)
      requires Valid()
      modifies `saved, `latch, `degraded, files`disk, files`trace, files`faults
      ensures Valid() && |old(files.trace)| <= |files.trace| && (old(files.Kept(tree)) ==> files.Kept(tree))
      ensures files.disk == old(files.disk).(staging := files.disk.staging)
      ensures latch == old(latch) || (latch && files.disk.marker)
      ensures degraded == old(degraded) || (degraded && files.disk.marker)
      // of the saved state only the current core and the progress mark are rewritten
      ensures saved == old(saved).(current := saved.current, inProgress := saved.inProgress)
      ensures ok ==>
        && files.disk.staging == map[] && !saved.inProgress
        && (files.disk.marker ==> latch && degraded)
        && saved.current == (if files.CurrentTree().Sound? then Some(files.CurrentTree().manifest) else old(saved.current))
      ensures files.faults >= old(files.faults)
      ensures files.faults == old(files.faults) ==> (ok <==> !old(files.CurrentTree()).Invalid?)
    {
      hide FileStore.Kept, FileStore.Valid;
      var failed := files.Fault();
      if failed {
        return false;
      }
      ok := files.Recover(tree);
      if !ok {
        return;
      }
      var marked := files.FailClosed();
      if marked.None? {
        return false;
      }
      if marked.value {
        latch := true;
        failed := files.Fault();
        var applied: bool := *;
        degraded := degraded || !failed || applied;
        if failed {
          return false;
        }
      }
      failed := files.Fault();
      if failed {
        return false;
      }
      var current := Inspect();
      if current.Invalid? {
        return false;
      }
      var next := saved.(inProgress := false);
      ok := Save(if current.Sound? then next.(current := Some(current.manifest)) else next);
    }

    method Check(identity: string, now: int) returns (resolved: bool)
      requires Valid()
      modifies `saved, `latch, files`faults
      ensures old(Closed()) || degraded || !settings.managed ==> !resolved && Untouched()
      ensures latch == old(latch) || (latch && files.disk.marker)
      ensures saved.current == old(saved.current)
      ensures resolved ==>
        saved == old(saved).(available := Some(identity), lastCheck := Some(now), nextCheck := Some(now + settings.interval))
      ensures files.faults >= old(files.faults)
      ensures files.faults == old(files.faults) ==> (resolved <==> settings.managed && !old(Closed()) && !degraded)
    {
      var failed := files.Fault();
      if failed || !settings.managed {
        return false;
      }
      var blocked := SafetyBlocked();
      if blocked != Some(false) {
        return false;
      }
      ghost var answered;
      resolved, answered := CheckLocked(identity, now);
    }

    /** UpdateSettings: channel, automation and interval may change, the installation mode may not. */
    method UpdateSettings(requested: Settings, now: int) returns (ok: bool)
      requires Valid()
      modifies `settings, `saved, `latch, files`faults
      ensures old(Closed()) || degraded || !old(settings).managed || !Acceptable(requested) ==>
        !ok && settings == old(settings) && saved == old(saved)
      ensures settings.managed == old(settings).managed && saved.current == old(saved).current
      ensures latch == old(latch) || (latch && files.disk.marker)
      ensures ok ==> settings == requested.(managed := true)
      ensures ok ==> (saved.nextCheck.Some? <==> requested.autoUpdate)
      ensures ok && requested.autoUpdate ==>
        && now <= saved.nextCheck.value
        && (requested.channel != old(settings).channel ==> saved.nextCheck.value == now)
        && (requested.channel == old(settings).channel && saved.lastCheck.Some? && saved.lastCheck.value <= now ==>
              saved.nextCheck.value <= now + requested.interval)
        // one interval after the last check, unless that is past
        && (requested.channel == old(settings).channel ==>
              var due := (if old(saved).lastCheck.Some? then old(saved).lastCheck.value else now) + requested.interval;
              saved.nextCheck.value == if due < now then now else due)
      ensures ok ==>
        saved == old(saved).(nextCheck := saved.nextCheck, available := if requested.channel == old(settings).channel then old(saved).available else None)
      ensures ok && requested.channel != old(settings).channel ==> saved.available.None?
      ensures files.faults >= old(files.faults)
      ensures files.faults == old(files.faults) ==>
        (ok <==> Acceptable(requested) && old(settings).managed && !old(Closed()) && !degraded)
    {
      var failed := files.Fault();
      if failed || !Acceptable(requested) || !settings.managed {
        return false;
      }
      var blocked := SafetyBlocked();
      failed := files.Fault();
      if blocked != Some(false) || failed {
        return false;
      }
      var next := requested.(managed := settings.managed);
      var state := if next.channel != settings.channel then saved.(available := None) else saved;
      if !next.autoUpdate {
        state := state.(nextCheck := None);
      } else if next.channel != settings.channel {
        state := state.(nextCheck := Some(now));
      } else {
        var anchor := if state.lastCheck.Some? then state.lastCheck.value else now;
        var at := anchor + next.interval;
        state := state.(nextCheck := Some(if at < now then now else at));
      }
      failed := files.Fault();
      var applied: bool := *;
      if !failed || applied {
        settings, saved := next, state;   // one transaction
      }
      if failed {
        return false;
      }
      failed := files.Fault();   // the audit entry
      ok := !failed;
    }

    method Due(now: int) returns (due: bool)
      requires Valid()
      modifies `latch, files`faults
      ensures old(Closed()) || degraded ==> !due
      ensures due ==> settings.managed && settings.autoUpdate && (saved.nextCheck.None? || saved.nextCheck.value <= now)
      ensures latch == old(latch) || (latch && files.disk.marker)
      ensures files.faults >= old(files.faults)
      ensures files.faults == old(files.faults) ==>
        (due <==> settings.managed && settings.autoUpdate && !old(Closed()) && !degraded
                  && (saved.nextCheck.None? || saved.nextCheck.value <= now))
    {
      var failed := files.Fault();
      if failed || !settings.managed || !settings.autoUpdate {
        return false;
      }
      var blocked := SafetyBlocked();
      failed := files.Fault();
      if blocked != Some(false) || failed {
        return false;
      }
      due := saved.nextCheck.None? || saved.nextCheck.value <= now;
    }
  }

  /** The empty placeholder of a fresh volume counts as no core at all. */
  lemma NothingIsMissing(store: FileStore)
    requires store.Valid()
    ensures !HasCore(store.disk) ==> store.CurrentTree().Missing?
  {
  }

  lemma BackupsAscend(store: FileStore)
    requires store.Valid()
    ensures Ascending(store.disk.backups, ByName)
  {
    assert store.disk in store.trace;
  }

  /** A listed backup is found under its own name. */
  lemma FoundByName(store: FileStore, b: Backup)
    requires store.Valid() && b in store.disk.backups
    ensures Find(store.disk.backups, b.name) == Some(b.tree)
  {
    BackupsAscend(store);
    var found := Find(store.disk.backups, b.name);
    var i :| 0 <= i < |store.disk.backups| && store.disk.backups[i] == b;
    var j :| 0 <= j < |store.disk.backups| && store.disk.backups[j] == Backup(b.name, found.value);
    ByIndex(store.disk.backups, i, j);
  }

  /** What restoring an activation means, in terms of the disk before the activation. */
  lemma Undone(store: FileStore, before: Disk, activation: Activation, name: int, tree: string)
    requires Ascending(before.backups, ByName) && Unused(before.backups, name) && store.Valid()
    requires activation.backup == (if HasCore(before) then Some(name) else None)
    requires Last(store.disk.backups, KEPT_BACKUPS) == Last(MovedAside(before, name), KEPT_BACKUPS)
    requires store.OnlyLoses(MovedAside(before, name), store.disk.backups)
    ensures store.Restorable(activation) ==> Find(store.disk.backups, name) == before.current
    ensures Watched(before, name, tree) ==> Remembered(store.disk, activation, tree)
  {
    if HasCore(before) {
      var x := Backup(name, before.current.value);
      SparedExactly(before.backups, x, KEPT_BACKUPS);
      assert store.disk in store.trace;
      forall b, c | b in store.disk.backups && c in store.disk.backups && b.name == c.name ensures b == c {
        var i :| 0 <= i < |store.disk.backups| && store.disk.backups[i] == b;
        var j :| 0 <= j < |store.disk.backups| && store.disk.backups[j] == c;
        ByIndex(store.disk.backups, i, j);
      }
      assert forall b :: b in Last(store.disk.backups, KEPT_BACKUPS) ==> b in store.disk.backups;
    }
  }

  /** An installed core is still the current one; where there was none there still is none. */
  predicate KeptCore(before: Disk, after: Disk) {
    if HasCore(before) then after.current == before.current else !HasCore(after)
  }

  lemma RevertedKeeps(before: Disk, middle: Disk, after: Disk, activation: Activation)
    requires activation.backup.Some? <==> HasCore(before)
    requires HasCore(before) ==> RestoredFrom(middle, after, activation) && Find(middle.backups, activation.backup.value) == before.current
    requires !HasCore(before) ==> after == middle.(current := None)
    ensures KeptCore(before, after)
  {
  }

  /** A sound previous core that retention spares can be put back. */
  lemma SparedIsRecoverable(manager: Manager, before: Disk, activation: Activation, previous: Option<Manifest>, name: int)
    requires Ascending(before.backups, ByName) && Unused(before.backups, name) && manager.Valid()
    requires activation.backup == (if HasCore(before) then Some(name) else None)
    requires Last(manager.files.disk.backups, KEPT_BACKUPS) == Last(MovedAside(before, name), KEPT_BACKUPS)
    requires manager.files.OnlyLoses(MovedAside(before, name), manager.files.disk.backups)
    requires previous.Some? ==> before.current.Some? && manager.files.inspect(before.current.value) == Sound(previous.value)
    requires manager.files.disk.current.Some?
    ensures previous.Some? && Spares(before, name) ==> manager.Recoverable(activation, previous)
  {
    hide Last, Ascending, MovedAside, FileStore.OnlyLoses;
    if previous.Some? && Spares(before, name) {
      Undone(manager.files, before, activation, name, before.current.value);
    }
  }

  lemma RememberedTree(d: Disk, activation: Activation, tree: string)
    requires activation.backup.Some? && Find(d.backups, activation.backup.value).Some? ==>
      tree == Find(d.backups, activation.backup.value).value
    ensures forall t :: Remembered(d, activation, t) ==> t == tree
  {
  }

  // ---------------------------------------------------------------- across operations

  /**
   * What a no-op does to the schedule: the scheduler asks again after the interval, or at once if the update lost the
   * saved state.
   */
  method UpdateThenDue(manager: Manager, identity: string, release: string, name: int, now: int, later: int)
    returns (outcome: Outcome, due: bool, ghost forgot: bool, ghost updated: nat)
    requires manager.Valid() && Unused(manager.files.disk.backups, name)
    modifies manager`saved, manager`runtime, manager`latch, manager`degraded, manager.files`disk, manager.files`trace,
      manager.files`swaps, manager.files`faults
    ensures old(manager.files.faults) <= updated <= manager.files.faults
    ensures outcome.Unchanged? && manager.files.faults == updated ==>
      (due <==> manager.settings.autoUpdate && (forgot || now + manager.settings.interval <= later))
    ensures forgot ==> updated > old(manager.files.faults)
  {
    hide FileStore.Kept, FileStore.Valid, MovedAside, Last, Watched, Ascending, Manager.Compensated, Manager.InService;
    outcome, forgot := manager.Update(identity, release, name, now, "");
    updated := manager.files.faults;
    due := manager.Due(later);
  }

  /** A record that a no-op loses, and what it would have become. */
  lemma NoOpLosesTheRecord(manifest: Manifest)
    ensures var before := CoreState(Some(manifest), Some("alpha-1"), Some(100), Some(21700), false);
      && AfterNoOp(manifest, "alpha-2", 21700, 21600, false) == before.(available := Some("alpha-2"), lastCheck := Some(21700), nextCheck := Some(43300))
      && AfterNoOp(manifest, "alpha-2", 21700, 21600, true) == before.(available := None, lastCheck := None, nextCheck := None)
    ensures forall identity, now, interval ::
      AfterNoOp(manifest, identity, now, interval, true) != AfterNoOp(manifest, identity, now, interval, false)
  {
  }

  /**
   * A process recovers and then bootstraps, as every command and every start does. `meanwhile` tells whether another
   * process fails closed between the two, while nobody holds the coordinator.
   */
  method RecoverThenBootstrap(manager: Manager, content: string, meanwhile: bool, name: int)
    returns (recovered: bool, outcome: Outcome)
    requires manager.Valid() && Unused(manager.files.disk.backups, name)
    modifies manager`saved, manager`latch, manager`degraded, manager.files`disk, manager.files`trace, manager.files`swaps,
      manager.files`faults
    ensures manager.Valid()
    ensures outcome.Installed? ==> recovered && manager.files.disk.current == Some(content)
    // an installed core opens a closed manager, unless the marker came after the process had looked
    ensures outcome.Installed? && manager.files.faults == old(manager.files.faults) ==>
      (manager.Closed() <==> meanwhile && !old(manager.Closed()))
    ensures outcome.Unchanged? || outcome.Failed? ==> (recovered && old(manager.Closed()) ==> manager.Closed())
  {
    hide FileStore.Kept, FileStore.Valid, MovedAside, Last, Watched, Ascending;
    outcome := Failed(Failure);
    recovered := manager.Recover("");
    if recovered {
      if meanwhile {
        BackupsAscend(manager.files);
        manager.files.Step(manager.files.disk.(marker := true), "");
      }
      outcome := manager.Bootstrap(content, name, "");
    }
  }

  /** A restart does not lose the marker: recovering latches again. */
  method RestartLatchesAgain(manager: Manager) returns (recovered: bool)
    requires manager.Valid() && manager.files.disk.marker
    modifies manager, manager.files`disk, manager.files`trace, manager.files`faults
    ensures manager.Closed() && (recovered ==> manager.latch && manager.degraded)
  {
    manager.Restart();
    recovered := manager.Recover("");
  }

  datatype Operation =
    | Updating(identity: string, release: string)
    | RollingBack
    | Checking(identity: string)
    | Configuring(requested: Settings)
    | Scheduling
    | Recovering
    | Restarting
    | Bootstrapping(content: string)
    | Adopting(content: string)

  predicate Offline(operation: Operation) {
    operation.Bootstrapping? || operation.Adopting?
  }

  /** The backup name a new draw of clock and UUID gives: any unused one. */
  method DrawName(files: FileStore) returns (name: int)
    ensures Unused(files.disk.backups, name)
  {
    ghost var names := set b | b in files.disk.backups :: b.name;
    ghost var bound := AboveAll(names);
    assert forall b :: b in files.disk.backups ==> b.name in names;
    assert Unused(files.disk.backups, bound);
    name :| Unused(files.disk.backups, name);
  }

  /** `accepted`: a gated operation did not refuse. `released`: an offline installation succeeded. */
  method Perform(manager: Manager, operation: Operation, now: int) returns (accepted: bool, released: bool)
    requires manager.Valid()
    modifies manager, manager.files`disk, manager.files`trace, manager.files`swaps, manager.files`faults
    ensures manager.Valid()
    ensures old(manager.Closed()) ==> !accepted
    ensures released ==> Offline(operation)
    ensures old(manager.files.disk.marker) && !released ==> manager.files.disk.marker
    ensures old(manager.latch) && !released && !operation.Restarting? ==> manager.latch
    ensures old(manager.degraded) ==> manager.degraded
    // a closed manager: recovery may clean up and put the core there is on record, nothing else may touch anything
    ensures old(manager.Closed()) ==>
      && manager.settings == old(manager.settings)
      && (!operation.Restarting? ==> manager.runtime == old(manager.runtime))
    ensures old(manager.Closed()) && !Offline(operation) ==>
      && manager.files.disk == old(manager.files.disk).(staging := manager.files.disk.staging)
      && manager.saved == old(manager.saved).(current := manager.saved.current, inProgress := manager.saved.inProgress)
      && (!operation.Recovering? ==> manager.files.disk == old(manager.files.disk) && manager.saved == old(manager.saved))
  {
    hide FileStore.Kept, FileStore.Valid, MovedAside, Last, Watched, Ascending, Manager.Compensated, Manager.InService;
    accepted, released := false, false;
    var name := DrawName(manager.files);
    match operation {
      case Updating(identity, release) =>
        ghost var forgot: bool;
        var outcome: Outcome;
        outcome, forgot := manager.Update(identity, release, name, now, "");
        accepted := !outcome.Failed?;
      case RollingBack =>
        var outcome := manager.Rollback(name, "");
        accepted := !outcome.Failed?;
      case Checking(identity) =>
        accepted := manager.Check(identity, now);
      case Configuring(requested) =>
        accepted := manager.UpdateSettings(requested, now);
      case Scheduling =>
        accepted := manager.Due(now);
      case Recovering =>
        var recovered := manager.Recover("");
      case Restarting =>
        manager.Restart();
      case Bootstrapping(content) =>
        var outcome := manager.Bootstrap(content, name, "");
        released := outcome.Installed?;
      case Adopting(content) =>
        var outcome := manager.AdoptExternal(content, name, "");
        released := outcome.Installed?;
    }
  }
}
