/**
 * The service in one piece: core manager, publisher, expiry scheduler and startup reconciliation share one database, and
 * the manager's answer is the safety gate of everything that publishes. What a closed manager keeps shut is proved here.
 */
module FailClosed {
  import opened Sequences
  import DesiredState
  import Expiry
  import CoreFiles
  import CoreManager
  import PublicationModel
  import PublicationHost
  import Publication
  import StartupReconciliation
  import PublicationLifecycle

  type Manager = CoreManager.Manager
  type Host = PublicationHost.Host
  type Reconciler = StartupReconciliation.Reconciler

  /** How the database stores a desired state. */
  datatype Codec = Codec(read: string -> DesiredState.State, write: DesiredState.State -> string)

  const EXPIRY_REASON := "disable expired node users"

  /** Manager and publisher see the same degraded bit. */
  ghost predicate Joined(manager: Manager, reconciler: Reconciler)
    reads manager, manager.files, reconciler.host
  {
    manager.Valid() && reconciler.Valid() && (manager.degraded <==> reconciler.host.db.health.Degraded?)
  }

  /** Everything the components keep, in memory or on disk. */
  datatype Picture = Picture(
    settings: CoreManager.Settings, saved: CoreManager.CoreState, disk: CoreFiles.Disk, core: CoreManager.Runtime,
    db: PublicationModel.Database, files: PublicationModel.Files, runtime: PublicationModel.Runtime)

  ghost function PictureOf(manager: Manager, host: Host): Picture
    reads manager, manager.files, host
  {
    Picture(manager.settings, manager.saved, manager.files.disk, manager.runtime, host.db, host.files, host.runtime)
  }

  // ---------------------------------------------------------------- the gated operations

  /** What the core manager has marked is marked for the publisher; marking again may replace the reason. */
  method ShareDegraded(manager: Manager, host: Host)
    requires host.Valid() && (host.db.health.Degraded? ==> manager.degraded)
    modifies host`db, host`trace
    ensures host.Valid() && old(host.trace) <= host.trace && (old(host.Safe()) ==> host.Safe())
    ensures host.db == old(host.db).(health := host.db.health)
    ensures manager.degraded <==> host.db.health.Degraded?
  {
    var again: bool := *;
    if manager.degraded && (host.db.health.Healthy? || again) {
      var next := PublicationModel.Degraded(false);
      host.LedgerIsSound();
      host.GrowsReflexive(host.db.ledger);
      PublicationModel.HealthFrame(host.db, next);
      host.SetDatabase(host.db.(health := next));
    }
  }

  /** The gate in front of a publication: an answer that cannot be had counts as closed. */
  method PublishGated(manager: Manager, reconciler: Reconciler, request: Publication.Request, now: int)
    returns (result: Publication.Result, ghost id: nat)
    requires Joined(manager, reconciler)
    modifies manager`latch, manager`degraded, manager.files`faults, reconciler.host`db, reconciler.host`files,
      reconciler.host`trace, reconciler.host`faults, reconciler.host`runtime, reconciler.host`safetyBlocked
    ensures Joined(manager, reconciler) && (old(reconciler.host.Safe()) ==> reconciler.host.Safe())
    ensures manager.latch == old(manager.latch) || (manager.latch && manager.files.disk.marker)
    ensures old(manager.Closed()) || old(manager.degraded) ==>
      result.Error? && PictureOf(manager, reconciler.host) == old(PictureOf(manager, reconciler.host))
    ensures var host := reconciler.host;
      Publication.Trichotomy(result, host.env, PublicationModel.Durable(old(host.db), old(host.files)), old(host.runtime),
        PublicationModel.Durable(host.db, host.files), host.runtime, request, Publication.EffectiveAt(request, now), id)
    ensures manager.files.faults >= old(manager.files.faults) && reconciler.host.faults >= old(reconciler.host.faults)
    // without faults the only thing the gate refuses for is a closed manager
    ensures manager.files.faults == old(manager.files.faults) && reconciler.host.faults == old(reconciler.host.faults) ==>
      (result.Success? <==>
         Publication.Publishable(reconciler.host.env, PublicationModel.Durable(old(reconciler.host.db), old(reconciler.host.files)),
                                 old(manager.Closed()), request, now))
  {
    hide Host.Valid, Host.Safe, Manager.Valid, Publication.Trichotomy, Publication.Exposed, PublicationModel.Fresh;
    var host := reconciler.host;
    var answer := manager.SafetyBlocked();
    host.safetyBlocked := answer != Some(false);
    var draw := PublicationLifecycle.Draw(host);
    id := draw;
    result := reconciler.publisher.Publish(request, now, draw);
    manager.degraded := host.db.health.Degraded?;
  }

  /** The batch as a request: what it leaves is the mutation's result, and without a batch the mutation fails. */
  function ExpiryRequest(codec: Codec, batch: Option<DesiredState.State>, restartPending: bool, now: int): Publication.Request {
    var edit := if batch.Some? then Some(Publication.Edit(codec.write(batch.value), restartPending)) else None;
    Publication.Request(EXPIRY_REASON, Some(now), false, (_: string) => edit, false)
  }

  /**
   * RunOnce: the scheduler asks the gate itself, before the publication it starts asks again. `disabled` counts the
   * users of a published batch.
   */
  method ExpireGated(manager: Manager, reconciler: Reconciler, rules: DesiredState.Rules, codec: Codec, now: int)
    returns (published: bool, disabled: nat)
    requires Joined(manager, reconciler)
    modifies manager`latch, manager`degraded, manager.files`faults, reconciler.host`db, reconciler.host`files,
      reconciler.host`trace, reconciler.host`faults, reconciler.host`runtime, reconciler.host`safetyBlocked
    ensures Joined(manager, reconciler) && (old(reconciler.host.Safe()) ==> reconciler.host.Safe())
    ensures manager.latch == old(manager.latch) || (manager.latch && manager.files.disk.marker)
    ensures old(manager.Closed()) || old(manager.degraded) ==>
      !published && PictureOf(manager, reconciler.host) == old(PictureOf(manager, reconciler.host))
    // what is published is the batch, and never an empty or an invalid one
    ensures published ==>
      var state := codec.read(old(reconciler.host.db.desired));
      && reconciler.host.db.desired == codec.write(Expiry.Batch(state, now)) && DesiredState.Valid(rules, Expiry.Batch(state, now))
      && PublicationModel.Agreement(reconciler.host.env, PublicationModel.Durable(reconciler.host.db, reconciler.host.files))
      && disabled == Expiry.ExpiredUsers(state.nodes, now) > 0
    ensures manager.files.faults >= old(manager.files.faults) && reconciler.host.faults >= old(reconciler.host.faults)
    ensures manager.files.faults == old(manager.files.faults) && reconciler.host.faults == old(reconciler.host.faults) ==>
      (published <==>
         var host, state := reconciler.host, codec.read(old(reconciler.host.db.desired));
         var batch := Expiry.Batch(state, now);
         && Expiry.Due(state, now) && DesiredState.Valid(rules, batch)
         && Publication.Publishable(host.env, PublicationModel.Durable(old(host.db), old(host.files)), old(manager.Closed()),
                                    ExpiryRequest(codec, Some(batch), old(host.db.restartPending), now), now))
  {
    hide Host.Valid, Host.Safe, Manager.Valid, Expiry.Batch, Expiry.Due, DesiredState.Valid, PublicationModel.Agreement,
      PublicationModel.ActiveOf;
    var host := reconciler.host;
    var answer := manager.SafetyBlocked();
    var blocked := answer != Some(false);
    var candidate, nodes, rejected;
    candidate, disabled, nodes, rejected := Expiry.RunBatch(rules, codec.read(host.db.desired), now, blocked);
    published := false;
    if !blocked {
      var request := ExpiryRequest(codec, candidate, host.db.restartPending, now);
      ghost var id;
      var result;
      result, id := PublishGated(manager, reconciler, request, now);
      published := result.Success?;
    }
  }

  /** Startup reconciliation is not gated itself; the baseline it may publish is. */
  method ReconcileGated(manager: Manager, reconciler: Reconciler, allowRuntime: bool, now: int)
    returns (result: StartupReconciliation.Startup)
    requires Joined(manager, reconciler)
    modifies manager`latch, manager`degraded, manager.files`faults, reconciler.host`db, reconciler.host`files,
      reconciler.host`trace, reconciler.host`faults, reconciler.host`runtime, reconciler.host`safetyBlocked
    ensures Joined(manager, reconciler) && (old(reconciler.host.Safe()) ==> reconciler.host.Safe())
    ensures manager.latch == old(manager.latch) || (manager.latch && manager.files.disk.marker)
    ensures old(manager.Closed()) ==> StartupReconciliation.Rewritten(old(reconciler.host.db), reconciler.host.db)
  {
    hide Host.Valid, Host.Safe, Manager.Valid, PublicationModel.Fresh, PublicationModel.Agreement, StartupReconciliation.Repairable;
    var host := reconciler.host;
    var answer := manager.SafetyBlocked();
    host.safetyBlocked := answer != Some(false);
    var draw := PublicationLifecycle.Draw(host);
    result := reconciler.ReconcileStartup(allowRuntime, draw, now);
    manager.degraded := host.db.health.Degraded?;
  }

  /** The recovery every command starts with, in a process with a latch of its own. */
  method RecoverByCommand(manager: Manager, reconciler: Reconciler) returns (recovered: bool)
    requires Joined(manager, reconciler)
    modifies manager`saved, manager`degraded, manager.files`disk, manager.files`trace, manager.files`faults,
      reconciler.host`db, reconciler.host`trace
    ensures Joined(manager, reconciler) && (old(reconciler.host.Safe()) ==> reconciler.host.Safe())
    ensures manager.files.disk == old(manager.files.disk).(staging := manager.files.disk.staging)
    ensures manager.saved == old(manager.saved).(current := manager.saved.current, inProgress := manager.saved.inProgress)
    ensures reconciler.host.db == old(reconciler.host.db).(health := reconciler.host.db.health)
    ensures recovered && manager.files.disk.marker ==> manager.degraded
    ensures !manager.files.disk.marker ==> manager.degraded == old(manager.degraded)
    ensures !manager.degraded ==> reconciler.host.db == old(reconciler.host.db)
    ensures manager.files.faults >= old(manager.files.faults)
    ensures manager.files.faults == old(manager.files.faults) ==> (recovered <==> !old(manager.files.CurrentTree()).Invalid?)
  {
    hide Host.Valid, Host.Safe, CoreFiles.FileStore.Valid;
    var command := new CoreManager.Manager(manager.files, manager.settings, manager.saved, manager.degraded, false);
    recovered := command.Recover("");
    manager.saved, manager.degraded := command.saved, command.degraded;
    ShareDegraded(manager, reconciler.host);
  }

  /**
   * A command's publisher has no gate. What stops it is the recovery before, which turns the marker into the degraded
   * bit.
   */
  method PublishByCommand(manager: Manager, reconciler: Reconciler, request: Publication.Request, now: int)
    returns (published: bool)
    requires Joined(manager, reconciler)
    modifies manager`saved, manager`degraded, manager.files`disk, manager.files`trace, manager.files`faults,
      reconciler.host`db, reconciler.host`files, reconciler.host`trace, reconciler.host`faults, reconciler.host`runtime,
      reconciler.host`safetyBlocked
    ensures Joined(manager, reconciler) && (old(reconciler.host.Safe()) ==> reconciler.host.Safe())
    ensures manager.files.disk == old(manager.files.disk).(staging := manager.files.disk.staging)
    ensures manager.saved == old(manager.saved).(current := manager.saved.current, inProgress := manager.saved.inProgress)
    ensures old(manager.files.disk.marker) ==>
      && !published
      && reconciler.host.db == old(reconciler.host.db).(health := reconciler.host.db.health)
      && reconciler.host.files == old(reconciler.host.files) && reconciler.host.runtime == old(reconciler.host.runtime)
    // the latch of the service does not count
    ensures manager.files.faults == old(manager.files.faults) && reconciler.host.faults == old(reconciler.host.faults) ==>
      (published <==>
         && !old(manager.files.disk.marker) && !old(manager.files.CurrentTree()).Invalid?
         && Publication.Publishable(reconciler.host.env, PublicationModel.Durable(old(reconciler.host.db), old(reconciler.host.files)),
                                    false, request, now))
  {
    hide Host.Valid, Host.Safe, PublicationModel.Fresh, Publication.Trichotomy, Publication.Exposed, Publication.Compiles,
      PublicationModel.Agreement, PublicationModel.ActiveOf, CoreFiles.FileStore.Valid;
    var host := reconciler.host;
    var recovered := RecoverByCommand(manager, reconciler);
    published := false;
    if recovered {
      host.safetyBlocked := false;
      var draw := PublicationLifecycle.Draw(host);
      var result := reconciler.publisher.Publish(request, now, draw);
      published := result.Success?;
      manager.degraded := host.db.health.Degraded?;
    }
  }

  // ---------------------------------------------------------------- whole runs

  datatype Step =
    | OnCore(operation: CoreManager.Operation)
    | Publishing(request: Publication.Request)
    | Expiring
    | Reconciling(allowRuntime: bool)
    | Commanding(request: Publication.Request)

  predicate Offline(step: Step) {
    step.OnCore? && CoreManager.Offline(step.operation)
  }

  /** The steps that start a process, and so do not see the latch of the running one. */
  predicate Forgets(step: Step) {
    step.Commanding? || (step.OnCore? && step.operation.Restarting?)
  }

  predicate Recovers(step: Step) {
    step.Commanding? || (step.OnCore? && step.operation.Recovering?)
  }

  /** What no step of a closed system changes, and what only the named ones do. */
  ghost predicate KeptShut(step: Step, before: Picture, after: Picture) {
    && after.settings == before.settings
    && StartupReconciliation.Rewritten(before.db, after.db)
    && (!(step.OnCore? && step.operation.Restarting?) ==> after.core == before.core)
    && (!step.Reconciling? ==>
          after.files == before.files && after.runtime == before.runtime && after.db.cutoverPending == before.db.cutoverPending)
    && (!Offline(step) ==>
          && after.disk == before.disk.(staging := after.disk.staging)
          && after.saved == before.saved.(current := after.saved.current, inProgress := after.saved.inProgress))
    && (!Offline(step) && !Recovers(step) ==> after.disk == before.disk && after.saved == before.saved)
  }

  method PerformStep(manager: Manager, reconciler: Reconciler, rules: DesiredState.Rules, codec: Codec, step: Step, now: int)
    returns (accepted: bool, released: bool)
    requires Joined(manager, reconciler)
    modifies manager, manager.files`disk, manager.files`trace, manager.files`swaps, manager.files`faults,
      reconciler.host`db, reconciler.host`files, reconciler.host`trace, reconciler.host`faults, reconciler.host`runtime,
      reconciler.host`safetyBlocked
    ensures Joined(manager, reconciler) && (old(reconciler.host.Safe()) ==> reconciler.host.Safe())
    ensures released ==> Offline(step)
    ensures old(manager.files.disk.marker) && !released ==> manager.files.disk.marker
    ensures old(manager.latch) && !released && !Forgets(step) ==> manager.latch
    ensures old(manager.Closed()) && (step.Commanding? ==> old(manager.files.disk.marker)) ==>
      !accepted && KeptShut(step, old(PictureOf(manager, reconciler.host)), PictureOf(manager, reconciler.host))
  {
    hide Host.Valid, Host.Safe, Manager.Valid, Publication.Trichotomy, Publication.Publishable, Expiry.Batch, Expiry.Due,
      DesiredState.Valid;
    accepted, released := false, false;
    match step {
      case OnCore(operation) =>
        accepted, released := CoreManager.Perform(manager, operation, now);
        ShareDegraded(manager, reconciler.host);
      case Publishing(request) =>
        ghost var id;
        var result;
        result, id := PublishGated(manager, reconciler, request, now);
        accepted := result.Success?;
      case Expiring =>
        var disabled;
        accepted, disabled := ExpireGated(manager, reconciler, rules, codec, now);
      case Reconciling(allowRuntime) =>
        var result := ReconcileGated(manager, reconciler, allowRuntime, now);
      case Commanding(request) =>
        accepted := PublishByCommand(manager, reconciler, request, now);
    }
  }

  /** The frame of a whole run: as `KeptShut`, with the exceptions that any of its steps allows. */
  ghost predicate StayedShut(steps: seq<Step>, before: Picture, after: Picture) {
    && after.settings == before.settings
    && StartupReconciliation.Rewritten(before.db, after.db)
    && ((forall s :: s in steps ==> !(s.OnCore? && s.operation.Restarting?)) ==> after.core == before.core)
    && ((forall s :: s in steps ==> !s.Reconciling?) ==>
          after.files == before.files && after.runtime == before.runtime && after.db.cutoverPending == before.db.cutoverPending)
    && ((forall s :: s in steps ==> !Offline(s)) ==>
          && after.disk == before.disk.(staging := after.disk.staging)
          && after.saved == before.saved.(current := after.saved.current, inProgress := after.saved.inProgress))
    && ((forall s :: s in steps ==> !Offline(s) && !Recovers(s)) ==> after.disk == before.disk && after.saved == before.saved)
  }

  lemma StillShut(steps: seq<Step>, step: Step, a: Picture, b: Picture, c: Picture)
    requires step in steps && StayedShut(steps, a, b) && KeptShut(step, b, c)
    ensures StayedShut(steps, a, c)
  {
  }

  /**
   * Fail-closed is absorbing: once the marker is set, or the latch while the process lives, no step of any run is
   * accepted, and everything stays as `StayedShut` says, until a Bootstrap or AdoptExternal has installed and recorded a
   * core.
   */
  method RunClosed(manager: Manager, reconciler: Reconciler, rules: DesiredState.Rules, codec: Codec, steps: seq<Step>,
                   clock: seq<int>)
    returns (accepted: nat, released: bool)
    requires Joined(manager, reconciler) && |clock| == |steps|
    requires manager.files.disk.marker || (manager.latch && forall i :: 0 <= i < |steps| ==> !Forgets(steps[i]))
    modifies manager, manager.files`disk, manager.files`trace, manager.files`swaps, manager.files`faults,
      reconciler.host`db, reconciler.host`files, reconciler.host`trace, reconciler.host`faults, reconciler.host`runtime,
      reconciler.host`safetyBlocked
    ensures Joined(manager, reconciler)
    ensures released ==> exists i :: 0 <= i < |steps| && Offline(steps[i])
    ensures !released ==>
      && accepted == 0 && manager.Closed()
      && StayedShut(steps, old(PictureOf(manager, reconciler.host)), PictureOf(manager, reconciler.host))
    ensures !released && old(manager.files.disk.marker) ==> manager.files.disk.marker
  {
    hide Joined, KeptShut, StayedShut, Offline, PictureOf;
    accepted, released := 0, false;
    ghost var before := PictureOf(manager, reconciler.host);
    NothingYet(steps, before);
    for i := 0 to |steps|
      invariant Joined(manager, reconciler)
      invariant released ==> exists j :: 0 <= j < i && Offline(steps[j])
      invariant !released ==>
        accepted == 0 && manager.Closed() && StayedShut(steps, before, PictureOf(manager, reconciler.host))
      invariant !released && old(manager.files.disk.marker) ==> manager.files.disk.marker
      invariant !released && !old(manager.files.disk.marker) ==> manager.latch
    {
      ghost var now := PictureOf(manager, reconciler.host);
      var taken, freed := PerformStep(manager, reconciler, rules, codec, steps[i], clock[i]);
      if !released && !freed {
        StillShut(steps, steps[i], before, now, PictureOf(manager, reconciler.host));
      }
      accepted := if taken then accepted + 1 else accepted;
      released := released || freed;
    }
  }

  lemma NothingYet(steps: seq<Step>, before: Picture)
    ensures StayedShut(steps, before, before)
  {
  }
}
