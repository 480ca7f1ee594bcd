/** What survives whole runs: rollbacks, publications and restarts, with the power failing at any durable effect. */
module PublicationLifecycle {
  import opened Sequences
  import opened RevisionLedger
  import opened RevisionHistory
  import opened PublicationModel
  import opened PublicationHost
  import opened Publication
  import opened StartupReconciliation

  function FindRow(t: Table, id: nat): (found: Option<Revision>)
    ensures found.Some? ==> found.value in t && found.value.id == id
    ensures found.None? ==> forall r :: r in t ==> r.id != id
  {
    if t == [] then None
    else if t[0].id == id then Some(t[0])
    else FindRow(t[1..], id)
  }

  /** The revision was published once, and both its archives still carry its digest. */
  predicate Restorable(env: Env, d: Durable, target: nat) {
    && FindRow(d.db.ledger.rows, target).Some?
    && var r := FindRow(d.db.ledger.rows, target).value;
      (r.status.Active? || r.status.RolledBack?) && ArchivesMatch(env, d.files, r)
  }

  /** A revision of that identity is or was active, and both its archives still carry its digest. */
  ghost predicate WasPublished(env: Env, d: Durable, target: nat) {
    exists r :: r in d.db.ledger.rows && r.id == target && (r.status == Active || r.status == RolledBack) && ArchivesMatch(env, d.files, r)
  }

  lemma RestorableIsPublished(env: Env, d: Durable, target: nat)
    requires Invariant(d.db.ledger)
    ensures Restorable(env, d, target) <==> WasPublished(env, d, target)
  {
    hide ArchivesMatch;
    if WasPublished(env, d, target) {
      var r :| r in d.db.ledger.rows && r.id == target && (r.status == Active || r.status == RolledBack) && ArchivesMatch(env, d.files, r);
      OneRowPerId(d.db.ledger.rows, r, FindRow(d.db.ledger.rows, target).value);
    }
  }

  lemma RollbackIsPublishable(env: Env, d: Durable, safetyBlocked: bool, target: nat, differs: string -> bool, now: int)
    requires Restorable(env, d, target)
    ensures ActiveOf(d.db).OneActive? && Agreement(env, d) && d.db.health.Healthy? && !d.db.cutoverPending && !safetyBlocked ==>
      (env.compile(State(Snapshot(env, d.files, target).value.desired, now)).Some? ==>
         Publishable(env, d, safetyBlocked, RollbackRequest(env, d, target, differs), now))
  {
    hide ActiveOf, Agreement;
    var request := RollbackRequest(env, d, target, differs);
    assert 'r' in request.reason by { assert request.reason[0] == 'r'; }
  }

  /**
   * The publication a rollback amounts to. `differs` tells whether a desired state's Controller endpoint differs from
   * the one last applied; the archived state then replaces the desired state and owes a restart.
   */
  function RollbackRequest(env: Env, d: Durable, target: nat, differs: string -> bool): Request
    requires Restorable(env, d, target)
  {
    var archived := Snapshot(env, d.files, target).value.desired;
    Request("rollback to revision", None, d.db.restartPending || differs(archived),
            (_: string) => Some(Edit(archived, differs(archived))), false)
  }

  /** Publish an archived desired state again, under a new number and at the present time. */
  method Rollback(publisher: Publisher, target: nat, differs: string -> bool, now: int, draw: nat)
    returns (result: Result)
    requires publisher.Valid() && Fresh(Durable(publisher.host.db, publisher.host.files), draw)
    modifies publisher.host`db, publisher.host`files, publisher.host`trace, publisher.host`faults,
      publisher.host`runtime
    ensures publisher.Valid() && old(publisher.host.trace) <= publisher.host.trace
    ensures old(publisher.host.Safe()) ==> publisher.host.Safe()
    ensures var before, host := old(Durable(publisher.host.db, publisher.host.files)), publisher.host;
      if Restorable(host.env, before, target) then
        Trichotomy(result, host.env, before, old(publisher.host.runtime), Durable(host.db, host.files), host.runtime,
                   RollbackRequest(host.env, before, target, differs), now, draw)
      else
        result.Error? && Durable(host.db, host.files) == before && host.runtime == old(publisher.host.runtime)
    ensures result.Success? ==>
      && Restorable(publisher.host.env, old(Durable(publisher.host.db, publisher.host.files)), target)
      && publisher.host.db.desired == Snapshot(publisher.host.env, old(publisher.host.files), target).value.desired
      && result.revision.number == NextNumber(old(publisher.host.db.ledger.rows))
      && CompiledDigest(publisher.host.env, State(publisher.host.db.desired, now)) == Some(result.revision.digest)
      && Agreement(publisher.host.env, Durable(publisher.host.db, publisher.host.files))
    // a restart is owed exactly if the archived endpoint differs from the applied one; where none is or was, the process
    // has loaded the file
    ensures result.Success? ==>
      && publisher.host.db.restartPending == differs(publisher.host.db.desired)
      && (if old(publisher.host.db.restartPending) || differs(publisher.host.db.desired) then publisher.host.runtime == old(publisher.host.runtime)
          else publisher.host.runtime == Runtime(true, Get(publisher.host.files, Config), true))
    // what was never published, or cannot be trusted, is refused; without faults and with nothing owed, nothing else is
    ensures result.Success? ==> WasPublished(publisher.host.env, old(Durable(publisher.host.db, publisher.host.files)), target)
    ensures var before, host := old(Durable(publisher.host.db, publisher.host.files)), publisher.host;
      host.faults == old(host.faults) && WasPublished(host.env, before, target) && ActiveOf(before.db).OneActive? && Agreement(host.env, before)
      && before.db.health.Healthy? && !before.db.cutoverPending && !host.safetyBlocked ==>
        (result.Success? <==> host.env.compile(State(Snapshot(host.env, before.files, target).value.desired, now)).Some?)
    ensures publisher.host.faults >= old(publisher.host.faults)
    ensures var before, host := old(Durable(publisher.host.db, publisher.host.files)), publisher.host;
      host.faults == old(publisher.host.faults) ==>
        (result.Success? <==>
           Restorable(host.env, before, target)
           && Publishable(host.env, before, host.safetyBlocked, RollbackRequest(host.env, before, target, differs), now))
  {
    hide Host.Valid, Host.Safe, Agreement, Fresh, Publishable, ArchivesMatch, PutBack, Invariant, WasPublished, Refused, Exposed, Rejected;
    var host := publisher.host;
    ghost var before := Durable(host.db, host.files);
    host.LedgerIsSound();
    RestorableIsPublished(host.env, before, target);
    var failed := host.Fault();
    if failed || !Restorable(host.env, Durable(host.db, host.files), target) {
      result := Error(PublicationFailed, false);
      NothingHappened(host.env, before, host.runtime, target, differs, now, draw);
      return;
    }
    failed := host.Fault();
    if failed {
      result := Error(PublicationFailed, false);
      NothingHappened(host.env, before, host.runtime, target, differs, now, draw);
      return;
    }
    var request := RollbackRequest(host.env, Durable(host.db, host.files), target, differs);
    RollbackIsPublishable(host.env, before, host.safetyBlocked, target, differs, now);
    result := publisher.Publish(request, now, draw);
  }

  lemma NothingHappened(env: Env, before: Durable, runtime: Runtime, target: nat, differs: string -> bool, now: int, draw: nat)
    ensures Restorable(env, before, target) ==>
      Trichotomy(Error(PublicationFailed, false), env, before, runtime, before, runtime,
                 RollbackRequest(env, before, target, differs), now, draw)
  {
    if Restorable(env, before, target) {
      PutBackRefl(env, before, runtime, RollbackRequest(env, before, target, differs), now, draw);
    }
  }

  // ---------------------------------------------------------------- crashes

  /** A UUID nobody has drawn. */
  method Draw(host: Host) returns (draw: nat)
    ensures Fresh(Durable(host.db, host.files), draw)
  {
    ghost var d := Durable(host.db, host.files);
    ghost var taken: set<int> := (set r | r in d.db.ledger.rows :: r.id) + (set p | p in d.files && p != Config :: p.id);
    ghost var bound := AboveAll(taken);
    assert Fresh(d, bound) by {
      assert forall r :: r in d.db.ledger.rows ==> r.id in taken;
      assert forall p :: p in d.files && p != Config ==> p.id in taken;
    }
    draw :| Fresh(Durable(host.db, host.files), draw);
  }

  method PowerFailure(host: Host)
    requires host.Valid()
    modifies host`db, host`files, host`trace, host`origin, host`runtime
    ensures host.Valid() && (old(host.Safe()) ==> host.Safe())
    ensures Durable(host.db, host.files) in old(host.trace)
    ensures Grows(old(host.origin), host.db.ledger)
    ensures host.Safe() ==> Recoverable(host.env, Durable(host.db, host.files))
  {
    var moment: nat :| moment < |host.trace|;
    host.Crash(moment);
    assert Durable(host.db, host.files) in host.trace;
  }

  lemma PublishedIsActive(db: Database)
    requires Invariant(db.ledger) && db.ledger.published
    ensures ActiveOf(db).OneActive?
  {
  }

  lemma PublishedForever(a: History, b: History)
    requires a.published && Grows(a, b)
    ensures b.published
  {
  }

  /**
   * Crash safety. However a publication goes, and at whichever of its durable effects the power fails: if a revision is
   * active afterwards, the pre-runtime reconciliation of the next start either makes everything durable agree again or
   * leaves the degraded bit set, and if its own sub-steps work it refuses only to hide an owed restart behind a degraded
   * bit that was set before. If no revision is active there is nothing to repair from, and the file stays as the crash
   * left it; that takes a crash before anything was ever published.
   */
  method PublishThenCrashThenRestart(publisher: Publisher, reconciler: Reconciler, request: Request, now: int, id: nat)
    returns (result: Startup, ghost crashed: Durable, ghost restarted: nat)
    requires reconciler.publisher == publisher && reconciler.Valid()
    requires Fresh(Durable(publisher.host.db, publisher.host.files), id)
    requires Recoverable(publisher.host.env, Durable(publisher.host.db, publisher.host.files))
    modifies publisher.host`db, publisher.host`files, publisher.host`trace, publisher.host`origin,
      publisher.host`faults, publisher.host`runtime
    ensures reconciler.Valid() && publisher.host.Safe()
    ensures Grows(old(publisher.host.db.ledger), crashed.db.ledger)
    ensures Recoverable(publisher.host.env, crashed)
    ensures old(publisher.host.db.ledger.published) ==> ActiveOf(crashed.db).OneActive?
    ensures result.Ready? && ActiveOf(publisher.host.db).OneActive? ==>
      Agreement(publisher.host.env, Durable(publisher.host.db, publisher.host.files))
    ensures result.MarkedDegraded? ==> publisher.host.db.health.Degraded?
    ensures !crashed.db.cutoverPending ==>
      publisher.host.db == crashed.db.(health := publisher.host.db.health)
    ensures !crashed.db.cutoverPending && ActiveOf(crashed.db).NoneActive? ==> publisher.host.files == crashed.files
    ensures restarted <= publisher.host.faults
    ensures restarted == publisher.host.faults && !crashed.db.cutoverPending ==>
      (result.Ready? <==>
         if ActiveOf(crashed.db).OneActive? then
           !(ConfigMatches(publisher.host.env, crashed.files, ActiveOf(crashed.db).revision)
             && crashed.db.restartPending && crashed.db.health.Degraded?)
         else crashed.db.health.Healthy?)
  {
    hide Host.Valid, Host.Safe, Agreement, Recoverable, Invariant, Fresh, Trichotomy, ActiveOf, ConfigMatches, Grows, Exposed;
    var host := publisher.host;
    ghost var before := host.db.ledger;
    host.Checkpoint();
    var published := publisher.Publish(request, now, id);
    PowerFailure(host);
    host.LedgerIsSound();
    RecoverableIsUnambiguous(host.env, Durable(host.db, host.files));
    if before.published {
      PublishedForever(before, host.db.ledger);
      PublishedIsActive(host.db);
    }
    crashed, restarted := Durable(host.db, host.files), host.faults;
    var draw := Draw(host);
    result := reconciler.ReconcileStartup(false, draw, now);
  }

  lemma RecoverableIsUnambiguous(env: Env, d: Durable)
    requires Recoverable(env, d)
    ensures !ActiveOf(d.db).SeveralActive?
  {
  }

  /**
   * The gap that crash safety leaves. Whenever a first publication succeeds, there was a moment in it at which a crash
   * leaves the new configuration in place and the database as it was before, without any revision; and the next start,
   * unless one of its own sub-steps fails, takes that for a sound state and lets Mihomo run on that file.
   */
  method FirstPublicationCutShort(publisher: Publisher, reconciler: Reconciler, request: Request, now: int, id: nat)
    returns (published: Result, result: Startup, ghost crashed: Durable, ghost restarted: nat)
    requires reconciler.publisher == publisher && reconciler.Valid()
    requires Fresh(Durable(publisher.host.db, publisher.host.files), id)
    requires ActiveOf(publisher.host.db).NoneActive? && !publisher.host.db.cutoverPending
    modifies publisher.host`db, publisher.host`files, publisher.host`trace, publisher.host`origin,
      publisher.host`faults, publisher.host`runtime
    ensures published.Success? ==>
      && crashed.db == old(publisher.host.db)
      && Get(crashed.files, Config).Some?
      && DigestOf(publisher.host.env, Get(crashed.files, Config)) == Some(published.revision.digest)
      && publisher.host.files == crashed.files
      && (restarted == publisher.host.faults ==> result.Ready? && publisher.host.db == crashed.db)
  {
    hide Host.Valid, Host.Safe, Agreement, Recoverable, Invariant, Fresh, ActiveOf, ConfigMatches, Grows, Exposed;
    var host := publisher.host;
    var before := host.db;
    host.Checkpoint();
    published := publisher.Publish(request, now, id);
    result, crashed, restarted := Fatal, Durable(host.db, host.files), host.faults;
    if published.Success? {
      var config := Get(host.files, Config);
      ExposedMoment(host.trace, before, config);
      var moment: nat :| moment < |host.trace| && host.trace[moment].db == before && Get(host.trace[moment].files, Config) == config;
      host.Crash(moment);
      crashed := Durable(host.db, host.files);
      var draw := Draw(host);
      result := reconciler.ReconcileStartup(false, draw, now);
    }
  }

  lemma ExposedMoment(trace: seq<Durable>, db: Database, config: Option<string>)
    requires Exposed(trace, db, config)
    ensures exists i: nat :: i < |trace| && trace[i].db == db && Get(trace[i].files, Config) == config
  {
    var d :| d in trace && d.db == db && Get(d.files, Config) == config;
    var i :| 0 <= i < |trace| && trace[i] == d;
  }

  // ---------------------------------------------------------------- whole runs

  datatype Operation =
    | Publishing(request: Request)
    | RollingBack(target: nat, differs: string -> bool)
    | Reconciling(allowRuntime: bool)
    | Meddling        // somebody else edits or removes the configuration file
    | Restarting      // the owed restart has been done
    | Supervising     // Mihomo is started, stopped or dies

  method Perform(publisher: Publisher, reconciler: Reconciler, operation: Operation, now: int)
    requires reconciler.publisher == publisher && reconciler.Valid()
    modifies publisher.host`db, publisher.host`files, publisher.host`trace, publisher.host`faults,
      publisher.host`runtime
    ensures reconciler.Valid() && (old(publisher.host.Safe()) ==> publisher.host.Safe())
  {
    hide Host.Valid, Host.Safe, Agreement, Recoverable, Invariant, Fresh, Trichotomy, ActiveOf, Grows;
    var draw := Draw(publisher.host);
    match operation {
      case Publishing(request) =>
        var published := publisher.Publish(request, now, draw);
      case RollingBack(target, differs) =>
        var restored := Rollback(publisher, target, differs, now, draw);
      case Reconciling(allowRuntime) =>
        var reconciled := reconciler.ReconcileStartup(allowRuntime, draw, now);
      case Meddling =>
        publisher.host.ExternalChange();
      case Restarting =>
        publisher.host.ClearRestart();
      case Supervising =>
        publisher.host.runtime := *;
    }
  }

  /**
   * Any sequence of publications, rollbacks, startups and outside edits of the configuration, each cut short by a power failure or not: what startup
   * needs is never lost, a published history stays published, and no revision number is ever handed out twice.
   */
  method RunWithCrashes(publisher: Publisher, reconciler: Reconciler, operations: seq<Operation>, clock: seq<int>)
    requires reconciler.publisher == publisher && reconciler.Valid() && |clock| == |operations|
    requires Recoverable(publisher.host.env, Durable(publisher.host.db, publisher.host.files))
    modifies publisher.host`db, publisher.host`files, publisher.host`trace, publisher.host`origin,
      publisher.host`faults, publisher.host`runtime
    ensures reconciler.Valid() && publisher.host.Safe()
    ensures Invariant(publisher.host.db.ledger) && Grows(old(publisher.host.db.ledger), publisher.host.db.ledger)
    ensures Recoverable(publisher.host.env, Durable(publisher.host.db, publisher.host.files))
  {
    hide Host.Valid, Host.Safe, Agreement, Recoverable, Invariant, ActiveOf, Grows;
    var host := publisher.host;
    host.LedgerIsSound();
    ghost var before := host.db.ledger;
    host.GrowsReflexive(before);
    for i := 0 to |operations|
      invariant reconciler.Valid() && Invariant(host.db.ledger) && Grows(before, host.db.ledger)
      invariant Recoverable(host.env, Durable(host.db, host.files))
    {
      ghost var now := host.db.ledger;
      host.Checkpoint();
      Perform(publisher, reconciler, operations[i], clock[i]);
      host.GrownSinceOrigin();
      var fails: bool := *;
      if fails {
        PowerFailure(host);
      }
      host.GrowsTransitive(before, now, host.db.ledger);
      host.Checkpoint();
      host.LedgerIsSound();
    }
    host.Checkpoint();
  }
}
