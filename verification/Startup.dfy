/** Startup reconciliation, revision rollback, and what survives a crash at any moment. */
module StartupReconciliation {
  import opened Sequences
  import opened RevisionLedger
  import opened RevisionHistory
  import opened PublicationModel
  import opened PublicationHost
  import opened Publication

  /** Ready is a nil error, MarkedDegraded is ErrStartupDegraded, Fatal any other error. */
  datatype Startup = Ready | MarkedDegraded | Fatal

  const CUTOVER_BASELINE := "r3_protocol_cutover_baseline"

  class Reconciler {
    const publisher: Publisher
    const host: Host

    constructor (publisher: Publisher)
      ensures this.publisher == publisher && host == publisher.host
    {
      this.publisher, this.host := publisher, publisher.host;
    }

    ghost predicate Valid()
      reads host`db, host`files, host`trace, host`origin
    {
      publisher.host == host && publisher.Valid()
    }

    /** markStartupDegraded */
    method Mark(byCutover: bool) returns (result: Startup)
      requires Valid()
      modifies host`db, host`trace, host`faults
      ensures Valid() && old(host.trace) <= host.trace && (old(host.Safe()) ==> host.Safe())
      ensures !result.Ready?
      ensures result.MarkedDegraded? ==> host.db.health == Degraded(byCutover)
      ensures host.db == old(host.db) || host.db == old(host.db).(health := Degraded(byCutover))
      ensures host.faults >= old(host.faults) && (host.faults == old(host.faults) ==> result.MarkedDegraded?)
    {
      var ok := host.MarkDegraded(byCutover);
      result := if ok then MarkedDegraded else Fatal;
    }

    /** clearStartupDegraded: a failed clear is compensated by marking again. */
    method Clear() returns (result: Startup)
      requires Valid()
      modifies host`db, host`trace, host`faults
      ensures Valid() && old(host.trace) <= host.trace && (old(host.Safe()) ==> host.Safe())
      ensures result.Ready? ==> host.db == old(host.db).(health := Healthy)
      ensures result.MarkedDegraded? ==> host.db.health.Degraded?
      ensures exists h :: host.db == old(host.db).(health := h)
      ensures host.faults >= old(host.faults) && (host.faults == old(host.faults) ==> result.Ready?)
    {
      var ok := host.SetHealth(Healthy);
      assert host.db == old(host.db).(health := host.db.health);
      if ok {
        return Ready;
      }
      result := Mark(false);
      assert host.db == old(host.db).(health := host.db.health);
    }

    /** validateReloadAndCheckActive */
    method ReloadAndCheck() returns (ok: bool)
      modifies host`faults, host`runtime
      ensures ok ==> host.runtime == Runtime(true, Get(host.files, Config), true)
      ensures host.faults >= old(host.faults) && (host.faults == old(host.faults) ==> (ok <==> old(host.runtime).active))
    {
      var failed := host.Fault();
      if failed || !host.runtime.active {
        return false;
      }
      ok := host.Reload();
      if ok {
        ok := host.WaitHealthy();
      }
    }

    method Complete() returns (result: Startup)
      requires Valid()
      modifies host`db, host`trace, host`faults
      ensures Valid() && old(host.trace) <= host.trace && (old(host.Safe()) ==> host.Safe())
      ensures result.MarkedDegraded? ==> host.db.health.Degraded?
      ensures Rewritten(old(host.db), host.db)
      ensures result.Ready? ==> !host.db.cutoverPending && host.db.health.Healthy?
      ensures host.faults >= old(host.faults)
      ensures host.faults == old(host.faults) ==> (result.Ready? <==> old(host.db.health) != Degraded(false)) && !result.Fatal?
      ensures host.faults == old(host.faults) && !result.Ready? ==> host.db.health == Degraded(true)
    {
      var ok := host.CompleteCutover();
      if ok {
        return Ready;
      }
      result := Mark(true);
    }

    /** The active revision's archives, and durable state recompiled at its own time, must carry its digest. */
    method VerifyDurable(r: Revision) returns (compiled: Option<string>)
      requires ActiveOf(host.db) == OneActive(r)
      modifies host`faults
      ensures compiled.Some? ==>
        && Recoverable(host.env, Durable(host.db, host.files)) && host.env.digest(compiled.value) == r.digest
      ensures host.faults >= old(host.faults)
      ensures host.faults == old(host.faults) ==>
        (compiled.Some? <==> Recoverable(host.env, Durable(host.db, host.files)))
    {
      hide ActiveOf;
      var failed := host.Fault();
      if failed || !ArchivesMatch(host.env, host.files, r) {
        return None;
      }
      failed := host.Fault();
      if failed || !DesiredMatches(host.env, host.db, host.files, r) {
        return None;
      }
      return host.env.compile(State(host.db.desired, Snapshot(host.env, host.files, r.id).value.asOf));
    }

    /** The reads at the beginning: what cannot be inspected is marked, and a restart that is owed comes before the cutover. */
    method Look(allowRuntime: bool) returns (ending: Option<Startup>)
      requires Valid()
      modifies host`db, host`trace, host`faults
      ensures Valid() && old(host.trace) <= host.trace && (old(host.Safe()) ==> host.Safe())
      ensures host.db == old(host.db).(health := host.db.health) && (ending.None? ==> host.db == old(host.db))
      ensures ending.Some? ==> !ending.value.Ready?
      ensures ending == Some(MarkedDegraded) ==> host.db.health.Degraded? || OwesRestartFirst(old(host.db), allowRuntime)
      ensures old(host.db.health).Degraded? ==> host.db.health.Degraded?
      ensures ending.None? ==> !OwesRestartFirst(host.db, allowRuntime)
      ensures host.faults >= old(host.faults)
      ensures host.faults == old(host.faults) ==>
        host.db == old(host.db) && ending == if OwesRestartFirst(host.db, allowRuntime) then Some(MarkedDegraded) else None
    {
      hide Host.Valid, Host.Safe;
      var failed := host.Fault();
      if failed {
        return Some(Fatal);
      }
      failed := host.Fault();
      if failed {
        var marked := Mark(true);
        return Some(marked);
      }
      failed := host.Fault();
      if failed {
        var marked := Mark(false);
        return Some(marked);
      }
      if host.db.cutoverPending && allowRuntime && host.db.restartPending {
        return Some(MarkedDegraded);
      }
      failed := host.Fault();
      if failed {
        var marked := Mark(false);
        return Some(marked);
      }
      return None;
    }

    /**
     * reconcileStartupLocked. `allowRuntime` tells the pre-runtime phase (false) from the one after Mihomo has been
     * started (true); `draw` is the UUID for whatever this run has to create.
     */
    method ReconcileStartup(allowRuntime: bool, draw: nat, now: int) returns (result: Startup)
      requires Valid() && Fresh(Durable(host.db, host.files), draw)
      modifies host`db, host`files, host`trace, host`faults, host`runtime
      ensures Valid() && old(host.trace) <= host.trace && (old(host.Safe()) ==> host.Safe())
      // nil: everything durable agrees
      ensures result.Ready? && ActiveOf(host.db).OneActive? ==> Agreement(host.env, Durable(host.db, host.files))
      // ErrStartupDegraded: the degraded bit is set, save for the one refusal that leaves it to the cutover
      ensures result.MarkedDegraded? ==>
        host.db.health.Degraded? || (allowRuntime && old(host.db.cutoverPending) && old(host.db.restartPending))
      // outside the cutover it changes only the file and the degraded bit, and clears that only once all agrees
      ensures !old(host.db.cutoverPending) ==> host.db == old(host.db).(health := host.db.health)
      ensures !old(host.db.cutoverPending) && old(host.db.health).Degraded? && host.db.health.Healthy? ==>
        allowRuntime && Agreement(host.env, Durable(host.db, host.files))
      // without a revision there is nothing to repair from
      ensures !old(host.db.cutoverPending) && ActiveOf(old(host.db)).NoneActive? ==>
        host.files == old(host.files) && (result.Ready? ==> host.db == old(host.db))
      ensures !allowRuntime && !old(host.db.cutoverPending) ==> host.runtime == old(host.runtime)
      // behind the safety gate not even the cutover's baseline is published
      ensures host.safetyBlocked ==> Rewritten(old(host.db), host.db)
      // without faults of its own it repairs whenever the archives allow it
      ensures host.faults >= old(host.faults)
      ensures host.faults == old(host.faults) && !old(host.db.cutoverPending) && !allowRuntime ==>
        (result.Ready? <==> Repairable(host.env, Durable(old(host.db), old(host.files))))
      ensures host.faults == old(host.faults) ==>
        && !result.Fatal?
        && (result.Ready? <==> Reconcilable(host.env, Durable(old(host.db), old(host.files)), old(host.runtime).active,
                                            host.safetyBlocked, allowRuntime, now))
        && (!result.Ready? ==>
              host.db.health == MarkLeft(host.env, Durable(old(host.db), old(host.files)), old(host.runtime).active, allowRuntime))
      // after startup it leaves a process that had to be looked at with the active revision loaded, and nothing to mend
      ensures result.Ready? && allowRuntime && ActiveOf(old(host.db)).OneActive? ==>
        Settled(old(host.db), host.db, ConfigMatches(host.env, old(host.files), ActiveOf(old(host.db)).revision), host.runtime, host.files)
    {
      hide Host.Valid, Host.Safe, Recoverable, Invariant, ActiveOf, Agreement, Grows, Fresh, ConfigMatches, Settled;
      host.LedgerIsSound();
      ActiveIsTotal(host.db);
      var ending := Look(allowRuntime);
      if ending.Some? {
        return ending.value;
      }
      var active := ActiveRow(host.db);
      if host.db.cutoverPending {
        if host.env.hasNodes(host.db.desired) {
          result := Mark(true);
          return;
        }
        if active.None? {
          result := InstallBaseline(allowRuntime, draw, now);
          return;
        }
        if active.value.reason != CUTOVER_BASELINE {
          result := Mark(true);
          return;
        }
      }
      if active.None? {
        return if host.db.health.Degraded? then MarkedDegraded else Ready;
      }
      var compiled := VerifyDurable(active.value);
      if compiled.None? {
        result := Mark(false);
        return;
      }
      result := Settle(active.value, compiled.value, allowRuntime, draw);
    }

    /** The cutover's own start: an empty baseline is published before Mihomo runs. */
    method InstallBaseline(allowRuntime: bool, draw: nat, now: int) returns (result: Startup)
      requires Valid() && Fresh(Durable(host.db, host.files), draw)
      requires ActiveOf(host.db).NoneActive? && host.db.cutoverPending
      modifies host`db, host`files, host`trace, host`faults, host`runtime
      ensures Valid() && old(host.trace) <= host.trace && (old(host.Safe()) ==> host.Safe())
      ensures result.Ready? ==> !allowRuntime && Agreement(host.env, Durable(host.db, host.files))
      ensures result.MarkedDegraded? ==> host.db.health.Degraded?
      ensures host.safetyBlocked ==> Rewritten(old(host.db), host.db)
      ensures host.faults >= old(host.faults)
      ensures host.faults == old(host.faults) ==> !result.Fatal?
      ensures host.faults == old(host.faults) ==>
        (result.Ready? <==>
           !allowRuntime && old(host.db.health) != Degraded(false) && !host.safetyBlocked
           && host.env.compile(State(old(host.db.desired), now)).Some?)
      ensures host.faults == old(host.faults) && !result.Ready? ==>
        host.db.health == Degraded(allowRuntime || old(host.db.health) != Degraded(false))
    {
      hide Host.Valid, Host.Safe, Recoverable, Invariant, ActiveOf, Agreement, Grows, Fresh, Refused, Published, Publishable;
      if allowRuntime {
        result := Mark(true);
        return;
      }
      if host.db.health.Degraded? {
        if !host.db.health.byCutover {
          return MarkedDegraded;
        }
        ghost var d := Durable(host.db, host.files);
        var cleared := host.SetHealth(Healthy);
        FreshHealth(d, Durable(host.db, host.files), draw);
        if !cleared {
          return Fatal;
        }
      }
      var restartPending := host.db.restartPending;
      var keep := (desired: string) => Some(Edit(desired, restartPending));
      var request := Request(CUTOVER_BASELINE, None, true, keep, true);
      BaselinePublishable(host.env, Durable(old(host.db), host.files), Durable(host.db, host.files), host.safetyBlocked, request, now);
      GateRefuses(host.db, request);
      var published := publisher.Publish(request, now, draw);
      if published.Error? {
        result := Mark(true);
        return;
      }
      return Ready;
    }

    /** The active revision is sound; make the file match it and finish what the phase allows. */
    method Settle(r: Revision, compiled: string, allowRuntime: bool, draw: nat) returns (result: Startup)
      requires Valid() && ActiveOf(host.db) == OneActive(r)
      requires Recoverable(host.env, Durable(host.db, host.files)) && host.env.digest(compiled) == r.digest
      requires Fresh(Durable(host.db, host.files), draw)
      modifies host`db, host`files, host`trace, host`faults, host`runtime
      ensures Valid() && old(host.trace) <= host.trace && (old(host.Safe()) ==> host.Safe())
      ensures Rewritten(old(host.db), host.db)
      ensures !old(host.db.cutoverPending) ==> !host.db.cutoverPending
      ensures result.Ready? || (old(host.db.health).Degraded? && host.db.health.Healthy?) ==>
        Agreement(host.env, Durable(host.db, host.files))
      ensures old(host.db.health).Degraded? && host.db.health.Healthy? ==> allowRuntime
      ensures result.MarkedDegraded? ==> host.db.health.Degraded?
      ensures !allowRuntime ==> host.runtime == old(host.runtime)
      ensures host.faults >= old(host.faults)
      ensures host.faults == old(host.faults) ==> !result.Fatal?
      ensures host.faults == old(host.faults) ==>
        (result.Ready? <==> SettledWell(old(host.db), ConfigMatches(host.env, old(host.files), r), old(host.runtime).active, allowRuntime))
      ensures host.faults == old(host.faults) && !result.Ready? ==>
        host.db.health == (if ConfigMatches(host.env, old(host.files), r) || old(host.runtime).active then FinishMark(old(host.db)) else Degraded(false))
      ensures result.Ready? && allowRuntime ==>
        Settled(old(host.db), host.db, ConfigMatches(host.env, old(host.files), r), host.runtime, host.files)
    {
      hide Host.Valid, Host.Safe, Recoverable, Invariant, ActiveOf, Agreement, Grows, Fresh, ConfigMatches;
      ghost var d0 := Durable(host.db, host.files);
      FreshReconciliation(d0, draw);
      var failed := host.Fault();
      if failed {
        result := Mark(false);
        return;
      }
      var matched := ConfigMatches(host.env, host.files, r);
      AgreementFrom(host.env, d0, r);
      if !matched {
        var repaired := publisher.PublishCompiled(draw, compiled, allowRuntime);
        RepairFrame(host.env, d0, host.files, r, compiled, draw);
        if !repaired {
          result := Mark(false);
          return;
        }
        if !allowRuntime {
          return Ready;
        }
        failed := host.Fault();
        if failed || !host.runtime.active {
          result := Mark(false);
          AgreementFrame(host.env, d0.db, host.db, host.files);
          return;
        }
      }
      result := Finish(matched, allowRuntime);
    }

    /** The file matches: what remains depends on the cutover, an owed restart and the degraded bit. */
    method Finish(matched: bool, allowRuntime: bool) returns (result: Startup)
      requires Valid() && Agreement(host.env, Durable(host.db, host.files)) && (!matched ==> allowRuntime)
      requires matched || host.db.restartPending || host.runtime == Runtime(true, Get(host.files, Config), true)
      modifies host`db, host`trace, host`faults, host`runtime
      ensures Valid() && old(host.trace) <= host.trace && (old(host.Safe()) ==> host.Safe())
      ensures Rewritten(old(host.db), host.db) && Agreement(host.env, Durable(host.db, host.files))
      ensures !old(host.db.cutoverPending) ==> !host.db.cutoverPending
      ensures old(host.db.health).Degraded? && host.db.health.Healthy? ==> allowRuntime
      ensures result.MarkedDegraded? ==> host.db.health.Degraded?
      ensures !allowRuntime ==> host.runtime == old(host.runtime)
      ensures host.faults >= old(host.faults)
      ensures host.faults == old(host.faults) ==> !result.Fatal?
      ensures host.faults == old(host.faults) ==>
        (result.Ready? <==> FinishedWell(old(host.db), matched, old(host.runtime).active, allowRuntime))
      ensures host.faults == old(host.faults) && !result.Ready? ==> host.db.health == FinishMark(old(host.db))
      ensures result.Ready? && allowRuntime ==> Settled(old(host.db), host.db, matched, host.runtime, host.files)
    {
      hide Host.Valid, Host.Safe, Recoverable, Invariant, ActiveOf, Agreement, Grows;
      ghost var db0 := host.db;
      if host.db.cutoverPending {
        if !allowRuntime {
          return Ready;
        }
        if matched {
          var healthy := ReloadAndCheck();
          if !healthy {
            result := Mark(true);
            AgreementFrame(host.env, db0, host.db, host.files);
            return;
          }
        }
        result := Complete();
        AgreementFrame(host.env, db0, host.db, host.files);
        return;
      }
      if host.db.restartPending {
        return if host.db.health.Degraded? then MarkedDegraded else Ready;
      }
      if matched {
        if host.db.health.Healthy? || !allowRuntime {
          return Ready;
        }
        var healthy := ReloadAndCheck();
        if !healthy {
          result := Mark(false);
          AgreementFrame(host.env, db0, host.db, host.files);
          return;
        }
      }
      result := Clear();
      AgreementFrame(host.env, db0, host.db, host.files);
    }
  }

  /** When the pre-runtime phase, without faults of its own, lets startup go on. */
  ghost predicate Repairable(env: Env, d: Durable) {
    match ActiveOf(d.db)
    case NoneActive => d.db.health.Healthy?
    case OneActive(r) =>
      && Recoverable(env, d)
      && !(ConfigMatches(env, d.files, r) && d.db.restartPending && d.db.health.Degraded?)
    case SeveralActive => false
  }

  /** What Finish needs for a file that matches, or has been made to match while the process runs. */
  predicate FinishedWell(db: Database, matched: bool, running: bool, allowRuntime: bool) {
    if db.cutoverPending then allowRuntime ==> (matched ==> running) && db.health != Degraded(false)
    else if db.restartPending then db.health.Healthy?
    else matched && allowRuntime && db.health.Degraded? ==> running
  }

  predicate SettledWell(db: Database, matched: bool, running: bool, allowRuntime: bool) {
    if matched then FinishedWell(db, true, running, allowRuntime)
    else allowRuntime ==> running && FinishedWell(db, false, true, true)
  }

  predicate OwesRestartFirst(db: Database, allowRuntime: bool) {
    db.cutoverPending && allowRuntime && db.restartPending
  }

  /** The degraded bit that an unsuccessful end of Finish leaves. */
  function FinishMark(db: Database): Health {
    if db.cutoverPending then Degraded(true) else if db.restartPending then db.health else Degraded(false)
  }

  /**
   * The degraded bit that an unsuccessful reconciliation without faults leaves: the cutover's own reason wherever a later
   * start may try the cutover again, and another one wherever an operator has to look first.
   */
  ghost function MarkLeft(env: Env, d: Durable, running: bool, allowRuntime: bool): Health {
    if d.db.cutoverPending && allowRuntime && d.db.restartPending then d.db.health
    else if d.db.cutoverPending && env.hasNodes(d.db.desired) then Degraded(true)
    else
      match ActiveOf(d.db)
      case NoneActive =>
        if d.db.cutoverPending then Degraded(allowRuntime || d.db.health != Degraded(false)) else d.db.health
      case OneActive(r) =>
        if d.db.cutoverPending && r.reason != CUTOVER_BASELINE then Degraded(true)
        else if Recoverable(env, d) && (ConfigMatches(env, d.files, r) || running) then FinishMark(d.db)
        else Degraded(false)
      case SeveralActive => d.db.health
  }

  /** After startup: nothing is marked, and a process that was repaired or vouches for the state has loaded the file. */
  predicate Settled(before: Database, after: Database, matched: bool, runtime: Runtime, files: Files) {
    && !after.cutoverPending && after.health.Healthy?
    && (before.restartPending || (matched && before.health.Healthy? && !before.cutoverPending)
        || runtime == Runtime(true, Get(files, Config), true))
  }

  /** When startup, without faults of its own, goes on. */
  ghost predicate Reconcilable(env: Env, d: Durable, running: bool, safetyBlocked: bool, allowRuntime: bool, now: int) {
    && (d.db.cutoverPending ==> !(allowRuntime && d.db.restartPending) && !env.hasNodes(d.db.desired))
    && match ActiveOf(d.db)
       case NoneActive =>
         if d.db.cutoverPending then
           !allowRuntime && d.db.health != Degraded(false) && !safetyBlocked && env.compile(State(d.db.desired, now)).Some?
         else d.db.health.Healthy?
       case OneActive(r) =>
         && (d.db.cutoverPending ==> r.reason == CUTOVER_BASELINE)
         && Recoverable(env, d) && SettledWell(d.db, ConfigMatches(env, d.files, r), running, allowRuntime)
       case SeveralActive => false
  }

  /** What can stand in the way of the baseline: the degraded bit, the safety gate, or a state that does not compile. */
  lemma BaselinePublishable(env: Env, a: Durable, d: Durable, safetyBlocked: bool, request: Request, now: int)
    requires ActiveOf(a.db).NoneActive? && d.db == a.db.(health := d.db.health)
    requires request.reason == CUTOVER_BASELINE && request.effectiveAt.None? && request.restartRequired && request.baseline
    requires request.mutate(d.db.desired).Some? && request.mutate(d.db.desired).value.desired == d.db.desired
    ensures Publishable(env, d, safetyBlocked, request, now) <==>
      d.db.health.Healthy? && !safetyBlocked && env.compile(State(a.db.desired, now)).Some?
  {
    hide ActiveRevision, Agreement;
    assert 'r' in request.reason by { assert request.reason[0] == 'r'; }
  }

  lemma GateRefuses(db: Database, request: Request)
    ensures Refused(db, true, request)
  {
  }

  lemma FreshHealth(a: Durable, b: Durable, draw: nat)
    requires Fresh(a, draw) && a.files == b.files && a.db.ledger == b.db.ledger
    ensures Fresh(b, draw)
  {
  }

  lemma FreshReconciliation(d: Durable, draw: nat)
    requires Fresh(d, draw)
    ensures Reconciliation(draw) !in d.files
  {
  }

  lemma AgreementFrom(env: Env, d: Durable, r: Revision)
    requires ActiveOf(d.db) == OneActive(r) && Recoverable(env, d)
    ensures ConfigMatches(env, d.files, r) ==> Agreement(env, d)
  {
  }

  lemma RepairFrame(env: Env, d: Durable, files: Files, r: Revision, compiled: string, draw: nat)
    requires ActiveOf(d.db) == OneActive(r) && Recoverable(env, d) && env.digest(compiled) == r.digest
    requires forall q :: q != Config && q != Reconciliation(draw) ==> Get(files, q) == Get(d.files, q)
    ensures Get(files, Config) == Some(compiled) ==> Agreement(env, Durable(d.db, files))
  {
  }

  lemma AgreementFrame(env: Env, a: Database, b: Database, files: Files)
    requires Rewritten(a, b)
    ensures Agreement(env, Durable(a, files)) == Agreement(env, Durable(b, files))
  {
  }

  /** Startup rewrites nothing but the degraded bit and the cutover marker. */
  ghost predicate Rewritten(a: Database, b: Database) {
    b == a.(cutoverPending := b.cutoverPending, health := b.health)
  }
}
