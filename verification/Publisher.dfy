/** The publication protocol: a commit across the database and the configuration file, with compensation. */
module Publication {
  import opened Sequences
  import opened Text
  import opened RevisionLedger
  import opened RevisionHistory
  import opened PublicationModel
  import opened PublicationHost

  /** What a mutation leaves in the transaction. */
  datatype Edit = Edit(desired: string, restartPending: bool)

  datatype Request = Request(
    reason: string,
    effectiveAt: Option<int>,
    restartRequired: bool,
    mutate: string -> Option<Edit>,
    baseline: bool)

  datatype ErrorKind =
    | BadRequest            // the request itself
    | ConvergencePending | SystemDegraded | SafetyBlocked | RestartRequired   // refused before anything was touched
    | CandidateInvalid      // rejected by the Mihomo validator
    | PublicationFailed     // failed, and everything was put back
    | IntegrityFailed       // the active publication no longer agrees with itself
    | RecoveryFailed        // failed, and could not be put back

  /** `markLost` reports that the degraded mark the error calls for could not be written. */
  datatype Result = Success(revision: Revision) | Error(kind: ErrorKind, markLost: bool)

  /** Identities remembered before the file was replaced. */
  datatype Baseline = Baseline(
    databaseDigest: string,
    databaseAsOf: int,
    active: Option<Revision>,
    yaml: Option<string>)

  /** How many sub-steps must have failed at least before a publication that could succeed ends like this. */
  function Failures(result: Result): nat {
    if result.Success? then 0
    else (if result.kind.RecoveryFailed? then 2 else 1) + (if result.markLost then 1 else 0)
  }

  predicate RevisionMatches(actual: Option<Revision>, expected: Option<Revision>) {
    if actual.None? || expected.None? then actual.None? && expected.None?
    else actual.value.id == expected.value.id && actual.value.digest == expected.value.digest
  }

  function ActiveRow(db: Database): Option<Revision> {
    match ActiveOf(db)
    case OneActive(r) => Some(r)
    case _ => None
  }

  ghost predicate ExpiredArchive(t: Table, keep: nat, q: Path) {
    exists r :: r in Expired(t, keep) && IsArchive(q, r.id)
  }

  /** Files are as they were, except that archives of expired revisions may be gone. */
  ghost predicate OnlyExpiredGone(t: Table, keep: nat, before: Files, after: Files) {
    forall q :: Get(after, q) == Get(before, q) || (q !in after && ExpiredArchive(t, keep, q))
  }

  lemma ExpiredGoneFrame(db: Database, keep: nat, before: Files, after: Files)
    requires Invariant(db.ledger) && OnlyExpiredGone(db.ledger.rows, keep, before, after)
    ensures SameActiveArchive(db, before, after) && Get(after, Config) == Get(before, Config)
  {
    hide Invariant, ActiveRevision, Expired;
    if ActiveOf(db).OneActive? {
      var id := ActiveOf(db).revision.id;
      forall q | IsArchive(q, id) ensures Get(after, q) == Get(before, q) {
        if ExpiredArchive(db.ledger.rows, keep, q) {
          var r :| r in Expired(db.ledger.rows, keep) && IsArchive(q, r.id);
          ExpiredIsNotActive(db.ledger, keep, r);
        }
      }
    }
  }

  class Publisher {
    const host: Host

    constructor (host: Host)
      ensures this.host == host
    {
      this.host := host;
    }

    ghost predicate Valid()
      reads host`db, host`files, host`trace, host`origin
    {
      host.Valid() && Lawful(host.env)
    }

    /** Retention: files first, then the row, newest expired revision first. */
    method Prune() returns (ok: bool)
      requires Valid()
      modifies host`db, host`files, host`trace, host`faults
      ensures Valid() && old(host.trace) <= host.trace && (old(host.Safe()) ==> host.Safe())
      ensures exists steps :: host.db == old(host.db).(ledger := Apply(old(host.db.ledger), RevisionHistory.Prune(host.env.historyLimit, steps)))
      ensures SameState(old(host.db), host.db)
      ensures OnlyExpiredGone(old(host.db.ledger.rows), host.env.historyLimit, old(host.files), host.files)
      ensures ok ==> forall r :: r in Expired(old(host.db.ledger.rows), host.env.historyLimit) ==>
        r !in host.db.ledger.rows && RevisionYaml(r.id) !in host.files && RevisionState(r.id) !in host.files
      ensures ok ==> Retained(host.env, host.db)
      ensures host.faults >= old(host.faults) && (host.faults == old(host.faults) ==> ok)
    {
      hide Host.Valid, Host.Safe, Recoverable, Invariant, SameState, Apply, Expired;
      host.LedgerIsSound();
      var keep := host.env.historyLimit;
      ghost var before := host.db.ledger;
      var doomed := Expired(host.db.ledger.rows, keep);
      var failed := host.Fault();
      assert host.db == old(host.db).(ledger := Apply(before, RevisionHistory.Prune(keep, 0))) by {
        PruneNothing(before, keep);
      }
      PruneSameState(old(host.db), keep, 0);
      if failed {
        return false;
      }
      var k := 0;
      while k < |doomed|
        invariant k <= |doomed| && Valid() && old(host.trace) <= host.trace
        invariant old(host.Safe()) ==> host.Safe()
        invariant host.db == old(host.db).(ledger := Apply(before, RevisionHistory.Prune(keep, k)))
        invariant SameState(old(host.db), host.db)
        invariant OnlyExpiredGone(before.rows, keep, old(host.files), host.files)
        invariant forall i :: 0 <= i < k ==> RevisionYaml(doomed[i].id) !in host.files && RevisionState(doomed[i].id) !in host.files
        invariant host.faults >= old(host.faults)
      {
        PruneSameState(old(host.db), keep, k);
        PruneSameState(old(host.db), keep, k + 1);
        ok := RemoveRevision(before, keep, k, doomed[k]);
        if !ok {
          return;
        }
        k := k + 1;
      }
      ok := true;
      PruneDone(before, keep);
      PruneRetains(host.env, before, host.db);
    }

    /** One revision's turn in Prune. */
    method RemoveRevision(ghost before: History, ghost keep: nat, ghost k: nat, r: Revision) returns (ok: bool)
      requires Valid() && Invariant(before) && keep >= 1 && k < |Expired(before.rows, keep)|
      requires r == Expired(before.rows, keep)[k]
      requires host.db.ledger == Apply(before, RevisionHistory.Prune(keep, k))
      modifies host`db, host`files, host`trace, host`faults
      ensures Valid() && old(host.trace) <= host.trace && (old(host.Safe()) ==> host.Safe())
      ensures host.db == old(host.db)
           || host.db == old(host.db).(ledger := Apply(before, RevisionHistory.Prune(keep, k + 1)))
      ensures ok ==> host.db == old(host.db).(ledger := Apply(before, RevisionHistory.Prune(keep, k + 1)))
      ensures forall q :: Get(host.files, q) == Get(old(host.files), q) || (q !in host.files && IsArchive(q, r.id))
      // the row goes last, so that no file is left without one
      ensures ok || host.db != old(host.db) ==> RevisionYaml(r.id) !in host.files && RevisionState(r.id) !in host.files
      ensures host.faults >= old(host.faults) && (host.faults == old(host.faults) ==> ok)
    {
      hide Host.Valid, Host.Safe, Recoverable, Invariant, ActiveOf, Apply, Expired;
      host.LedgerIsSound();
      NotActiveArchive(host.db, before, keep, k);
      assert r in Expired(before.rows, keep);
      var failed := host.Fault();
      if failed || r.status.Active? {
        return false;
      }
      ok := host.RemoveSynced(RevisionYaml(r.id));
      if ok {
        ok := host.RemoveSynced(RevisionState(r.id));
        if ok {
          ok := DeleteRevision(before, keep, k, r);
        }
      }
    }

    method DeleteRevision(ghost before: History, ghost keep: nat, ghost k: nat, r: Revision) returns (ok: bool)
      requires Valid() && Invariant(before) && keep >= 1 && k < |Expired(before.rows, keep)|
      requires r == Expired(before.rows, keep)[k]
      requires host.db.ledger == Apply(before, RevisionHistory.Prune(keep, k))
      modifies host`db, host`trace, host`faults
      ensures Valid() && old(host.trace) <= host.trace && (old(host.Safe()) ==> host.Safe())
      ensures host.db == old(host.db)
           || host.db == old(host.db).(ledger := Apply(before, RevisionHistory.Prune(keep, k + 1)))
      ensures ok ==> host.db == old(host.db).(ledger := Apply(before, RevisionHistory.Prune(keep, k + 1)))
      ensures host.faults >= old(host.faults) && (host.faults == old(host.faults) ==> ok)
    {
      hide Host.Valid, Host.Safe, Recoverable, Invariant, ActiveOf, Apply, Expired, SameState;
      host.LedgerIsSound();
      var failed := host.Fault();
      var applied: bool := *;
      if !failed || applied {
        DeleteStep(host.db, before, keep, k);
        host.SetDatabase(host.db.(ledger := host.db.ledger.(rows := DeleteRow(host.db.ledger.rows, r.id))));
      }
      ok := !failed;
    }

    // ---------------------------------------------------------------- failure paths

    /** RecordFailedRevision: one more row, unless its identity is taken. */
    method RecordRow(row: Revision) returns (ok: bool)
      requires Valid() && Recordable(host.db, row)
      modifies host`db, host`trace, host`faults
      ensures Valid() && old(host.trace) <= host.trace && (old(host.Safe()) ==> host.Safe())
      ensures host.db == old(host.db) || host.db == WithFailed(old(host.db), row)
      ensures ok ==> host.db == WithFailed(old(host.db), row)
      ensures host.faults >= old(host.faults)
      ensures host.faults == old(host.faults) ==> (ok <==> !Conflicts(old(host.db.ledger.rows), row))
    {
      hide Host.Valid, Host.Safe, Recoverable, Invariant, ActiveOf, Apply, SameState, Recordable;
      host.LedgerIsSound();
      FailStep(host.db, row);
      var failed := host.Fault();
      var applied: bool := *;
      match InsertRow(host.db.ledger.rows, row.(status := Failed)) {
        case None =>
          ok := false;
        case Some(rows) =>
          if !failed || applied {
            host.SetDatabase(WithFailed(host.db, row));
          }
          ok := !failed;
      }
    }

    /** Keep the failed revision's row (and, for a rejected candidate, its archives), then maintain history. */
    method RecordFailure(row: Revision, archive: Option<(State, string)>)
      requires Valid() && Recordable(host.db, row)
      modifies host`db, host`files, host`trace, host`faults
      ensures Valid() && old(host.trace) <= host.trace && (old(host.Safe()) ==> host.Safe())
      ensures SameState(old(host.db), host.db) && host.db.health == old(host.db.health)
      ensures AfterFailure(old(host.db.ledger), host.db.ledger, row, host.env.historyLimit)
      ensures SameOutsideArchives(old(host.files), host.files)
      ensures SameActiveArchive(host.db, old(host.files), host.files)
      ensures host.faults >= old(host.faults)
      // without faults the failed revision is on record, and retention applied
      ensures host.faults == old(host.faults) && !Conflicts(old(host.db.ledger.rows), row) ==>
        && Retained(host.env, host.db)
        && exists steps :: host.db.ledger == Apply(WithFailed(old(host.db), row).ledger, RevisionHistory.Prune(host.env.historyLimit, steps))
      ensures host.faults == old(host.faults) ==> Noted(old(host.db), host.db, row)
      // and so are the archives of a rejected candidate
      ensures host.faults == old(host.faults) && archive.Some? && Unrecorded(old(host.db), old(host.files), row) ==>
        Archived(host.env, host.files, row.id, archive.value)
    {
      hide Host.Valid, Host.Safe, Recoverable, Invariant, ActiveOf, Apply, Expired, SameState, SameActiveArchive, Retained, Conflicts,
        Noted, Archived, OnlyExpiredGone, Recordable;
      host.LedgerIsSound();
      ghost var db0, files0, keep := host.db, host.files, host.env.historyLimit;
      ArchiveFailed(row, archive);
      ghost var files1 := host.files;
      FailStep(db0, row);
      SameStateRefl(db0);
      var recorded := RecordRow(row);
      ghost var db1 := host.db;
      Retain(recorded);
      if db1 == WithFailed(db0, row) {
        FailedIsNoted(db0, host.db, row, keep);
        if archive.Some? && !Conflicts(db0.ledger.rows, row) {
          FailedArchiveStays(host.env, db0, files1, host.files, row, keep, archive.value);
        }
      }
      ConflictIsNoted(db0, host.db, row);
      SameStateChain(db0, db1, host.db, files0, files1, host.files);
    }

    /** A rejected candidate's archives, as well as they can be kept; nothing else changes. */
    method ArchiveFailed(row: Revision, archive: Option<(State, string)>)
      requires Valid() && Recordable(host.db, row)
      modifies host`files, host`trace, host`faults
      ensures Valid() && old(host.trace) <= host.trace && (old(host.Safe()) ==> host.Safe())
      ensures SameOutsideArchives(old(host.files), host.files) && SameActiveArchive(host.db, old(host.files), host.files)
      ensures host.faults >= old(host.faults)
      ensures host.faults == old(host.faults) && archive.Some? && RevisionYaml(row.id) !in old(host.files) && RevisionState(row.id) !in old(host.files) ==>
        Archived(host.env, host.files, row.id, archive.value)
    {
      hide Host.Valid, Host.Safe, Recoverable, Invariant, ActiveOf, SameActiveArchive;
      ghost var files0 := host.files;
      NotArchiveOfActive(host.db, row);
      if archive.Some? {
        var archived := host.ArchiveRevision(row.id, archive.value.0, archive.value.1);
      }
      ArchiveOnlyFrame(host.db, files0, host.files, row);
    }

    /** Retention, if the failed row is on record. */
    method Retain(recorded: bool)
      requires Valid()
      modifies host`db, host`files, host`trace, host`faults
      ensures Valid() && old(host.trace) <= host.trace && (old(host.Safe()) ==> host.Safe())
      ensures SameState(old(host.db), host.db) && host.db.health == old(host.db.health)
      ensures exists steps :: host.db.ledger == Apply(old(host.db.ledger), RevisionHistory.Prune(host.env.historyLimit, steps))
      ensures SameOutsideArchives(old(host.files), host.files) && SameActiveArchive(old(host.db), old(host.files), host.files)
      ensures OnlyExpiredGone(old(host.db.ledger.rows), host.env.historyLimit, old(host.files), host.files)
      ensures host.faults >= old(host.faults) && (host.faults == old(host.faults) && recorded ==> Retained(host.env, host.db))
    {
      hide Host.Valid, Host.Safe, Recoverable, Invariant, ActiveOf, Apply, Expired, SameState, SameActiveArchive, Retained;
      host.LedgerIsSound();
      ghost var db1, files1, keep := host.db, host.files, host.env.historyLimit;
      ExpiredNothingGone(db1, keep, files1);
      PruneNothing(db1.ledger, keep);
      SameStateRefl(db1);
      if recorded {
        var pruned := Prune();
      } else {
        assert host.db.ledger == Apply(db1.ledger, RevisionHistory.Prune(keep, 0));
      }
      ExpiredGoneFrame(db1, keep, files1, host.files);
    }

    /** Put the configuration back as it was and, unless a restart is owed anyway, make the process load it. */
    method RestorePrevious(id: nat, previous: Option<string>, restartRequired: bool) returns (ok: bool)
      requires Valid()
      modifies host`files, host`trace, host`faults, host`runtime
      ensures Valid() && old(host.trace) <= host.trace && (old(host.Safe()) ==> host.Safe())
      ensures forall q :: q != Config && q != Recovery(id) ==> Get(host.files, q) == Get(old(host.files), q)
      ensures ok ==> Get(host.files, Config) == previous
      ensures ok ==> RuntimeFollows(host.runtime, old(host.runtime), previous, restartRequired)
      ensures host.faults >= old(host.faults)
      ensures host.faults == old(host.faults) && Recovery(id) !in old(host.files) ==> ok && Recovery(id) !in host.files
    {
      hide Host.Valid, Host.Safe, Recoverable, Invariant, ActiveOf;
      host.LedgerIsSound();
      if previous.None? {
        ok := host.RemoveSynced(Config);
        if ok {
          ok := host.StopProcess();
        }
        return;
      }
      ok := host.WriteSynced(Recovery(id), previous.value);
      if ok {
        ok := host.ReplaceConfig(Recovery(id));
        if ok && !restartRequired {
          ok := host.Reload();
          if ok {
            ok := host.WaitHealthy();
          }
        }
      }
      host.Discard(Recovery(id));
    }

    /** Compensate for a failure after the file was replaced; if that fails too, ask for degraded mode. */
    method FailAfterReplacement(row: Revision, previous: Option<string>, restartRequired: bool)
      returns (result: Result)
      requires Valid() && Recordable(host.db, row)
      modifies host`db, host`files, host`trace, host`faults, host`runtime
      ensures Valid() && old(host.trace) <= host.trace && (old(host.Safe()) ==> host.Safe())
      ensures SameState(old(host.db), host.db)
      ensures AfterFailure(old(host.db.ledger), host.db.ledger, row, host.env.historyLimit)
      ensures SameActiveArchive(host.db, old(host.files), host.files)
      ensures result == Error(PublicationFailed, false) || (result.Error? && result.kind.RecoveryFailed?)
      ensures result.kind.PublicationFailed? ==>
        && host.db.health == old(host.db.health) && Get(host.files, Config) == previous
        && RuntimeFollows(host.runtime, old(host.runtime), previous, restartRequired)
      ensures result.kind.RecoveryFailed? && !result.markLost ==> host.db.health.Degraded?
      ensures host.faults >= old(host.faults)
      ensures Recovery(row.id) !in old(host.files) ==> host.faults + 1 >= old(host.faults) + Failures(result)
      ensures host.faults == old(host.faults) ==> !result.markLost && Noted(old(host.db), host.db, row)
    {
      hide Host.Valid, Host.Safe, Recoverable, Invariant, ActiveOf, SameState, SameActiveArchive, AfterFailure, Recordable, Noted,
        Unrecorded, Archived;
      host.LedgerIsSound();
      ghost var db0, files0 := host.db, host.files;
      var restored := RestorePrevious(row.id, previous, restartRequired);
      ghost var files1 := host.files;
      SameArchivesFrame(db0, files0, files1, row.id);
      RecordFailure(row, None);
      SameStateRefl(db0);
      SameStateChain(db0, db0, host.db, files0, files1, host.files);
      if restored {
        return Error(PublicationFailed, false);
      }
      ghost var db2 := host.db;
      var marked := host.MarkDegraded(false);
      NotedFrame(db0, db2, host.db, row);
      HealthFrame(db2, Degraded(false));
      SameStateRefl(db2);
      SameActiveArchiveRefl(db2, host.files);
      SameStateChain(db0, db2, host.db, files0, host.files, host.files);
      return Error(RecoveryFailed, !marked);
    }

    /** Validate and install a configuration compiled from durable state. */
    method PublishCompiled(draw: nat, compiled: string, allowRuntime: bool) returns (ok: bool)
      requires Valid()
      modifies host`files, host`trace, host`faults, host`runtime
      ensures Valid() && old(host.trace) <= host.trace && (old(host.Safe()) ==> host.Safe())
      ensures forall q :: q != Config && q != Reconciliation(draw) ==> Get(host.files, q) == Get(old(host.files), q)
      ensures ok ==> Get(host.files, Config) == Some(compiled)
      ensures !ok ==> Get(host.files, Config) == Get(old(host.files), Config) || Get(host.files, Config) == Some(compiled)
      ensures !allowRuntime || host.db.restartPending || !old(host.runtime).active ==> host.runtime == old(host.runtime)
      ensures ok && allowRuntime && !host.db.restartPending && old(host.runtime).active ==>
        host.runtime == Runtime(true, Some(compiled), true)
      ensures host.faults >= old(host.faults)
      ensures host.faults == old(host.faults) && Reconciliation(draw) !in old(host.files) ==> ok && Reconciliation(draw) !in host.files
    {
      hide Host.Valid, Host.Safe, Recoverable, Invariant, ActiveOf;
      host.LedgerIsSound();
      ok := host.WriteSynced(Reconciliation(draw), compiled);
      if ok {
        var failed := host.Fault();
        ok := !failed;
        if ok {
          ok := host.ReplaceConfig(Reconciliation(draw));
          if ok {
            ok := LoadRepaired(allowRuntime);
          }
        }
      }
      host.Discard(Reconciliation(draw));
    }

    /** The runtime half of PublishCompiled: skipped when a restart is owed, before startup, or while inactive. */
    method LoadRepaired(allowRuntime: bool) returns (ok: bool)
      modifies host`faults, host`runtime
      ensures !allowRuntime || host.db.restartPending || !old(host.runtime).active ==> host.runtime == old(host.runtime)
      ensures ok && allowRuntime && !host.db.restartPending && old(host.runtime).active ==>
        host.runtime == Runtime(true, Get(host.files, Config), true)
      ensures host.faults >= old(host.faults) && (host.faults == old(host.faults) ==> ok)
    {
      var failed := host.Fault();
      if failed {
        return false;
      }
      if host.db.restartPending || !allowRuntime {
        return true;
      }
      failed := host.Fault();
      if failed {
        return false;
      }
      if !host.runtime.active {
        return true;
      }
      ok := host.Reload();
      if ok {
        ok := host.WaitHealthy();
      }
    }

    // ---------------------------------------------------------------- an uncertain commit

    /** Read durable state back and say which side of the commit it is on. */
    method Classify(row: Revision, effectiveAt: int, baseline: Baseline) returns (verdict: Verdict)
      requires Valid()
      modifies host`faults
      ensures verdict.New? ==> DatabaseIsNew(host.env, host.db, row, effectiveAt)
      ensures verdict.New? ==> host.env.compile(State(host.db.desired, effectiveAt)) == Some(verdict.compiled)
      ensures verdict.Old? ==> DatabaseIsOld(host.env, host.db, row, baseline)
      ensures host.faults >= old(host.faults)
      ensures host.faults == old(host.faults) ==>
        && (verdict.New? <==> DatabaseIsNew(host.env, host.db, row, effectiveAt))
        && (verdict.Old? <==> DatabaseIsOld(host.env, host.db, row, baseline))
    {
      hide Invariant, ActiveOf;
      var failed := host.Fault();
      if failed {
        return Unreadable;
      }
      var active := ActiveRow(host.db);
      if RevisionMatches(active, Some(row)) {
        failed := host.Fault();
        var compiled := host.env.compile(State(host.db.desired, effectiveAt));
        if failed || compiled.None? {
          return Unreadable;
        }
        return if host.env.digest(compiled.value) == row.digest then New(compiled.value) else Neither;
      }
      if RevisionMatches(active, baseline.active) {
        failed := host.Fault();
        var compiled := host.env.compile(State(host.db.desired, baseline.databaseAsOf));
        if failed || compiled.None? {
          return Unreadable;
        }
        return if host.env.digest(compiled.value) == baseline.databaseDigest then Old else Neither;
      }
      return Neither;
    }

    /** markCommitReconciliationDegraded */
    method Unresolved() returns (result: Result)
      requires Valid()
      modifies host`db, host`trace, host`faults
      ensures Valid() && old(host.trace) <= host.trace && (old(host.Safe()) ==> host.Safe())
      ensures result.Error? && result.kind.RecoveryFailed?
      ensures !result.markLost ==> host.db.health.Degraded?
      ensures host.db == old(host.db) || host.db == old(host.db).(health := Degraded(false))
      ensures host.faults >= old(host.faults) && (host.faults == old(host.faults) ==> !result.markLost)
    {
      var marked := host.MarkDegraded(false);
      return Error(RecoveryFailed, !marked);
    }

    /**
     * Resolve a COMMIT whose outcome is unknown, from whatever the database and the file now hold: report success only
     * when both are new, a plain failure only when both are old, and otherwise ask for degraded mode. Without faults
     * of its own it repairs every mixture that names one side.
     */
    method ReconcileCommit(row: Revision, effectiveAt: int, baseline: Baseline, restartRequired: bool, draw: nat)
      returns (result: Result)
      requires Valid()
      requires DatabaseIsOld(host.env, host.db, row, baseline) ==> Recordable(host.db, row)
      modifies host`db, host`files, host`trace, host`faults, host`runtime
      ensures Valid() && old(host.trace) <= host.trace && (old(host.Safe()) ==> host.Safe())
      ensures SameState(old(host.db), host.db)
      ensures SameActiveArchive(host.db, old(host.files), host.files)
      ensures result.Success? ==>
        && DatabaseIsNew(host.env, host.db, row, effectiveAt) && ConfigMatches(host.env, host.files, row)
        && ActiveRow(host.db) == Some(result.revision) && host.db.health == old(host.db.health)
      ensures result.Success? && ConfigMatches(host.env, old(host.files), row) ==>
        Get(host.files, Config) == Get(old(host.files), Config) && host.runtime == old(host.runtime)
      ensures result.Error? ==> result.kind.PublicationFailed? || result.kind.RecoveryFailed?
      ensures result.Error? && result.kind.PublicationFailed? ==>
        && DatabaseIsOld(host.env, host.db, row, baseline) && host.db.health == old(host.db.health)
        && ConfigIsOld(host.env, host.files, baseline)
        && (RuntimeFollows(host.runtime, old(host.runtime), Get(host.files, Config), restartRequired)
            || (Get(host.files, Config) == Get(old(host.files), Config) && host.runtime == old(host.runtime)))
      ensures result.Error? && result.kind.RecoveryFailed? ==> result.markLost || host.db.health.Degraded?
      ensures host.faults >= old(host.faults) && (host.faults == old(host.faults) && result.Error? ==> !result.markLost)
      // whenever database and file each are on a side, an unresolved end takes a failed sub-step, and a lost mark another
      ensures Resolvable(host.env, old(host.db), old(host.files), row, effectiveAt, baseline, draw) ==>
        host.faults + 1 >= old(host.faults) + Failures(result)
      ensures host.faults == old(host.faults) && Recovery(row.id) !in old(host.files) && Reconciliation(draw) !in old(host.files) ==>
        && (result.Success? <==>
              DatabaseIsNew(host.env, old(host.db), row, effectiveAt)
              && (ConfigMatches(host.env, old(host.files), row)
                  || Config !in old(host.files) || ConfigIsOld(host.env, old(host.files), baseline)))
        && (result == Error(PublicationFailed, false) <==>
              DatabaseIsOld(host.env, old(host.db), row, baseline)
              && (ConfigIsOld(host.env, old(host.files), baseline) || ConfigMatches(host.env, old(host.files), row)))
        && (result.Error? && result.kind.PublicationFailed? ==> Noted(old(host.db), host.db, row))
    {
      hide Host.Valid, Host.Safe, Recoverable, Invariant, ActiveOf, SameState, SameActiveArchive, AfterFailure, Recordable, ActiveRow, DatabaseIsNew, DatabaseIsOld, RuntimeFollows, Noted;
      host.LedgerIsSound();
      ghost var db0, files0 := host.db, host.files;
      SameStateRefl(db0);
      SameActiveArchiveRefl(db0, files0);
      OldOrNew(host.env, db0, row, effectiveAt, baseline);
      var verdict := Classify(row, effectiveAt, baseline);
      var failed := host.Fault();
      if verdict.Unreadable? || failed {
        result := Unresolved();
        HealthOnlyFrame(db0, host.db, files0);
        return;
      }
      var config := DigestOf(host.env, Get(host.files, Config));
      var configIsNew := config == Some(row.digest);
      var configIsOld := config == DigestOf(host.env, baseline.yaml);
      if verdict.New? && (configIsNew || config.None? || configIsOld) {
        result := AcceptCommit(row, effectiveAt, verdict.compiled, draw);
      } else if verdict.Old? && (configIsOld || configIsNew) {
        result := RejectCommit(row, baseline, restartRequired, configIsOld);
      } else {
        result := Unresolved();
        HealthOnlyFrame(db0, host.db, files0);
      }
    }

    /** The database is new; the file is, or is made, the same. */
    method AcceptCommit(row: Revision, effectiveAt: int, compiled: string, draw: nat) returns (result: Result)
      requires Valid() && DatabaseIsNew(host.env, host.db, row, effectiveAt)
      requires host.env.compile(State(host.db.desired, effectiveAt)) == Some(compiled)
      modifies host`db, host`files, host`trace, host`faults, host`runtime
      ensures Valid() && old(host.trace) <= host.trace && (old(host.Safe()) ==> host.Safe())
      ensures SameState(old(host.db), host.db) && SameActiveArchive(host.db, old(host.files), host.files)
      ensures DatabaseIsNew(host.env, host.db, row, effectiveAt)
      ensures result.Success? ==>
        && ConfigMatches(host.env, host.files, row)
        && ActiveRow(host.db) == Some(result.revision) && host.db.health == old(host.db.health)
      ensures ConfigMatches(host.env, old(host.files), row) ==>
        result.Success? && Get(host.files, Config) == Get(old(host.files), Config) && host.runtime == old(host.runtime)
      ensures result.Error? ==> result.kind.RecoveryFailed? && (result.markLost || host.db.health.Degraded?)
      ensures host.faults >= old(host.faults)
      ensures host.faults == old(host.faults) && result.Error? ==> !result.markLost
      ensures Reconciliation(draw) !in old(host.files) && result.Error? ==> host.faults + 1 >= old(host.faults) + Failures(result)
    {
      hide Host.Valid, Host.Safe, Recoverable, Invariant, ActiveOf, SameState, SameActiveArchive, ActiveRow, DatabaseIsNew;
      host.LedgerIsSound();
      ghost var db0, files0 := host.db, host.files;
      SameStateRefl(db0);
      SameActiveArchiveRefl(db0, files0);
      NewIsActive(host.env, db0, row, effectiveAt, compiled);
      if !ConfigMatches(host.env, host.files, row) {
        var repaired := PublishCompiled(draw, compiled, true);
        CompiledFrame(db0, files0, host.files, draw);
        if !repaired {
          result := Unresolved();
          HealthOnlyFrame(db0, host.db, host.files);
          SameStateChain(db0, db0, host.db, files0, host.files, host.files);
          DatabaseIsNewFrame(host.env, db0, host.db, row, effectiveAt);
          return;
        }
      }
      result := FinishSuccessful(db0, files0);
      DatabaseIsNewFrame(host.env, db0, host.db, row, effectiveAt);
    }

    /** The database is old; the file is, or is put back, the same. */
    method RejectCommit(row: Revision, baseline: Baseline, restartRequired: bool, configIsOld: bool) returns (result: Result)
      requires Valid() && DatabaseIsOld(host.env, host.db, row, baseline) && Recordable(host.db, row)
      requires configIsOld == ConfigIsOld(host.env, host.files, baseline)
      modifies host`db, host`files, host`trace, host`faults, host`runtime
      ensures Valid() && old(host.trace) <= host.trace && (old(host.Safe()) ==> host.Safe())
      ensures SameState(old(host.db), host.db) && SameActiveArchive(host.db, old(host.files), host.files)
      ensures DatabaseIsOld(host.env, host.db, row, baseline)
      ensures result == Error(PublicationFailed, false) || (result.Error? && result.kind.RecoveryFailed?)
      ensures result.kind.PublicationFailed? ==>
        && host.db.health == old(host.db.health) && ConfigIsOld(host.env, host.files, baseline)
        && (RuntimeFollows(host.runtime, old(host.runtime), Get(host.files, Config), restartRequired)
            || (Get(host.files, Config) == Get(old(host.files), Config) && host.runtime == old(host.runtime)))
      ensures result.kind.RecoveryFailed? ==> result.markLost || host.db.health.Degraded?
      ensures host.faults >= old(host.faults)
      ensures host.faults == old(host.faults) ==> !result.markLost && Noted(old(host.db), host.db, row)
      ensures Recovery(row.id) !in old(host.files) ==> host.faults + 1 >= old(host.faults) + Failures(result)
    {
      hide Host.Valid, Host.Safe, Recoverable, Invariant, ActiveOf, SameState, SameActiveArchive, AfterFailure, Recordable, ActiveRow, DatabaseIsOld, RuntimeFollows, Noted, Unrecorded, Archived;
      ghost var db0 := host.db;
      if configIsOld {
        RecordFailure(row, None);
        result := Error(PublicationFailed, false);
      } else {
        result := FailAfterReplacement(row, baseline.yaml, restartRequired);
      }
      DatabaseIsOldFrame(host.env, db0, host.db, row, baseline);
    }

    /** The publication stands; history maintenance may still fail without changing that. */
    method FinishSuccessful(ghost db0: Database, ghost files0: Files) returns (result: Result)
      requires Valid() && host.db == db0 && ActiveRow(db0).Some? && SameActiveArchive(db0, files0, host.files)
      modifies host`db, host`files, host`trace, host`faults
      ensures Valid() && old(host.trace) <= host.trace && (old(host.Safe()) ==> host.Safe())
      ensures SameState(db0, host.db) && host.db.health == db0.health
      ensures SameActiveArchive(host.db, files0, host.files)
      ensures Get(host.files, Config) == Get(old(host.files), Config)
      ensures result.Success? && ActiveRow(host.db) == Some(result.revision) && ActiveRow(db0) == Some(result.revision)
      ensures exists steps :: host.db.ledger == Apply(db0.ledger, RevisionHistory.Prune(host.env.historyLimit, steps))
      ensures host.faults >= old(host.faults) && (host.faults == old(host.faults) ==> Retained(host.env, host.db))
    {
      hide Host.Valid, Host.Safe, Recoverable, Invariant, ActiveOf, SameActiveArchive, Apply, Expired, Retained;
      host.LedgerIsSound();
      var files1 := host.files;
      result := Success(ActiveRow(host.db).value);
      var pruned := Prune();
      ExpiredGoneFrame(db0, host.env.historyLimit, files1, host.files);
      SameStateRefl(db0);
      SameStateChain(db0, db0, host.db, files0, files1, host.files);
    }

    // ---------------------------------------------------------------- publishing

    /**
     * From the replacement of the file to the end of the commit. `next` is what the open transaction will make of
     * the database.
     */
    method Install(row: Revision, compiled: string, next: Database, effectiveAt: int, baseline: Baseline,
                   restartRequired: bool, draw: nat)
      returns (result: Result)
      requires Valid() && Recordable(host.db, row)
      requires Get(host.files, Candidate(row.id)) == Some(compiled) && host.env.digest(compiled) == row.digest
      requires Invariant(next.ledger) && Grows(host.db.ledger, next.ledger) && next.health == host.db.health && Recoverable(host.env, Durable(next, host.files))
      requires ActiveRow(next) == Some(row.(status := Active))
      requires CompiledDigest(host.env, State(next.desired, effectiveAt)) == Some(row.digest)
      modifies host`db, host`files, host`trace, host`faults, host`runtime
      ensures Valid() && old(host.trace) <= host.trace && (old(host.Safe()) ==> host.Safe())
      ensures result.Success? ==>
        && result.revision == row.(status := Active) && SameState(next, host.db) && host.db.health == next.health
        && SameActiveArchive(host.db, old(host.files), host.files)
        && Get(host.files, Config) == Some(compiled)
        && (if restartRequired then host.runtime == old(host.runtime)
            else host.runtime == Runtime(true, Some(compiled), true))
      ensures result.Success? ==> Exposed(host.trace, old(host.db), Some(compiled))
      ensures result.Error? ==> result.kind.PublicationFailed? || result.kind.RecoveryFailed?
      ensures result.Error? && result.kind.PublicationFailed? ==>
        && SameState(old(host.db), host.db) && host.db.health == old(host.db.health)
        && ConfigIsOld(host.env, host.files, baseline)
        && RuntimeSettled(host.runtime, old(host.runtime), Get(host.files, Config))
      ensures result.Error? && result.kind.RecoveryFailed? ==> result.markLost || host.db.health.Degraded?
      ensures host.faults >= old(host.faults)
      ensures host.faults == old(host.faults) ==> result.Success? && Retained(host.env, host.db)
      // one failed sub-step alone is put right and put on record
      ensures Compensable(host.env, old(host.db), old(host.files), row, baseline, draw) ==>
        && host.faults >= old(host.faults) + Failures(result)
        && (host.faults <= old(host.faults) + 1 && result.Error? ==> Noted(old(host.db), host.db, row))
    {
      hide Host.Valid, Host.Safe, Recoverable, Invariant, ActiveOf, SameState, SameActiveArchive, AfterFailure, Recordable, ActiveRow, CompiledDigest, Apply, Retained, Exposed, Noted, Compensable;
      host.LedgerIsSound();
      ghost var db0, files0 := host.db, host.files;
      var ready := ReplaceAndLoad(row, compiled, restartRequired);
      CandidateFrame(db0, next, files0, host.files, row.id);
      CompensableFrame(host.env, db0, files0, host.files, row, baseline, draw);
      RecoverableFrame(host.env, Durable(next, files0), Durable(next, host.files));
      if ready {
        var failed := host.Fault();   // ActivateRevision and the success audit
        ready := !failed;
      }
      if !ready {
        result := FailAfterReplacement(row, baseline.yaml, restartRequired);
        return;
      }
      ghost var files1, exposed := host.files, host.trace;
      host.TraceIsCurrent();
      ReplacedIsExposed(exposed, db0, files1);
      result := CommitInstalled(row, compiled, next, effectiveAt, baseline, restartRequired, draw);
      if result.Success? {
        StaysExposed(exposed, host.trace, db0, Some(compiled));
        SameStateChain(next, next, host.db, files0, files1, host.files);
      }
    }

    /** Replace the file and, unless a restart is owed, have the process load it and pass a health wait. */
    method ReplaceAndLoad(row: Revision, compiled: string, restartRequired: bool) returns (ok: bool)
      requires Valid() && Get(host.files, Candidate(row.id)) == Some(compiled)
      modifies host`files, host`trace, host`faults, host`runtime
      ensures Valid() && old(host.trace) <= host.trace && (old(host.Safe()) ==> host.Safe())
      ensures forall q :: q != Config && q != Candidate(row.id) ==> Get(host.files, q) == Get(old(host.files), q)
      ensures ok ==> Get(host.files, Config) == Some(compiled)
      ensures restartRequired ==> host.runtime == old(host.runtime)
      ensures ok && !restartRequired ==> host.runtime == Runtime(true, Some(compiled), true)
      ensures host.faults >= old(host.faults) && (host.faults == old(host.faults) ==> ok)
    {
      hide Host.Valid, Host.Safe, Recoverable, Invariant, ActiveOf;
      ok := host.ReplaceConfig(Candidate(row.id));
      if ok && !restartRequired {
        ok := host.Reload();
        if ok {
          ok := host.WaitHealthy();
        }
      }
    }

    /** COMMIT, and whatever its error calls for. */
    method CommitInstalled(row: Revision, compiled: string, next: Database, effectiveAt: int, baseline: Baseline,
                           restartRequired: bool, draw: nat)
      returns (result: Result)
      requires Valid() && Recordable(host.db, row)
      requires Get(host.files, Config) == Some(compiled) && host.env.digest(compiled) == row.digest
      requires Invariant(next.ledger) && Grows(host.db.ledger, next.ledger) && next.health == host.db.health && Recoverable(host.env, Durable(next, host.files))
      requires ActiveRow(next) == Some(row.(status := Active))
      requires CompiledDigest(host.env, State(next.desired, effectiveAt)) == Some(row.digest)
      modifies host`db, host`files, host`trace, host`faults, host`runtime
      ensures Valid() && old(host.trace) <= host.trace && (old(host.Safe()) ==> host.Safe())
      ensures result.Success? ==>
        && result.revision == row.(status := Active) && SameState(next, host.db) && host.db.health == next.health
        && SameActiveArchive(host.db, old(host.files), host.files)
        && Get(host.files, Config) == Some(compiled) && host.runtime == old(host.runtime)
      ensures result.Error? ==> result.kind.PublicationFailed? || result.kind.RecoveryFailed?
      ensures result.Error? && result.kind.PublicationFailed? ==>
        && SameState(old(host.db), host.db) && host.db.health == old(host.db.health)
        && ConfigIsOld(host.env, host.files, baseline)
        && (RuntimeFollows(host.runtime, old(host.runtime), Get(host.files, Config), restartRequired)
            || (Get(host.files, Config) == Some(compiled) && host.runtime == old(host.runtime)))
      ensures result.Error? && result.kind.RecoveryFailed? ==> result.markLost || host.db.health.Degraded?
      ensures host.faults >= old(host.faults)
      ensures host.faults == old(host.faults) ==> result.Success? && Retained(host.env, host.db)
      // one failed sub-step alone is put right and put on record
      ensures Compensable(host.env, old(host.db), old(host.files), row, baseline, draw) ==>
        && host.faults >= old(host.faults) + Failures(result)
        && (host.faults <= old(host.faults) + 1 && result.Error? ==> Noted(old(host.db), host.db, row))
    {
      hide Host.Valid, Host.Safe, Recoverable, Invariant, ActiveOf, SameState, SameActiveArchive, AfterFailure, Recordable, ActiveRow, DatabaseIsNew, DatabaseIsOld, Retained, Noted;
      host.LedgerIsSound();
      ghost var db0, files0 := host.db, host.files;
      RecordableIsNotNew(host.env, db0, row, effectiveAt);
      NextIsNew(host.env, next, row, effectiveAt);
      OldOrNew(host.env, next, row, effectiveAt, baseline);
      SameActiveArchiveRefl(next, files0);
      var committed := host.Commit(next);
      if committed {
        result := FinishSuccessful(next, files0);
        return;
      }
      ghost var db1 := host.db;
      result := ReconcileCommit(row, effectiveAt, baseline, restartRequired, draw);
      DatabaseIsNewFrame(host.env, db1, host.db, row, effectiveAt);
      DatabaseIsOldFrame(host.env, db1, host.db, row, baseline);
      if result.Success? {
        SameActiveRow(next, host.db);
      }
    }

    /** The gates in front of every publication. */
    method Admit(request: Request) returns (refusal: Option<ErrorKind>)
      modifies host`faults
      ensures refusal.Some? ==> refusal.value in {BadRequest, ConvergencePending, SystemDegraded, SafetyBlocked, RestartRequired, PublicationFailed}
      ensures Refused(host.db, host.safetyBlocked, request) ==> refusal.Some?
      ensures host.faults >= old(host.faults)
      ensures refusal.Some? && Untouched(refusal.value) ==> RefusedFor(refusal.value, host.db, host.safetyBlocked, request)
      ensures host.faults == old(host.faults) && refusal.Some? ==>
        refusal != Some(PublicationFailed) && Refused(host.db, host.safetyBlocked, request)
    {
      if Blank(request.reason) {
        return Some(BadRequest);
      }
      if !request.baseline {
        var failed := host.Fault();
        if failed {
          return Some(PublicationFailed);
        }
        if host.db.cutoverPending {
          return Some(ConvergencePending);
        }
      }
      var failed := host.Fault();
      if failed {
        return Some(PublicationFailed);
      }
      if host.db.health.Degraded? {
        return Some(SystemDegraded);
      }
      failed := host.Fault();
      if failed {
        return Some(PublicationFailed);
      }
      if host.safetyBlocked {
        return Some(SafetyBlocked);
      }
      if !request.restartRequired {
        failed := host.Fault();
        if failed {
          return Some(PublicationFailed);
        }
        if host.db.restartPending {
          return Some(RestartRequired);
        }
      }
      return None;
    }

    /** Database, archives and running configuration must all still agree with the active revision. */
    method VerifyActive(r: Revision) returns (verified: Option<(int, string)>)
      requires ActiveOf(host.db) == OneActive(r)
      modifies host`faults
      ensures verified.Some? ==>
        && Agreement(host.env, Durable(host.db, host.files))
        && Snapshot(host.env, host.files, r.id).value.asOf == verified.value.0
        && Get(host.files, Config) == Some(verified.value.1)
      ensures host.faults >= old(host.faults)
      ensures host.faults == old(host.faults) && Agreement(host.env, Durable(host.db, host.files)) ==> verified.Some?
    {
      hide ActiveOf;
      var failed := host.Fault();
      if failed || !ArchivesMatch(host.env, host.files, r) || !DesiredMatches(host.env, host.db, host.files, r) {
        return None;
      }
      failed := host.Fault();
      if failed || !ConfigMatches(host.env, host.files, r) {
        return None;
      }
      return Some((Snapshot(host.env, host.files, r.id).value.asOf, host.files[Config]));
    }

    /**
     * Mutate, compile, validate, archive, replace, load, check, commit. `id` is the revision's UUID and `now` the
     * clock; the caller holds the coordinator and the publisher's mutex.
     */
    method Publish(request: Request, now: int, id: nat) returns (result: Result)
      requires Valid() && Fresh(Durable(host.db, host.files), id)
      modifies host`db, host`files, host`trace, host`faults, host`runtime
      ensures Valid() && old(host.trace) <= host.trace && (old(host.Safe()) ==> host.Safe())
      // refused before anything is touched
      ensures Refused(old(host.db), host.safetyBlocked, request) ==> result.Error?
      ensures result.Error? && Untouched(result.kind) ==> RefusedFor(result.kind, old(host.db), host.safetyBlocked, request)
      ensures Refused(old(host.db), host.safetyBlocked, request) || (result.Error? && Untouched(result.kind)) ==>
        host.db == old(host.db) && host.files == old(host.files) && host.runtime == old(host.runtime)
      // otherwise all is new, all is old, or the system is degraded
      ensures Trichotomy(result, host.env, Durable(old(host.db), old(host.files)), old(host.runtime),
                         Durable(host.db, host.files), host.runtime, request, EffectiveAt(request, now), id)
      // on the way to success the new file has been there while the database still was the old one
      ensures result.Success? ==> Exposed(host.trace, old(host.db), Get(host.files, Config))
      // and without faults, nothing but the request and the present state stand in the way
      ensures host.faults >= old(host.faults)
      ensures host.faults == old(host.faults) && result.Success? ==> Retained(host.env, host.db)
      ensures host.faults == old(host.faults) ==>
        Expected(result, host.env, Durable(old(host.db), old(host.files)), host.safetyBlocked, request, now)
      // what can be published is lost to one failed sub-step only by a plain failure, and to two only by degraded mode
      ensures if Publishable(host.env, Durable(old(host.db), old(host.files)), host.safetyBlocked, request, now) then
          host.faults >= old(host.faults) + Failures(result)
        else result.Error? && !result.kind.RecoveryFailed? && !result.kind.CandidateInvalid?
      ensures result == Error(CandidateInvalid, false) && host.faults <= old(host.faults) + 1 ==>
        Rejected(host.env, old(host.db), Durable(host.db, host.files), request, EffectiveAt(request, now), id)
    {
      hide Host.Valid, Host.Safe, Recoverable, Invariant, SameActiveArchive, Recordable, Agreement, ArchivesMatch, DesiredMatches, Retained, Exposed, Rejected;
      host.LedgerIsSound();
      var refusal := Admit(request);
      if refusal.Some? {
        return Error(refusal.value, false);
      }
      result := PublishAdmitted(request, now, id);
    }

    method PublishAdmitted(request: Request, now: int, id: nat) returns (result: Result)
      requires Valid() && Fresh(Durable(host.db, host.files), id) && !Refused(host.db, host.safetyBlocked, request)
      modifies host`db, host`files, host`trace, host`faults, host`runtime
      ensures Valid() && old(host.trace) <= host.trace && (old(host.Safe()) ==> host.Safe())
      ensures result.Error? ==> !Untouched(result.kind)
      ensures Trichotomy(result, host.env, Durable(old(host.db), old(host.files)), old(host.runtime),
                         Durable(host.db, host.files), host.runtime, request, EffectiveAt(request, now), id)
      ensures result.Success? ==> Exposed(host.trace, old(host.db), Get(host.files, Config))
      ensures host.faults >= old(host.faults)
      ensures host.faults == old(host.faults) && result.Success? ==> Retained(host.env, host.db)
      ensures host.faults == old(host.faults) ==>
        Expected(result, host.env, Durable(old(host.db), old(host.files)), host.safetyBlocked, request, now)
      // what can be published is lost to one failed sub-step only by a plain failure, and to two only by degraded mode
      ensures if Publishable(host.env, Durable(old(host.db), old(host.files)), host.safetyBlocked, request, now) then
          host.faults >= old(host.faults) + Failures(result)
        else result.Error? && !result.kind.RecoveryFailed? && !result.kind.CandidateInvalid?
      ensures result == Error(CandidateInvalid, false) && host.faults <= old(host.faults) + 1 ==>
        Rejected(host.env, old(host.db), Durable(host.db, host.files), request, EffectiveAt(request, now), id)
    {
      hide Host.Valid, Host.Safe, Recoverable, Invariant, SameActiveArchive, Refused, Agreement, Trichotomy, ActiveOf, SameState, Fresh, Compiles, Retained, Exposed, Rejected, Remembered;
      var at := EffectiveAt(request, now);
      ghost var before, loaded := Durable(host.db, host.files), host.runtime;
      var ending, baseline := Remember(at);
      if ending.Some? {
        result := ending.value;
        RememberFailed(result, host.env, before, loaded, Durable(host.db, host.files), request, at, id);
        return;
      }
      result := PublishMutation(request, at, id, baseline);
    }

    /** The transaction's first reads: what is about to be replaced, or why nothing can be. */
    method Remember(at: int) returns (ending: Option<Result>, baseline: Baseline)
      requires Valid()
      modifies host`db, host`trace, host`faults
      ensures Valid() && old(host.trace) <= host.trace && (old(host.Safe()) ==> host.Safe())
      ensures ending.None? ==> host.db == old(host.db) && Remembered(host.env, Durable(host.db, host.files), baseline)
      ensures ending.Some? ==> ending.value == Error(PublicationFailed, false) || (ending.value.Error? && ending.value.kind.IntegrityFailed?)
      ensures ending == Some(Error(PublicationFailed, false)) ==> host.db == old(host.db)
      ensures ending.Some? && ending.value.kind.IntegrityFailed? ==>
        SameState(old(host.db), host.db) && (ending.value.markLost || host.db.health.Degraded?)
      // the active publication's disagreement with itself is an integrity failure, and nothing else is
      ensures host.faults >= old(host.faults)
      ensures host.faults == old(host.faults) ==>
        ending == if ActiveOf(old(host.db)).OneActive? && !Agreement(host.env, Durable(old(host.db), host.files)) then Some(Error(IntegrityFailed, false))
                  else if Comparable(host.env, Durable(old(host.db), host.files), at) then None
                  else Some(Error(PublicationFailed, false))
      ensures ending.None? ==> Comparable(host.env, Durable(old(host.db), host.files), at)
      ensures ending.Some? && Comparable(host.env, Durable(old(host.db), host.files), at) ==>
        host.faults >= old(host.faults) + Failures(ending.value)
    {
      hide Host.Valid, Host.Safe, Recoverable, Invariant, Agreement, ActiveOf, SameState;
      host.LedgerIsSound();
      ghost var before := Durable(host.db, host.files);
      ActiveIsTotal(host.db);
      ending, baseline := None, Baseline("", at, None, None);
      var failed := host.Fault();   // BEGIN IMMEDIATE, then the active revision
      if failed {
        ending := Some(Error(PublicationFailed, false));
        return;
      }
      var active := ActiveRow(host.db);
      var oldAt, previous := at, None;
      if active.Some? {
        var verified := VerifyActive(active.value);
        if verified.None? {
          var marked := host.MarkDegraded(false);
          HealthOnlyFrame(before.db, host.db, host.files);
          ending := Some(Error(IntegrityFailed, !marked));
          return;
        }
        AgreementCompiles(host.env, before);
        oldAt, previous := verified.value.0, Some(verified.value.1);
      }
      failed := host.Fault();
      var oldCompiled := host.env.compile(State(host.db.desired, oldAt));
      if failed || oldCompiled.None? {
        ending := Some(Error(PublicationFailed, false));
        return;
      }
      baseline := Baseline(host.env.digest(oldCompiled.value), oldAt, active, previous);
    }

    /** Mutate and compile inside the transaction, then try the candidate. */
    method PublishMutation(request: Request, at: int, id: nat, baseline: Baseline) returns (result: Result)
      requires Valid() && Fresh(Durable(host.db, host.files), id)
      requires Remembered(host.env, Durable(host.db, host.files), baseline)
      modifies host`db, host`files, host`trace, host`faults, host`runtime
      ensures Valid() && old(host.trace) <= host.trace && (old(host.Safe()) ==> host.Safe())
      ensures result.Error? ==> !Untouched(result.kind)
      ensures Trichotomy(result, host.env, Durable(old(host.db), old(host.files)), old(host.runtime),
                         Durable(host.db, host.files), host.runtime, request, at, id)
      ensures result.Success? ==> Exposed(host.trace, old(host.db), Get(host.files, Config))
      ensures host.faults >= old(host.faults)
      ensures host.faults == old(host.faults) && result.Success? ==> Retained(host.env, host.db)
      ensures if Compiles(host.env, old(host.db), request, at) then host.faults >= old(host.faults) + Failures(result)
              else result == Error(PublicationFailed, false)
      ensures result == Error(CandidateInvalid, false) && host.faults <= old(host.faults) + 1 ==>
        Rejected(host.env, old(host.db), Durable(host.db, host.files), request, at, id)
    {
      hide Host.Valid, Host.Safe, Recoverable, Invariant, SameActiveArchive, Trichotomy, ActiveOf, SameState, Remembered, Fresh, Retained, Exposed;
      host.LedgerIsSound();
      PutBackRefl(host.env, Durable(host.db, host.files), host.runtime, request, at, id);
      var edit := request.mutate(host.db.desired);
      if edit.None? {
        return Error(PublicationFailed, false);
      }
      var failed := host.Fault();
      var compiled := host.env.compile(State(edit.value.desired, at));
      if failed || compiled.None? {
        return Error(PublicationFailed, false);
      }
      failed := host.Fault();   // the next number and a UUID
      if failed {
        return Error(PublicationFailed, false);
      }
      var row := Revision(id, NextNumber(host.db.ledger.rows), host.env.digest(compiled.value), Pending, request.reason);
      FreshIsUnrecorded(Durable(host.db, host.files), row);
      result := PublishCandidate(request, row, edit.value, compiled.value, at, baseline);
    }

    /** Write the candidate, see it through, and clean the temporary files up whatever happened. */
    method PublishCandidate(request: Request, row: Revision, edit: Edit, compiled: string, at: int, baseline: Baseline)
      returns (result: Result)
      requires Valid() && Fresh(Durable(host.db, host.files), row.id)
      requires Planned(host.env, host.db, request, row, edit, compiled, at)
      requires Remembered(host.env, Durable(host.db, host.files), baseline)
      modifies host`db, host`files, host`trace, host`faults, host`runtime
      ensures Valid() && old(host.trace) <= host.trace && (old(host.Safe()) ==> host.Safe())
      ensures result.Error? ==> !Untouched(result.kind)
      ensures Trichotomy(result, host.env, Durable(old(host.db), old(host.files)), old(host.runtime),
                         Durable(host.db, host.files), host.runtime, request, at, row.id)
      ensures result.Success? ==> Exposed(host.trace, old(host.db), Get(host.files, Config))
      ensures host.faults >= old(host.faults) + Failures(result)
      ensures host.faults == old(host.faults) ==> Retained(host.env, host.db)
      ensures result == Error(CandidateInvalid, false) && host.faults <= old(host.faults) + 1 ==>
        Noted(old(host.db), host.db, row) && Archived(host.env, host.files, row.id, (State(edit.desired, at), compiled))
      // and leaves no temporary file behind
      ensures host.faults == old(host.faults) ==> Candidate(row.id) !in host.files && Backup(row.id) !in host.files
    {
      hide Host.Valid, Host.Safe, Recoverable, Invariant, SameState, SameActiveArchive, Trichotomy, Planned, Remembered, ActiveOf, Retained, Exposed, Noted, Archived, Reserved;
      host.LedgerIsSound();
      ghost var before := Durable(host.db, host.files);
      PutBackRefl(host.env, before, host.runtime, request, at, row.id);
      SameActiveArchiveRefl(host.db, host.files);
      var written := host.WriteSynced(Candidate(row.id), compiled);
      ghost var middle := Durable(host.db, host.files);
      TemporaryFrame(host.db, before.files, middle.files, Candidate(row.id));
      if written {
        RememberedFrame(host.env, before, middle, baseline);
        FreshBecomesReserved(before, middle, row.id);
        result := InstallCandidate(request, row, edit, compiled, at, baseline);
      } else {
        result := Error(PublicationFailed, false);
        TrichotomyFrame(result, host.env, before, before, host.runtime, before, middle, host.runtime, request, at, row.id);
      }
      ghost var after, exposed := Durable(host.db, host.files), host.trace;
      Sweep(row.id);
      SweptFrame(host.env, host.db, after.files, host.files, row.id, (State(edit.desired, at), compiled));
      StaysExposed(exposed, host.trace, before.db, Get(host.files, Config));
      TrichotomyFrame(result, host.env, before, if written then middle else before, old(host.runtime), after, Durable(host.db, host.files), host.runtime,
                      request, at, row.id);
    }

    /** The deferred removal of the temporary files. */
    method Sweep(id: nat)
      requires Valid()
      modifies host`files, host`trace, host`faults
      ensures Valid() && old(host.trace) <= host.trace && (old(host.Safe()) ==> host.Safe())
      ensures forall q :: q != Candidate(id) && q != Backup(id) ==> Get(host.files, q) == Get(old(host.files), q)
      ensures host.faults >= old(host.faults)
      ensures host.faults == old(host.faults) ==> Candidate(id) !in host.files && Backup(id) !in host.files
    {
      hide Host.Valid, Host.Safe, ActiveOf;
      host.Discard(Candidate(id));
      host.Discard(Backup(id));
    }

    /** From the validated candidate to the end of Install. */
    method InstallCandidate(request: Request, row: Revision, edit: Edit, compiled: string, at: int, baseline: Baseline)
      returns (result: Result)
      requires Valid() && Reserved(Durable(host.db, host.files), row.id)
      requires Planned(host.env, host.db, request, row, edit, compiled, at)
      requires Remembered(host.env, Durable(host.db, host.files), baseline)
      requires Get(host.files, Candidate(row.id)) == Some(compiled)
      modifies host`db, host`files, host`trace, host`faults, host`runtime
      ensures Valid() && old(host.trace) <= host.trace && (old(host.Safe()) ==> host.Safe())
      ensures result.Error? ==> !Untouched(result.kind)
      ensures Trichotomy(result, host.env, Durable(old(host.db), old(host.files)), old(host.runtime),
                         Durable(host.db, host.files), host.runtime, request, at, row.id)
      ensures result.Success? ==> Exposed(host.trace, old(host.db), Get(host.files, Config))
      ensures host.faults >= old(host.faults) + Failures(result)
      ensures host.faults == old(host.faults) ==> Retained(host.env, host.db)
      ensures result == Error(CandidateInvalid, false) && host.faults <= old(host.faults) + 1 ==>
        Noted(old(host.db), host.db, row) && Archived(host.env, host.files, row.id, (State(edit.desired, at), compiled))
    {
      hide Host.Valid, Host.Safe, Recoverable, Invariant, SameState, SameActiveArchive, ActiveOf, Agreement, Recordable, Reserved, Published, Trichotomy, ConfigIsOld, Planned, Remembered, TrichotomyFrom, PutBack, RuntimeSettled, DigestOf, Retained, Exposed, Noted, Compensable, Archived, Unrecorded, CheckFailed;
      host.LedgerIsSound();
      ghost var before := Durable(host.db, host.files);
      PlannedIsRecordable(before, request, row, edit, compiled, at, host.env);
      PlannedIsUnrecorded(before, request, row, edit, compiled, at, host.env);
      RememberedFacts(host.env, before, baseline);
      ReservedRows(before, row.id);
      PutBackRefl(host.env, before, host.runtime, request, at, row.id);
      var failed := host.Fault();
      if failed {
        return Error(PublicationFailed, false);
      }
      var previous := if baseline.active.Some? then baseline.yaml else Get(host.files, Config);
      var ending := CheckCandidate(row, State(edit.desired, at), compiled, baseline.active, previous);
      if ending.Some? {
        result := ending.value;
        CheckedEnding(result, host.env, before, host.runtime, Durable(host.db, host.files), request, at, row.id);
        return;
      }
      RememberedIsCompensable(host.env, before, host.files, row, baseline, previous);
      result := InstallPrepared(request, row, edit, compiled, at, baseline.(yaml := previous));
      TrichotomyBefore(result, host.env, before, old(host.runtime),
                       Durable(host.db, host.files), host.runtime, request, at, row.id, previous);
    }

    /** Whatever can still end the publication before the running configuration is touched. */
    method CheckCandidate(row: Revision, state: State, compiled: string, active: Option<Revision>, previous: Option<string>)
      returns (ending: Option<Result>)
      requires Valid() && Recordable(host.db, row) && Unrecorded(host.db, host.files, row) && Backup(row.id) !in host.files
      requires active.Some? ==> ConfigMatches(host.env, host.files, active.value)
      modifies host`db, host`files, host`trace, host`faults
      ensures Valid() && old(host.trace) <= host.trace && (old(host.Safe()) ==> host.Safe())
      ensures ending.None? ==>
        && host.db == old(host.db)
        && Get(host.files, RevisionYaml(row.id)) == Some(compiled)
        && Get(host.files, RevisionState(row.id)) == Some(host.env.encode(state))
        && (forall q: Path :: q.Candidate? || q.Recovery? || q.Reconciliation? ==> Get(host.files, q) == Get(old(host.files), q))
      ensures ending.Some? ==> ending.value.Error? && CheckFailed(ending.value, Durable(old(host.db), old(host.files)), Durable(host.db, host.files))
      ensures host.faults >= old(host.faults) + (if ending.Some? then Failures(ending.value) else 0)
      ensures ending == Some(Error(CandidateInvalid, false)) && host.faults <= old(host.faults) + 1 ==>
        Noted(old(host.db), host.db, row) && Archived(host.env, host.files, row.id, (state, compiled))
    {
      hide Host.Valid, Host.Safe, Recoverable, Invariant, SameState, SameActiveArchive, ActiveOf, Recordable, Noted, Archived, Conflicts, DigestOf;
      host.LedgerIsSound();
      var failure := Prepare(row, state, compiled, previous);
      if failure.Some? {
        return Some(Error(failure.value, false));
      }
      if active.Some? {
        var same := StillActive(active.value);
        if !same {
          var changed := AbortChanged(row);
          return Some(changed);
        }
      }
      return None;
    }

    /** The file is still the active revision's, whatever somebody else may have done to it meanwhile. */
    method StillActive(active: Revision) returns (same: bool)
      requires Valid()
      modifies host`files, host`trace, host`faults
      ensures Valid() && old(host.trace) <= host.trace && (old(host.Safe()) ==> host.Safe())
      ensures SameBut(old(host.files), host.files, Config)
      ensures same ==> ConfigMatches(host.env, host.files, active)
      ensures host.faults >= old(host.faults)
      ensures host.faults == old(host.faults) ==>
        host.files == old(host.files) && (same <==> ConfigMatches(host.env, host.files, active))
    {
      hide Host.Valid, Host.Safe;
      host.ExternalChange();
      var failed := host.Fault();
      same := !failed && ConfigMatches(host.env, host.files, active);
    }

    /** The part of InstallCandidate that runs once nothing but the installation itself is left. */
    method InstallPrepared(request: Request, row: Revision, edit: Edit, compiled: string, at: int, baseline: Baseline)
      returns (result: Result)
      requires Valid() && Recordable(host.db, row)
      requires forall r :: r in host.db.ledger.rows ==> r.id != row.id
      requires Planned(host.env, host.db, request, row, edit, compiled, at)
      requires Get(host.files, Candidate(row.id)) == Some(compiled)
      requires Get(host.files, RevisionYaml(row.id)) == Some(compiled)
      requires Get(host.files, RevisionState(row.id)) == Some(host.env.encode(State(edit.desired, at)))
      modifies host`db, host`files, host`trace, host`faults, host`runtime
      ensures Valid() && old(host.trace) <= host.trace && (old(host.Safe()) ==> host.Safe())
      ensures result.Error? ==> result.kind.PublicationFailed? || result.kind.RecoveryFailed?
      ensures TrichotomyFrom(result, host.env, old(host.db), baseline.yaml, old(host.runtime),
                             Durable(host.db, host.files), host.runtime, request, at, row.id)
      ensures result.Success? ==> Exposed(host.trace, old(host.db), Get(host.files, Config))
      ensures host.faults >= old(host.faults)
      ensures host.faults == old(host.faults) ==> result.Success? && Retained(host.env, host.db)
      // one failed sub-step alone is put right and put on record
      ensures Compensable(host.env, old(host.db), old(host.files), row, baseline, row.id) ==>
        && host.faults >= old(host.faults) + Failures(result)
        && (host.faults <= old(host.faults) + 1 && result.Error? ==> Noted(old(host.db), host.db, row))
    {
      hide Host.Valid, Host.Safe, Recoverable, Invariant, SameState, SameActiveArchive, ActiveOf, Agreement, Recordable, Published, Retained, Exposed, Noted, Compensable;
      host.LedgerIsSound();
      var next := NextDatabase(host.db, edit, row);
      NextIsRecoverable(host.env, host.db, host.files, request, row, edit, compiled, at);
      ghost var db0, files0 := host.db, host.files;
      result := Install(row, compiled, next, at, baseline, request.restartRequired, row.id);
      if result.Success? {
        InstalledIsAgreement(host.env, next, files0, Durable(host.db, host.files), row, compiled);
        InstalledIsPublished(host.env, db0, next, host.db, request, row, edit, compiled, at);
      }
    }

    /** Everything that can still be refused without touching the running configuration. */
    method Prepare(row: Revision, state: State, compiled: string, previous: Option<string>)
      returns (failure: Option<ErrorKind>)
      requires Valid() && Recordable(host.db, row)
      requires RevisionYaml(row.id) !in host.files && RevisionState(row.id) !in host.files && Backup(row.id) !in host.files
      modifies host`db, host`files, host`trace, host`faults
      ensures Valid() && old(host.trace) <= host.trace && (old(host.Safe()) ==> host.Safe())
      ensures SameLive(old(host.files), host.files)
      ensures failure.Some? ==>
        && failure.value in {CandidateInvalid, PublicationFailed}
        && SameState(old(host.db), host.db) && host.db.health == old(host.db.health)
      ensures failure.None? ==>
        && host.db == old(host.db)
        && Get(host.files, RevisionYaml(row.id)) == Some(compiled)
        && Get(host.files, RevisionState(row.id)) == Some(host.env.encode(state))
      ensures host.faults >= old(host.faults) && (host.faults == old(host.faults) ==> failure.None?)
      // archives are left behind only with a failed row
      ensures failure == Some(PublicationFailed) && host.faults <= old(host.faults) + 1 && Unrecorded(old(host.db), old(host.files), row) ==>
        || Noted(old(host.db), host.db, row)
        || (RevisionYaml(row.id) !in host.files && RevisionState(row.id) !in host.files && host.db == old(host.db))
      // what the validator rejects is kept for inspection
      ensures failure == Some(CandidateInvalid) && host.faults <= old(host.faults) + 1 && Unrecorded(old(host.db), old(host.files), row) ==>
        Noted(old(host.db), host.db, row) && Archived(host.env, host.files, row.id, (state, compiled))
    {
      hide Host.Valid, Host.Safe, Recoverable, Invariant, SameState, SameActiveArchive, ActiveOf, Recordable, AfterFailure, ArchiveOfActive,
        Noted, Unrecorded, Archived, Conflicts;
      host.LedgerIsSound();
      SameStateRefl(host.db);
      var failed := host.Fault();   // mihomo -t
      if failed {
        RecordFailure(row, Some((state, compiled)));
        return Some(CandidateInvalid);
      }
      var archived := KeepAndArchive(row, state, compiled, previous);
      if !archived {
        return Some(PublicationFailed);
      }
      failed := host.Fault();   // InsertRevision
      if failed {
        RecordFailure(row, None);
        return Some(PublicationFailed);
      }
      return None;
    }

    /** Keep a copy of the running configuration, then archive the candidate and its state. */
    method KeepAndArchive(row: Revision, state: State, compiled: string, previous: Option<string>) returns (ok: bool)
      requires Valid() && Recordable(host.db, row)
      requires RevisionYaml(row.id) !in host.files && RevisionState(row.id) !in host.files && Backup(row.id) !in host.files
      modifies host`files, host`trace, host`faults
      ensures Valid() && old(host.trace) <= host.trace && (old(host.Safe()) ==> host.Safe())
      ensures SameLive(old(host.files), host.files)
      ensures ok && previous.Some? ==> Get(host.files, Backup(row.id)) == previous
      ensures ok ==> Get(host.files, RevisionYaml(row.id)) == Some(compiled)
      ensures ok ==> Get(host.files, RevisionState(row.id)) == Some(host.env.encode(state))
      ensures host.faults >= old(host.faults) && (host.faults == old(host.faults) ==> ok)
      // archives that cannot be completed are taken away again
      ensures !ok && host.faults <= old(host.faults) + 1 ==> RevisionYaml(row.id) !in host.files && RevisionState(row.id) !in host.files
    {
      hide Host.Valid, Host.Safe, Recoverable, Invariant, SameState, SameActiveArchive, ActiveOf, Recordable, ArchiveOfActive;
      host.LedgerIsSound();
      NotArchiveOfActive(host.db, row);
      BackupIsNoArchive(host.db, row.id);
      if previous.Some? {
        ok := host.WriteSynced(Backup(row.id), previous.value);
        assert Get(host.files, RevisionYaml(row.id)) == None && Get(host.files, RevisionState(row.id)) == None;
        if !ok {
          return;
        }
      }
      assert Get(host.files, RevisionYaml(row.id)) == None && Get(host.files, RevisionState(row.id)) == None;
      ok := host.ArchiveRevision(row.id, state, compiled);
      if !ok {
        host.Discard(RevisionYaml(row.id));
        host.Discard(RevisionState(row.id));
      }
    }

    /** abortChangedActivePublication: somebody else changed the file; leave it alone and ask for degraded mode. */
    method AbortChanged(row: Revision) returns (result: Result)
      requires Valid() && Recordable(host.db, row)
      modifies host`db, host`files, host`trace, host`faults
      ensures Valid() && old(host.trace) <= host.trace && (old(host.Safe()) ==> host.Safe())
      ensures result.Error? && result.kind.IntegrityFailed?
      ensures SameState(old(host.db), host.db) && (result.markLost || host.db.health.Degraded?)
      ensures Get(host.files, Config) == Get(old(host.files), Config)
      ensures host.faults >= old(host.faults)
      ensures host.faults == old(host.faults) ==>
        RevisionYaml(row.id) !in host.files && RevisionState(row.id) !in host.files && !result.markLost
    {
      hide Host.Valid, Host.Safe, Recoverable, Invariant, ActiveOf, SameState;
      host.LedgerIsSound();
      NotArchiveOfActive(host.db, row);
      var yamlGone := host.RemoveSynced(RevisionYaml(row.id));
      var stateGone := host.RemoveSynced(RevisionState(row.id));
      ghost var db0 := host.db;
      var marked := host.MarkDegraded(false);
      HealthOnlyFrame(db0, host.db, host.files);
      return Error(IntegrityFailed, !marked);
    }
  }

  /** The draw is taken by its own candidate file only. */
  ghost predicate Reserved(d: Durable, id: nat) {
    && (forall r :: r in d.db.ledger.rows ==> r.id != id)
    && (forall p :: p in d.files ==> p == Config || p == Candidate(id) || p.id != id)
  }

  lemma FreshBecomesReserved(a: Durable, b: Durable, id: nat)
    requires Fresh(a, id) && a.db == b.db && SameBut(a.files, b.files, Candidate(id))
    ensures Reserved(b, id)
  {
    forall p | p in b.files ensures p == Config || p == Candidate(id) || p.id != id {
      assert Get(a.files, p) == Get(b.files, p) || p == Candidate(id);
    }
  }

  lemma ReservedIsRecordable(d: Durable, row: Revision)
    requires Reserved(d, row.id) && row.number == NextNumber(d.db.ledger.rows)
    ensures Recordable(d.db, row)
    ensures RevisionYaml(row.id) !in d.files && RevisionState(row.id) !in d.files
    ensures Backup(row.id) !in d.files && Recovery(row.id) !in d.files && Reconciliation(row.id) !in d.files
  {
  }

  lemma ReservedRows(d: Durable, id: nat)
    requires Reserved(d, id)
    ensures forall r :: r in d.db.ledger.rows ==> r.id != id
  {
  }

  lemma BackupIsNoArchive(db: Database, id: nat)
    ensures !ArchiveOfActive(db, Backup(id))
  {
  }

  /** What committing the open transaction makes of the database. */
  function NextDatabase(db: Database, edit: Edit, row: Revision): Database {
    db.(desired := edit.desired, restartPending := edit.restartPending,
        ledger := Apply(db.ledger, Publish(row.id, row.digest, row.reason)))
  }

  lemma NextIsActive(db: Database, edit: Edit, row: Revision)
    requires Invariant(db.ledger) && row.number == NextNumber(db.ledger.rows) && row.status.Pending?
    requires forall r :: r in db.ledger.rows ==> r.id != row.id
    ensures Invariant(NextDatabase(db, edit, row).ledger) && Grows(db.ledger, NextDatabase(db, edit, row).ledger)
    ensures ActiveOf(NextDatabase(db, edit, row)) == OneActive(row.(status := RevisionLedger.Active))
  {
    PublishKeeps(db.ledger, row.id, row.digest, row.reason);
    assert row == FreshRow(db.ledger.rows, row.id, row.digest, Pending, row.reason);
    assert InsertRow(db.ledger.rows, row).Some?;
    var inserted := InsertRow(db.ledger.rows, row).value;
    assert row in inserted;
    PublishedRow(db.ledger.rows, row.id, row.digest, row.reason);
  }

  lemma NextIsRecoverable(env: Env, db: Database, files: Files, request: Request, row: Revision, edit: Edit,
                          compiled: string, at: int)
    requires Lawful(env) && Invariant(db.ledger) && Planned(env, db, request, row, edit, compiled, at)
    requires forall r :: r in db.ledger.rows ==> r.id != row.id
    requires Get(files, RevisionYaml(row.id)) == Some(compiled)
    requires Get(files, RevisionState(row.id)) == Some(env.encode(State(edit.desired, at)))
    ensures var next := NextDatabase(db, edit, row);
      && Invariant(next.ledger) && Grows(db.ledger, next.ledger) && ActiveRow(next) == Some(row.(status := RevisionLedger.Active))
      && Recoverable(env, Durable(next, files))
      && CompiledDigest(env, State(next.desired, at)) == Some(row.digest)
  {
    hide Invariant, ActiveRevision, Apply;
    NextIsActive(db, edit, row);
  }

  lemma PlannedIsRecordable(d: Durable, request: Request, row: Revision, edit: Edit, compiled: string, at: int, env: Env)
    requires Reserved(d, row.id) && Planned(env, d.db, request, row, edit, compiled, at)
    ensures Recordable(d.db, row)
    ensures RevisionYaml(row.id) !in d.files && RevisionState(row.id) !in d.files
    ensures Backup(row.id) !in d.files && Recovery(row.id) !in d.files && Reconciliation(row.id) !in d.files
  {
    ReservedIsRecordable(d, row);
  }

  lemma FreshIsUnrecorded(d: Durable, row: Revision)
    requires Fresh(d, row.id) && row.number == NextNumber(d.db.ledger.rows)
    ensures Unrecorded(d.db, d.files, row)
  {
  }

  /** A plain failure has left the published state and the file alone; a file changed by somebody else degrades. */
  ghost predicate CheckFailed(result: Result, before: Durable, after: Durable)
    requires result.Error?
  {
    && SameState(before.db, after.db)
    && (if result.kind.IntegrityFailed? then result.markLost || after.db.health.Degraded?
        else result.kind in {CandidateInvalid, PublicationFailed} && !result.markLost
             && after.db.health == before.db.health && SameLive(before.files, after.files))
  }

  lemma CheckedEnding(result: Result, env: Env, before: Durable, runtime: Runtime, after: Durable, request: Request, at: int, id: nat)
    requires result.Error? && CheckFailed(result, before, after)
    ensures Trichotomy(result, env, before, runtime, after, runtime, request, at, id) && !Untouched(result.kind)
  {
  }

  lemma PlannedIsUnrecorded(d: Durable, request: Request, row: Revision, edit: Edit, compiled: string, at: int, env: Env)
    requires Reserved(d, row.id) && Planned(env, d.db, request, row, edit, compiled, at)
    ensures Unrecorded(d.db, d.files, row)
  {
  }

  /** What was remembered before the candidate is enough to put everything back. */
  lemma RememberedIsCompensable(env: Env, d: Durable, files: Files, row: Revision, baseline: Baseline, previous: Option<string>)
    requires Remembered(env, d, baseline) && Reserved(d, row.id) && Recordable(d.db, row)
    requires Get(files, Recovery(row.id)) == Get(d.files, Recovery(row.id))
    requires Get(files, Reconciliation(row.id)) == Get(d.files, Reconciliation(row.id))
    ensures Compensable(env, d.db, files, row, baseline.(yaml := previous), row.id)
  {
  }

  lemma RememberedFacts(env: Env, d: Durable, baseline: Baseline)
    requires Remembered(env, d, baseline)
    ensures baseline.active.Some? ==>
      && baseline.yaml == Get(d.files, Config)
      && DigestOf(env, Get(d.files, Config)) == Some(baseline.active.value.digest)
  {
  }

  lemma PutBackFrame(env: Env, before: Durable, after: Durable, runtime: Runtime)
    requires SameState(before.db, after.db) && after.db.health == before.db.health && SameLive(before.files, after.files)
    ensures PutBack(env, before, runtime, after, runtime)
  {
  }

  lemma InstalledIsAgreement(env: Env, next: Database, files: Files, after: Durable, row: Revision, compiled: string)
    requires Recoverable(env, Durable(next, files)) && ActiveRow(next) == Some(row.(status := RevisionLedger.Active))
    requires SameState(next, after.db) && SameActiveArchive(after.db, files, after.files)
    requires Get(after.files, Config) == Some(compiled) && env.digest(compiled) == row.digest
    ensures Agreement(env, after)
  {
    RecoverableFrame(env, Durable(next, files), after);
  }

  lemma InstalledIsPublished(env: Env, before: Database, next: Database, after: Database, request: Request,
                             row: Revision, edit: Edit, compiled: string, at: int)
    requires Planned(env, before, request, row, edit, compiled, at) && next == NextDatabase(before, edit, row)
    requires SameState(next, after) && ActiveRow(next) == Some(row.(status := RevisionLedger.Active))
    ensures Published(env, before, after, request, at, row.id, row.(status := RevisionLedger.Active))
    ensures env.compile(State(after.desired, at)) == Some(compiled)
  {
  }

  /** The candidate revision of a request against this database. */
  ghost predicate Planned(env: Env, db: Database, request: Request, row: Revision, edit: Edit, compiled: string, at: int) {
    && row.number == NextNumber(db.ledger.rows) && row.digest == env.digest(compiled)
    && row.status.Pending? && row.reason == request.reason
    && request.mutate(db.desired) == Some(edit)
    && env.compile(State(edit.desired, at)) == Some(compiled)
  }

  /** The identities of what is about to be replaced; a first publication has no active revision to verify. */
  ghost predicate Remembered(env: Env, d: Durable, baseline: Baseline) {
    && baseline.active == ActiveRow(d.db)
    && (baseline.active.Some? ==> Agreement(env, d) && baseline.yaml == Get(d.files, Config))
    && CompiledDigest(env, State(d.db.desired, baseline.databaseAsOf)) == Some(baseline.databaseDigest)
  }

  lemma RememberedFrame(env: Env, a: Durable, b: Durable, baseline: Baseline)
    requires a.db == b.db && SameActiveArchive(a.db, a.files, b.files) && Get(a.files, Config) == Get(b.files, Config)
    ensures Remembered(env, a, baseline) == Remembered(env, b, baseline)
  {
  }

  /** Files outside the archives and the backup copy are the same. */
  ghost predicate SameLive(a: Files, b: Files) {
    forall q: Path :: q == Config || q.Candidate? || q.Recovery? || q.Reconciliation? ==> Get(a, q) == Get(b, q)
  }

  /** Trichotomy, with the old configuration given by its content. */
  ghost predicate TrichotomyFrom(result: Result, env: Env, before: Database, config: Option<string>, loaded: Runtime,
                                 after: Durable, running: Runtime, request: Request, at: int, id: nat) {
    match result
    case Success(r) => Accomplished(env, before, loaded, after, running, request, at, id, r)
    case Error(kind, markLost) =>
      if kind.RecoveryFailed? then markLost || after.db.health.Degraded?
      else
        && !kind.IntegrityFailed?
        && SameState(before, after.db) && after.db.health == before.health
        && DigestOf(env, Get(after.files, Config)) == DigestOf(env, config)
        && RuntimeSettled(running, loaded, Get(after.files, Config))
  }

  lemma TrichotomyBefore(result: Result, env: Env, before: Durable, loaded: Runtime,
                         after: Durable, running: Runtime, request: Request, at: int, id: nat, config: Option<string>)
    requires TrichotomyFrom(result, env, before.db, config, loaded, after, running, request, at, id)
    requires DigestOf(env, config) == DigestOf(env, Get(before.files, Config))
    ensures Trichotomy(result, env, before, loaded, after, running, request, at, id)
  {
  }

  lemma PutBackEnding(kind: ErrorKind, env: Env, before: Durable, loaded: Runtime, after: Durable, running: Runtime,
                      request: Request, at: int, id: nat)
    requires !kind.IntegrityFailed? && !kind.RecoveryFailed? && PutBack(env, before, loaded, after, running)
    ensures Trichotomy(Error(kind, false), env, before, loaded, after, running, request, at, id)
  {
  }

  lemma IntegrityEnding(env: Env, before: Durable, after: Durable, runtime: Runtime, request: Request, at: int, id: nat,
                        markLost: bool)
    requires SameState(before.db, after.db) && (markLost || after.db.health.Degraded?)
    ensures Trichotomy(Error(IntegrityFailed, markLost), env, before, runtime, after, runtime, request, at, id)
  {
  }

  lemma PutBackRefl(env: Env, d: Durable, runtime: Runtime, request: Request, at: int, id: nat)
    ensures Trichotomy(Error(PublicationFailed, false), env, d, runtime, d, runtime, request, at, id)
  {
  }

  lemma TemporaryFrame(db: Database, a: Files, b: Files, p: Path)
    requires SameBut(a, b, p) || b == a || b == a - {p}
    requires p.Candidate? || p.Backup? || p.Recovery?
    ensures SameActiveArchive(db, a, b) && Get(a, Config) == Get(b, Config)
  {
  }

  /** Temporary files are not part of a publication's outcome. */
  lemma TrichotomyFrame(result: Result, env: Env, before0: Durable, before: Durable, loaded: Runtime,
                        after: Durable, after1: Durable, running: Runtime, request: Request, at: int, id: nat)
    requires Trichotomy(result, env, before, loaded, after, running, request, at, id)
    requires before0.db == before.db && Get(before0.files, Config) == Get(before.files, Config)
    requires after1.db == after.db && Get(after1.files, Config) == Get(after.files, Config)
    requires SameActiveArchive(after.db, after.files, after1.files)
    ensures Trichotomy(result, env, before0, loaded, after1, running, request, at, id)
  {
  }

  lemma ActiveIsTotal(db: Database)
    requires Invariant(db.ledger)
    ensures !ActiveOf(db).SeveralActive?
  {
    LookupIsTotal(db.ledger.rows);
  }

  /** An agreeing active revision pins down what durable state compiled to. */
  lemma AgreementCompiles(env: Env, d: Durable)
    requires Agreement(env, d)
    ensures Snapshot(env, d.files, ActiveOf(d.db).revision.id).Some?
    ensures env.compile(State(d.db.desired, Snapshot(env, d.files, ActiveOf(d.db).revision.id).value.asOf)).Some?
    ensures Get(d.files, Config).Some?
  {
  }

  predicate Refused(db: Database, safetyBlocked: bool, request: Request) {
    || Blank(request.reason)
    || (db.cutoverPending && !request.baseline)
    || db.health.Degraded?
    || safetyBlocked
    || (db.restartPending && !request.restartRequired)
  }

  /** At some durable moment the file had this content and the database was still this one. */
  ghost predicate Exposed(trace: seq<Durable>, db: Database, config: Option<string>) {
    exists d :: d in trace && d.db == db && Get(d.files, Config) == config
  }

  lemma ReplacedIsExposed(trace: seq<Durable>, db: Database, files: Files)
    requires trace != [] && trace[|trace| - 1] == Durable(db, files)
    ensures Exposed(trace, db, Get(files, Config))
  {
    assert Durable(db, files) in trace;
  }

  lemma StaysExposed(a: seq<Durable>, b: seq<Durable>, db: Database, config: Option<string>)
    requires a <= b
    ensures Exposed(a, db, config) ==> Exposed(b, db, config)
  {
    assert forall d :: d in a ==> d in b;
  }

  predicate Untouched(kind: ErrorKind) {
    kind in {BadRequest, ConvergencePending, SystemDegraded, SafetyBlocked, RestartRequired}
  }

  function EffectiveAt(request: Request, now: int): int {
    if request.effectiveAt.Some? then request.effectiveAt.value else now
  }

  /** The request's mutation is durable as the next revision, which is now the only active one. */
  ghost predicate Published(env: Env, before: Database, after: Database, request: Request, at: int, id: nat, r: Revision) {
    && request.mutate(before.desired) == Some(Edit(after.desired, after.restartPending))
    && ActiveRow(after) == Some(r)
    && r.id == id && r.number == NextNumber(before.ledger.rows) && r.reason == request.reason
    && CompiledDigest(env, State(after.desired, at)) == Some(r.digest)
  }

  /** Database, revision, archives and file are the new ones, and a process that need not restart runs them. */
  ghost predicate Accomplished(env: Env, before: Database, loaded: Runtime, after: Durable, running: Runtime,
                               request: Request, at: int, id: nat, r: Revision) {
    && Agreement(env, after) && after.db.health == before.health
    && Published(env, before, after.db, request, at, id, r)
    && Get(after.files, Config) == env.compile(State(after.db.desired, at))
    && Get(after.files, Config).Some?
    && (if request.restartRequired then running == loaded else running == Runtime(true, Get(after.files, Config), true))
  }

  /** Desired state, active revision and file are the old ones, and so is what a touched process runs. */
  ghost predicate PutBack(env: Env, before: Durable, loaded: Runtime, after: Durable, running: Runtime) {
    && SameState(before.db, after.db) && after.db.health == before.db.health
    && DigestOf(env, Get(after.files, Config)) == DigestOf(env, Get(before.files, Config))
    && RuntimeSettled(running, loaded, Get(after.files, Config))
  }

  /** Success means all new; a plain failure all old; every other ending is degraded or says that it should be. */
  ghost predicate Trichotomy(result: Result, env: Env, before: Durable, loaded: Runtime, after: Durable, running: Runtime,
                             request: Request, at: int, id: nat) {
    match result
    case Success(r) => Accomplished(env, before.db, loaded, after, running, request, at, id, r)
    case Error(kind, markLost) =>
      if kind.IntegrityFailed? then
        SameState(before.db, after.db) && running == loaded && (markLost || after.db.health.Degraded?)
      else if kind.RecoveryFailed? then markLost || after.db.health.Degraded?
      else PutBack(env, before, loaded, after, running)
  }

  /** When a publication without faults succeeds. */
  ghost predicate Publishable(env: Env, d: Durable, safetyBlocked: bool, request: Request, now: int) {
    var at := EffectiveAt(request, now);
    !Refused(d.db, safetyBlocked, request) && Comparable(env, d, at) && Compiles(env, d.db, request, at)
  }

  /** What is published agrees with itself, or nothing is and the present state compiles. */
  ghost predicate Comparable(env: Env, d: Durable, at: int) {
    && (ActiveOf(d.db).OneActive? ==> Agreement(env, d))
    && (ActiveOf(d.db).NoneActive? ==> env.compile(State(d.db.desired, at)).Some?)
  }

  lemma RememberFailed(result: Result, env: Env, before: Durable, loaded: Runtime, after: Durable, request: Request, at: int, id: nat)
    requires after.files == before.files
    requires || (result == Error(PublicationFailed, false) && after.db == before.db)
             || (result.Error? && result.kind.IntegrityFailed? && SameState(before.db, after.db) && (result.markLost || after.db.health.Degraded?))
    ensures Trichotomy(result, env, before, loaded, after, loaded, request, at, id)
  {
    PutBackRefl(env, before, loaded, request, at, id);
  }

  /** What a refusal is for. */
  predicate RefusedFor(kind: ErrorKind, db: Database, safetyBlocked: bool, request: Request) {
    match kind
    case BadRequest => Blank(request.reason)
    case ConvergencePending => db.cutoverPending && !request.baseline
    case SystemDegraded => db.health.Degraded?
    case SafetyBlocked => safetyBlocked
    case RestartRequired => db.restartPending && !request.restartRequired
    case _ => false
  }

  /** How a publication without faults ends. */
  ghost predicate Expected(result: Result, env: Env, d: Durable, safetyBlocked: bool, request: Request, now: int) {
    if Refused(d.db, safetyBlocked, request) then
      result.Error? && RefusedFor(result.kind, d.db, safetyBlocked, request)
    else if ActiveOf(d.db).OneActive? && !Agreement(env, d) then result == Error(IntegrityFailed, false)
    else if Publishable(env, d, safetyBlocked, request, now) then result.Success?
    else result == Error(PublicationFailed, false)
  }

  /** The mutation succeeds and what it leaves can be compiled. */
  ghost predicate Compiles(env: Env, db: Database, request: Request, at: int) {
    && request.mutate(db.desired).Some?
    && env.compile(State(request.mutate(db.desired).value.desired, at)).Some?
  }

  /** After a failure the process is untouched, or has loaded and passed a health wait on what the file now holds. */
  predicate RuntimeSettled(now: Runtime, before: Runtime, config: Option<string>) {
    || now == before
    || (config.Some? && now == Runtime(true, config, true))
    || (config.None? && now == Runtime(false, None, false))
  }

  lemma SameActiveRow(a: Database, b: Database)
    requires SameState(a, b)
    ensures ActiveRow(a) == ActiveRow(b)
  {
  }

  lemma RecordableIsNotNew(env: Env, db: Database, row: Revision, effectiveAt: int)
    requires Recordable(db, row)
    ensures !DatabaseIsNew(env, db, row, effectiveAt)
  {
  }

  lemma NextIsNew(env: Env, next: Database, row: Revision, effectiveAt: int)
    requires ActiveRow(next) == Some(row.(status := Active))
    requires CompiledDigest(env, State(next.desired, effectiveAt)) == Some(row.digest)
    ensures DatabaseIsNew(env, next, row, effectiveAt)
  {
  }

  lemma CandidateFrame(db: Database, next: Database, a: Files, b: Files, id: nat)
    requires forall q :: q != Config && q != Candidate(id) ==> Get(b, q) == Get(a, q)
    ensures SameActiveArchive(db, a, b) && SameActiveArchive(next, a, b)
    ensures SameState(next, next)
  {
  }

  datatype Verdict = Unreadable | New(compiled: string) | Old | Neither

  /** The candidate is the active revision and durable state compiles to it. */
  predicate DatabaseIsNew(env: Env, db: Database, row: Revision, effectiveAt: int) {
    && RevisionMatches(ActiveRow(db), Some(row))
    && CompiledDigest(env, State(db.desired, effectiveAt)) == Some(row.digest)
  }

  /** The previous revision is still the active one and durable state compiles to what it compiled to before. */
  predicate DatabaseIsOld(env: Env, db: Database, row: Revision, baseline: Baseline) {
    && !RevisionMatches(ActiveRow(db), Some(row))
    && RevisionMatches(ActiveRow(db), baseline.active)
    && CompiledDigest(env, State(db.desired, baseline.databaseAsOf)) == Some(baseline.databaseDigest)
  }

  predicate ConfigIsOld(env: Env, files: Files, baseline: Baseline) {
    DigestOf(env, Get(files, Config)) == DigestOf(env, baseline.yaml)
  }

  lemma OldOrNew(env: Env, db: Database, row: Revision, effectiveAt: int, baseline: Baseline)
    ensures !(DatabaseIsNew(env, db, row, effectiveAt) && DatabaseIsOld(env, db, row, baseline))
    ensures DatabaseIsNew(env, db, row, effectiveAt) ==> ActiveRow(db).Some?
  {
  }

  lemma NewIsActive(env: Env, db: Database, row: Revision, effectiveAt: int, compiled: string)
    requires DatabaseIsNew(env, db, row, effectiveAt) && env.compile(State(db.desired, effectiveAt)) == Some(compiled)
    ensures ActiveRow(db).Some? && env.digest(compiled) == row.digest
  {
  }

  lemma DatabaseIsNewFrame(env: Env, a: Database, b: Database, row: Revision, effectiveAt: int)
    requires SameState(a, b)
    ensures DatabaseIsNew(env, a, row, effectiveAt) == DatabaseIsNew(env, b, row, effectiveAt)
  {
  }

  lemma DatabaseIsOldFrame(env: Env, a: Database, b: Database, row: Revision, baseline: Baseline)
    requires SameState(a, b)
    ensures DatabaseIsOld(env, a, row, baseline) == DatabaseIsOld(env, b, row, baseline)
  {
  }

  lemma HealthOnlyFrame(a: Database, b: Database, files: Files)
    requires a == b || exists h :: b == a.(health := h)
    ensures SameState(a, b) && SameActiveArchive(b, files, files)
  {
  }

  lemma CompiledFrame(db: Database, a: Files, b: Files, draw: nat)
    requires forall q :: q != Config && q != Reconciliation(draw) ==> Get(b, q) == Get(a, q)
    ensures SameActiveArchive(db, a, b)
  {
  }

  // ---------------------------------------------------------------- facts about the failure paths

  /** How the process ends up when a configuration has been put back. */
  predicate RuntimeFollows(now: Runtime, before: Runtime, config: Option<string>, restartRequired: bool) {
    if config.None? then now == Runtime(false, None, false)
    else if restartRequired then now == before
    else now == Runtime(true, config, true)
  }

  /** The row a failed publication may add: the next number, or an identity the table already has. */
  ghost predicate Recordable(db: Database, row: Revision) {
    && (row.number == NextNumber(db.ledger.rows) || exists q :: q in db.ledger.rows && q.id == row.id)
    && (ActiveOf(db).OneActive? ==> ActiveOf(db).revision.id != row.id)
  }

  function WithFailed(db: Database, row: Revision): Database {
    db.(ledger := Apply(db.ledger, Fail(row.id, row.digest, row.reason)))
  }

  /** The ledger after a failure: unchanged, or one failed row more and some maintenance. */
  ghost predicate AfterFailure(before: History, after: History, row: Revision, keep: nat) {
    exists steps :: after == Apply(before, Prune(keep, steps))
                 || after == Apply(Apply(before, Fail(row.id, row.digest, row.reason)), Prune(keep, steps))
  }

  /** The failed revision is in the table, unless its identity or number had been taken. */
  ghost predicate Noted(before: Database, after: Database, row: Revision) {
    !Conflicts(before.ledger.rows, row) ==> row.(status := Failed) in after.ledger.rows
  }

  /** Nothing carries the revision's identity or number yet. */
  ghost predicate Unrecorded(db: Database, files: Files, row: Revision) {
    !Conflicts(db.ledger.rows, row) && RevisionYaml(row.id) !in files && RevisionState(row.id) !in files
  }

  /** The candidate that the validator has rejected is on record, with what it would have published. */
  ghost predicate Rejected(env: Env, before: Database, after: Durable, request: Request, at: int, id: nat) {
    && Compiles(env, before, request, at)
    && var state := State(request.mutate(before.desired).value.desired, at);
      var compiled := env.compile(state).value;
      && Revision(id, NextNumber(before.ledger.rows), env.digest(compiled), Failed, request.reason) in after.db.ledger.rows
      && Archived(env, after.files, id, (state, compiled))
  }

  predicate Archived(env: Env, files: Files, id: nat, archive: (State, string)) {
    Get(files, RevisionYaml(id)) == Some(archive.1) && Get(files, RevisionState(id)) == Some(env.encode(archive.0))
  }

  /** The old state can be recognized and the names that putting it back needs are free. */
  ghost predicate Compensable(env: Env, db: Database, files: Files, row: Revision, baseline: Baseline, draw: nat) {
    DatabaseIsOld(env, db, row, baseline) && Recovery(row.id) !in files && Reconciliation(draw) !in files
  }

  /** Database and file are each the old or the new one. */
  ghost predicate Resolvable(env: Env, db: Database, files: Files, row: Revision, effectiveAt: int, baseline: Baseline, draw: nat) {
    && (DatabaseIsNew(env, db, row, effectiveAt) || DatabaseIsOld(env, db, row, baseline))
    && (ConfigMatches(env, files, row) || ConfigIsOld(env, files, baseline))
    && Recovery(row.id) !in files && Reconciliation(draw) !in files
  }

  lemma CompensableFrame(env: Env, db: Database, a: Files, b: Files, row: Revision, baseline: Baseline, draw: nat)
    requires forall q :: q != Config && q != Candidate(row.id) ==> Get(b, q) == Get(a, q)
    ensures Compensable(env, db, a, row, baseline, draw) ==>
      Compensable(env, db, b, row, baseline, draw) && Recovery(row.id) !in b
  {
    assert Get(a, Recovery(row.id)) == Get(b, Recovery(row.id));
    assert Get(a, Reconciliation(draw)) == Get(b, Reconciliation(draw));
  }

  lemma SweptFrame(env: Env, db: Database, a: Files, b: Files, id: nat, archive: (State, string))
    requires forall q :: q != Candidate(id) && q != Backup(id) ==> Get(b, q) == Get(a, q)
    ensures SameActiveArchive(db, a, b) && Get(b, Config) == Get(a, Config)
    ensures Archived(env, a, id, archive) <==> Archived(env, b, id, archive)
  {
  }

  lemma NotedFrame(a: Database, b: Database, c: Database, row: Revision)
    requires b.ledger == c.ledger
    ensures Noted(a, b, row) == Noted(a, c, row)
  {
  }

  lemma ConflictIsNoted(a: Database, b: Database, row: Revision)
    ensures Conflicts(a.ledger.rows, row) ==> Noted(a, b, row)
  {
  }

  /** A failed revision has the highest number, so retention spares its row and its files. */
  lemma FailedStays(db: Database, row: Revision, keep: nat)
    requires Invariant(db.ledger) && keep >= 1 && Recordable(db, row) && !Conflicts(db.ledger.rows, row)
    ensures row.(status := Failed) in WithFailed(db, row).ledger.rows
    ensures forall r :: r in Expired(WithFailed(db, row).ledger.rows, keep) ==> r.id != row.id
  {
    hide Expired, ActiveRevision;
    FailStep(db, row);
    var t := WithFailed(db, row).ledger.rows;
    FailKeeps(db.ledger, row.id, row.digest, row.reason);
    var failed := row.(status := Failed);
    assert failed in t;
    NewestIsKept(t, keep, failed);
    forall r | r in Expired(t, keep) ensures r.id != row.id {
      if r.id == row.id {
        OneRowPerId(t, failed, r);
      }
    }
  }

  lemma FailedIsNoted(db: Database, after: Database, row: Revision, keep: nat)
    requires Invariant(db.ledger) && keep >= 1 && Recordable(db, row)
    requires exists steps :: after.ledger == Apply(WithFailed(db, row).ledger, RevisionHistory.Prune(keep, steps))
    ensures Noted(db, after, row)
  {
    hide Invariant, Expired, ActiveRevision, Recordable;
    if !Conflicts(db.ledger.rows, row) {
      FailedStays(db, row, keep);
      var steps :| after.ledger == Apply(WithFailed(db, row).ledger, RevisionHistory.Prune(keep, steps));
    }
  }

  lemma FailedArchiveStays(env: Env, db: Database, a: Files, b: Files, row: Revision, keep: nat, archive: (State, string))
    requires Invariant(db.ledger) && keep >= 1 && Recordable(db, row) && !Conflicts(db.ledger.rows, row)
    requires OnlyExpiredGone(WithFailed(db, row).ledger.rows, keep, a, b)
    ensures Archived(env, a, row.id, archive) ==> Archived(env, b, row.id, archive)
  {
    hide Invariant, Expired, ActiveRevision, Recordable, Apply;
    FailedStays(db, row, keep);
  }

  ghost predicate SameOutsideArchives(a: Files, b: Files) {
    forall q: Path :: !q.RevisionYaml? && !q.RevisionState? ==> Get(a, q) == Get(b, q)
  }

  lemma FailNumber(t: Table, row: Revision)
    requires row.number == NextNumber(t) || exists q :: q in t && q.id == row.id
    ensures InsertRow(t, row.(status := Failed)).Some? ==>
      InsertRow(t, FreshRow(t, row.id, row.digest, Failed, row.reason)) == InsertRow(t, row.(status := Failed))
  {
  }

  lemma FailStep(db: Database, row: Revision)
    requires Invariant(db.ledger) && Recordable(db, row)
    ensures InsertRow(db.ledger.rows, row.(status := Failed)).Some? ==>
      WithFailed(db, row).ledger.rows == InsertRow(db.ledger.rows, row.(status := Failed)).value
    ensures Invariant(WithFailed(db, row).ledger) && Grows(db.ledger, WithFailed(db, row).ledger)
    ensures SameState(db, WithFailed(db, row)) && WithFailed(db, row).health == db.health
  {
    hide Invariant, ActiveRevision, Insert;
    FailKeeps(db.ledger, row.id, row.digest, row.reason);
    FailSameActive(db.ledger, row.id, row.digest, row.reason);
    FailNumber(db.ledger.rows, row);
  }

  lemma NotArchiveOfActive(db: Database, row: Revision)
    requires Recordable(db, row)
    ensures !ArchiveOfActive(db, RevisionYaml(row.id)) && !ArchiveOfActive(db, RevisionState(row.id))
  {
  }

  lemma ArchiveOnlyFrame(db: Database, a: Files, b: Files, row: Revision)
    requires Recordable(db, row)
    requires forall q :: !IsArchive(q, row.id) ==> Get(b, q) == Get(a, q)
    ensures SameActiveArchive(db, a, b) && SameOutsideArchives(a, b)
  {
  }

  lemma SameArchivesFrame(db: Database, a: Files, b: Files, id: nat)
    requires forall q :: q != Config && q != Recovery(id) ==> Get(b, q) == Get(a, q)
    ensures SameActiveArchive(db, a, b)
  {
  }

  lemma SameActiveArchiveRefl(db: Database, files: Files)
    ensures SameActiveArchive(db, files, files)
  {
  }

  lemma SameStateRefl(db: Database)
    ensures SameState(db, db)
  {
  }

  lemma ExpiredNothingGone(db: Database, keep: nat, files: Files)
    ensures OnlyExpiredGone(db.ledger.rows, keep, files, files)
  {
  }

  lemma SameStateChain(a: Database, b: Database, c: Database, f: Files, g: Files, h: Files)
    requires SameState(a, b) && SameState(b, c)
    requires SameActiveArchive(a, f, g)
    requires SameActiveArchive(b, g, h) || SameActiveArchive(c, g, h)
    ensures SameState(a, c) && SameActiveArchive(c, f, h)
  {
  }

  lemma PruneNothing(h: History, keep: nat)
    requires Invariant(h) && keep >= 1
    ensures Apply(h, Prune(keep, 0)) == h
  {
    hide Invariant, Expired, PublishRow, InsertRow;
    var doomed := Expired(h.rows, keep);
    var done := if 0 < |doomed| then doomed[..0] else doomed;
    FilterAll(h.rows, (r: Revision) => r !in done);
  }

  lemma PruneSameState(db: Database, keep: nat, k: nat)
    requires Invariant(db.ledger)
    ensures SameState(db, db.(ledger := Apply(db.ledger, Prune(keep, k))))
  {
    PruneSameActive(db.ledger, keep, k);
  }

  /** Retention has been applied: at most the history limit of inactive revisions is left. */
  predicate Retained(env: Env, db: Database) {
    |Filter(db.ledger.rows, IsInactive)| <= env.historyLimit
  }

  lemma PruneRetains(env: Env, before: History, db: Database)
    requires Invariant(before) && env.historyLimit >= 1
    requires db.ledger == Apply(before, Prune(env.historyLimit, |Expired(before.rows, env.historyLimit)|))
    ensures Retained(env, db)
  {
    hide ActiveRevision, PruneRows, Expired;
    FullPruneBound(before.rows, env.historyLimit, |Expired(before.rows, env.historyLimit)|);
  }

  lemma PruneDone(h: History, keep: nat)
    requires keep >= 1
    ensures forall r :: r in Expired(h.rows, keep) ==> r !in Apply(h, Prune(keep, |Expired(h.rows, keep)|)).rows
  {
  }

  lemma NotActiveArchive(db: Database, before: History, keep: nat, k: nat)
    requires Invariant(before) && keep >= 1 && k < |Expired(before.rows, keep)|
    requires db.ledger == Apply(before, Prune(keep, k))
    ensures forall q :: IsArchive(q, Expired(before.rows, keep)[k].id) ==> !ArchiveOfActive(db, q)
  {
    PruneSameActive(before, keep, k);
    ExpiredIsNotActive(before, keep, Expired(before.rows, keep)[k]);
  }

  lemma DeleteStep(db: Database, before: History, keep: nat, k: nat)
    requires Invariant(before) && keep >= 1 && k < |Expired(before.rows, keep)|
    requires db.ledger == Apply(before, Prune(keep, k))
    ensures db.ledger.(rows := DeleteRow(db.ledger.rows, Expired(before.rows, keep)[k].id))
         == Apply(before, Prune(keep, k + 1))
    ensures Invariant(Apply(before, Prune(keep, k + 1))) && Grows(db.ledger, Apply(before, Prune(keep, k + 1)))
    ensures SameState(db, db.(ledger := Apply(before, Prune(keep, k + 1))))
  {
    hide Invariant, ActiveRevision, PruneRows, Expired;
    DeleteIsOneStepFrom(before, keep, k);
    PruneKeeps(before, keep, k + 1);
    PruneSameActive(before, keep, k);
    PruneSameActive(before, keep, k + 1);
  }

  lemma DeleteIsOneStepFrom(h: History, keep: nat, k: nat)
    requires Invariant(h) && k < |Expired(h.rows, keep)|
    ensures DeleteRow(PruneRows(h.rows, keep, k), Expired(h.rows, keep)[k].id) == PruneRows(h.rows, keep, k + 1)
  {
    DeleteIsOneStep(h.rows, keep, k);
  }
}
