/** The machine a publisher runs on: one database, one file tree, one Mihomo process, and their failures. */
module PublicationHost {
  import opened Sequences
  import opened RevisionLedger
  import opened RevisionHistory
  import opened PublicationModel

  class Host {
    const env: Env
    var db: Database
    var files: Files
    var runtime: Runtime
    /** The core manager's fail-closed answer to the publisher's safety gate. */
    var safetyBlocked: bool
    /** Every durable state since the last checkpoint, oldest first: a crash leaves the host in one of them. */
    var trace: seq<Durable>
    /** The revision history at that checkpoint. */
    ghost var origin: History
    /** How many sub-steps have failed on their own account. */
    ghost var faults: nat

    constructor (env: Env, db: Database, files: Files, runtime: Runtime, safetyBlocked: bool)
      requires Invariant(db.ledger)
      ensures Valid() && this.env == env && this.db == db && this.files == files && this.runtime == runtime
      ensures this.safetyBlocked == safetyBlocked
      ensures trace == [Durable(db, files)]
    {
      this.env, this.db, this.files, this.runtime := env, db, files, runtime;
      this.safetyBlocked := safetyBlocked;
      this.trace := [Durable(db, files)];
      this.origin, this.faults := db.ledger, 0;
    }

    ghost predicate Valid()
      reads `db, `files, `trace, `origin
    {
      && trace != [] && trace[|trace| - 1] == Durable(db, files)
      && (forall d :: d in trace ==> Invariant(d.db.ledger))
      && (forall d :: d in trace ==> Grows(origin, d.db.ledger))
    }

    /** Startup could recover from a crash at any moment since the checkpoint. */
    ghost predicate Safe()
      reads `trace
    {
      forall d :: d in trace ==> Recoverable(env, d)
    }

    lemma GrowsTransitive(a: History, b: History, c: History)
      requires Grows(a, b) && Grows(b, c)
      ensures Grows(a, c)
    {
    }

    lemma GrowsReflexive(a: History)
      ensures Grows(a, a)
    {
    }

    lemma LedgerIsSound()
      requires Valid()
      ensures Invariant(db.ledger)
    {
      assert Durable(db, files) in trace;
    }

    lemma TraceIsCurrent()
      requires Valid()
      ensures trace != [] && trace[|trace| - 1] == Durable(db, files)
    {
    }

    lemma GrownSinceOrigin()
      requires Valid()
      ensures Grows(origin, db.ledger)
    {
      assert Durable(db, files) in trace;
    }

    // -------------------------------------------------------------- failures and observations

    /** A call into something that may fail for reasons of its own. */
    method Fault() returns (failed: bool)
      modifies `faults
      ensures faults == old(faults) + if failed then 1 else 0
    {
      failed := *;
      if failed {
        faults := faults + 1;
      }
    }

    // -------------------------------------------------------------- durable effects

    /** One atomic change of the file tree. */
    method SetFiles(next: Files)
      requires Valid()
      modifies `files, `trace
      ensures Valid() && files == next && trace == old(trace) + [Durable(db, next)]
      ensures old(Safe()) && SameActiveArchive(db, old(files), next) ==> Safe()
    {
      hide Recoverable, Invariant, ActiveOf, SameState, SameActiveArchive;
      assert Durable(db, files) in trace;
      RecoverableFrameIf(Durable(db, files), Durable(db, next));
      files := next;
      trace := trace + [Durable(db, next)];
    }

    /** One atomic change of the database. */
    method SetDatabase(next: Database)
      requires Valid() && Invariant(next.ledger) && Grows(db.ledger, next.ledger)
      modifies `db, `trace
      ensures Valid() && db == next && trace == old(trace) + [Durable(next, files)]
      ensures old(Safe()) && (SameState(old(db), next) || Recoverable(env, Durable(next, files))) ==> Safe()
    {
      hide Recoverable, Invariant, ActiveOf, SameState, SameActiveArchive;
      assert Durable(db, files) in trace;
      GrowsTransitive(origin, db.ledger, next.ledger);
      if SameState(db, next) {
        RecoverableFrame(env, Durable(db, files), Durable(next, files));
      }
      db := next;
      trace := trace + [Durable(next, files)];
    }

    lemma RecoverableFrameIf(a: Durable, b: Durable)
      requires a.db == b.db
      ensures SameActiveArchive(a.db, a.files, b.files) ==> Recoverable(env, a) == Recoverable(env, b)
    {
      if SameActiveArchive(a.db, a.files, b.files) {
        RecoverableFrame(env, a, b);
      }
    }

    /** Create, write and sync a file that must not exist yet. A crash part-way leaves it partly written. */
    method WriteSynced(p: Path, content: string) returns (ok: bool)
      requires Valid()
      modifies `files, `trace, `faults
      ensures Valid() && old(trace) <= trace
      ensures old(Safe()) && !ArchiveOfActive(db, p) ==> Safe()
      ensures SameBut(old(files), files, p)
      ensures ok ==> p !in old(files) && Get(files, p) == Some(content)
      ensures p in old(files) ==> !ok && files == old(files)
      // one failed sub-step alone leaves no partial file behind
      ensures !ok && p !in old(files) && faults <= old(faults) + 1 ==> p !in files
      ensures faults >= old(faults) && (faults == old(faults) && p !in old(files) ==> ok)
    {
      hide Recoverable, Invariant, ActiveOf, SameState, SameActiveArchive;
      ok := false;
      var failed := Fault();
      if failed || p in files {
        return;
      }
      var partial: string := *;
      ArchiveFrame(db, files, files[p := partial], p);
      SetFiles(files[p := partial]);
      ok := FillFile(p, content);
      if !ok {
        Discard(p);
      }
    }

    /** Write and sync the content of a file just created. */
    method FillFile(p: Path, content: string) returns (ok: bool)
      requires Valid()
      modifies `files, `trace, `faults
      ensures Valid() && old(trace) <= trace
      ensures old(Safe()) && !ArchiveOfActive(db, p) ==> Safe()
      ensures SameBut(old(files), files, p)
      ensures ok ==> Get(files, p) == Some(content)
      ensures faults >= old(faults) && (faults == old(faults) ==> ok)
    {
      hide Recoverable, Invariant, ActiveOf, SameState, SameActiveArchive;
      var failed := Fault();
      if failed {
        return false;
      }
      ArchiveFrame(db, files, files[p := content], p);
      SetFiles(files[p := content]);
      failed := Fault();
      ok := !failed;
    }

    /** Remove a file without minding whether that works. */
    method Discard(p: Path)
      requires Valid()
      modifies `files, `trace, `faults
      ensures Valid() && old(trace) <= trace
      ensures old(Safe()) && !ArchiveOfActive(db, p) ==> Safe()
      ensures files == old(files) || files == old(files) - {p}
      ensures faults >= old(faults) && (faults == old(faults) ==> files == old(files) - {p})
    {
      hide Recoverable, Invariant, ActiveOf, SameState, SameActiveArchive;
      var failed := Fault();
      if !failed {
        ArchiveFrame(db, files, files - {p}, p);
        SetFiles(files - {p});
      }
    }

    /** Remove a file and sync its directory; the removal may stand although the sync failed. */
    method RemoveSynced(p: Path) returns (ok: bool)
      requires Valid()
      modifies `files, `trace, `faults
      ensures Valid() && old(trace) <= trace
      ensures old(Safe()) && !ArchiveOfActive(db, p) ==> Safe()
      ensures files == old(files) || files == old(files) - {p}
      ensures ok ==> files == old(files) - {p}
      ensures faults >= old(faults) && (faults == old(faults) ==> ok)
    {
      hide Recoverable, Invariant, ActiveOf, SameState, SameActiveArchive;
      var failed := Fault();
      if failed {
        return false;
      }
      ArchiveFrame(db, files, files - {p}, p);
      SetFiles(files - {p});
      failed := Fault();
      ok := !failed;
    }

    /** Rename a candidate over the configuration and sync; the rename may stand although the sync failed. */
    method ReplaceConfig(candidate: Path) returns (ok: bool)
      requires Valid() && candidate != Config && candidate in files
      modifies `files, `trace, `faults
      ensures Valid() && old(trace) <= trace
      ensures old(Safe()) && !ArchiveOfActive(db, candidate) ==> Safe()
      ensures files == old(files) || files == Renamed(old(files), candidate)
      ensures ok ==> files == Renamed(old(files), candidate)
      ensures faults >= old(faults) && (faults == old(faults) ==> ok)
    {
      hide Recoverable, Invariant, ActiveOf, SameState, SameActiveArchive;
      var failed := Fault();
      if failed {
        return false;
      }
      RenameFrame(db, files, candidate);
      SetFiles(Renamed(files, candidate));
      failed := Fault();
      ok := !failed;
    }

    /** MarkDegraded: an error does not say whether the row was written. */
    method MarkDegraded(byCutover: bool) returns (ok: bool)
      requires Valid()
      modifies `db, `trace, `faults
      ensures Valid() && old(trace) <= trace && (old(Safe()) ==> Safe())
      ensures db == old(db) || db == old(db).(health := Degraded(byCutover))
      ensures ok ==> db == old(db).(health := Degraded(byCutover))
      ensures faults >= old(faults) && (faults == old(faults) ==> ok)
    {
      hide Recoverable, Invariant, ActiveOf, SameState, SameActiveArchive;
      ok := SetHealth(Degraded(byCutover));
    }

    method SetHealth(health: Health) returns (ok: bool)
      requires Valid()
      modifies `db, `trace, `faults
      ensures Valid() && old(trace) <= trace && (old(Safe()) ==> Safe())
      ensures db == old(db) || db == old(db).(health := health)
      ensures ok ==> db == old(db).(health := health)
      ensures faults >= old(faults) && (faults == old(faults) ==> ok)
    {
      hide Recoverable, Invariant, ActiveOf, SameState, SameActiveArchive;
      var failed := Fault();
      var applied: bool := *;
      if !failed || applied {
        assert Durable(db, files) in trace;
        HealthFrame(db, health);
        SetDatabase(db.(health := health));
      }
      ok := !failed;
    }

    /** CompleteR3ProtocolCutover: one transaction, refused while an unrelated reason keeps the system degraded. */
    method CompleteCutover() returns (ok: bool)
      requires Valid()
      modifies `db, `trace, `faults
      ensures Valid() && old(trace) <= trace && (old(Safe()) ==> Safe())
      ensures db == old(db) || db == old(db).(cutoverPending := false, health := Healthy)
      ensures ok ==> db == old(db).(cutoverPending := false, health := Healthy)
      ensures old(db.health) == Degraded(false) ==> !ok && db == old(db)
      ensures faults >= old(faults) && (faults == old(faults) && old(db.health) != Degraded(false) ==> ok)
    {
      hide Recoverable, Invariant, ActiveOf, SameState, SameActiveArchive;
      var failed := Fault();
      if failed || db.health == Degraded(false) {
        return false;
      }
      assert Durable(db, files) in trace;
      CutoverFrame(env, db, files);
      ok := Commit(db.(cutoverPending := false, health := Healthy));
    }

    /** COMMIT: an error does not say whether the transaction became durable. */
    method Commit(next: Database) returns (ok: bool)
      requires Valid() && Invariant(next.ledger) && Grows(db.ledger, next.ledger)
      modifies `db, `trace, `faults
      ensures Valid() && old(trace) <= trace
      ensures old(Safe()) && (SameState(old(db), next) || Recoverable(env, Durable(next, files))) ==> Safe()
      ensures db == old(db) || db == next
      ensures ok ==> db == next
      ensures faults >= old(faults) && (faults == old(faults) ==> ok)
    {
      hide Recoverable, Invariant, ActiveOf, SameState, SameActiveArchive;
      var failed := Fault();
      var applied: bool := *;
      if !failed || applied {
        SetDatabase(next);
      }
      ok := !failed;
    }

    /** Somebody other than the publisher may touch the configuration file. */
    method ExternalChange()
      requires Valid()
      modifies `files, `trace, `faults
      ensures Valid() && old(trace) <= trace && (old(Safe()) ==> Safe())
      ensures SameBut(old(files), files, Config)
      ensures faults >= old(faults) && (faults == old(faults) ==> files == old(files))
    {
      hide Recoverable, Invariant, ActiveOf;
      var happens := Fault();
      if happens {
        var content: Option<string> := *;
        var next := if content.Some? then files[Config := content.value] else files - {Config};
        ArchiveFrame(db, files, next, Config);
        SetFiles(next);
      }
    }

    /** An endpoint clear: whether a Mihomo restart is owed changes without any publication. */
    method ClearRestart()
      requires Valid()
      modifies `db, `trace
      ensures Valid() && old(trace) <= trace && (old(Safe()) ==> Safe())
      ensures db == old(db).(restartPending := false)
    {
      hide Recoverable, Invariant, ActiveOf, SameState, SameActiveArchive;
      assert Durable(db, files) in trace;
      RestartFrame(env, db, files);
      GrowsReflexive(db.ledger);
      SetDatabase(db.(restartPending := false));
    }

    /** Start counting crash points from here. */
    method Checkpoint()
      requires Valid()
      modifies `trace, `origin
      ensures Valid() && trace == [Durable(db, files)] && origin == db.ledger
      ensures Safe() <==> Recoverable(env, Durable(db, files))
      ensures old(Safe()) ==> Safe()
    {
      hide Recoverable, Invariant, ActiveOf;
      assert Durable(db, files) in trace;
      trace, origin := [Durable(db, files)], db.ledger;
    }

    /** Power fails between two durable effects: memory and process are gone, the disk is as it was at that moment. */
    method Crash(moment: nat)
      requires Valid() && moment < |trace|
      modifies `db, `files, `trace, `origin, `runtime
      ensures Valid() && trace == [Durable(db, files)] && origin == db.ledger
      ensures Durable(db, files) == old(trace)[moment]
      ensures Grows(old(origin), db.ledger)
      ensures old(Safe()) ==> Safe()
      ensures runtime == Runtime(false, None, false)
    {
      hide Recoverable, Invariant, ActiveOf;
      assert trace[moment] in trace;
      db, files := trace[moment].db, trace[moment].files;
      runtime := Runtime(false, None, false);
      trace, origin := [Durable(db, files)], db.ledger;
    }

    // -------------------------------------------------------------- the process

    /** Controller reload with the restart fallback: either way the process then holds the current file. */
    method Reload() returns (ok: bool)
      modifies `runtime, `faults
      ensures ok ==> runtime == Runtime(true, Get(files, Config), false)
      ensures faults >= old(faults) && (faults == old(faults) ==> ok)
    {
      var reloadFailed := Fault();
      if reloadFailed {
        runtime := *;
        var restartFailed := Fault();
        if restartFailed {
          return false;
        }
      }
      runtime := Runtime(true, Get(files, Config), false);
      ok := true;
    }

    /** Poll process and Controller until both answer or time runs out. */
    method WaitHealthy() returns (ok: bool)
      modifies `runtime, `faults
      ensures ok ==> runtime == old(runtime).(active := true, checked := true)
      ensures !ok ==> runtime == old(runtime)
      ensures faults >= old(faults) && (faults == old(faults) ==> ok)
    {
      var failed := Fault();
      ok := !failed;
      if ok {
        runtime := runtime.(active := true, checked := true);
      }
    }

    method StopProcess() returns (ok: bool)
      modifies `runtime, `faults
      ensures ok ==> runtime == Runtime(false, None, false)
      ensures faults >= old(faults) && (faults == old(faults) ==> ok)
    {
      var failed := Fault();
      if failed {
        runtime := *;
        return false;
      }
      runtime := Runtime(false, None, false);
      ok := true;
    }

    // -------------------------------------------------------------- revision maintenance

    /** An archive file that already exists is kept as it is. */
    method EnsureFile(p: Path, content: string) returns (ok: bool)
      requires Valid()
      modifies `files, `trace, `faults
      ensures Valid() && old(trace) <= trace
      ensures old(Safe()) && !ArchiveOfActive(db, p) ==> Safe()
      ensures SameBut(old(files), files, p)
      ensures ok && p !in old(files) ==> Get(files, p) == Some(content)
      ensures p in old(files) ==> files == old(files)
      ensures faults >= old(faults) && (faults == old(faults) ==> ok)
    {
      hide Recoverable, Invariant, ActiveOf, ArchiveOfActive;
      var failed := Fault();
      if failed {
        return false;
      }
      ok := true;
      if p !in files {
        ok := WriteSynced(p, content);
      }
    }

    method ArchiveRevision(id: nat, state: State, compiled: string) returns (ok: bool)
      requires Valid()
      modifies `files, `trace, `faults
      ensures Valid() && old(trace) <= trace
      ensures old(Safe()) && !ArchiveOfActive(db, RevisionYaml(id)) ==> Safe()
      ensures forall q :: !IsArchive(q, id) ==> Get(files, q) == Get(old(files), q)
      ensures ok && RevisionYaml(id) !in old(files) ==> Get(files, RevisionYaml(id)) == Some(compiled)
      ensures ok && RevisionState(id) !in old(files) ==> Get(files, RevisionState(id)) == Some(env.encode(state))
      ensures faults >= old(faults) && (faults == old(faults) ==> ok)
    {
      hide Recoverable, Invariant, ActiveOf, ArchiveOfActive;
      ArchivePair(db, id);
      ok := EnsureFile(RevisionYaml(id), compiled);
      if ok {
        assert Get(files, RevisionState(id)) == Get(old(files), RevisionState(id));
        ok := EnsureFile(RevisionState(id), env.encode(state));
        if ok {
          var failed := Fault();
          ok := !failed;
        }
      }
    }
  }
}
