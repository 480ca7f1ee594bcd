/** The managed core's directory tree: activation by rename, backups, retention and the fail-closed marker. */
module CoreFiles {
  import opened Sequences

  datatype Manifest = Manifest(version: string, binary: string, compressed: string)

  /** What validating a tree finds: nothing there, something unusable, or a core that matches its manifest. */
  datatype Inspection = Missing | Invalid | Sound(manifest: Manifest)

  /** Backup names start with a fixed-width timestamp; `name` is the name's place in string order. */
  datatype Backup = Backup(name: int, tree: string)

  /** A tree is its content; the empty directory is "". */
  datatype Disk = Disk(current: Option<string>, backups: seq<Backup>, staging: map<nat, string>, marker: bool)

  datatype Activation = Activation(backup: Option<int>, activated: bool)

  const KEPT_BACKUPS := 2
  const ByName: Backup -> int := (b: Backup) => b.name

  ghost predicate Holds(d: Disk, tree: string) {
    d.current == Some(tree) || exists b :: b in d.backups && b.tree == tree
  }

  function Last(s: seq<Backup>, n: nat): seq<Backup> {
    if |s| <= n then s else s[|s| - n..]
  }

  ghost function NewerThan(s: seq<Backup>, name: int): set<Backup> {
    set b | b in s && b.name > name
  }

  function Without(s: seq<Backup>, name: int): (r: seq<Backup>)
    ensures forall b :: b in r <==> b in s && b.name != name
  {
    Filter(s, (b: Backup) => b.name != name)
  }

  predicate Unused(s: seq<Backup>, name: int) {
    forall b :: b in s ==> b.name != name
  }

  /** The backups once the current core has been moved among them. */
  function MovedAside(d: Disk, name: int): seq<Backup> {
    if d.current.Some? && d.current.value != "" then Insert(d.backups, Backup(name, d.current.value), ByName)
    else d.backups
  }

  // ---------------------------------------------------------------- which backups retention spares

  lemma ByIndex(u: seq<Backup>, i: nat, j: nat)
    requires Ascending(u, ByName) && i < |u| && j < |u|
    ensures u[i].name < u[j].name <==> i < j
    ensures u[i].name == u[j].name <==> i == j
  {
    if i < j {
      assert ByName(u[i]) < ByName(u[j]);
    } else if j < i {
      assert ByName(u[j]) < ByName(u[i]);
    }
  }

  lemma NewerIsLater(u: seq<Backup>, p: nat)
    requires Ascending(u, ByName) && p < |u|
    ensures |NewerThan(u, u[p].name)| == |u| - 1 - p
  {
    var later := u[p + 1..];
    forall i, j | 0 <= i < j < |later| ensures later[i] != later[j] {
      assert ByName(u[p + 1 + i]) < ByName(u[p + 1 + j]);
    }
    forall b ensures b in later <==> b in NewerThan(u, u[p].name) {
      if b in later {
        var i :| 0 <= i < |later| && later[i] == b;
        assert ByName(u[p]) < ByName(u[p + 1 + i]);
      }
      if b in NewerThan(u, u[p].name) {
        var i :| 0 <= i < |u| && u[i] == b;
        ByIndex(u, p, i);
        assert later[i - p - 1] == b;
      }
    }
    CardinalityOfDistinct(later);
    assert ToSet(later) == NewerThan(u, u[p].name);
  }

  lemma InLast(u: seq<Backup>, p: nat, keep: nat)
    requires Ascending(u, ByName) && p < |u|
    ensures u[p] in Last(u, keep) <==> |u| <= p + keep
  {
    var tail := Last(u, keep);
    if |u| <= p + keep {
      assert tail[p - (|u| - |tail|)] == u[p];
    } else {
      forall i | 0 <= i < |tail| ensures tail[i] != u[p] {
        assert ByName(u[p]) < ByName(u[|u| - |tail| + i]);
      }
    }
  }

  /** Retention spares the backup just made exactly when fewer than `keep` older backups carry a later name. */
  lemma SparedExactly(s: seq<Backup>, x: Backup, keep: nat)
    requires Ascending(s, ByName) && Unused(s, x.name)
    ensures x in Last(Insert(s, x, ByName), keep) <==> |NewerThan(s, x.name)| < keep
  {
    InsertAscending(s, x, ByName);
    var u := Insert(s, x, ByName);
    var p :| 0 <= p < |u| && u[p] == x;
    InLast(u, p, keep);
    NewerIsLater(u, p);
    assert NewerThan(u, x.name) == NewerThan(s, x.name);
  }

  /** A clock that moved on is enough. */
  lemma IncreasingClockSpares(s: seq<Backup>, x: Backup)
    requires Ascending(s, ByName) && forall b :: b in s ==> b.name < x.name
    ensures x in Last(Insert(s, x, ByName), KEPT_BACKUPS)
  {
    assert NewerThan(s, x.name) == {};
    SparedExactly(s, x, KEPT_BACKUPS);
  }

  /** A clock set back far enough makes retention remove the one backup a revert would need. */
  lemma ClockSetBackLosesTheBackup(tree: string)
    ensures var s, x := [Backup(10, "older"), Backup(20, "newer")], Backup(5, tree);
      Ascending(s, ByName) && Unused(s, x.name) && x !in Last(Insert(s, x, ByName), KEPT_BACKUPS)
  {
    var s, x := [Backup(10, "older"), Backup(20, "newer")], Backup(5, tree);
    assert NewerThan(s, x.name) == {s[0], s[1]};
    SparedExactly(s, x, KEPT_BACKUPS);
  }

  lemma LastAscending(s: seq<Backup>, keep: nat, k: nat)
    requires Ascending(s, ByName) && k <= |s| && |s| - k >= keep
    ensures Ascending(s[..k] + Last(s, keep), ByName)
    ensures Last(s[..k] + Last(s, keep), keep) == Last(s, keep)
  {
    var u := s[..k] + Last(s, keep);
    forall i, j | 0 <= i < j < |u| ensures ByName(u[i]) < ByName(u[j]) {
      var a := if i < k then i else i + |s| - |u|;
      var b := if j < k then j else j + |s| - |u|;
      assert ByName(s[a]) < ByName(s[b]);
    }
  }

  /** Restoring finds under its own name the tree that was moved aside. */
  lemma BackupByName(s: seq<Backup>, x: Backup, b: Backup)
    requires Ascending(s, ByName) && Unused(s, x.name) && b in Last(Insert(s, x, ByName), KEPT_BACKUPS) && b.name == x.name
    ensures b == x
  {
    assert b in Insert(s, x, ByName);
  }

  // ---------------------------------------------------------------- the store

  class FileStore {
    const inspect: string -> Inspection
    var disk: Disk
    /** Every durable state since the last checkpoint: a crash leaves the disk in one of them. */
    var trace: seq<Disk>
    /** How often a staged tree has become the current one. */
    ghost var swaps: nat
    /** How many sub-steps have failed on their own account. */
    ghost var faults: nat

    constructor (inspect: string -> Inspection, disk: Disk)
      requires Ascending(disk.backups, ByName) && inspect("").Missing?
      ensures Valid() && this.inspect == inspect && this.disk == disk && trace == [disk]
    {
      this.inspect, this.disk := inspect, disk;
      this.trace, this.swaps, this.faults := [disk], 0, 0;
    }

    ghost predicate Valid()
      reads `disk, `trace
    {
      && trace != [] && trace[|trace| - 1] == disk
      && (forall d :: d in trace ==> Ascending(d.backups, ByName))
      && inspect("").Missing?
    }

    /** The tree has been on disk, as the current core or a backup, ever since the checkpoint. */
    ghost predicate Kept(tree: string)
      reads `trace
    {
      forall d :: d in trace ==> Holds(d, tree)
    }

    function CurrentTree(): Inspection
      reads `disk
    {
      if disk.current.None? then Missing else inspect(disk.current.value)
    }

    method Fault() returns (failed: bool)
      modifies `faults
      ensures faults == old(faults) + if failed then 1 else 0
    {
      failed := *;
      if failed {
        faults := faults + 1;
      }
    }

    /** One atomic change of the tree. `tree` is the one whose survival the caller is following. */
    method Step(next: Disk, ghost tree: string)
      requires Valid() && Ascending(next.backups, ByName)
      modifies `disk, `trace
      ensures Valid() && disk == next && |old(trace)| <= |trace|
      ensures old(Kept(tree)) && Holds(next, tree) ==> Kept(tree)
    {
      disk := next;
      trace := trace + [next];
    }

    method Checkpoint()
      requires Valid()
      modifies `trace
      ensures Valid() && trace == [disk]
      ensures forall tree :: Kept(tree) <==> Holds(disk, tree)
    {
      trace := [disk];
    }

    /** The machine stops between two durable effects. */
    method Crash()
      requires Valid()
      modifies `disk, `trace
      ensures Valid() && trace == [disk] && disk in old(trace)
    {
      var left :| left in trace;
      disk, trace := left, [left];
    }

    method Scratch() returns (id: nat)
      ensures id !in disk.staging
    {
      ghost var taken: set<int> := set id | id in disk.staging :: id;
      ghost var bound := AboveAll(taken);
      assert forall id :: id in disk.staging ==> id in taken;
      assert bound !in disk.staging;
      id :| id !in disk.staging;
    }

    // -------------------------------------------------------------- activation

    /** Every backup is one of the old ones, or no longer validates. */
    predicate OnlyLoses(before: seq<Backup>, after: seq<Backup>) {
      forall b :: b in after ==> b in before || !inspect(b.tree).Sound?
    }

    /** pruneBackups: newest expired backup first; a removal that fails may leave a tree half removed. */
    method Prune(keep: nat, ghost tree: string) returns (ok: bool)
      requires Valid()
      modifies `disk, `trace, `faults
      ensures Valid() && |old(trace)| <= |trace| && disk == old(disk).(backups := disk.backups)
      ensures Last(disk.backups, keep) == Last(old(disk.backups), keep)
      ensures ok ==> disk.backups == Last(old(disk.backups), keep)
      ensures OnlyLoses(old(disk.backups), disk.backups)
      ensures old(Kept(tree)) && (disk.current == Some(tree) || InBackups(Last(old(disk.backups), keep), tree)) ==> Kept(tree)
      ensures faults >= old(faults) && (faults == old(faults) ==> ok)
    {
      hide Last, OnlyLoses, Kept, InBackups, Ascending;
      ghost var before := disk.backups;
      assert disk in trace;
      LastLast(before, keep);
      SplitLosesNothing(before, keep, |before|);
      var failed := Fault();
      if failed {
        return false;
      }
      var k := if |disk.backups| <= keep then 0 else |disk.backups| - keep;
      WholeIsSplit(before, keep, k);
      while k > 0
        invariant 0 <= k && (k + keep <= |before| || k == 0)
        invariant Valid() && |old(trace)| <= |trace| && disk == old(disk).(backups := disk.backups)
        invariant disk.backups == before[..k] + Last(before, keep)
        invariant old(Kept(tree)) && (disk.current == Some(tree) || InBackups(Last(before, keep), tree)) ==> Kept(tree)
        invariant faults >= old(faults)
      {
        ok := RemoveBackup(before, keep, k, tree);
        if !ok {
          return;
        }
        k := k - 1;
      }
      assert before[..0] + Last(before, keep) == Last(before, keep);
      SplitLosesNothing(before, keep, 0);
      failed := Fault();
      ok := !failed;
    }

    method RemoveBackup(ghost before: seq<Backup>, keep: nat, k: nat, ghost tree: string) returns (ok: bool)
      requires Valid() && Ascending(before, ByName) && 0 < k && k + keep <= |before|
      requires disk.backups == before[..k] + Last(before, keep)
      modifies `disk, `trace, `faults
      ensures Valid() && |old(trace)| <= |trace| && disk == old(disk).(backups := disk.backups)
      ensures Last(disk.backups, keep) == Last(before, keep) && OnlyLoses(before, disk.backups)
      ensures ok ==> disk.backups == before[..k - 1] + Last(before, keep)
      ensures old(Kept(tree)) && (disk.current == Some(tree) || InBackups(Last(before, keep), tree)) ==> Kept(tree)
      ensures faults >= old(faults) && (faults == old(faults) ==> ok)
    {
      hide Last, Kept, OnlyLoses, Ascending;
      var rest := disk.backups[k..];
      assert rest == Last(before, keep) && disk.backups[..k - 1] == before[..k - 1];
      LastAscending(before, keep, k - 1);
      LastAscending(before, keep, k);
      SplitLosesNothing(before, keep, k - 1);
      SplitLosesNothing(before, keep, k);
      var failed := Fault();
      if failed {
        var left: Option<string> := *;
        if left.Some? && !inspect(left.value).Sound? {
          var damaged := Backup(disk.backups[k - 1].name, left.value);
          DamagedAscending(before, keep, k, left.value);
          DamageLosesNothing(before, keep, k - 1, damaged);
          Step(disk.(backups := disk.backups[..k - 1] + [damaged] + rest), tree);
          assert disk.backups == before[..k - 1] + [damaged] + Last(before, keep);
        }
        return false;
      }
      Step(disk.(backups := disk.backups[..k - 1] + rest), tree);
      ok := true;
    }

    lemma DamageLosesNothing(before: seq<Backup>, keep: nat, k: nat, damaged: Backup)
      requires k <= |before| && !inspect(damaged.tree).Sound?
      ensures OnlyLoses(before, before[..k] + [damaged] + Last(before, keep))
    {
      SplitLosesNothing(before, keep, k);
      assert forall b :: b in before[..k] + [damaged] + Last(before, keep) ==>
        b in before[..k] + Last(before, keep) || b == damaged;
    }

    lemma SplitLosesNothing(before: seq<Backup>, keep: nat, k: nat)
      requires k <= |before|
      ensures OnlyLoses(before, before[..k] + Last(before, keep))
      ensures OnlyLoses(before, before)
    {
      assert forall b :: b in before[..k] ==> b in before;
      assert forall b :: b in Last(before, keep) ==> b in before;
    }

    /** Whether Activate would find the staged tree and whatever it has to move aside in order. */
    predicate Installable(staged: nat)
      reads `disk
    {
      && staged in disk.staging && inspect(disk.staging[staged]).Sound?
      && (HasCore(disk) ==> CurrentTree().Sound?)
    }

    /** Free the current path: a core becomes a backup, the empty placeholder of a fresh volume is removed. */
    method MakeRoom(name: int, ghost tree: string) returns (ok: bool)
      requires Valid() && Unused(disk.backups, name)
      modifies `disk, `trace, `faults
      ensures Valid() && |old(trace)| <= |trace|
      ensures disk == old(disk) || disk == old(disk).(current := None, backups := MovedAside(old(disk), name))
      ensures ok ==> disk == old(disk).(current := None, backups := MovedAside(old(disk), name))
      ensures !ok && HasCore(old(disk)) && faults <= old(faults) + 1 ==> disk == old(disk)
      ensures old(Kept(tree)) && Watched(old(disk), name, tree) ==> Kept(tree)
      ensures faults >= old(faults) && (faults == old(faults) ==> ok)
    {
      hide Last, Kept, Ascending, Watched, MovedAside;
      ghost var before := disk;
      MovedAsideFacts(disk, name, tree);
      ok := true;
      if disk.current.Some? {
        var failed := Fault();
        if failed {
          return false;
        }
        var previous := disk;
        Step(disk.(current := None, backups := MovedAside(disk, name)), tree);
        failed := Fault();
        if failed {
          failed := Fault();
          if HasCore(previous) && !failed {
            Step(previous, tree);
          }
          ok := false;
        }
      }
    }

    /** Move the current core aside, if there is one, and rename the staged tree into its place. */
    method Activate(staged: nat, name: int, ghost tree: string) returns (activation: Activation, ok: bool)
      requires Valid() && Unused(disk.backups, name)
      modifies `disk, `trace, `swaps, `faults
      ensures Valid() && |old(trace)| <= |trace| && disk.marker == old(disk.marker)
      ensures swaps == old(swaps) + if activation.activated then 1 else 0
      ensures activation.activated ==>
        && old(Installable(staged)) && disk.current == Some(old(disk.staging[staged]))
        && disk.staging == old(disk.staging) - {staged}
        && activation.backup == (if HasCore(old(disk)) then Some(name) else None)
        && Last(disk.backups, KEPT_BACKUPS) == Last(MovedAside(old(disk), name), KEPT_BACKUPS)
        && OnlyLoses(MovedAside(old(disk), name), disk.backups)
      ensures ok ==> activation.activated && disk.backups == Last(MovedAside(old(disk), name), KEPT_BACKUPS)
      ensures ok ==> |disk.backups| <= KEPT_BACKUPS
      ensures !activation.activated ==>
        disk == old(disk) || disk == old(disk).(current := None, backups := MovedAside(old(disk), name))
      // one failed sub-step alone leaves an installed core where it was
      ensures !activation.activated && HasCore(old(disk)) && faults <= old(faults) + 1 ==> disk == old(disk)
      ensures old(Kept(tree)) && Watched(old(disk), name, tree) ==> Kept(tree)
      ensures faults >= old(faults) && (faults == old(faults) && old(Installable(staged)) ==> ok)
    {
      hide Last, Kept, Ascending, Watched, MovedAside;
      activation, ok := Activation(None, false), false;
      var before := disk;
      MovedAsideFacts(disk, name, tree);
      LastLast(MovedAside(disk, name), KEPT_BACKUPS);
      var failed := Fault();
      if failed || !Installable(staged) {
        return;
      }
      var cleared := MakeRoom(name, tree);
      if !cleared {
        return;
      }
      failed := Fault();
      if failed {
        failed := Fault();
        if HasCore(before) && !failed {
          Step(before, tree);
        }
        return;
      }
      Step(Disk(Some(disk.staging[staged]), disk.backups, disk.staging - {staged}, disk.marker), tree);
      swaps := swaps + 1;
      activation := Activation(if HasCore(before) then Some(name) else None, true);
      failed := Fault();
      if !failed {
        ok := Prune(KEPT_BACKUPS, tree);
      }
    }

    /** Rename the failed core away and the remembered backup back; what could not be undone stays where it is. */
    method Restore(activation: Activation) returns (ok: bool)
      requires Valid()
      modifies `disk, `trace, `faults
      ensures Valid() && |old(trace)| <= |trace| && disk.marker == old(disk.marker)
      ensures ok ==>
        && old(Restorable(activation)) && RestoredFrom(old(disk), disk, activation) && disk.staging == old(disk.staging)
      ensures disk.backups == old(disk.backups) || RestoredFrom(old(disk), disk, activation)
      ensures !ok && faults <= old(faults) + 1 ==> disk == old(disk) || RestoredFrom(old(disk), disk, activation)
      ensures forall tree :: Remembered(old(disk), activation, tree) && old(Kept(tree)) ==> Kept(tree)
      ensures faults >= old(faults)
      ensures faults == old(faults) ==> (ok <==> old(Restorable(activation)) && old(disk.current).Some?)
    {
      hide Kept, Ascending, Without;
      ok := false;
      var failed := Fault();
      if failed || !Restorable(activation) {
        return;
      }
      var name, before := activation.backup.value, disk;
      ghost var tree := Find(disk.backups, name).value;
      WithoutAscending(disk.backups, name);
      var scratch := Scratch();
      failed := Fault();
      if failed || disk.current.None? {
        return;
      }
      Step(disk.(current := None, staging := disk.staging[scratch := disk.current.value]), tree);
      failed := Fault();
      if failed {
        failed := Fault();
        if !failed {
          Step(before, tree);
        }
        return;
      }
      Step(disk.(current := Find(disk.backups, name), backups := Without(disk.backups, name)), tree);
      ok := SweepFailed(scratch, tree);
      assert ok ==> disk.staging == before.staging;
    }

    /** The end of Restore: sync, remove the failed tree, sync again. */
    method SweepFailed(scratch: nat, ghost tree: string) returns (ok: bool)
      requires Valid() && disk.current == Some(tree)
      modifies `disk, `trace, `faults
      ensures Valid() && |old(trace)| <= |trace| && (old(Kept(tree)) ==> Kept(tree))
      ensures disk == old(disk).(staging := disk.staging)
      ensures ok ==> disk.staging == old(disk).staging - {scratch}
      ensures faults >= old(faults) && (faults == old(faults) ==> ok)
    {
      hide Kept, Ascending;
      var failed := Fault();
      if failed {
        return false;
      }
      failed := Fault();
      if failed {
        var left: string := *;
        Step(disk.(staging := disk.staging[scratch := left]), tree);
        return false;
      }
      Step(disk.(staging := disk.staging - {scratch}), tree);
      failed := Fault();
      ok := !failed;
    }

    predicate Restorable(activation: Activation)
      reads `disk
    {
      && activation.backup.Some? && Find(disk.backups, activation.backup.value).Some?
      && inspect(Find(disk.backups, activation.backup.value).value).Sound?
    }

    /** Undo an activation, which without a previous core means removing the tree it installed. */
    method RevertActivation(activation: Activation) returns (ok: bool)
      requires Valid()
      modifies `disk, `trace, `faults
      ensures Valid() && |old(trace)| <= |trace| && disk.marker == old(disk.marker)
      ensures !activation.activated ==> ok && disk == old(disk)
      ensures ok && activation.activated && activation.backup.Some? ==>
        old(Restorable(activation)) && RestoredFrom(old(disk), disk, activation)
      ensures ok && activation.activated && activation.backup.None? ==> disk == old(disk).(current := None)
      ensures forall tree :: Remembered(old(disk), activation, tree) && old(Kept(tree)) ==> Kept(tree)
      ensures faults >= old(faults)
      ensures faults == old(faults) && activation.activated ==>
        (ok <==> activation.backup.None? || (old(Restorable(activation)) && old(disk.current).Some?))
    {
      hide Kept, Ascending, Without;
      ok := true;
      if activation.activated {
        if activation.backup.Some? {
          ok := Restore(activation);
          return;
        }
        var failed := Fault();
        if failed {
          var left: Option<string> := *;
          Step(disk.(current := left), "");
          return false;
        }
        Step(disk.(current := None), "");
        failed := Fault();
        ok := !failed;
      }
    }

    // -------------------------------------------------------------- backups and staging

    /** The newest backup that validates. */
    method LatestBackup() returns (found: Option<Backup>)
      requires Valid()
      modifies `faults
      ensures found.Some? ==> NewestSound(found.value)
      ensures faults >= old(faults)
      ensures faults == old(faults) && found.None? ==>
        forall b :: b in disk.backups ==> !inspect(b.tree).Sound?
    {
      var failed := Fault();
      if failed {
        return None;
      }
      assert disk in trace;
      var i := |disk.backups|;
      while i > 0
        invariant 0 <= i <= |disk.backups|
        invariant forall j :: i <= j < |disk.backups| ==> !inspect(disk.backups[j].tree).Sound?
      {
        i := i - 1;
        if inspect(disk.backups[i].tree).Sound? {
          forall c | c in disk.backups && c.name > disk.backups[i].name ensures !inspect(c.tree).Sound? {
            var j :| 0 <= j < |disk.backups| && disk.backups[j] == c;
            ByIndex(disk.backups, i, j);
          }
          return Some(disk.backups[i]);
        }
      }
      return None;
    }

    predicate NewestSound(b: Backup)
      reads `disk
    {
      && b in disk.backups && inspect(b.tree).Sound?
      && forall c :: c in disk.backups && c.name > b.name ==> !inspect(c.tree).Sound?
    }

    /** Put a downloaded, bootstrapped or adopted tree into staging. */
    method Stage(content: string, ghost tree: string) returns (staged: Option<nat>)
      requires Valid()
      modifies `disk, `trace, `faults
      ensures Valid() && |old(trace)| <= |trace| && (old(Kept(tree)) ==> Kept(tree))
      ensures disk == old(disk).(staging := disk.staging)
      ensures staged.Some? ==> staged.value !in old(disk).staging && disk.staging == old(disk).staging[staged.value := content]
      ensures faults >= old(faults) && (faults == old(faults) ==> staged.Some?)
    {
      hide Ascending;
      var id := Scratch();
      var failed := Fault();
      var partial: string := *;
      assert disk in trace;
      Step(disk.(staging := disk.staging[id := if failed then partial else content]), tree);
      return if failed then None else Some(id);
    }

    /** Copy a backup into staging; what an interrupted copy leaves behind is Recover's to clean. */
    method StageBackup(name: int, ghost tree: string) returns (staged: Option<nat>)
      requires Valid()
      modifies `disk, `trace, `faults
      ensures Valid() && |old(trace)| <= |trace| && (old(Kept(tree)) ==> Kept(tree))
      ensures disk == old(disk).(staging := disk.staging)
      ensures staged.Some? ==>
        && Find(disk.backups, name).Some? && inspect(Find(disk.backups, name).value).Sound?
        && staged.value !in old(disk).staging && disk.staging == old(disk).staging[staged.value := Find(disk.backups, name).value]
      ensures staged.None? && faults == old(faults) ==> disk == old(disk)
      ensures faults >= old(faults)
      ensures faults == old(faults) ==>
        (staged.Some? <==> Find(disk.backups, name).Some? && inspect(Find(disk.backups, name).value).Sound?)
    {
      hide Ascending;
      var failed := Fault();
      var source := Find(disk.backups, name);
      if failed || source.None? || !inspect(source.value).Sound? {
        return None;
      }
      var id := Scratch();
      failed := Fault();
      if failed {
        var partial: string := *;
        assert disk in trace;
        Step(disk.(staging := disk.staging[id := partial]), tree);
        return None;
      }
      assert disk in trace;
      Step(disk.(staging := disk.staging[id := source.value]), tree);
      return Some(id);
    }

    method RemoveStage(id: nat, ghost tree: string)
      requires Valid()
      modifies `disk, `trace, `faults
      ensures Valid() && |old(trace)| <= |trace| && (old(Kept(tree)) ==> Kept(tree))
      ensures disk == old(disk).(staging := disk.staging)
      ensures faults >= old(faults) && (faults == old(faults) ==> disk.staging == old(disk).staging - {id})
    {
      hide Ascending;
      var failed := Fault();
      var left: Option<string> := *;
      assert disk in trace;
      if !failed {
        Step(disk.(staging := disk.staging - {id}), tree);
      } else if left.Some? {
        Step(disk.(staging := disk.staging[id := left.value]), tree);
      }
    }

    /** Clean whatever an interrupted operation staged; the current core and its backups are not touched. */
    method Recover(ghost tree: string) returns (ok: bool)
      requires Valid()
      modifies `disk, `trace, `faults
      ensures Valid() && |old(trace)| <= |trace| && (old(Kept(tree)) ==> Kept(tree))
      ensures disk == old(disk).(staging := disk.staging)
      ensures ok ==> disk.staging == map[] && !CurrentTree().Invalid?
      ensures faults >= old(faults) && (faults == old(faults) && !CurrentTree().Invalid? ==> ok)
    {
      hide Ascending;
      var failed := Fault();
      if failed {
        return false;
      }
      while disk.staging != map[]
        invariant Valid() && |old(trace)| <= |trace| && (old(Kept(tree)) ==> Kept(tree))
        invariant disk == old(disk).(staging := disk.staging)
        invariant faults >= old(faults)
        decreases |disk.staging|
      {
        var id :| id in disk.staging;
        failed := Fault();
        if failed {
          return false;
        }
        assert disk in trace;
        Step(disk.(staging := disk.staging - {id}), tree);
      }
      failed := Fault();
      ok := !failed && !CurrentTree().Invalid?;
    }

    // -------------------------------------------------------------- the durable fail-closed marker

    method FailClosed() returns (marked: Option<bool>)
      modifies `faults
      ensures marked.Some? ==> marked.value == disk.marker
      ensures faults >= old(faults) && (faults == old(faults) ==> marked.Some?)
    {
      var failed := Fault();
      return if failed then None else Some(disk.marker);
    }

    /** An error does not say whether the marker's rename became durable. */
    method SetMarker(value: bool, ghost tree: string) returns (ok: bool)
      requires Valid()
      modifies `disk, `trace, `faults
      ensures Valid() && |old(trace)| <= |trace| && (old(Kept(tree)) ==> Kept(tree))
      ensures disk == old(disk) || disk == old(disk).(marker := value)
      ensures ok ==> disk == old(disk).(marker := value)
      ensures faults >= old(faults) && (faults == old(faults) ==> ok)
    {
      hide Ascending;
      var failed := Fault();
      var applied: bool := *;
      if !failed || applied {
        assert disk in trace;
        Step(disk.(marker := value), tree);
      }
      ok := !failed;
    }
  }

  /** The activation remembers this tree as its backup. */
  predicate Remembered(d: Disk, activation: Activation, tree: string) {
    activation.backup.Some? && Find(d.backups, activation.backup.value) == Some(tree)
  }

  /** The remembered backup has become the current core. */
  predicate RestoredFrom(before: Disk, after: Disk, activation: Activation) {
    && activation.backup.Some? && Find(before.backups, activation.backup.value).Some?
    && after.current == Find(before.backups, activation.backup.value)
    && after.backups == Without(before.backups, activation.backup.value)
  }

  /** The tree stored under a backup name. */
  function Find(s: seq<Backup>, name: int): (found: Option<string>)
    ensures found.Some? ==> Backup(name, found.value) in s
    ensures found.None? <==> Unused(s, name)
  {
    if s == [] then None
    else if s[0].name == name then Some(s[0].tree)
    else
      assert forall b :: b in s <==> b == s[0] || b in s[1..];
      Find(s[1..], name)
  }

  lemma WithoutAscending(s: seq<Backup>, name: int)
    requires Ascending(s, ByName)
    ensures Ascending(Without(s, name), ByName)
  {
    FilterAscending(s, (b: Backup) => b.name != name, ByName);
  }

  /** Retention will spare a backup made under this name. */
  ghost predicate Spares(d: Disk, name: int) {
    |NewerThan(d.backups, name)| < KEPT_BACKUPS
  }

  predicate HasCore(d: Disk) {
    d.current.Some? && d.current.value != ""
  }

  /** The tree is the current core, and retention will spare the backup it is about to become. */
  ghost predicate Watched(d: Disk, name: int, tree: string) {
    HasCore(d) && d.current == Some(tree) && Spares(d, name)
  }

  lemma MovedAsideFacts(d: Disk, name: int, tree: string)
    requires Ascending(d.backups, ByName) && Unused(d.backups, name)
    ensures Ascending(MovedAside(d, name), ByName)
    ensures !HasCore(d) ==> MovedAside(d, name) == d.backups
    ensures Watched(d, name, tree) ==>
      Holds(d, tree) && InBackups(MovedAside(d, name), tree) && InBackups(Last(MovedAside(d, name), KEPT_BACKUPS), tree)
  {
    if HasCore(d) {
      var x := Backup(name, d.current.value);
      InsertAscending(d.backups, x, ByName);
      SparedExactly(d.backups, x, KEPT_BACKUPS);
    }
  }

  ghost predicate InBackups(s: seq<Backup>, tree: string) {
    exists b :: b in s && b.tree == tree
  }

  lemma LastLast(s: seq<Backup>, keep: nat)
    ensures Last(Last(s, keep), keep) == Last(s, keep)
    ensures |Last(s, keep)| <= keep
  {
  }

  lemma WholeIsSplit(s: seq<Backup>, keep: nat, k: nat)
    requires k == if |s| <= keep then 0 else |s| - keep
    ensures s == s[..k] + Last(s, keep)
  {
  }

  lemma DamagedAscending(s: seq<Backup>, keep: nat, k: nat, tree: string)
    requires Ascending(s, ByName) && 0 < k && k + keep <= |s|
    ensures var u := s[..k - 1] + [Backup(s[k - 1].name, tree)] + Last(s, keep);
      Ascending(u, ByName) && Last(u, keep) == Last(s, keep)
  {
    var u := s[..k - 1] + [Backup(s[k - 1].name, tree)] + Last(s, keep);
    forall i, j | 0 <= i < j < |u| ensures ByName(u[i]) < ByName(u[j]) {
      var a := if i < k then i else i + |s| - |u|;
      var b := if j < k then j else j + |s| - |u|;
      assert ByName(s[a]) < ByName(s[b]);
    }
  }

  // ---------------------------------------------------------------- across operations

  /** Undoing an activation gives back the very tree that was current, and retention has not lost it. */
  method ActivateThenRestore(store: FileStore, staged: nat, name: int) returns (undone: bool, ghost activated: bool)
    requires store.Valid() && Unused(store.disk.backups, name)
    modifies store`disk, store`trace, store`swaps, store`faults
    ensures store.Valid()
    ensures activated ==> store.swaps == old(store.swaps) + 1
    ensures undone ==>
      && activated && HasCore(old(store.disk)) && store.disk.current == old(store.disk).current
      && store.disk.backups == Without(Last(MovedAside(old(store.disk), name), KEPT_BACKUPS), name)
    ensures store.faults == old(store.faults) && activated && old(HasCore(store.disk)) ==>
      (undone <==> |NewerThan(old(store.disk).backups, name)| < KEPT_BACKUPS)
  {
    hide Last, Ascending, Without, FileStore.Kept, Watched;
    ghost var before := store.disk;
    var activation, ok := store.Activate(staged, name, "");
    activated := ok;
    undone := false;
    if ok {
      MovedAsideName(before, store.disk, name);
      undone := store.Restore(activation);
    }
  }

  lemma MovedAsideName(before: Disk, after: Disk, name: int)
    requires Ascending(before.backups, ByName) && Unused(before.backups, name)
    requires after.backups == Last(MovedAside(before, name), KEPT_BACKUPS)
    ensures HasCore(before) ==>
      && (Find(after.backups, name).Some? ==> Find(after.backups, name) == before.current)
      && (Find(after.backups, name).Some? <==> |NewerThan(before.backups, name)| < KEPT_BACKUPS)
  {
    if HasCore(before) {
      var x := Backup(name, before.current.value);
      SparedExactly(before.backups, x, KEPT_BACKUPS);
      forall b | b in after.backups && b.name == name ensures b == x {
        BackupByName(before.backups, x, b);
      }
    }
  }

  /**
   * Conservation: wherever an activation is interrupted, and after whatever recovery the next start does, the core
   * that was current is still there, as the current core or among the backups.
   */
  method ActivateThenCrashThenRecover(store: FileStore, staged: nat, name: int, ghost tree: string) returns (recovered: bool)
    requires store.Valid() && Unused(store.disk.backups, name) && Watched(store.disk, name, tree)
    modifies store`disk, store`trace, store`swaps, store`faults
    ensures store.Valid() && store.Kept(tree) && Holds(store.disk, tree)
    ensures recovered ==> store.disk.staging == map[]
  {
    hide Last, Ascending, Without, MovedAside;
    store.Checkpoint();
    var activation, ok := store.Activate(staged, name, tree);
    store.Crash();
    recovered := store.Recover(tree);
    assert store.disk in store.trace;
  }

  method RestoreThenCrashThenRecover(store: FileStore, activation: Activation, ghost tree: string) returns (recovered: bool)
    requires store.Valid() && Remembered(store.disk, activation, tree)
    modifies store`disk, store`trace, store`faults
    ensures store.Valid() && store.Kept(tree) && Holds(store.disk, tree)
  {
    hide Last, Ascending, Without, MovedAside;
    store.Checkpoint();
    var ok := store.Restore(activation);
    store.Crash();
    recovered := store.Recover(tree);
    assert store.disk in store.trace;
  }
}
