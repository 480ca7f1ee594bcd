/** The config_revisions table: every row ever published or failed, minus what retention removed. */
module RevisionLedger {
  import opened Sequences

  datatype Status = Pending | Active | RolledBack | Failed

  datatype Revision = Revision(id: nat, number: nat, digest: string, status: Status, reason: string)

  /** Rows in revision_number order, the order every query of the store asks for. */
  type Table = seq<Revision>

  const ByNumber: Revision -> int := (r: Revision) => r.number
  const IsActive: Revision -> bool := (r: Revision) => r.status.Active?
  const IsInactive: Revision -> bool := (r: Revision) => r.status.RolledBack? || r.status.Failed?

  datatype Lookup = NoneActive | OneActive(revision: Revision) | SeveralActive

  ghost predicate DistinctIds(t: Table) {
    forall i, j :: 0 <= i < j < |t| ==> t[i].id != t[j].id
  }

  /** What the table's two UNIQUE constraints give. */
  ghost predicate WellFormed(t: Table) {
    Ascending(t, ByNumber) && DistinctIds(t)
  }

  ghost predicate AtMostOneActive(t: Table) {
    forall i, j :: 0 <= i < |t| && 0 <= j < |t| && t[i].status.Active? && t[j].status.Active? ==> i == j
  }

  function MaxNumber(t: Table): (m: nat)
    ensures forall i :: 0 <= i < |t| ==> t[i].number <= m
    ensures m != 0 ==> exists i :: 0 <= i < |t| && t[i].number == m
  {
    if t == [] then 0
    else
      var last, rest := t[|t| - 1].number, MaxNumber(t[..|t| - 1]);
      if last >= rest then last else rest
  }

  function NextNumber(t: Table): (n: nat)
    ensures forall i :: 0 <= i < |t| ==> t[i].number < n
  {
    MaxNumber(t) + 1
  }

  function ActiveRevision(t: Table): (found: Lookup)
    ensures found.NoneActive? ==> forall r :: r in t ==> !r.status.Active?
    ensures found.OneActive? ==> found.revision in t && found.revision.status.Active?
  {
    var active := Filter(t, IsActive);
    if active == [] then assert forall r :: r in t ==> (r in active <==> IsActive(r)); NoneActive
    else if |active| == 1 then assert active[0] in active; OneActive(active[0])
    else SeveralActive
  }

  predicate Conflicts(t: Table, r: Revision) {
    exists q :: q in t && (q.id == r.id || q.number == r.number)
  }

  /** INSERT fails exactly on a UNIQUE conflict. */
  function InsertRow(t: Table, r: Revision): (result: Option<Table>)
    ensures result.None? <==> Conflicts(t, r)
    ensures result.Some? ==> forall q :: q in result.value <==> q in t || q == r
  {
    if Conflicts(t, r) then None else Some(Insert(t, r, ByNumber))
  }

  /** The first of ActivateRevision's two updates. */
  function Retire(t: Table): (r: Table)
    ensures |r| == |t|
    ensures forall i :: 0 <= i < |t| ==>
      r[i] == (if t[i].status.Active? then t[i].(status := RolledBack) else t[i])
  {
    seq(|t|, i requires 0 <= i < |t| => if t[i].status.Active? then t[i].(status := RolledBack) else t[i])
  }

  /** The second: only a pending row can become active. */
  function Promote(t: Table, id: nat): (r: Table)
    ensures |r| == |t|
    ensures forall i :: 0 <= i < |t| ==>
      r[i] == (if t[i].id == id && t[i].status.Pending? then t[i].(status := Active) else t[i])
  {
    seq(|t|, i requires 0 <= i < |t| =>
      if t[i].id == id && t[i].status.Pending? then t[i].(status := Active) else t[i])
  }

  function ActivateRow(t: Table, id: nat): (result: Option<Table>)
    ensures result.Some? <==> exists r :: r in t && r.id == id && r.status.Pending?
  {
    if exists r :: r in t && r.id == id && r.status.Pending?
    then Some(Promote(Retire(t), id))
    else None
  }

  /** The rows retention gives up: all inactive rows but the `keep` newest, newest first. */
  function Expired(t: Table, keep: nat): (r: seq<Revision>)
    ensures forall q :: q in r ==> q in t && IsInactive(q)
  {
    var inactive := Filter(t, IsInactive);
    if |inactive| <= keep then []
    else
      assert forall q :: q in inactive[..|inactive| - keep] ==> q in inactive;
      Reverse(inactive[..|inactive| - keep])
  }

  /** DELETE spares the active row. */
  function DeleteRow(t: Table, id: nat): (r: Table)
    ensures forall q :: q in r <==> q in t && (q.id != id || q.status.Active?)
  {
    Filter(t, (q: Revision) => q.id != id || q.status.Active?)
  }

  // ---------------------------------------------------------------- invariants of the updates

  lemma InsertWellFormed(t: Table, r: Revision)
    requires WellFormed(t) && !Conflicts(t, r)
    ensures WellFormed(Insert(t, r, ByNumber))
  {
    InsertAscending(t, r, ByNumber);
    var u := Insert(t, r, ByNumber);
    forall i, j | 0 <= i < j < |u| ensures u[i].id != u[j].id {
      assert u[i] in u && u[j] in u && ByNumber(u[i]) < ByNumber(u[j]);
      RowsWithOneId(t, r, u[i], u[j]);
    }
  }

  lemma RowsWithOneId(t: Table, r: Revision, p: Revision, q: Revision)
    requires WellFormed(t) && !Conflicts(t, r)
    requires (p in t || p == r) && (q in t || q == r) && p.number != q.number
    ensures p.id != q.id
  {
    if p in t && q in t && p.id == q.id {
      SameIdSameRow(t, p, q);
    }
  }

  lemma SameIdSameRow(t: Table, p: Revision, q: Revision)
    requires DistinctIds(t) && p in t && q in t && p.id == q.id
    ensures p == q
  {
    var i :| 0 <= i < |t| && t[i] == p;
    var j :| 0 <= j < |t| && t[j] == q;
    assert i == j;
  }

  lemma ActivateWellFormed(t: Table, id: nat)
    requires WellFormed(t) && ActivateRow(t, id).Some?
    ensures WellFormed(ActivateRow(t, id).value)
  {
    var u := Promote(Retire(t), id);
    forall i, j | 0 <= i < j < |u| ensures ByNumber(u[i]) < ByNumber(u[j]) && u[i].id != u[j].id {
      assert ByNumber(t[i]) < ByNumber(t[j]);
    }
  }

  lemma {:induction false} FilterWellFormed(t: Table, keep: Revision -> bool)
    requires WellFormed(t)
    ensures WellFormed(Filter(t, keep))
  {
    FilterAscending(t, keep, ByNumber);
    var u := Filter(t, keep);
    forall i, j | 0 <= i < j < |u| ensures u[i].id != u[j].id {
      assert u[i] in u && u[j] in u && ByNumber(u[i]) < ByNumber(u[j]);
      if u[i].id == u[j].id {
        SameIdSameRow(t, u[i], u[j]);
      }
    }
  }

  /** After activation the named row, and no other, is active. */
  lemma ActivationIsExclusive(t: Table, id: nat)
    requires WellFormed(t) && ActivateRow(t, id).Some?
    ensures AtMostOneActive(ActivateRow(t, id).value)
    ensures exists r :: (
        r in t && r.id == id && r.status.Pending?
        && ActiveRevision(ActivateRow(t, id).value) == OneActive(r.(status := Active)))
  {
    var u := Promote(Retire(t), id);
    var r :| r in t && r.id == id && r.status.Pending?;
    var k :| 0 <= k < |t| && t[k] == r;
    assert u[k] == r.(status := Active);
    ActivateWellFormed(t, id);
    SoleActive(u, k);
  }

  lemma {:induction false} SoleActive(t: Table, k: nat)
    requires k < |t| && t[k].status.Active?
    requires forall i :: 0 <= i < |t| && t[i].status.Active? ==> i == k
    ensures ActiveRevision(t) == OneActive(t[k])
  {
    FilterOnly(t, IsActive, k);
  }

  lemma {:induction false} FilterOnly(t: Table, keep: Revision -> bool, k: nat)
    requires k < |t| && keep(t[k])
    requires forall i :: 0 <= i < |t| && keep(t[i]) ==> i == k
    ensures Filter(t, keep) == [t[k]]
  {
    if k == 0 {
      FilterNone(t[1..], keep);
    } else {
      FilterOnly(t[1..], keep, k - 1);
    }
  }

  /** With one active row at most, the lookup never reports several. */
  lemma LookupIsTotal(t: Table)
    requires AtMostOneActive(t)
    ensures !ActiveRevision(t).SeveralActive?
    ensures forall r :: r in t && r.status.Active? ==> ActiveRevision(t) == OneActive(r)
  {
    if k :| 0 <= k < |t| && t[k].status.Active? {
      SoleActive(t, k);
      forall r | r in t && r.status.Active? ensures r == t[k] {
        var i :| 0 <= i < |t| && t[i] == r;
      }
    } else {
      FilterNone(t, IsActive);
    }
  }

  // ---------------------------------------------------------------- retention

  ghost function NewerInactive(t: Table, r: Revision): set<Revision> {
    set q | q in t && IsInactive(q) && q.number > r.number
  }

  lemma IndexByNumber(s: seq<Revision>, i: nat, j: nat)
    requires Ascending(s, ByNumber) && i < |s| && j < |s|
    ensures s[i].number < s[j].number <==> i < j
    ensures s[i] == s[j] <==> i == j
  {
    if i < j {
      assert ByNumber(s[i]) < ByNumber(s[j]);
    } else if j < i {
      assert ByNumber(s[j]) < ByNumber(s[i]);
    }
  }

  lemma IndexOf(s: seq<Revision>, r: Revision) returns (i: nat)
    requires r in s
    ensures i < |s| && s[i] == r
  {
    i :| 0 <= i < |s| && s[i] == r;
  }

  lemma ExpiredSplit(t: Table, keep: nat, i: nat)
    requires WellFormed(t) && i < |Filter(t, IsInactive)|
    ensures Filter(t, IsInactive)[i] in Expired(t, keep) <==> i + keep < |Filter(t, IsInactive)|
  {
    var inactive := Filter(t, IsInactive);
    FilterAscending(t, IsInactive, ByNumber);
    if |inactive| > keep {
      var prefix := inactive[..|inactive| - keep];
      if inactive[i] in prefix {
        var j := IndexOf(prefix, inactive[i]);
        IndexByNumber(inactive, i, j);
      }
      if i < |prefix| {
        assert prefix[i] == inactive[i];
      }
    }
  }

  lemma NewerIsLater(t: Table, inactive: seq<Revision>, i: nat, q: Revision)
    requires inactive == Filter(t, IsInactive) && Ascending(inactive, ByNumber) && i < |inactive|
    ensures q in inactive[i + 1..] <==> q in NewerInactive(t, inactive[i])
  {
    if q in inactive {
      var k := IndexOf(inactive, q);
      IndexByNumber(inactive, i, k);
      if i < k {
        assert inactive[i + 1..][k - i - 1] == q;
      }
    }
    if q in inactive[i + 1..] {
      var a := IndexOf(inactive[i + 1..], q);
      assert inactive[i + 1 + a] == q;
      IndexByNumber(inactive, i, i + 1 + a);
    }
  }

  lemma RankFromTheEnd(t: Table, inactive: seq<Revision>, i: nat)
    requires inactive == Filter(t, IsInactive) && Ascending(inactive, ByNumber) && i < |inactive|
    ensures |NewerInactive(t, inactive[i])| == |inactive| - 1 - i
  {
    var later := inactive[i + 1..];
    forall a, b | 0 <= a < b < |later| ensures later[a] != later[b] {
      IndexByNumber(inactive, i + 1 + a, i + 1 + b);
    }
    CardinalityOfDistinct(later);
    forall q ensures q in later <==> q in NewerInactive(t, inactive[i]) {
      NewerIsLater(t, inactive, i, q);
    }
    assert ToSet(later) == NewerInactive(t, inactive[i]);
  }

  /** A row expires exactly when it is inactive and `keep` newer inactive rows exist. */
  lemma ExpiredByRank(t: Table, keep: nat, r: Revision)
    requires WellFormed(t)
    ensures r in Expired(t, keep) <==> r in t && IsInactive(r) && |NewerInactive(t, r)| >= keep
  {
    var inactive := Filter(t, IsInactive);
    if r in inactive {
      FilterAscending(t, IsInactive, ByNumber);
      var i := IndexOf(inactive, r);
      RankFromTheEnd(t, inactive, i);
      ExpiredSplit(t, keep, i);
    }
  }

  /** Positive retention never gives up the newest row, whatever its status. */
  lemma NewestIsKept(t: Table, keep: nat, r: Revision)
    requires WellFormed(t) && keep >= 1 && r in t && r.number == MaxNumber(t)
    ensures r !in Expired(t, keep)
  {
    ExpiredByRank(t, keep, r);
    forall q ensures q !in NewerInactive(t, r) {
      if q in t {
        var i := IndexOf(t, q);
      }
    }
    assert NewerInactive(t, r) == {};
  }
}
