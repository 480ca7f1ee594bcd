/** Whole runs of the revision table: publications, recorded failures and (possibly interrupted) retention. */
module RevisionHistory {
  import opened Sequences
  import opened RevisionLedger

  datatype Event =
    | Publish(id: nat, digest: string, reason: string)
    | Fail(id: nat, digest: string, reason: string)
    | Prune(keep: nat, steps: nat)

  /** The durable table, with every number ever made durable in the order it was assigned. */
  datatype History = History(rows: Table, numbers: seq<nat>, published: bool)

  const Empty := History([], [], false)
  const Itself: nat -> int := (n: nat) => n

  function FreshRow(t: Table, id: nat, digest: string, status: Status, reason: string): Revision {
    Revision(id, NextNumber(t), digest, status, reason)
  }

  /** Insert a pending row and activate it in the same transaction. */
  function PublishRow(t: Table, id: nat, digest: string, reason: string): Option<Table> {
    match InsertRow(t, FreshRow(t, id, digest, Pending, reason))
    case None => None
    case Some(inserted) => ActivateRow(inserted, id)
  }

  /** The first `steps` deletions of one retention pass. */
  function PruneRows(t: Table, keep: nat, steps: nat): Table {
    var doomed := Expired(t, keep);
    var done := if steps < |doomed| then doomed[..steps] else doomed;
    Filter(t, (r: Revision) => r !in done)
  }

  function Apply(h: History, e: Event): History {
    match e
    case Publish(id, digest, reason) =>
      (match PublishRow(h.rows, id, digest, reason)
       case None => h
       case Some(rows) => History(rows, h.numbers + [NextNumber(h.rows)], true))
    case Fail(id, digest, reason) =>
      (match InsertRow(h.rows, FreshRow(h.rows, id, digest, Failed, reason))
       case None => h
       case Some(rows) => h.(rows := rows, numbers := h.numbers + [NextNumber(h.rows)]))
    case Prune(keep, steps) =>
      if keep < 1 then h else h.(rows := PruneRows(h.rows, keep, steps))
  }

  function Run(h: History, events: seq<Event>): History
    decreases events
  {
    if events == [] then h else Run(Apply(h, events[0]), events[1..])
  }

  ghost predicate Invariant(h: History) {
    && WellFormed(h.rows)
    && (forall r :: r in h.rows ==> !r.status.Pending?)
    && AtMostOneActive(h.rows)
    && (h.published ==> ActiveRevision(h.rows).OneActive?)
    && Ascending(h.numbers, Itself)
    && MaxNumber(h.rows) == (if h.numbers == [] then 0 else h.numbers[|h.numbers| - 1])
    && (forall r :: r in h.rows ==> r.number in h.numbers)
  }

  lemma MaxIs(t: Table, m: nat)
    requires forall r :: r in t ==> r.number <= m
    requires exists r :: r in t && r.number == m
    ensures MaxNumber(t) == m
  {
    var r :| r in t && r.number == m;
    var i := IndexOf(t, r);
    if MaxNumber(t) != 0 {
      var j :| 0 <= j < |t| && t[j].number == MaxNumber(t);
      assert t[j] in t;
    }
  }

  lemma MaxDominates(t: Table, r: Revision)
    requires r in t
    ensures r.number <= MaxNumber(t)
  {
    var i := IndexOf(t, r);
  }

  lemma AppendNumber(numbers: seq<nat>, n: nat)
    requires Ascending(numbers, Itself)
    requires numbers == [] || numbers[|numbers| - 1] < n
    ensures Ascending(numbers + [n], Itself)
  {
    var u := numbers + [n];
    forall i, j | 0 <= i < j < |u| ensures Itself(u[i]) < Itself(u[j]) {
      if j == |numbers| && i < |numbers| - 1 {
        assert Itself(numbers[i]) < Itself(numbers[|numbers| - 1]);
      } else if j < |numbers| {
        assert Itself(numbers[i]) < Itself(numbers[j]);
      }
    }
  }

  lemma NewRow(t: Table, r: Revision)
    requires WellFormed(t) && r.number == NextNumber(t) && InsertRow(t, r).Some?
    ensures WellFormed(InsertRow(t, r).value)
    ensures MaxNumber(InsertRow(t, r).value) == r.number
  {
    InsertWellFormed(t, r);
    var u := InsertRow(t, r).value;
    forall q | q in u ensures q.number <= r.number {
      if q in t { MaxDominates(t, q); }
    }
    assert r in u;
    MaxIs(u, r.number);
  }

  /** Where a row of the table came from when row `id` was activated. */
  lemma ActivatedFrom(v: Table, id: nat, r: Revision) returns (q: Revision)
    requires ActivateRow(v, id).Some? && r in ActivateRow(v, id).value
    ensures q in v && q.number == r.number && q.id == r.id
    ensures if q.id == id && q.status.Pending? then r == q.(status := Active)
            else if q.status.Active? then r == q.(status := RolledBack)
            else r == q
  {
    var u := Promote(Retire(v), id);
    var i := IndexOf(u, r);
    q := v[i];
  }

  /** Publishing inserts the next number as the only active row and retires its predecessor. */
  lemma PublishedRow(t: Table, id: nat, digest: string, reason: string)
    requires WellFormed(t) && PublishRow(t, id, digest, reason).Some?
    requires forall r :: r in t ==> !r.status.Pending?
    ensures WellFormed(PublishRow(t, id, digest, reason).value)
    ensures AtMostOneActive(PublishRow(t, id, digest, reason).value)
    ensures ActiveRevision(PublishRow(t, id, digest, reason).value)
         == OneActive(Revision(id, NextNumber(t), digest, Active, reason))
    ensures MaxNumber(PublishRow(t, id, digest, reason).value) == NextNumber(t)
    ensures forall r :: r in PublishRow(t, id, digest, reason).value ==>
      !r.status.Pending? && (r.status.Active? || r in t || (r.status.RolledBack? && r.(status := Active) in t))
  {
    var row := FreshRow(t, id, digest, Pending, reason);
    var v := InsertRow(t, row).value;
    var u := ActivateRow(v, id).value;
    NewRow(t, row);
    ActivateWellFormed(v, id);
    ActivationIsExclusive(v, id);
    PendingIsTheNewRow(t, row);
    assert ActiveRevision(u) == OneActive(row.(status := Active));
    forall r | r in u ensures PublishedOrigin(t, row, r) {
      var q := ActivatedFrom(v, id, r);
      MaxDominates(v, q);
    }
    MaxIs(u, row.number);
  }

  ghost predicate PublishedOrigin(t: Table, row: Revision, r: Revision) {
    && r.number <= row.number && !r.status.Pending?
    && (r.status.Active? || r in t || (r.status.RolledBack? && r.(status := Active) in t))
  }

  lemma PendingIsTheNewRow(t: Table, row: Revision)
    requires forall r :: r in t ==> !r.status.Pending?
    requires InsertRow(t, row).Some?
    ensures forall r :: r in InsertRow(t, row).value && r.status.Pending? ==> r == row
  {
  }

  lemma PublishKeeps(h: History, id: nat, digest: string, reason: string)
    requires Invariant(h)
    ensures Invariant(Apply(h, Publish(id, digest, reason)))
  {
    hide PublishRow, ActiveRevision, WellFormed, AtMostOneActive, MaxNumber;
    if PublishRow(h.rows, id, digest, reason).Some? {
      PublishedRow(h.rows, id, digest, reason);
      AppendNumber(h.numbers, NextNumber(h.rows));
      LookupIsTotal(PublishRow(h.rows, id, digest, reason).value);
      var h' := Apply(h, Publish(id, digest, reason));
      assert h'.numbers[|h.numbers|] == NextNumber(h.rows);
      forall r | r in h'.rows ensures r.number in h'.numbers {
        if !r.status.Active? {
          assert r in h.rows || r.(status := Active) in h.rows;
        }
      }
    }
  }

  lemma FailKeeps(h: History, id: nat, digest: string, reason: string)
    requires Invariant(h)
    ensures Invariant(Apply(h, Fail(id, digest, reason)))
  {
    hide ActiveRevision, WellFormed, AtMostOneActive, MaxNumber, Insert;
    var row := FreshRow(h.rows, id, digest, Failed, reason);
    if InsertRow(h.rows, row).Some? {
      NewRow(h.rows, row);
      AppendNumber(h.numbers, row.number);
      var u := InsertRow(h.rows, row).value;
      SameActives(h.rows, u);
    }
  }

  /** Adding or removing inactive rows changes neither how many rows are active nor which. */
  lemma SameActives(t: Table, u: Table)
    requires WellFormed(t) && WellFormed(u) && AtMostOneActive(t)
    requires forall r: Revision :: r.status.Active? ==> (r in t <==> r in u)
    ensures AtMostOneActive(u) && ActiveRevision(u) == ActiveRevision(t)
  {
    forall i, j | 0 <= i < |u| && 0 <= j < |u| && u[i].status.Active? && u[j].status.Active?
      ensures i == j
    {
      assert u[i] in t && u[j] in t;
      var a := IndexOf(t, u[i]);
      var b := IndexOf(t, u[j]);
      assert a == b;
      IndexByNumber(u, i, j);
    }
    LookupIsTotal(t);
    LookupIsTotal(u);
    if ActiveRevision(t).OneActive? {
      assert ActiveRevision(t).revision in u;
    }
    if ActiveRevision(u).OneActive? {
      assert ActiveRevision(u).revision in t;
    }
  }

  lemma PruneKeepsMax(t: Table, keep: nat, steps: nat)
    requires WellFormed(t) && keep >= 1
    ensures MaxNumber(PruneRows(t, keep, steps)) == MaxNumber(t)
  {
    var u := PruneRows(t, keep, steps);
    forall r | r in u ensures r.number <= MaxNumber(t) {
      MaxDominates(t, r);
    }
    if MaxNumber(t) != 0 {
      var i :| 0 <= i < |t| && t[i].number == MaxNumber(t);
      NewestIsKept(t, keep, t[i]);
      assert t[i] in u;
      MaxIs(u, MaxNumber(t));
    }
  }

  lemma PruneRowsWellFormed(t: Table, keep: nat, steps: nat)
    requires WellFormed(t)
    ensures WellFormed(PruneRows(t, keep, steps))
    ensures forall r :: r in PruneRows(t, keep, steps) ==> r in t
    ensures forall r: Revision :: r.status.Active? ==> (r in PruneRows(t, keep, steps) <==> r in t)
  {
    var doomed := Expired(t, keep);
    var done := if steps < |doomed| then doomed[..steps] else doomed;
    assert forall r :: r in done ==> r in doomed;
    FilterWellFormed(t, (r: Revision) => r !in done);
  }

  lemma PruneKeeps(h: History, keep: nat, steps: nat)
    requires Invariant(h)
    ensures Invariant(Apply(h, Prune(keep, steps)))
  {
    hide PruneRows, ActiveRevision, WellFormed, AtMostOneActive, MaxNumber;
    if keep >= 1 {
      PruneRowsWellFormed(h.rows, keep, steps);
      SameActives(h.rows, PruneRows(h.rows, keep, steps));
      PruneKeepsMax(h.rows, keep, steps);
    }
  }

  /**
   * In every run: at most one row is active and, once anything was published, exactly one; no pending row is ever
   * durable; and the numbers assigned strictly increase, so pruning never lets one be used again.
   */
  lemma {:induction false} HistoryIsSound(h: History, events: seq<Event>)
    requires Invariant(h)
    ensures Invariant(Run(h, events))
    decreases events
  {
    if events != [] {
      match events[0] {
        case Publish(id, digest, reason) => PublishKeeps(h, id, digest, reason);
        case Fail(id, digest, reason) => FailKeeps(h, id, digest, reason);
        case Prune(keep, steps) => PruneKeeps(h, keep, steps);
      }
      HistoryIsSound(Apply(h, events[0]), events[1..]);
    }
  }

  lemma RunsFromEmpty(events: seq<Event>)
    ensures Invariant(Run(Empty, events))
  {
    HistoryIsSound(Empty, events);
  }

  ghost predicate Consecutive(numbers: seq<nat>) {
    forall i :: 0 <= i < |numbers| ==> numbers[i] == i + 1
  }

  lemma AppendConsecutive(h: History)
    requires Invariant(h) && Consecutive(h.numbers)
    ensures Consecutive(h.numbers + [NextNumber(h.rows)])
  {
    NextIsOneMore(h);
  }

  lemma ApplyConsecutive(h: History, e: Event)
    requires Invariant(h) && Consecutive(h.numbers)
    ensures Consecutive(Apply(h, e).numbers)
  {
    hide Invariant, Consecutive;
    AppendConsecutive(h);
  }

  /** Numbers are handed out one by one: no run skips one, whatever it publishes, fails or forgets. */
  lemma {:induction false} NumbersAreConsecutive(h: History, events: seq<Event>)
    requires Invariant(h) && Consecutive(h.numbers)
    ensures Consecutive(Run(h, events).numbers)
    decreases events
  {
    if events != [] {
      hide Invariant, Consecutive, Apply;
      HistoryIsSound(h, [events[0]]);
      ApplyConsecutive(h, events[0]);
      assert Run(h, [events[0]]) == Apply(h, events[0]) by { assert [events[0]][1..] == []; }
      NumbersAreConsecutive(Apply(h, events[0]), events[1..]);
    }
  }

  lemma NextIsOneMore(h: History)
    requires Invariant(h)
    ensures NextNumber(h.rows) == (if h.numbers == [] then 1 else h.numbers[|h.numbers| - 1] + 1)
  {
  }

  /** A full retention pass leaves the active rows alone and at most `keep` inactive ones: the newest. */
  lemma FullPruneExact(t: Table, keep: nat, steps: nat, r: Revision)
    requires WellFormed(t) && steps >= |Expired(t, keep)|
    ensures r in PruneRows(t, keep, steps)
       <==> r in t && (!IsInactive(r) || |NewerInactive(t, r)| < keep)
  {
    ExpiredByRank(t, keep, r);
    var doomed := Expired(t, keep);
    assert PruneRows(t, keep, steps) == Filter(t, (q: Revision) => q !in doomed);
  }

  lemma FullPruneBound(t: Table, keep: nat, steps: nat)
    requires WellFormed(t) && steps >= |Expired(t, keep)|
    ensures |Filter(PruneRows(t, keep, steps), IsInactive)| <= keep
  {
    var u := PruneRows(t, keep, steps);
    var left := Filter(u, IsInactive);
    if |left| > keep {
      var doomed := Expired(t, keep);
      FilterWellFormed(t, (q: Revision) => q !in doomed);
      assert WellFormed(u);
      FilterAscending(u, IsInactive, ByNumber);
      assert left[0] in left && left[0] in u;
      RankFromTheEnd(u, left, 0);
      FullPruneExact(t, keep, steps, left[0]);
      forall q | q in NewerInactive(u, left[0]) ensures q in NewerInactive(t, left[0]) {}
      SubsetCardinality(NewerInactive(u, left[0]), NewerInactive(t, left[0]));
    }
  }

  lemma {:induction false} SubsetCardinality<T>(a: set<T>, b: set<T>)
    requires a <= b
    ensures |a| <= |b|
    decreases a
  {
    if a != {} {
      var x :| x in a;
      SubsetCardinality(a - {x}, b - {x});
    }
  }

  lemma LastIsLargest(t: Table, r: Revision)
    requires WellFormed(t) && r in t
    ensures r.number <= t[|t| - 1].number
    ensures r.number == t[|t| - 1].number ==> r == t[|t| - 1]
  {
    var i := IndexOf(t, r);
    IndexByNumber(t, i, |t| - 1);
  }

  lemma SameLast(t: Table, u: Table)
    requires WellFormed(t) && WellFormed(u) && t != [] && u != []
    requires forall r :: r in t <==> r in u
    ensures t[|t| - 1] == u[|u| - 1]
  {
    assert t[|t| - 1] in t && u[|u| - 1] in u;
    LastIsLargest(t, u[|u| - 1]);
    LastIsLargest(u, t[|t| - 1]);
  }

  /** Tables in number order with the same rows are the same table. */
  lemma {:induction false} SameRowsSameTable(t: Table, u: Table)
    requires WellFormed(t) && WellFormed(u)
    requires forall r :: r in t <==> r in u
    ensures t == u
  {
    assert t != [] ==> t[0] in t;
    assert u != [] ==> u[0] in u;
    if t != [] {
      SameLast(t, u);
      var t', u' := t[..|t| - 1], u[..|u| - 1];
      forall r ensures r in t' <==> r in u' {
        InitMembers(t, r);
        InitMembers(u, r);
      }
      SameRowsSameTable(t', u');
      assert t == t' + [t[|t| - 1]] && u == u' + [u[|u| - 1]];
    }
  }

  lemma InitMembers(t: Table, r: Revision)
    requires WellFormed(t) && t != []
    ensures r in t[..|t| - 1] <==> r in t && r != t[|t| - 1]
  {
    if r in t {
      var i := IndexOf(t, r);
      IndexByNumber(t, i, |t| - 1);
      if i < |t| - 1 {
        assert t[..|t| - 1][i] == r;
      }
    }
    if r in t[..|t| - 1] {
      var i := IndexOf(t[..|t| - 1], r);
      IndexByNumber(t, i, |t| - 1);
    }
  }

  /** Deleting the next expired row takes a retention pass one step further. */
  lemma DeleteIsOneStep(t: Table, keep: nat, k: nat)
    requires WellFormed(t) && k < |Expired(t, keep)|
    ensures DeleteRow(PruneRows(t, keep, k), Expired(t, keep)[k].id) == PruneRows(t, keep, k + 1)
  {
    hide PruneRows, Expired, WellFormed, DeleteRow;
    var doomed := Expired(t, keep);
    var now, next := PruneRows(t, keep, k), PruneRows(t, keep, k + 1);
    PruneRowsWellFormed(t, keep, k);
    PruneRowsWellFormed(t, keep, k + 1);
    DeleteRowWellFormed(now, doomed[k].id);
    assert doomed[k] in doomed;
    forall r ensures r in DeleteRow(now, doomed[k].id) <==> r in next {
      PrunedMembers(t, keep, k, r);
      PrunedMembers(t, keep, k + 1, r);
      TakeOneMore(doomed, k, r);
      if r in t && r.id == doomed[k].id {
        OneRowPerId(t, r, doomed[k]);
      }
    }
    SameRowsSameTable(DeleteRow(now, doomed[k].id), next);
  }

  lemma OneRowPerId(t: Table, p: Revision, q: Revision)
    requires WellFormed(t) && p in t && q in t
    ensures p.id == q.id <==> p == q
  {
    if p.id == q.id {
      SameIdSameRow(t, p, q);
    }
  }

  lemma DeleteRowWellFormed(t: Table, id: nat)
    requires WellFormed(t)
    ensures WellFormed(DeleteRow(t, id))
  {
    FilterWellFormed(t, (q: Revision) => q.id != id || q.status.Active?);
  }

  lemma TakeOneMore(s: seq<Revision>, k: nat, r: Revision)
    requires k < |s|
    ensures r in s[..k + 1] <==> r in s[..k] || r == s[k]
  {
    assert s[..k + 1] == s[..k] + [s[k]];
  }

  lemma PrunedMembers(t: Table, keep: nat, k: nat, r: Revision)
    requires k <= |Expired(t, keep)|
    ensures r in PruneRows(t, keep, k) <==> r in t && r !in Expired(t, keep)[..k]
  {
    var doomed := Expired(t, keep);
    assert k == |doomed| ==> doomed[..k] == doomed;
  }

  lemma PruneSameActive(h: History, keep: nat, steps: nat)
    requires Invariant(h)
    ensures ActiveRevision(Apply(h, Prune(keep, steps)).rows) == ActiveRevision(h.rows)
  {
    hide PruneRows, ActiveRevision, WellFormed, AtMostOneActive, MaxNumber;
    if keep >= 1 {
      PruneRowsWellFormed(h.rows, keep, steps);
      SameActives(h.rows, PruneRows(h.rows, keep, steps));
    }
  }

  lemma FailSameActive(h: History, id: nat, digest: string, reason: string)
    requires Invariant(h)
    ensures ActiveRevision(Apply(h, Fail(id, digest, reason)).rows) == ActiveRevision(h.rows)
  {
    hide ActiveRevision, WellFormed, AtMostOneActive, MaxNumber, Insert;
    var row := FreshRow(h.rows, id, digest, Failed, reason);
    if InsertRow(h.rows, row).Some? {
      NewRow(h.rows, row);
      SameActives(h.rows, InsertRow(h.rows, row).value);
    }
  }

  /** No row that retention gives up shares its identity with the active row. */
  lemma ExpiredIsNotActive(h: History, keep: nat, r: Revision)
    requires Invariant(h) && r in Expired(h.rows, keep)
    ensures ActiveRevision(h.rows).OneActive? ==> ActiveRevision(h.rows).revision.id != r.id
  {
    if ActiveRevision(h.rows).OneActive? {
      OneRowPerId(h.rows, ActiveRevision(h.rows).revision, r);
    }
  }

  /** What no later state may take back: that something was published, and the numbers handed out. */
  ghost predicate Grows(a: History, b: History) {
    (a.published ==> b.published) && a.numbers <= b.numbers
  }
}
