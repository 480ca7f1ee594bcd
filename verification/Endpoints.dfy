/** Endpoint settings that need a restart: active, last applied and pending, kept apart by a generation. */
module Endpoints {
  import opened Sequences

  datatype Endpoint = Endpoint(host: string, port: nat)

  /** The four endpoint fields, without their generation. */
  datatype Fields = Fields(panel: Endpoint, connect: Endpoint, bind: Endpoint, origins: seq<string>)

  datatype Settings = Settings(fields: Fields, generation: int)

  datatype Pending = Pending(settings: Settings, requiresMUI: bool, requiresMihomo: bool)

  /** The rows of a store that has been seeded. */
  datatype State = State(active: Settings, lastApplied: Settings, pending: Option<Pending>)

  datatype Clearing = Clearing(mui: bool, mihomo: bool, generation: int, expected: Fields)

  datatype Result = Done | StateChanged | Failed

  /** m-ui listens on the panel endpoint and calls the Controller at `connect`. */
  predicate SameMUI(a: Fields, b: Fields) {
    a.panel == b.panel && a.connect == b.connect
  }

  /** Mihomo binds the Controller and answers its allowed origins. */
  predicate SameMihomo(a: Fields, b: Fields) {
    a.bind == b.bind && a.origins == b.origins
  }

  /**
   * Nothing is pending exactly when the last applied settings are the active ones; what is pending is the active
   * settings, and its two flags are exactly the halves in which they differ from the last applied ones.
   */
  ghost predicate Invariant(s: State) {
    && 1 <= s.lastApplied.generation <= s.active.generation
    && (s.pending.None? <==> s.lastApplied.fields == s.active.fields)
    && (s.pending.Some? ==>
          && s.pending.value.settings == s.active
          && s.pending.value.requiresMUI == !SameMUI(s.lastApplied.fields, s.active.fields)
          && s.pending.value.requiresMihomo == !SameMihomo(s.lastApplied.fields, s.active.fields))
  }

  /** A half is owed exactly if it differs, and nothing is pending if neither does. */
  predicate Owed(pending: Option<Pending>, applied: Fields, active: Fields) {
    match pending
    case None => SameMUI(applied, active) && SameMihomo(applied, active)
    case Some(p) =>
      && p.requiresMUI == !SameMUI(applied, active) && p.requiresMihomo == !SameMihomo(applied, active)
      && (p.requiresMUI || p.requiresMihomo)
  }

  /** A clear acts on the pending record it was prepared for, or not at all. */
  predicate Matches(p: Pending, c: Clearing) {
    && c.generation >= 1 && p.settings.generation == c.generation
    && (c.mui ==> SameMUI(p.settings.fields, c.expected))
    && (c.mihomo ==> SameMihomo(p.settings.fields, c.expected))
  }

  datatype Event = Replace(fields: Fields) | Clear(clearing: Clearing)

  function Replaced(s: State, fields: Fields): State {
    var active := Settings(fields, s.active.generation + if fields == s.active.fields then 0 else 1);
    State(active, s.lastApplied,
          if s.lastApplied.fields == fields then None
          else Some(Pending(active, !SameMUI(s.lastApplied.fields, fields), !SameMihomo(s.lastApplied.fields, fields))))
  }

  /** The named halves of `after`, and the rest of `before`. */
  function Merge(before: Fields, after: Fields, mui: bool, mihomo: bool): (r: Fields)
    ensures SameMUI(r, if mui then after else before) && SameMihomo(r, if mihomo then after else before)
  {
    Fields(if mui then after.panel else before.panel, if mui then after.connect else before.connect,
           if mihomo then after.bind else before.bind, if mihomo then after.origins else before.origins)
  }

  predicate Effective(s: State, c: Clearing) {
    s.pending.Some? && Matches(s.pending.value, c) && (c.mui || c.mihomo)
  }

  function Cleared(s: State, c: Clearing): State {
    if !Effective(s, c) then s
    else
      var p := s.pending.value;
      var rest := p.(requiresMUI := p.requiresMUI && !c.mui, requiresMihomo := p.requiresMihomo && !c.mihomo);
      State(s.active,
            Settings(Merge(s.lastApplied.fields, p.settings.fields, c.mui, c.mihomo), p.settings.generation),
            if rest.requiresMUI || rest.requiresMihomo then Some(rest) else None)
  }

  function Apply(s: State, e: Event): State {
    match e
    case Replace(fields) => Replaced(s, fields)
    case Clear(c) => Cleared(s, c)
  }

  function Run(s: State, events: seq<Event>): State
    decreases events
  {
    if events == [] then s else Run(Apply(s, events[0]), events[1..])
  }

  lemma ApplyKeeps(s: State, e: Event)
    requires Invariant(s)
    ensures Invariant(Apply(s, e))
  {
  }

  lemma {:induction false} RunKeeps(s: State, events: seq<Event>)
    requires Invariant(s)
    ensures Invariant(Run(s, events))
    decreases events
  {
    if events != [] {
      ApplyKeeps(s, events[0]);
      RunKeeps(Apply(s, events[0]), events[1..]);
    }
  }

  /** A clear for the record that is pending applies exactly the named halves and owes exactly what still differs. */
  lemma ClearApplies(s: State, c: Clearing)
    requires Invariant(s) && s.pending.Some? && Matches(s.pending.value, c)
    ensures var t := Cleared(s, c);
      && t.active == s.active
      && SameMUI(t.lastApplied.fields, if c.mui then s.active.fields else s.lastApplied.fields)
      && SameMihomo(t.lastApplied.fields, if c.mihomo then s.active.fields else s.lastApplied.fields)
      && Owed(t.pending, t.lastApplied.fields, s.active.fields)
  {
  }

  /** How often a run changes an endpoint field. */
  function Changes(s: State, events: seq<Event>): nat
    decreases events
  {
    if events == [] then 0
    else
      var next := Apply(s, events[0]);
      (if next.active.fields == s.active.fields then 0 else 1) + Changes(next, events[1..])
  }

  /** The generation counts exactly the changes of an endpoint field. */
  lemma {:induction false} GenerationCountsChanges(s: State, events: seq<Event>)
    ensures Run(s, events).active.generation == s.active.generation + Changes(s, events)
    decreases events
  {
    if events != [] {
      GenerationCountsChanges(Apply(s, events[0]), events[1..]);
    }
  }

  lemma {:induction false} NoChanges(s: State, events: seq<Event>, k: nat)
    requires Changes(s, events) == 0 && k <= |events|
    ensures Run(s, events[..k]).active == s.active
    decreases events
  {
    if k > 0 {
      NoChanges(Apply(s, events[0]), events[1..], k - 1);
      assert events[..k][0] == events[0] && events[..k][1..] == events[1..][..k - 1];
    }
  }

  /**
   * No ABA: a clear prepared from settings read at `s` changes anything after a run only if the active settings never
   * differed from those read, not even for a while; and what it then applies is what was read.
   */
  lemma NoABA(s: State, events: seq<Event>, c: Clearing, k: nat)
    requires Invariant(s) && c.generation == s.active.generation && c.expected == s.active.fields && k <= |events|
    requires Cleared(Run(s, events), c) != Run(s, events)
    ensures Run(s, events[..k]).active == s.active
    ensures c.mui ==> SameMUI(Cleared(Run(s, events), c).lastApplied.fields, s.active.fields)
    ensures c.mihomo ==> SameMihomo(Cleared(Run(s, events), c).lastApplied.fields, s.active.fields)
  {
    RunKeeps(s, events);
    GenerationCountsChanges(s, events);
    NoChanges(s, events, k);
    NoChanges(s, events, |events|);
    assert events[..|events|] == events;
  }

  /** The generation is what rules ABA out: the fields alone would accept a clear that raced two changes. */
  lemma FieldsAloneWouldNotDo(a: Fields, b: Fields)
    requires !SameMihomo(a, b)
    ensures var s := Replaced(State(Settings(a, 1), Settings(a, 1), None), b);
      var t := Replaced(Replaced(s, a), b);
      var c := Clearing(false, true, s.active.generation, s.active.fields);
      && s.pending.Some? && Matches(s.pending.value, c)
      && t.pending.Some? && SameMihomo(t.pending.value.settings.fields, c.expected)
      && t.active.generation == s.active.generation + 2 && Cleared(t, c) == t
  {
    assert a != b;
  }

  class EndpointStore {
    var active: Settings
    var lastApplied: Settings
    var pending: Option<Pending>
    /** How many sub-steps of this process have failed on their own account. */
    ghost var faults: nat

    /** SeedInitialSettings on a fresh database. */
    constructor (fields: Fields)
      ensures Invariant(Contents()) && Contents() == State(Settings(fields, 1), Settings(fields, 1), None)
    {
      active, lastApplied, pending, faults := Settings(fields, 1), Settings(fields, 1), None, 0;
    }

    method Fault() returns (failed: bool)
      modifies `faults
      ensures faults == old(faults) + if failed then 1 else 0
    {
      failed := *;
      if failed {
        faults := faults + 1;
      }
    }

    function Contents(): State
      reads `active, `lastApplied, `pending
    {
      State(active, lastApplied, pending)
    }

    /** The endpoint part of ReplaceDesiredState. */
    method Replace(fields: Fields)
      modifies `active, `pending
      ensures Contents() == Replaced(old(Contents()), fields)
      ensures old(Invariant(Contents())) ==> Invariant(Contents())
      ensures active.fields == fields && lastApplied == old(lastApplied)
      ensures active.generation == old(active).generation + (if fields == old(active).fields then 0 else 1)
      ensures pending.Some? ==> pending.value.settings == active
      ensures Owed(pending, lastApplied.fields, fields)
    {
      var baseline := lastApplied;
      var generation := if active.fields != fields then active.generation + 1 else active.generation;
      active := Settings(fields, generation);
      if baseline.fields != fields {
        var requiresMUI := baseline.fields.panel != fields.panel || baseline.fields.connect != fields.connect;
        var requiresMihomo := baseline.fields.bind != fields.bind || baseline.fields.origins != fields.origins;
        pending := Some(Pending(active, requiresMUI, requiresMihomo));
      } else {
        pending := None;
      }
    }

    /** ClearEndpointRestartRequirements: one transaction, so a failure leaves everything as it was. */
    method Clear(c: Clearing) returns (result: Result)
      modifies this
      ensures old(Invariant(Contents())) ==> Invariant(Contents())
      ensures active == old(active)
      ensures !result.Done? ==> Contents() == old(Contents())
      ensures result.StateChanged? ==> old(pending).Some? && !Matches(old(pending).value, c)
      // it has an effect only on the very record it was prepared for, and then applies exactly the named halves
      ensures result.Done? ==> Contents() == Cleared(old(Contents()), c)
      ensures result.Done? && (c.mui || c.mihomo) ==> old(pending).None? || Matches(old(pending).value, c)
      ensures old(Invariant(Contents())) && Contents() != old(Contents()) ==> old(Effective(Contents(), c))
      // a clear that is done has applied exactly the named halves, and owes exactly what still differs
      ensures old(Invariant(Contents())) && old(pending).Some? && result.Done? && (c.mui || c.mihomo) ==>
        && SameMUI(lastApplied.fields, if c.mui then active.fields else old(lastApplied).fields)
        && SameMihomo(lastApplied.fields, if c.mihomo then active.fields else old(lastApplied).fields)
        && lastApplied.generation == active.generation
        && Owed(pending, lastApplied.fields, active.fields)
      // and without faults it is done exactly unless what is pending has changed
      ensures faults >= old(faults) && (result.Failed? ==> faults > old(faults))
      ensures faults == old(faults) ==>
        (result.Done? <==> (!c.mui && !c.mihomo) || old(pending).None? || Matches(old(pending).value, c))
    {
      if !c.mui && !c.mihomo {
        return Done;
      }
      var failed := Fault();
      if failed {
        return Failed;
      }
      if pending.None? {
        return Done;
      }
      var p := pending.value;
      if c.generation < 1 || p.settings.generation != c.generation {
        return StateChanged;
      }
      if c.mui && (p.settings.fields.panel != c.expected.panel || p.settings.fields.connect != c.expected.connect) {
        return StateChanged;
      }
      if c.mihomo && (p.settings.fields.bind != c.expected.bind || p.settings.fields.origins != c.expected.origins) {
        return StateChanged;
      }
      var applied, requiresMUI, requiresMihomo := lastApplied.fields, p.requiresMUI, p.requiresMihomo;
      if c.mui {
        applied := applied.(panel := p.settings.fields.panel, connect := p.settings.fields.connect);
        requiresMUI := false;
      }
      if c.mihomo {
        applied := applied.(bind := p.settings.fields.bind, origins := p.settings.fields.origins);
        requiresMihomo := false;
      }
      failed := Fault();
      if failed {
        return Failed;
      }
      lastApplied := Settings(applied, p.settings.generation);
      pending := if !requiresMUI && !requiresMihomo then None
                 else Some(p.(requiresMUI := requiresMUI, requiresMihomo := requiresMihomo));
      return Done;
    }
  }

  // ---------------------------------------------------------------- the runtime boundary

  datatype Action = StartAction | StopAction | RestartAction | ReloadAction | FinalizeAction

  datatype Outcome = Completed | RestartRequired | Error

  /** What a lifecycle action expects to have applied once the process is healthy. */
  datatype Expectation = Expectation(settings: Settings, pending: bool)

  /** Only these clears happen outside the boundary: m-ui clears its own half when it starts to listen. */
  predicate Foreign(e: Event) {
    e.Replace? || !e.clearing.mihomo
  }

  class RuntimeBoundary {
    const store: EndpointStore
    /** Whether the process is seen running. */
    var active: bool
    /** Health waits that have succeeded, and the durable changes of others. */
    ghost var waits: nat
    ghost var foreign: seq<Event>

    constructor (store: EndpointStore, active: bool)
      ensures this.store == store && this.active == active && waits == 0 && foreign == []
    {
      this.store, this.active, this.waits, this.foreign := store, active, 0, [];
    }

    /** Other holders of the database act while this one waits; the Mihomo half of last-applied is not theirs. */
    method Others()
      modifies store, `foreign
      ensures store.faults == old(store.faults)
      ensures |old(foreign)| <= |foreign| && foreign[..|old(foreign)|] == old(foreign)
      ensures store.Contents() == Run(old(store.Contents()), foreign[|old(foreign)|..])
      ensures SameMihomo(store.lastApplied.fields, old(store.lastApplied).fields)
    {
      hide Cleared, Replaced;
      ghost var start := store.Contents();
      ghost var done: seq<Event> := [];
      var events: seq<Event> := *;
      for i := 0 to |events|
        invariant foreign == old(foreign) + done && store.Contents() == Run(start, done)
        invariant SameMihomo(store.lastApplied.fields, old(store.lastApplied).fields)
        invariant store.faults == old(store.faults)
      {
        if Foreign(events[i]) {
          RunAppend(start, done, events[i]);
          var result := Done;
          match events[i] {
            case Replace(fields) =>
              store.Replace(fields);
            case Clear(c) =>
              MihomoHalfIsKept(store.Contents(), c);
              ghost var faults := store.faults;
              result := store.Clear(c);
              store.faults := faults;   // not a failure of this process
          }
          if result.Done? {
            done, foreign := done + [events[i]], foreign + [events[i]];
          }
        }
      }
      assert foreign[|old(foreign)|..] == done;
    }

    /** mihomoRestartExpectation */
    method Expect() returns (expectation: Option<Expectation>)
      modifies store`faults
      ensures store.faults >= old(store.faults) && (store.faults == old(store.faults) ==> expectation.Some?)
      ensures expectation.Some? ==> expectation == Some(
        if store.pending.Some? && store.pending.value.requiresMihomo then Expectation(store.pending.value.settings, true)
        else Expectation(store.active, false))
    {
      var failed := store.Fault();
      if failed {
        return None;
      }
      return Some(
        if store.pending.Some? && store.pending.value.requiresMihomo then Expectation(store.pending.value.settings, true)
        else Expectation(store.active, false));
    }

    method WaitHealthy() returns (ok: bool)
      modifies store, `foreign, `active, `waits
      ensures |old(foreign)| <= |foreign| && foreign[..|old(foreign)|] == old(foreign)
      ensures store.Contents() == Run(old(store.Contents()), foreign[|old(foreign)|..])
      ensures SameMihomo(store.lastApplied.fields, old(store.lastApplied).fields)
      ensures waits == old(waits) + (if ok then 1 else 0) && (ok ==> active)
      ensures store.faults >= old(store.faults) && (store.faults == old(store.faults) ==> ok)
    {
      Others();
      var failed := store.Fault();
      ok := !failed;
      active := *;
      if ok {
        active, waits := true, waits + 1;
      }
    }

    /** Start or restart the process and wait; an attempt that never becomes healthy is aborted. */
    method LaunchWithHealth() returns (ok: bool)
      modifies store, `foreign, `active, `waits
      ensures |old(foreign)| <= |foreign| && foreign[..|old(foreign)|] == old(foreign)
      ensures store.Contents() == Run(old(store.Contents()), foreign[|old(foreign)|..])
      ensures SameMihomo(store.lastApplied.fields, old(store.lastApplied).fields)
      ensures waits == old(waits) + (if ok then 1 else 0) && (ok ==> active)
      ensures store.faults >= old(store.faults) && (store.faults == old(store.faults) ==> ok)
    {
      var failed := store.Fault();
      active := *;
      if failed {
        assert foreign[|old(foreign)|..] == [];
        return false;
      }
      ok := WaitHealthy();
      if !ok {
        active := *;
      }
    }

    /** What may be said about the store after a lifecycle action that began when it held `before`. */
    ghost predicate Boundary(before: State, seen: nat, waited: nat)
      reads this, store
    {
      && seen <= |foreign|
      && Invariant(store.Contents())
      // the Mihomo half of last-applied advances only past a successful health wait, to exactly the candidate read
      // before it, and only if no endpoint changed in between
      && (!SameMihomo(store.lastApplied.fields, before.lastApplied.fields) ==>
            && waits > waited
            && before.pending.Some? && before.pending.value.requiresMihomo
            && SameMihomo(store.lastApplied.fields, before.pending.value.settings.fields)
            && Undisturbed(before, foreign[seen..]))
    }

    /** The common end of start, restart and finalize. */
    method Conclude(e: Expectation, ghost before: State, ghost seen: nat, ghost waited: nat) returns (outcome: Outcome)
      requires Invariant(before) && seen <= |foreign| && store.Contents() == Run(before, foreign[seen..])
      requires SameMihomo(store.lastApplied.fields, before.lastApplied.fields) && waits > waited
      requires e == if before.pending.Some? && before.pending.value.requiresMihomo
                    then Expectation(before.pending.value.settings, true) else Expectation(before.active, false)
      modifies store
      ensures Boundary(before, seen, waited)
      ensures outcome.Completed? && e.pending ==> store.pending.None? || !store.pending.value.requiresMihomo
      ensures store.faults >= old(store.faults)
      ensures store.faults == old(store.faults) && Undisturbed(before, foreign[seen..]) ==> outcome.Completed?
    {
      hide Run, Cleared, Undisturbed;
      RunKeeps(before, foreign[seen..]);
      if !e.pending {
        return Completed;
      }
      ghost var now := store.Contents();
      if Undisturbed(before, foreign[seen..]) {
        UndisturbedMatches(before, foreign[seen..]);
      }
      var c := Clearing(false, true, e.settings.generation, e.settings.fields);
      var result := store.Clear(c);
      if store.Contents() != now {
        ClearedIsUndisturbed(before, foreign[seen..], c);
      }
      if result.Done? {
        ClearedFlag(now, c);
      }
      outcome := if result.Done? then Completed else Error;
    }

    /** startLocked: with a restart owed, an already running process is not an occasion to pay it. */
    method Start() returns (outcome: Outcome)
      requires Invariant(store.Contents())
      modifies this, store
      ensures Boundary(old(store.Contents()), |old(foreign)|, old(waits))
      ensures old(store.pending).Some? && old(store.pending).value.requiresMihomo && old(active) ==>
        !outcome.Completed? && store.Contents() == old(store.Contents()) && waits == old(waits)
      ensures outcome.Completed? ==> waits > old(waits)
      ensures outcome.Completed? && old(store.pending).Some? && old(store.pending).value.requiresMihomo ==>
        store.pending.None? || !store.pending.value.requiresMihomo
      // without faults it is completed, unless a restart is owed to a running process or the settings change meanwhile
      ensures store.faults >= old(store.faults)
      ensures store.faults == old(store.faults) && Undisturbed(old(store.Contents()), foreign[|old(foreign)|..]) ==>
        outcome == if old(store.pending).Some? && old(store.pending).value.requiresMihomo && old(active) then RestartRequired else Completed
    {
      hide Run, Undisturbed;
      var e := Expect();
      if e.None? {
        return Error;
      }
      if e.value.pending {
        var failed := store.Fault();
        if failed {
          return Error;
        }
        if active {
          return RestartRequired;
        }
      }
      ghost var before := store.Contents();
      var healthy := LaunchWithHealth();
      RunKeeps(before, foreign[|old(foreign)|..]);
      if !healthy {
        return Error;
      }
      outcome := Conclude(e.value, before, |old(foreign)|, old(waits));
    }

    method Restart() returns (outcome: Outcome)
      requires Invariant(store.Contents())
      modifies this, store
      ensures Boundary(old(store.Contents()), |old(foreign)|, old(waits))
      ensures outcome.Completed? ==> waits > old(waits)
      ensures outcome.Completed? && old(store.pending).Some? && old(store.pending).value.requiresMihomo ==>
        store.pending.None? || !store.pending.value.requiresMihomo
      // without faults it is completed, unless the settings change meanwhile
      ensures store.faults >= old(store.faults)
      ensures store.faults == old(store.faults) && Undisturbed(old(store.Contents()), foreign[|old(foreign)|..]) ==>
        outcome.Completed?
    {
      hide Run, Undisturbed;
      var e := Expect();
      if e.None? {
        return Error;
      }
      ghost var before := store.Contents();
      var healthy := LaunchWithHealth();
      RunKeeps(before, foreign[|old(foreign)|..]);
      if !healthy {
        return Error;
      }
      outcome := Conclude(e.value, before, |old(foreign)|, old(waits));
    }

    /** Finalize never starts anything: it waits for a process an external service manager has started. */
    method Finalize() returns (outcome: Outcome)
      requires Invariant(store.Contents())
      modifies this, store
      ensures Boundary(old(store.Contents()), |old(foreign)|, old(waits))
      ensures outcome.Completed? ==> waits > old(waits)
      ensures outcome.Completed? && old(store.pending).Some? && old(store.pending).value.requiresMihomo ==>
        store.pending.None? || !store.pending.value.requiresMihomo
      // without faults it is completed, unless the settings change meanwhile
      ensures store.faults >= old(store.faults)
      ensures store.faults == old(store.faults) && Undisturbed(old(store.Contents()), foreign[|old(foreign)|..]) ==>
        outcome.Completed?
    {
      hide Run, Undisturbed;
      var e := Expect();
      if e.None? {
        return Error;
      }
      ghost var before := store.Contents();
      var healthy := WaitHealthy();
      RunKeeps(before, foreign[|old(foreign)|..]);
      if !healthy {
        return Error;
      }
      outcome := Conclude(e.value, before, |old(foreign)|, old(waits));
    }

    /** Stop and reload never touch the settings, and a reload is refused while a restart is owed. */
    method StopOrReload(reload: bool) returns (outcome: Outcome)
      requires Invariant(store.Contents())
      modifies this, store
      ensures Boundary(old(store.Contents()), |old(foreign)|, old(waits))
      ensures SameMihomo(store.lastApplied.fields, old(store.lastApplied).fields)
      ensures reload && old(store.pending).Some? && old(store.pending).value.requiresMihomo ==>
        !outcome.Completed? && store.Contents() == old(store.Contents())
      ensures store.faults >= old(store.faults)
      ensures store.faults == old(store.faults) ==>
        outcome == if reload && old(store.pending).Some? && old(store.pending).value.requiresMihomo then RestartRequired else Completed
      ensures outcome.Completed? ==> (if reload then waits > old(waits) && active else !active)
    {
      hide Run, Undisturbed;
      var failed := store.Fault();
      if failed {
        return Error;
      }
      if !reload {
        active := false;
        return Completed;
      }
      if store.pending.Some? && store.pending.value.requiresMihomo {
        return RestartRequired;
      }
      ghost var before := store.Contents();
      var healthy := LaunchWithHealth();
      RunKeeps(before, foreign[|old(foreign)|..]);
      outcome := if healthy then Completed else Error;
    }

    /** runLocked, and the finalizer. */
    method Act(action: Action) returns (outcome: Outcome)
      requires Invariant(store.Contents())
      modifies this, store
      ensures Boundary(old(store.Contents()), |old(foreign)|, old(waits))
    {
      match action {
        case StartAction => outcome := Start();
        case RestartAction => outcome := Restart();
        case FinalizeAction => outcome := Finalize();
        case StopAction => outcome := StopOrReload(false);
        case ReloadAction => outcome := StopOrReload(true);
      }
    }
  }

  /** The active settings were the same at every moment of the run. */
  ghost predicate Undisturbed(s: State, events: seq<Event>) {
    forall k :: 0 <= k <= |events| ==> Run(s, events[..k]).active == s.active
  }

  lemma ClearedIsUndisturbed(s: State, events: seq<Event>, c: Clearing)
    requires Invariant(s) && c.generation == s.active.generation && c.expected == s.active.fields && c.mihomo
    requires Cleared(Run(s, events), c) != Run(s, events)
    ensures Undisturbed(s, events)
    ensures SameMihomo(Cleared(Run(s, events), c).lastApplied.fields, s.active.fields)
  {
    forall k | 0 <= k <= |events| ensures Run(s, events[..k]).active == s.active {
      NoABA(s, events, c, k);
    }
    NoABA(s, events, c, 0);
  }

  /** Where nobody changed the active settings, what is still pending is what was pending. */
  lemma UndisturbedMatches(s: State, events: seq<Event>)
    requires Invariant(s) && Undisturbed(s, events)
    ensures Run(s, events).active == s.active
    ensures Run(s, events).pending.Some? ==> Run(s, events).pending.value.settings == s.active
  {
    RunKeeps(s, events);
    assert events[..|events|] == events;
  }

  lemma ClearedFlag(s: State, c: Clearing)
    requires Invariant(s) && c.mihomo && (s.pending.None? || Matches(s.pending.value, c))
    ensures Cleared(s, c).pending.None? || !Cleared(s, c).pending.value.requiresMihomo
  {
  }

  lemma MihomoHalfIsKept(s: State, c: Clearing)
    requires !c.mihomo
    ensures SameMihomo(Cleared(s, c).lastApplied.fields, s.lastApplied.fields)
  {
  }

  lemma {:induction false} RunAppend(s: State, events: seq<Event>, e: Event)
    ensures Run(s, events + [e]) == Apply(Run(s, events), e)
    decreases events
  {
    if events == [] {
      assert [e][1..] == [];
    } else {
      assert (events + [e])[1..] == events[1..] + [e];
      RunAppend(Apply(s, events[0]), events[1..], e);
    }
  }
}
