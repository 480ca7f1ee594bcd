/** The expiry batch: disable expired users, then the nodes they leave without effective users. */
module Expiry {
  import opened Sequences
  import opened DesiredState

  predicate IsExpired(u: User, now: int) {
    u.enabled && u.expiresAt.Some? && u.expiresAt.value <= now
  }

  predicate HasExpired(users: seq<User>, now: int) {
    exists u :: u in users && IsExpired(u, now)
  }

  function DisableUser(u: User, now: int): User {
    if IsExpired(u, now) then u.(enabled := false, updatedAt := now) else u
  }

  function DisableUsers(users: seq<User>, now: int): (r: seq<User>)
    ensures |r| == |users| && forall i :: 0 <= i < |users| ==> r[i] == DisableUser(users[i], now)
  {
    seq(|users|, i requires 0 <= i < |users| => DisableUser(users[i], now))
  }

  /** A node's own part of the batch, once it is known whether the batch affects it. */
  function DisableNode(n: Node, affected: bool, now: int): Node {
    var users := DisableUsers(n.users, now);
    if affected && n.enabled && Effective(users, now) == []
    then n.(users := users, enabled := false, generation := n.generation + 1, updatedAt := now)
    else n.(users := users)
  }

  /** The code remembers affected nodes by their ID. */
  predicate Affected(nodes: seq<Node>, id: string, now: int) {
    exists n :: n in nodes && n.shape.id == id && HasExpired(n.users, now)
  }

  function Batch(state: State, now: int): (r: State)
    ensures r.asOf == now && r.settings == state.settings && |r.nodes| == |state.nodes|
    ensures forall i :: 0 <= i < |state.nodes| ==>
      r.nodes[i] == DisableNode(state.nodes[i], Affected(state.nodes, state.nodes[i].shape.id, now), now)
  {
    State(state.settings, now, seq(|state.nodes|, i requires 0 <= i < |state.nodes| =>
      DisableNode(state.nodes[i], Affected(state.nodes, state.nodes[i].shape.id, now), now)))
  }

  predicate Due(state: State, now: int) {
    exists n :: n in state.nodes && HasExpired(n.users, now)
  }

  // ---------------------------------------------------------------- the loops

  /** The inner loop: one node's users, in place. */
  method DisableExpired(users: seq<User>, now: int) returns (updated: seq<User>, disabled: nat)
    ensures updated == DisableUsers(users, now)
    ensures |updated| == |users| && forall i :: 0 <= i < |users| ==>
      var expired := users[i].enabled && users[i].expiresAt.Some? && users[i].expiresAt.value <= now;
      updated[i] == if expired then users[i].(enabled := false, updatedAt := now) else users[i]
    ensures disabled == |Filter(users, (u: User) => IsExpired(u, now))|
    ensures disabled > 0 <==> HasExpired(users, now)
  {
    updated, disabled := users, 0;
    for i := 0 to |users|
      invariant |updated| == |users|
      invariant forall k :: 0 <= k < i ==> updated[k] == DisableUser(users[k], now)
      invariant forall k :: i <= k < |users| ==> updated[k] == users[k]
      invariant disabled + |Filter(users[i..], (u: User) => IsExpired(u, now))| == |Filter(users, (u: User) => IsExpired(u, now))|
    {
      var u := updated[i];
      assert users[i..][0] == u && users[i..][1..] == users[i + 1..];
      if !u.enabled || u.expiresAt.None? || u.expiresAt.value > now {
        continue;
      }
      updated := updated[i := u.(enabled := false, updatedAt := now)];
      disabled := disabled + 1;
    }
    if disabled > 0 {
      var expired := Filter(users, (u: User) => IsExpired(u, now));
      assert expired[0] in expired;
    }
  }

  /**
   * RunOnce up to the publication: the fail-closed gate, then nothing to do, or the batch and what it disabled. An
   * invalid result is an error.
   */
  method RunBatch(rules: Rules, state: State, now: int, safetyBlocked: bool)
    returns (candidate: Option<State>, usersDisabled: nat, nodesDisabled: nat, rejected: bool)
    ensures candidate.Some? <==> !safetyBlocked && Due(state, now) && Valid(rules, Batch(state, now))
    ensures candidate.Some? ==> candidate.value == Batch(state, now)
    ensures rejected <==> safetyBlocked || (Due(state, now) && !Valid(rules, Batch(state, now)))
    ensures !safetyBlocked ==> usersDisabled == ExpiredUsers(state.nodes, now) && nodesDisabled == |Emptied(state, now)|
    ensures !safetyBlocked ==> (Due(state, now) <==> usersDisabled > 0)
  {
    hide Batch, Valid, Due;
    if safetyBlocked {
      return None, 0, 0, true;
    }
    var nodes, affected: set<string>;
    nodes, affected, usersDisabled := DisableAll(state.nodes, now);
    DueCounts(state, now);
    if usersDisabled == 0 {
      NothingEmptied(state, now);
      return None, 0, 0, false;
    }
    nodes, nodesDisabled := DisableEmptied(state, now, nodes, affected);
    var result := State(state.settings, now, nodes);
    var ok := ValidateState(rules, result);
    return if ok then Some(result) else None, usersDisabled, nodesDisabled, !ok;
  }

  function ExpiredUsers(nodes: seq<Node>, now: int): nat {
    if nodes == [] then 0
    else
      var rest, last := nodes[..|nodes| - 1], nodes[|nodes| - 1];
      ExpiredUsers(rest, now) + |Filter(last.users, (u: User) => IsExpired(u, now))|
  }

  /** Positions of the nodes the batch disables. */
  function Emptied(state: State, now: int): set<int> {
    set i | 0 <= i < |state.nodes| && state.nodes[i].enabled && !Batch(state, now).nodes[i].enabled
  }

  method DisableAll(nodes: seq<Node>, now: int) returns (updated: seq<Node>, affected: set<string>, disabled: nat)
    ensures |updated| == |nodes| && forall i :: 0 <= i < |nodes| ==> updated[i] == nodes[i].(users := DisableUsers(nodes[i].users, now))
    ensures forall id :: id in affected <==> Affected(nodes, id, now)
    ensures disabled == ExpiredUsers(nodes, now)
  {
    updated, affected, disabled := nodes, {}, 0;
    for i := 0 to |nodes|
      invariant |updated| == |nodes|
      invariant forall k :: 0 <= k < i ==> updated[k] == nodes[k].(users := DisableUsers(nodes[k].users, now))
      invariant forall k :: i <= k < |nodes| ==> updated[k] == nodes[k]
      invariant forall id :: id in affected <==> Affected(nodes[..i], id, now)
      invariant disabled == ExpiredUsers(nodes[..i], now)
    {
      var users, count := DisableExpired(nodes[i].users, now);
      updated := updated[i := nodes[i].(users := users)];
      AffectedStep(nodes, i, now);
      if count > 0 {
        affected := affected + {nodes[i].shape.id};
      }
      disabled := disabled + count;
    }
    assert nodes[..|nodes|] == nodes;
  }

  lemma AffectedStep(nodes: seq<Node>, i: nat, now: int)
    requires i < |nodes|
    ensures forall id :: Affected(nodes[..i + 1], id, now) <==>
      Affected(nodes[..i], id, now) || (id == nodes[i].shape.id && HasExpired(nodes[i].users, now))
    ensures ExpiredUsers(nodes[..i + 1], now) ==
      ExpiredUsers(nodes[..i], now) + |Filter(nodes[i].users, (u: User) => IsExpired(u, now))|
  {
    hide HasExpired;
    var before, after := nodes[..i], nodes[..i + 1];
    assert after == before + [nodes[i]] && after[..i] == before;
    forall id ensures Affected(after, id, now) <==>
      Affected(before, id, now) || (id == nodes[i].shape.id && HasExpired(nodes[i].users, now))
    {
      if id == nodes[i].shape.id && HasExpired(nodes[i].users, now) {
        assert nodes[i] in after;
      }
    }
  }

  method DisableEmptied(state: State, now: int, nodes: seq<Node>, affected: set<string>)
    returns (updated: seq<Node>, disabled: nat)
    requires |nodes| == |state.nodes|
    requires forall i :: 0 <= i < |nodes| ==> nodes[i] == state.nodes[i].(users := DisableUsers(state.nodes[i].users, now))
    requires forall id :: id in affected <==> Affected(state.nodes, id, now)
    ensures State(state.settings, now, updated) == Batch(state, now)
    ensures disabled == |Emptied(state, now)|
  {
    hide Affected, Effective, DisableUsers, Batch;
    updated, disabled := nodes, 0;
    ghost var emptied: set<int> := {};
    for i := 0 to |nodes|
      invariant |updated| == |nodes|
      invariant forall k :: 0 <= k < i ==> updated[k] == Batch(state, now).nodes[k]
      invariant forall k :: i <= k < |nodes| ==> updated[k] == nodes[k]
      invariant emptied == (set k | 0 <= k < i && state.nodes[k].enabled && !Batch(state, now).nodes[k].enabled)
      invariant disabled == |emptied|
    {
      var node := updated[i];
      if node.shape.id !in affected {
        continue;
      }
      var effective := EffectiveUsers(node.users, now);
      if node.enabled && effective == [] {
        updated := updated[i := node.(enabled := false, generation := node.generation + 1, updatedAt := now)];
        disabled := disabled + 1;
        emptied := emptied + {i};
      }
    }
    assert emptied == Emptied(state, now);
    assert updated == Batch(state, now).nodes;
  }

  lemma {:induction false} DueCountsNodes(nodes: seq<Node>, now: int)
    ensures ExpiredUsers(nodes, now) == 0 <==> forall n :: n in nodes ==> !HasExpired(n.users, now)
  {
    if nodes != [] {
      var rest, last := nodes[..|nodes| - 1], nodes[|nodes| - 1];
      DueCountsNodes(rest, now);
      assert nodes == rest + [last];
      ExpiredAreCounted(last.users, now);
    }
  }

  lemma ExpiredAreCounted(users: seq<User>, now: int)
    ensures |Filter(users, (u: User) => IsExpired(u, now))| > 0 <==> HasExpired(users, now)
  {
    var expired := Filter(users, (u: User) => IsExpired(u, now));
    if expired != [] {
      assert expired[0] in expired;
    }
  }

  lemma DueCounts(state: State, now: int)
    ensures Due(state, now) <==> ExpiredUsers(state.nodes, now) > 0
  {
    DueCountsNodes(state.nodes, now);
  }

  lemma NothingEmptied(state: State, now: int)
    requires ExpiredUsers(state.nodes, now) == 0
    ensures Emptied(state, now) == {} && !Due(state, now)
  {
    DueCounts(state, now);
    forall i | 0 <= i < |state.nodes| ensures Batch(state, now).nodes[i].enabled == state.nodes[i].enabled {
      assert !Affected(state.nodes, state.nodes[i].shape.id, now);
    }
  }

  // ---------------------------------------------------------------- what the batch means

  /** Nobody who is effective at batch time loses or gains anything. */
  lemma {:induction false} EffectiveUnchanged(users: seq<User>, now: int)
    ensures Effective(DisableUsers(users, now), now) == Effective(users, now)
  {
    if users != [] {
      EffectiveUnchanged(users[1..], now);
      assert DisableUsers(users, now)[1..] == DisableUsers(users[1..], now);
    }
  }

  lemma NoneExpired(users: seq<User>, now: int)
    ensures !HasExpired(DisableUsers(users, now), now)
  {
  }

  /** A second run at the same time finds nothing to do. */
  lemma BatchIsIdempotent(state: State, now: int)
    ensures !Due(Batch(state, now), now)
  {
    hide HasExpired, DisableUsers, Batch, Effective, Affected;
    forall n | n in Batch(state, now).nodes ensures !HasExpired(n.users, now) {
      var i :| 0 <= i < |state.nodes| && Batch(state, now).nodes[i] == n;
      NoneExpired(state.nodes[i].users, now);
    }
  }

  lemma OnlyItsOwnUsersAffect(nodes: seq<Node>, i: nat, now: int)
    requires i < |nodes| && NoDuplicates(NodeIds(nodes))
    ensures Affected(nodes, nodes[i].shape.id, now) <==> HasExpired(nodes[i].users, now)
  {
    hide HasExpired;
    assert nodes[i] in nodes;
    forall n | n in nodes && n.shape.id == nodes[i].shape.id ensures n == nodes[i] {
      var k :| 0 <= k < |nodes| && nodes[k] == n;
      assert NodeIds(nodes)[k] == NodeIds(nodes)[i];
    }
  }

  /** Users whose last effective moment lies between two times have expired by the second. */
  lemma {:induction false} LostBetween(users: seq<User>, t: int, now: int)
    requires t <= now && Effective(users, t) != [] && Effective(users, now) == []
    ensures HasExpired(users, now)
  {
    var u := Effective(users, t)[0];
    assert u in Effective(users, t);
    assert IsExpired(u, now) || u in Effective(users, now);
  }

  /** Of the nodes that were enabled, exactly those with an effective user at batch time still are. */
  lemma EnabledExactly(rules: Rules, state: State, now: int, i: nat)
    requires Valid(rules, state) && state.asOf <= now && i < |state.nodes|
    ensures Batch(state, now).nodes[i].enabled <==> state.nodes[i].enabled && Effective(state.nodes[i].users, now) != []
  {
    var n := state.nodes[i];
    assert n in state.nodes && NodeValid(rules, n, state.asOf);
    OnlyItsOwnUsersAffect(state.nodes, i, now);
    EffectiveUnchanged(n.users, now);
    if n.enabled && Effective(n.users, now) == [] {
      LostBetween(n.users, state.asOf, now);
    }
  }

  lemma UsersStayValid(rules: Rules, n: Node, m: Node, now: int)
    requires UsersValid(rules, n) && m.shape == n.shape && m.users == DisableUsers(n.users, now)
    ensures UsersValid(rules, m)
  {
    assert Ids(m.users) == Ids(n.users) && Names(m.users) == Names(n.users);
    assert Credentials(rules, m) == Credentials(rules, n);
    forall u | u in m.users ensures CredentialOf(rules, m, u).Some? {
      var k :| 0 <= k < |m.users| && m.users[k] == u;
      assert n.users[k] in n.users;
    }
  }

  lemma EffectiveStaysValid(rules: Rules, n: Node, m: Node, t: int, now: int)
    requires EffectiveValid(rules, n, t) && t <= now && m.shape == n.shape
    requires Effective(m.users, now) == Effective(n.users, now)
    requires m.enabled ==> Effective(n.users, now) != []
    ensures EffectiveValid(rules, m, now)
  {
    EffectiveShrinks(n.users, t, now);
  }

  /** A state that was valid at some earlier time is valid again once the batch has run. */
  lemma BatchIsValid(rules: Rules, state: State, now: int)
    requires Valid(rules, state) && state.asOf <= now && now != ZERO_TIME
    ensures Valid(rules, Batch(state, now))
  {
    hide UsersValid, EffectiveValid, RangesApart, NoDuplicates;
    var after := Batch(state, now);
    assert NodeIds(after.nodes) == NodeIds(state.nodes) && NodeNames(after.nodes) == NodeNames(state.nodes);
    forall i, j | 0 <= i < j < |after.nodes| && after.nodes[i].shape.listen == after.nodes[j].shape.listen
      ensures DesiredState.RangesApart(after.nodes[i].shape.port, after.nodes[j].shape.port)
    {
      assert state.nodes[i].shape == after.nodes[i].shape && state.nodes[j].shape == after.nodes[j].shape;
    }
    forall m | m in after.nodes ensures NodeValid(rules, m, now) {
      var i :| 0 <= i < |after.nodes| && after.nodes[i] == m;
      var n := state.nodes[i];
      assert n in state.nodes && NodeValid(rules, n, state.asOf);
      EnabledExactly(rules, state, now, i);
      EffectiveUnchanged(n.users, now);
      UsersStayValid(rules, n, m, now);
      EffectiveStaysValid(rules, n, m, state.asOf, now);
    }
  }

  /** What the batch leaves behind: generation and time of a node move exactly with its being disabled, and so do users'. */
  lemma BatchIsRecorded(state: State, now: int, i: nat, k: nat)
    requires i < |state.nodes| && k < |state.nodes[i].users|
    ensures var n, m := state.nodes[i], Batch(state, now).nodes[i];
      && m.shape == n.shape && |m.users| == |n.users| && (m.enabled ==> n.enabled)
      && m.generation == n.generation + (if m.enabled == n.enabled then 0 else 1)
      && m.updatedAt == (if m.enabled == n.enabled then n.updatedAt else now)
      && m.users[k] == (if IsExpired(n.users[k], now) then n.users[k].(enabled := false, updatedAt := now) else n.users[k])
  {
  }
}
