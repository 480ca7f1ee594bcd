/** Compilation is canonical: filter, stable sort by name and ID, emit. */
module Compiler {
  import opened Sequences
  import opened DesiredState

  // ---------------------------------------------------------------- string order

  /** Byte-wise order of strings, which for UTF-8 is the order of their characters. */
  predicate Before(a: string, b: string) {
    b != "" && (a == "" || a[0] < b[0] || (a[0] == b[0] && Before(a[1..], b[1..])))
  }

  lemma {:induction false} BeforeIsTotal(a: string, b: string)
    ensures a == b || Before(a, b) || Before(b, a)
    ensures !(Before(a, b) && Before(b, a)) && !Before(a, a)
  {
    if a != "" {
      BeforeIsTotal(a[1..], a[1..]);
    }
    if a != "" && b != "" && a[0] == b[0] {
      BeforeIsTotal(a[1..], b[1..]);
      assert a == [a[0]] + a[1..] && b == [b[0]] + b[1..];
    }
  }

  lemma {:induction false} BeforeIsTransitive(a: string, b: string, c: string)
    requires Before(a, b) && Before(b, c)
    ensures Before(a, c)
  {
    if a != "" && a[0] == b[0] && b[0] == c[0] {
      BeforeIsTransitive(a[1..], b[1..], c[1..]);
    }
  }

  // ---------------------------------------------------------------- sorting by name

  /** Elements in strictly increasing order of their names. */
  ghost predicate ByName<T>(s: seq<T>, name: T -> string) {
    forall i, j :: 0 <= i < j < |s| ==> Before(name(s[i]), name(s[j]))
  }

  /** The comparison decides by name wherever names differ. */
  ghost predicate Decides<T(!new)>(less: (T, T) -> bool, name: T -> string) {
    forall a, b :: name(a) != name(b) ==> (less(a, b) <==> Before(name(a), name(b)))
  }

  ghost predicate DistinctNames<T>(s: seq<T>, name: T -> string) {
    forall i, j :: 0 <= i < j < |s| ==> name(s[i]) != name(s[j])
  }

  lemma ByNameAppend<T>(s: seq<T>, x: T, name: T -> string)
    requires ByName(s, name) && (s == [] || Before(name(s[|s| - 1]), name(x)))
    ensures ByName(s + [x], name)
  {
    var u := s + [x];
    forall i, j | 0 <= i < j < |u| ensures Before(name(u[i]), name(u[j])) {
      if j == |s| && i < |s| - 1 {
        BeforeIsTransitive(name(s[i]), name(s[|s| - 1]), name(x));
      }
    }
  }

  lemma {:induction false} PlaceByName<T(!new)>(s: seq<T>, x: T, less: (T, T) -> bool, name: T -> string)
    requires ByName(s, name) && Decides(less, name) && forall y :: y in s ==> name(y) != name(x)
    ensures ByName(Place(s, x, less), name)
  {
    if s == [] {
    } else {
      var init, last := s[..|s| - 1], s[|s| - 1];
      BeforeIsTotal(name(last), name(x));
      assert last in s;
      if less(x, last) {
        PlaceByName(init, x, less, name);
        var r := Place(init, x, less);
        assert r[|r| - 1] in init || r[|r| - 1] == x;
        forall y | y in init ensures Before(name(y), name(last)) {
          var i :| 0 <= i < |init| && init[i] == y;
          assert s[i] == y && s[|s| - 1] == last;
        }
        ByNameAppend(r, last, name);
      } else {
        ByNameAppend(s, x, name);
      }
    }
  }

  lemma {:induction false} SortByName<T(!new)>(s: seq<T>, less: (T, T) -> bool, name: T -> string)
    requires DistinctNames(s, name) && Decides(less, name)
    ensures ByName(StableSort(s, less), name)
  {
    if s != [] {
      var init, last := s[..|s| - 1], s[|s| - 1];
      SortByName(init, less, name);
      forall y | y in StableSort(init, less) ensures name(y) != name(last) {
        var i :| 0 <= i < |init| && init[i] == y;
        assert s[i] == y && s[|s| - 1] == last;
      }
      PlaceByName(StableSort(init, less), last, less, name);
    }
  }

  lemma NeverBeforeItself<T>(s: seq<T>, name: T -> string, x: T)
    requires ByName(s, name) && s != [] && x in s[1..]
    ensures x != s[0] && Before(name(s[0]), name(x))
  {
    var i :| 0 <= i < |s[1..]| && s[1..][i] == x;
    assert s[i + 1] == x;
    BeforeIsTotal(name(x), name(x));
  }

  /** Two lists in strict order with the same elements are the same list. */
  lemma {:induction false} SameElementsSameList<T>(s: seq<T>, t: seq<T>, name: T -> string)
    requires ByName(s, name) && ByName(t, name)
    requires forall x :: x in s <==> x in t
    ensures s == t
  {
    assert s != [] ==> s[0] in s;
    assert t != [] ==> t[0] in t;
    if s != [] {
      if s[0] != t[0] {
        assert s == [s[0]] + s[1..] && t == [t[0]] + t[1..];
        NeverBeforeItself(s, name, t[0]);
        NeverBeforeItself(t, name, s[0]);
        BeforeIsTotal(name(s[0]), name(t[0]));
      }
      forall x ensures x in s[1..] <==> x in t[1..] {
        assert s == [s[0]] + s[1..] && t == [t[0]] + t[1..];
        assert x in s <==> x in t;
        if x in s[1..] {
          NeverBeforeItself(s, name, x);
        }
        if x in t[1..] {
          NeverBeforeItself(t, name, x);
        }
      }
      assert ByName(s[1..], name) by {
        assert forall i :: 0 <= i < |s[1..]| ==> s[1..][i] == s[i + 1];
      }
      assert ByName(t[1..], name) by {
        assert forall i :: 0 <= i < |t[1..]| ==> t[1..][i] == t[i + 1];
      }
      SameElementsSameList(s[1..], t[1..], name);
      assert s == [s[0]] + s[1..] && t == [t[0]] + t[1..];
    }
  }

  // ---------------------------------------------------------------- what compilation depends on

  datatype UserLook = UserLook(name: string, credential: string)

  /** All the compiler takes from an enabled node: no IDs, no profiles, no history, and users in no order. */
  datatype Look = Look(name: string, listen: string, port: string, protocol: string, spec: string, users: set<UserLook>)

  function LookOfUser(u: User): UserLook {
    UserLook(u.name, u.credential)
  }

  function LookOfUsers(users: seq<User>): (r: seq<UserLook>)
    ensures |r| == |users| && forall i :: 0 <= i < |users| ==> r[i] == LookOfUser(users[i])
  {
    seq(|users|, i requires 0 <= i < |users| => LookOfUser(users[i]))
  }

  function LookOf(n: Node, asOf: int): Look {
    Look(n.shape.name, n.shape.listen, n.shape.port, n.shape.protocol, n.shape.spec,
         UserLooks(n, asOf))
  }

  function UserLooks(n: Node, asOf: int): set<UserLook> {
    set u | u in Effective(n.users, asOf) :: LookOfUser(u)
  }

  predicate UserLess(a: User, b: User) {
    if a.name != b.name then Before(a.name, b.name) else Before(a.id, b.id)
  }

  predicate NodeLess(a: Node, b: Node) {
    if a.shape.name == b.shape.name then Before(a.shape.id, b.shape.id) else Before(a.shape.name, b.shape.name)
  }

  /** effectiveUsers: filtered, then sorted. */
  function SortedUsers(n: Node, asOf: int): seq<User> {
    StableSort(Effective(n.users, asOf), UserLess)
  }

  /** The protocol modules and the YAML encoder: name, listen, port, protocol, spec and users in order give a listener. */
  datatype Backend = Backend(
    emit: (string, string, string, string, string, seq<UserLook>) -> Option<string>,
    encode: (string, seq<string>) -> string)

  function Listener(backend: Backend, n: Node, asOf: int): Option<string> {
    backend.emit(n.shape.name, n.shape.listen, n.shape.port, n.shape.protocol, n.shape.spec, LookOfUsers(SortedUsers(n, asOf)))
  }

  function Listeners(backend: Backend, nodes: seq<Node>, asOf: int): Option<seq<string>> {
    if nodes == [] then Some([])
    else
      var front, last := Listeners(backend, nodes[..|nodes| - 1], asOf), Listener(backend, nodes[|nodes| - 1], asOf);
      if front.None? || last.None? then None else Some(front.value + [last.value])
  }

  const IsEnabled: Node -> bool := (n: Node) => n.enabled

  ghost function Compiled(rules: Rules, backend: Backend, state: State): Option<string> {
    if !Valid(rules, state) then None
    else
      var listeners := Listeners(backend, StableSort(Filter(state.nodes, IsEnabled), NodeLess), state.asOf);
      if listeners.None? then None else Some(backend.encode(state.settings, listeners.value))
  }

  /** The names and credentials of the users in force, in order of their names. */
  ghost predicate Serves(n: Node, asOf: int, looks: seq<UserLook>) {
    && ByName(looks, LookName)
    && forall x :: x in looks <==>
         exists u :: u in n.users && u.enabled && (u.expiresAt.None? || asOf < u.expiresAt.value) && x == UserLook(u.name, u.credential)
  }

  /** What the protocol module makes of the node and exactly its users in force. */
  ghost predicate Emits(backend: Backend, n: Node, asOf: int, listener: Option<string>) {
    exists looks :: Serves(n, asOf, looks) &&
      listener == backend.emit(n.shape.name, n.shape.listen, n.shape.port, n.shape.protocol, n.shape.spec, looks)
  }

  /** The document has one listener for each enabled node, in order of the nodes' names. */
  ghost predicate Documents(backend: Backend, state: State, nodes: seq<Node>, listeners: seq<string>, document: string) {
    && (forall n :: n in nodes <==> n in state.nodes && n.enabled) && ByName(nodes, NodeName)
    && |listeners| == |nodes| && (forall i :: 0 <= i < |nodes| ==> Emits(backend, nodes[i], state.asOf, Some(listeners[i])))
    && document == backend.encode(state.settings, listeners)
  }

  /** YAMLCompiler.Compile */
  method Compile(rules: Rules, backend: Backend, state: State) returns (document: Option<string>)
    ensures document == Compiled(rules, backend, state)
    ensures document.Some? ==>
      PlainlyValid(rules, state) && exists nodes, listeners :: Documents(backend, state, nodes, listeners, document.value)
    ensures document.None? ==>
      !PlainlyValid(rules, state) || exists n :: n in state.nodes && n.enabled && Emits(backend, n, state.asOf, None)
  {
    hide Valid, Listeners, StableSort, Filter, PlainlyValid, Documents, Emits;
    ValidInPlainTerms(rules, state);
    var valid := ValidateState(rules, state);
    if !valid {
      return None;
    }
    var nodes := EnabledNodes(state.nodes);
    nodes := StableSort(nodes, NodeLess);
    var listeners := CompileNodes(backend, nodes, state.asOf);
    ListenersAreEmitted(rules, backend, state);
    SortedNodesDefinition(state);
    return if listeners.None? then None else Some(backend.encode(state.settings, listeners.value));
  }

  method EnabledNodes(nodes: seq<Node>) returns (enabled: seq<Node>)
    ensures enabled == Filter(nodes, IsEnabled)
  {
    enabled := [];
    for i := 0 to |nodes|
      invariant enabled + Filter(nodes[i..], IsEnabled) == Filter(nodes, IsEnabled)
    {
      assert nodes[i..][0] == nodes[i] && nodes[i..][1..] == nodes[i + 1..];
      if nodes[i].enabled {
        enabled := enabled + [nodes[i]];
      }
    }
  }

  method CompileNodes(backend: Backend, nodes: seq<Node>, asOf: int) returns (listeners: Option<seq<string>>)
    ensures listeners == Listeners(backend, nodes, asOf)
  {
    hide Listener;
    var done := [];
    for i := 0 to |nodes|
      invariant Listeners(backend, nodes[..i], asOf) == Some(done)
    {
      assert nodes[..i + 1][..i] == nodes[..i];
      var compiled := Listener(backend, nodes[i], asOf);
      if compiled.None? {
        FailedListener(backend, nodes, asOf, i + 1);
        return None;
      }
      done := done + [compiled.value];
    }
    assert nodes[..|nodes|] == nodes;
    return Some(done);
  }

  lemma {:induction false} FailedListener(backend: Backend, nodes: seq<Node>, asOf: int, n: nat)
    requires n <= |nodes| && Listeners(backend, nodes[..n], asOf).None?
    ensures Listeners(backend, nodes, asOf).None?
    decreases |nodes| - n
  {
    if n == |nodes| {
      assert nodes[..n] == nodes;
    } else {
      assert nodes[..n + 1][..n] == nodes[..n];
      FailedListener(backend, nodes, asOf, n + 1);
    }
  }

  // ---------------------------------------------------------------- canonicity

  const UserName: User -> string := (u: User) => u.name
  const LookName: UserLook -> string := (u: UserLook) => u.name
  const NodeName: Node -> string := (n: Node) => n.shape.name

  lemma {:induction false} FilterDistinct<T(!new)>(s: seq<T>, keep: T -> bool, name: T -> string)
    requires DistinctNames(s, name)
    ensures DistinctNames(Filter(s, keep), name)
  {
    if s != [] {
      assert DistinctNames(s[1..], name) by {
        assert forall i :: 0 <= i < |s[1..]| ==> s[1..][i] == s[i + 1];
      }
      FilterDistinct(s[1..], keep, name);
      var r := Filter(s[1..], keep);
      forall y | y in r ensures name(y) != name(s[0]) {
        assert y in s[1..];
        var i :| 0 <= i < |s[1..]| && s[1..][i] == y;
        assert s[i + 1] == y;
      }
    }
  }

  /** In a valid node the sorted effective users are determined by the set of their looks. */
  lemma UsersAreCanonical(rules: Rules, n: Node, m: Node, t: int, now: int)
    requires UsersValid(rules, n) && UsersValid(rules, m)
    requires UserLooks(n, t) == UserLooks(m, now)
    ensures LookOfUsers(SortedUsers(n, t)) == LookOfUsers(SortedUsers(m, now))
  {
    hide Effective, StableSort, UserLooks, SortedUsers;
    UsersInOrder(rules, n, t);
    UsersInOrder(rules, m, now);
    forall x ensures x in LookOfUsers(SortedUsers(n, t)) <==> x in LookOfUsers(SortedUsers(m, now)) {
      LooksAsSet(n, t, x);
      LooksAsSet(m, now, x);
    }
    SameElementsSameList(LookOfUsers(SortedUsers(n, t)), LookOfUsers(SortedUsers(m, now)), LookName);
  }

  lemma UsersInOrder(rules: Rules, n: Node, asOf: int)
    requires UsersValid(rules, n)
    ensures ByName(LookOfUsers(SortedUsers(n, asOf)), LookName)
  {
    forall i, j | 0 <= i < j < |n.users| ensures n.users[i].name != n.users[j].name {
      assert Names(n.users)[i] != Names(n.users)[j];
    }
    assert DistinctNames(n.users, UserName);
    FilterDistinct(n.users, (u: User) => IsEffective(u, asOf), UserName);
    SortByName(Effective(n.users, asOf), UserLess, UserName);
    var users := SortedUsers(n, asOf);
    forall i, j | 0 <= i < j < |users| ensures Before(LookName(LookOfUsers(users)[i]), LookName(LookOfUsers(users)[j])) {
      assert Before(UserName(users[i]), UserName(users[j]));
    }
  }

  lemma LooksAsSet(n: Node, asOf: int, x: UserLook)
    ensures x in LookOfUsers(SortedUsers(n, asOf)) <==> x in UserLooks(n, asOf)
  {
    hide Effective;
    var users := SortedUsers(n, asOf);
    if x in LookOfUsers(users) {
      var i :| 0 <= i < |users| && LookOfUsers(users)[i] == x;
      assert users[i] in users;
    }
    if u :| u in Effective(n.users, asOf) && LookOfUser(u) == x {
      assert u in users;
      var i :| 0 <= i < |users| && users[i] == u;
      assert LookOfUsers(users)[i] == x;
    }
  }

  function LooksOf(nodes: seq<Node>, asOf: int): (r: seq<Look>)
    ensures |r| == |nodes| && forall i :: 0 <= i < |nodes| ==> r[i] == LookOf(nodes[i], asOf)
  {
    seq(|nodes|, i requires 0 <= i < |nodes| => LookOf(nodes[i], asOf))
  }

  /** The looks of a state's enabled nodes: what its document may depend on. */
  function Looks(state: State): set<Look> {
    set n | n in state.nodes && n.enabled :: LookOf(n, state.asOf)
  }

  const LookNodeName: Look -> string := (l: Look) => l.name

  function SortedNodes(state: State): seq<Node> {
    StableSort(Filter(state.nodes, IsEnabled), NodeLess)
  }

  lemma NodesInOrder(rules: Rules, state: State)
    requires Valid(rules, state)
    ensures ByName(LooksOf(SortedNodes(state), state.asOf), LookNodeName)
  {
    hide NodeValid, ClaimsDisjoint;
    forall i, j | 0 <= i < j < |state.nodes| ensures state.nodes[i].shape.name != state.nodes[j].shape.name {
      assert NodeNames(state.nodes)[i] != NodeNames(state.nodes)[j];
    }
    assert DistinctNames(state.nodes, NodeName);
    FilterDistinct(state.nodes, IsEnabled, NodeName);
    SortByName(Filter(state.nodes, IsEnabled), NodeLess, NodeName);
    var nodes, looks := SortedNodes(state), LooksOf(SortedNodes(state), state.asOf);
    forall i, j | 0 <= i < j < |looks| ensures Before(LookNodeName(looks[i]), LookNodeName(looks[j])) {
      assert Before(NodeName(nodes[i]), NodeName(nodes[j]));
    }
  }

  lemma LooksOfNodes(state: State, l: Look)
    ensures l in LooksOf(SortedNodes(state), state.asOf) <==> l in Looks(state)
  {
    hide LookOf, StableSort;
    var nodes := SortedNodes(state);
    if l in LooksOf(nodes, state.asOf) {
      var i :| 0 <= i < |nodes| && LooksOf(nodes, state.asOf)[i] == l;
      assert nodes[i] in nodes;
    }
    if n :| n in state.nodes && n.enabled && LookOf(n, state.asOf) == l {
      assert n in nodes;
      var i :| 0 <= i < |nodes| && nodes[i] == n;
      assert LooksOf(nodes, state.asOf)[i] == l;
    }
  }

  lemma SameLookSameListener(rules: Rules, backend: Backend, n: Node, m: Node, t: int, now: int)
    requires UsersValid(rules, n) && UsersValid(rules, m) && LookOf(n, t) == LookOf(m, now)
    ensures Listener(backend, n, t) == Listener(backend, m, now)
  {
    hide SortedUsers, LookOfUsers, UserLooks, UsersValid;
    UsersAreCanonical(rules, n, m, t, now);
  }

  lemma {:induction false} SameLooksSameListeners(rules: Rules, backend: Backend, a: seq<Node>, b: seq<Node>, t: int, now: int)
    requires |a| == |b| && forall i :: 0 <= i < |a| ==> LookOf(a[i], t) == LookOf(b[i], now)
    requires forall i :: 0 <= i < |a| ==> UsersValid(rules, a[i]) && UsersValid(rules, b[i])
    ensures Listeners(backend, a, t) == Listeners(backend, b, now)
  {
    hide LookOf, UsersValid, Listener;
    if a != [] {
      SameLooksSameListeners(rules, backend, a[..|a| - 1], b[..|b| - 1], t, now);
      SameLookSameListener(rules, backend, a[|a| - 1], b[|b| - 1], t, now);
    }
  }

  lemma SortedNodesAreValid(rules: Rules, state: State, n: Node)
    requires Valid(rules, state) && n in SortedNodes(state)
    ensures UsersValid(rules, n)
  {
    assert n in state.nodes && NodeValid(rules, n, state.asOf);
  }

  /**
   * Compilation is canonical: valid states with the same settings and the same looks of their enabled nodes compile
   * to the same document, whatever the order of nodes and users, the disabled nodes, the users that are not effective,
   * the identities, profiles and histories, and the times at which they are read.
   */
  lemma CompilationIsCanonical(rules: Rules, backend: Backend, a: State, b: State)
    requires Valid(rules, a) && Valid(rules, b) && a.settings == b.settings && Looks(a) == Looks(b)
    ensures Compiled(rules, backend, a) == Compiled(rules, backend, b)
  {
    hide Valid, Looks, SortedNodes, Listeners, LookOf, UsersValid, StableSort, Filter;
    var m, n := SortedNodes(a), SortedNodes(b);
    NodesInOrder(rules, a);
    NodesInOrder(rules, b);
    forall l ensures l in LooksOf(m, a.asOf) <==> l in LooksOf(n, b.asOf) {
      LooksOfNodes(a, l);
      LooksOfNodes(b, l);
    }
    SameElementsSameList(LooksOf(m, a.asOf), LooksOf(n, b.asOf), LookNodeName);
    forall i | 0 <= i < |m| ensures LookOf(m[i], a.asOf) == LookOf(n[i], b.asOf) && UsersValid(rules, m[i]) && UsersValid(rules, n[i]) {
      assert LooksOf(m, a.asOf)[i] == LooksOf(n, b.asOf)[i];
      SortedNodesAreValid(rules, a, m[i]);
      SortedNodesAreValid(rules, b, n[i]);
    }
    SameLooksSameListeners(rules, backend, m, n, a.asOf, b.asOf);
    SortedNodesDefinition(a);
    SortedNodesDefinition(b);
  }

  lemma SortedNodesDefinition(state: State)
    ensures SortedNodes(state) == StableSort(Filter(state.nodes, IsEnabled), NodeLess)
  {
  }

  /** In particular the order in which the nodes of a state are listed leaves no trace. */
  lemma OrderLeavesNoTrace(rules: Rules, backend: Backend, a: State, b: State)
    requires Valid(rules, a) && Valid(rules, b) && a.settings == b.settings && a.asOf == b.asOf
    requires multiset(a.nodes) == multiset(b.nodes)
    ensures Compiled(rules, backend, a) == Compiled(rules, backend, b)
  {
    forall n ensures n in a.nodes <==> n in b.nodes {
      assert n in a.nodes <==> n in multiset(a.nodes);
      assert n in b.nodes <==> n in multiset(b.nodes);
    }
    assert Looks(a) == Looks(b);
    CompilationIsCanonical(rules, backend, a, b);
  }

  // ---------------------------------------------------------------- what a document says

  lemma ServesInForce(rules: Rules, n: Node, asOf: int)
    requires UsersValid(rules, n)
    ensures Serves(n, asOf, LookOfUsers(SortedUsers(n, asOf)))
  {
    hide SortedUsers, UsersValid, Effective;
    UsersInOrder(rules, n, asOf);
    EffectiveMembers(n.users, asOf);
    var looks := LookOfUsers(SortedUsers(n, asOf));
    forall x ensures x in looks <==>
      exists u :: u in n.users && u.enabled && (u.expiresAt.None? || asOf < u.expiresAt.value) && x == UserLook(u.name, u.credential)
    {
      LooksAsSet(n, asOf, x);
      if u :| u in Effective(n.users, asOf) && LookOfUser(u) == x {
        assert u in n.users && InForce(u, asOf);
      }
    }
  }

  lemma ListenerIsEmitted(rules: Rules, backend: Backend, n: Node, asOf: int)
    requires UsersValid(rules, n)
    ensures Emits(backend, n, asOf, Listener(backend, n, asOf))
  {
    hide Serves, SortedUsers, UsersValid;
    ServesInForce(rules, n, asOf);
  }

  lemma {:induction false} ListenersFit(backend: Backend, nodes: seq<Node>, asOf: int)
    ensures var listeners := Listeners(backend, nodes, asOf);
      if listeners.Some? then
        |listeners.value| == |nodes| && forall i :: 0 <= i < |nodes| ==> Listener(backend, nodes[i], asOf) == Some(listeners.value[i])
      else exists i :: 0 <= i < |nodes| && Listener(backend, nodes[i], asOf).None?
  {
    hide Listener;
    if nodes != [] {
      ListenersFit(backend, nodes[..|nodes| - 1], asOf);
    }
  }

  /** Every enabled node gets the listener of exactly its users in force, or there is one that gets none. */
  lemma ListenersAreEmitted(rules: Rules, backend: Backend, state: State)
    requires Valid(rules, state)
    ensures var listeners := Listeners(backend, SortedNodes(state), state.asOf);
      if listeners.Some? then
        Documents(backend, state, SortedNodes(state), listeners.value, backend.encode(state.settings, listeners.value))
      else exists n :: n in state.nodes && n.enabled && Emits(backend, n, state.asOf, None)
  {
    hide Listeners, Listener, Valid, StableSort, Emits, UsersValid;
    var nodes := SortedNodes(state);
    ListenersFit(backend, nodes, state.asOf);
    forall n | n in nodes ensures Emits(backend, n, state.asOf, Listener(backend, n, state.asOf)) {
      SortedNodesAreValid(rules, state, n);
      ListenerIsEmitted(rules, backend, n, state.asOf);
    }
    NodesByName(rules, state);
  }

  lemma NodesByName(rules: Rules, state: State)
    requires Valid(rules, state)
    ensures ByName(SortedNodes(state), NodeName)
  {
    hide Valid, SortedNodes;
    NodesInOrder(rules, state);
    var nodes := SortedNodes(state);
    forall i, j | 0 <= i < j < |nodes| ensures Before(NodeName(nodes[i]), NodeName(nodes[j])) {
      assert Before(LookNodeName(LooksOf(nodes, state.asOf)[i]), LookNodeName(LooksOf(nodes, state.asOf)[j]));
    }
  }
}
