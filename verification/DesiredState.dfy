/** The managed desired state: effective users, validation, and the ports an accepted state may claim. */
module DesiredState {
  import opened Sequences
  import opened PortRanges

  datatype User = User(id: string, name: string, enabled: bool, expiresAt: Option<int>, credential: string, updatedAt: int)

  datatype Node = Node(shape: Shape, enabled: bool, users: seq<User>, generation: int, updatedAt: int)

  /** What of a node the expiry batch never touches. */
  datatype Shape = Shape(id: string, name: string, listen: string, port: string, protocol: string, spec: string, profiles: string)

  datatype State = State(settings: string, asOf: int, nodes: seq<Node>)

  const SHADOWSOCKS := "shadowsocks"
  /** The zero time, which no state may carry. */
  const ZERO_TIME := -62_135_596_800

  /** The syntactic checks of settings, node specifications, access profiles and credentials. */
  datatype Rules = Rules(
    settingsOk: string -> bool,
    shapeOk: Shape -> bool,
    /** validateNodeUser: the credential's identity, or nothing if the user is refused. */
    credentialId: (Shape, string, string, string) -> Option<string>,
    /** The length rule for the Shadowsocks 2022 ciphers, asked of effective users only. */
    passwordOk: (Shape, string) -> bool)

  // ---------------------------------------------------------------- effective users

  predicate IsEffective(u: User, asOf: int) {
    u.enabled && (u.expiresAt.Some? ==> u.expiresAt.value > asOf)
  }

  function Effective(users: seq<User>, asOf: int): seq<User> {
    Filter(users, (u: User) => IsEffective(u, asOf))
  }

  /** Time only takes users away. */
  lemma {:induction false} EffectiveShrinks(users: seq<User>, t: int, now: int)
    requires t <= now
    ensures |Effective(users, now)| <= |Effective(users, t)|
    ensures forall u :: u in Effective(users, now) ==> u in Effective(users, t)
  {
    if users != [] {
      EffectiveShrinks(users[1..], t, now);
    }
  }

  // ---------------------------------------------------------------- validation

  function Ids(users: seq<User>): seq<string> {
    seq(|users|, i requires 0 <= i < |users| => users[i].id)
  }

  function Names(users: seq<User>): seq<string> {
    seq(|users|, i requires 0 <= i < |users| => users[i].name)
  }

  function CredentialOf(rules: Rules, n: Node, u: User): Option<string> {
    rules.credentialId(n.shape, u.id, u.name, u.credential)
  }

  function Credentials(rules: Rules, n: Node): seq<Option<string>> {
    seq(|n.users|, i requires 0 <= i < |n.users| => CredentialOf(rules, n, n.users[i]))
  }

  ghost predicate UsersValid(rules: Rules, n: Node) {
    && NoDuplicates(Ids(n.users)) && NoDuplicates(Names(n.users)) && NoDuplicates(Credentials(rules, n))
    && forall u :: u in n.users ==> CredentialOf(rules, n, u).Some?
  }

  /** The clauses that depend on who is effective. */
  ghost predicate EffectiveValid(rules: Rules, n: Node, asOf: int) {
    && (n.enabled ==> Effective(n.users, asOf) != [])
    && (n.shape.protocol == SHADOWSOCKS ==> |Effective(n.users, asOf)| <= 1)
    && (n.shape.protocol == SHADOWSOCKS ==> forall u :: u in Effective(n.users, asOf) ==> rules.passwordOk(n.shape, u.credential))
  }

  predicate PortOk(port: string) {
    Listed(port).Some? && Disjoint(Listed(port).value)
  }

  ghost predicate NodeValid(rules: Rules, n: Node, asOf: int) {
    && rules.shapeOk(n.shape) && PortOk(n.shape.port) && n.generation >= 1
    && UsersValid(rules, n) && EffectiveValid(rules, n, asOf)
  }

  function NodeIds(nodes: seq<Node>): seq<string> {
    seq(|nodes|, i requires 0 <= i < |nodes| => nodes[i].shape.id)
  }

  function NodeNames(nodes: seq<Node>): seq<string> {
    seq(|nodes|, i requires 0 <= i < |nodes| => nodes[i].shape.name)
  }

  datatype Claim = Claim(address: string, range: Range)

  function RangesOf(port: string): seq<Range> {
    if PortOk(port) then Sort(Listed(port).value) else []
  }

  function ClaimsOf(address: string, ranges: seq<Range>): (claims: seq<Claim>)
    ensures |claims| == |ranges| && forall i :: 0 <= i < |ranges| ==> claims[i] == Claim(address, ranges[i])
  {
    seq(|ranges|, i requires 0 <= i < |ranges| => Claim(address, ranges[i]))
  }

  predicate Conflict(a: Claim, b: Claim) {
    a.address == b.address && Overlap(a.range, b.range)
  }

  /** No two nodes claim the same port of the same address. */
  ghost predicate ClaimsDisjoint(nodes: seq<Node>) {
    forall i, j :: 0 <= i < j < |nodes| && nodes[i].shape.listen == nodes[j].shape.listen ==>
      RangesApart(nodes[i].shape.port, nodes[j].shape.port)
  }

  ghost predicate RangesApart(p: string, q: string) {
    forall r, s :: r in RangesOf(p) && s in RangesOf(q) ==> !Overlap(r, s)
  }

  ghost predicate Valid(rules: Rules, state: State) {
    && state.asOf != ZERO_TIME && rules.settingsOk(state.settings)
    && NoDuplicates(NodeIds(state.nodes)) && NoDuplicates(NodeNames(state.nodes))
    && ClaimsDisjoint(state.nodes)
    && forall n :: n in state.nodes ==> NodeValid(rules, n, state.asOf)
  }

  /** In a valid state no two nodes answer at the same address and port. */
  lemma OneNodePerPort(rules: Rules, state: State, i: nat, j: nat, port: nat)
    requires Valid(rules, state) && i < j < |state.nodes|
    requires state.nodes[i].shape.listen == state.nodes[j].shape.listen
    ensures !Denotes(state.nodes[i].shape.port, port) || !Denotes(state.nodes[j].shape.port, port)
  {
    var p, q := state.nodes[i].shape.port, state.nodes[j].shape.port;
    assert RangesApart(p, q);
    if Denotes(p, port) && Denotes(q, port) {
      var r :| r in Listed(p).value && Claims(r, port);
      var s :| s in Listed(q).value && Claims(s, port);
      assert r in RangesOf(p) && s in RangesOf(q);
      assert Overlap(r, s);
    }
  }

  /** Validity in plain terms, without the functions the code computes with. */
  ghost predicate PlainlyValid(rules: Rules, state: State) {
    && state.asOf != ZERO_TIME && rules.settingsOk(state.settings)
    && (forall i, j :: 0 <= i < j < |state.nodes| ==>
          state.nodes[i].shape.id != state.nodes[j].shape.id && state.nodes[i].shape.name != state.nodes[j].shape.name)
    && (forall i, j, port :: 0 <= i < j < |state.nodes| && state.nodes[i].shape.listen == state.nodes[j].shape.listen ==>
          !(Denotes(state.nodes[i].shape.port, port) && Denotes(state.nodes[j].shape.port, port)))
    && (forall i :: 0 <= i < |state.nodes| ==> PlainlyValidNode(rules, state.nodes[i], state.asOf))
  }

  /** Enabled, and with no expiry or one still to come. */
  predicate InForce(u: User, asOf: int) {
    u.enabled && match u.expiresAt { case None => true case Some(end) => asOf < end }
  }

  ghost predicate PlainlyValidNode(rules: Rules, n: Node, asOf: int) {
    && rules.shapeOk(n.shape) && n.generation > 0 && (exists port :: Denotes(n.shape.port, port))
    && (forall i, j :: 0 <= i < j < |n.users| ==>
          n.users[i].id != n.users[j].id && n.users[i].name != n.users[j].name
          && CredentialOf(rules, n, n.users[i]) != CredentialOf(rules, n, n.users[j]))
    && (forall i :: 0 <= i < |n.users| ==> CredentialOf(rules, n, n.users[i]).Some?)
    && (n.enabled ==> exists i :: 0 <= i < |n.users| && InForce(n.users[i], asOf))
    && (n.shape.protocol == SHADOWSOCKS ==>
          && (forall i, j :: 0 <= i < j < |n.users| ==> !(InForce(n.users[i], asOf) && InForce(n.users[j], asOf)))
          && (forall i :: 0 <= i < |n.users| && InForce(n.users[i], asOf) ==> rules.passwordOk(n.shape, n.users[i].credential)))
  }

  lemma EffectiveInForce(users: seq<User>, asOf: int)
    ensures Effective(users, asOf) != [] <==> exists i :: 0 <= i < |users| && InForce(users[i], asOf)
    ensures |Effective(users, asOf)| <= 1 <==>
      forall i, j :: 0 <= i < j < |users| ==> !(InForce(users[i], asOf) && InForce(users[j], asOf))
  {
    var effective := Effective(users, asOf);
    FilterAtMostOne(users, (u: User) => IsEffective(u, asOf));
    forall u ensures IsEffective(u, asOf) == InForce(u, asOf) {}
    if effective != [] {
      assert effective[0] in effective && effective[0] in users;
    }
    if i :| 0 <= i < |users| && InForce(users[i], asOf) {
      assert users[i] in effective;
    }
  }

  lemma PortIsDenoted(port: string)
    ensures PortOk(port) <==> exists p :: Denotes(port, p)
  {
    if PortOk(port) {
      ListsSomething(port);
      var r := Listed(port).value[0];
      assert r in Listed(port).value && Claims(r, r.start);
      assert Denotes(port, r.start);
    }
  }

  lemma NodeIsPlainlyValid(rules: Rules, n: Node, asOf: int)
    ensures NodeValid(rules, n, asOf) <==> PlainlyValidNode(rules, n, asOf)
  {
    hide Listed, Effective;
    PortIsDenoted(n.shape.port);
    EffectiveInForce(n.users, asOf);
    UsersArePlainlyValid(rules, n);
    assert forall u :: u in Effective(n.users, asOf) <==> u in n.users && InForce(u, asOf) by {
      EffectiveMembers(n.users, asOf);
    }
  }

  lemma EffectiveCount(users: seq<User>, asOf: int)
    ensures forall u ::
      multiset(Effective(users, asOf))[u] == (if u.enabled && (u.expiresAt.None? || u.expiresAt.value > asOf) then multiset(users)[u] else 0)
    ensures Within(Effective(users, asOf), users)
  {
    hide Within, Filter;
    FilterWithin(users, (u: User) => IsEffective(u, asOf));
  }

  lemma EffectiveMembers(users: seq<User>, asOf: int)
    ensures forall u :: u in Effective(users, asOf) <==> u in users && InForce(u, asOf)
  {
  }

  lemma UsersArePlainlyValid(rules: Rules, n: Node)
    ensures UsersValid(rules, n) <==>
      && (forall i, j :: 0 <= i < j < |n.users| ==>
            n.users[i].id != n.users[j].id && n.users[i].name != n.users[j].name
            && CredentialOf(rules, n, n.users[i]) != CredentialOf(rules, n, n.users[j]))
      && (forall i :: 0 <= i < |n.users| ==> CredentialOf(rules, n, n.users[i]).Some?)
  {
    if UsersValid(rules, n) {
      forall i, j | 0 <= i < j < |n.users|
        ensures n.users[i].id != n.users[j].id && n.users[i].name != n.users[j].name
        ensures CredentialOf(rules, n, n.users[i]) != CredentialOf(rules, n, n.users[j])
      {
        assert Ids(n.users)[i] != Ids(n.users)[j] && Names(n.users)[i] != Names(n.users)[j];
        assert Credentials(rules, n)[i] != Credentials(rules, n)[j];
      }
    }
  }

  lemma SharedPortIsNotApart(p: string, q: string, port: nat)
    requires PortOk(p) && PortOk(q) && Denotes(p, port) && Denotes(q, port)
    ensures !RangesApart(p, q)
  {
    hide Sort;
    var r :| r in Listed(p).value && Claims(r, port);
    var s :| s in Listed(q).value && Claims(s, port);
    assert r in RangesOf(p) && s in RangesOf(q) && Overlap(r, s);
  }

  lemma ApartIsNoSharedPort(p: string, q: string)
    requires PortOk(p) && PortOk(q)
    ensures RangesApart(p, q) <==> forall port :: !(Denotes(p, port) && Denotes(q, port))
  {
    hide Sort;
    ListsSomething(p);
    ListsSomething(q);
    if RangesApart(p, q) {
      forall port ensures !(Denotes(p, port) && Denotes(q, port)) {
        if Denotes(p, port) && Denotes(q, port) {
          SharedPortIsNotApart(p, q, port);
        }
      }
    } else {
      var r, s :| r in RangesOf(p) && s in RangesOf(q) && Overlap(r, s);
      OverlapIsASharedPort(r, s);
      var port :| Claims(r, port) && Claims(s, port);
      assert Denotes(p, port) && Denotes(q, port);
    }
  }

  /** What the code accepts is what is valid in plain terms. */
  lemma ValidInPlainTerms(rules: Rules, state: State)
    ensures Valid(rules, state) <==> PlainlyValid(rules, state)
  {
    hide NodeValid, PlainlyValidNode, Listed, RangesApart, NoDuplicates;
    var nodes := state.nodes;
    forall n ensures NodeValid(rules, n, state.asOf) <==> PlainlyValidNode(rules, n, state.asOf) {
      NodeIsPlainlyValid(rules, n, state.asOf);
    }
    NamesArePlainlyDistinct(nodes);
    if forall n :: n in nodes ==> NodeValid(rules, n, state.asOf) {
      forall i, j | 0 <= i < j < |nodes|
        ensures RangesApart(nodes[i].shape.port, nodes[j].shape.port) <==>
          forall port :: !(Denotes(nodes[i].shape.port, port) && Denotes(nodes[j].shape.port, port))
      {
        ValidPort(rules, nodes[i], state.asOf);
        ValidPort(rules, nodes[j], state.asOf);
        ApartIsNoSharedPort(nodes[i].shape.port, nodes[j].shape.port);
      }
    }
  }

  lemma ValidPort(rules: Rules, n: Node, asOf: int)
    requires NodeValid(rules, n, asOf)
    ensures PortOk(n.shape.port)
  {
  }

  lemma NamesArePlainlyDistinct(nodes: seq<Node>)
    ensures NoDuplicates(NodeIds(nodes)) && NoDuplicates(NodeNames(nodes)) <==>
      forall i, j :: 0 <= i < j < |nodes| ==> nodes[i].shape.id != nodes[j].shape.id && nodes[i].shape.name != nodes[j].shape.name
  {
    if NoDuplicates(NodeIds(nodes)) && NoDuplicates(NodeNames(nodes)) {
      forall i, j | 0 <= i < j < |nodes| ensures nodes[i].shape.id != nodes[j].shape.id && nodes[i].shape.name != nodes[j].shape.name {
        assert NodeIds(nodes)[i] != NodeIds(nodes)[j] && NodeNames(nodes)[i] != NodeNames(nodes)[j];
      }
    }
  }

  // ---------------------------------------------------------------- claims, as the code collects them

  ghost predicate NoClash(claims: seq<Claim>) {
    forall i, j :: 0 <= i < j < |claims| ==> !Conflict(claims[i], claims[j])
  }

  predicate ClearOf(claims: seq<Claim>, c: Claim) {
    forall b :: b in claims ==> !Conflict(b, c)
  }

  function AllClaims(nodes: seq<Node>): seq<Claim> {
    if nodes == [] then []
    else
      var last := nodes[|nodes| - 1].shape;
      AllClaims(nodes[..|nodes| - 1]) + ClaimsOf(last.listen, RangesOf(last.port))
  }

  lemma NoClashAppend(claims: seq<Claim>, c: Claim)
    ensures NoClash(claims + [c]) <==> NoClash(claims) && ClearOf(claims, c)
  {
    var u := claims + [c];
    if NoClash(u) {
      forall i, j | 0 <= i < j < |claims| ensures !Conflict(claims[i], claims[j]) {
        assert u[i] == claims[i] && u[j] == claims[j];
      }
      forall b | b in claims ensures !Conflict(b, c) {
        var i :| 0 <= i < |claims| && claims[i] == b;
        assert u[i] == b && u[|claims|] == c;
      }
    }
  }

  /** Claims of one node are apart; clashes can only come from earlier nodes. */
  lemma {:induction false} NoClashOfNode(bound: seq<Claim>, address: string, ranges: seq<Range>)
    requires Disjoint(ranges)
    ensures NoClash(bound + ClaimsOf(address, ranges)) <==>
      NoClash(bound) && forall r :: r in ranges ==> ClearOf(bound, Claim(address, r))
  {
    if ranges == [] {
      assert bound + ClaimsOf(address, ranges) == bound;
    } else {
      var init, last := ranges[..|ranges| - 1], ranges[|ranges| - 1];
      NoClashOfNode(bound, address, init);
      var earlier := bound + ClaimsOf(address, init);
      assert bound + ClaimsOf(address, ranges) == earlier + [Claim(address, last)];
      NoClashAppend(earlier, Claim(address, last));
      assert ClearOf(ClaimsOf(address, init), Claim(address, last)) by {
        assert forall i :: 0 <= i < |init| ==> !Overlap(ranges[i], ranges[|ranges| - 1]);
      }
      assert ranges == init + [last];
    }
  }

  lemma RangesOfAreApart(port: string)
    ensures Disjoint(RangesOf(port))
  {
    if PortOk(port) {
      SortDisjoint(Listed(port).value);
    }
  }

  ghost predicate ClearOfNode(n: Node, c: Claim) {
    n.shape.listen == c.address ==> forall r :: r in RangesOf(n.shape.port) ==> !Overlap(r, c.range)
  }

  lemma ClearOfOne(n: Node, c: Claim)
    ensures ClearOf(ClaimsOf(n.shape.listen, RangesOf(n.shape.port)), c) <==> ClearOfNode(n, c)
  {
    hide RangesOf;
    var ranges := RangesOf(n.shape.port);
    var own := ClaimsOf(n.shape.listen, ranges);
    if ClearOf(own, c) && n.shape.listen == c.address {
      forall r | r in ranges ensures !Overlap(r, c.range) {
        var i :| 0 <= i < |ranges| && ranges[i] == r;
        assert own[i] in own;
      }
    }
  }

  lemma {:induction false} ClearOfAll(nodes: seq<Node>, c: Claim)
    ensures ClearOf(AllClaims(nodes), c) <==> forall n :: n in nodes ==> ClearOfNode(n, c)
  {
    hide RangesOf, ClearOfNode;
    if nodes != [] {
      var init, last := nodes[..|nodes| - 1], nodes[|nodes| - 1];
      ClearOfAll(init, c);
      ClearOfOne(last, c);
      assert nodes == init + [last];
      assert AllClaims(nodes) == AllClaims(init) + ClaimsOf(last.shape.listen, RangesOf(last.shape.port));
    }
  }

  /** Comparing every claim with all earlier ones finds exactly the clashes between nodes. */
  lemma {:induction false} ClaimsMatch(nodes: seq<Node>)
    ensures NoClash(AllClaims(nodes)) <==> ClaimsDisjoint(nodes)
  {
    hide RangesOf, ClearOf, RangesApart, NoClash;
    if nodes == [] {
      assert NoClash([]) by { NothingClashes(); }
    } else {
      var init, last := nodes[..|nodes| - 1], nodes[|nodes| - 1];
      ClaimsMatch(init);
      RangesOfAreApart(last.shape.port);
      NoClashOfNode(AllClaims(init), last.shape.listen, RangesOf(last.shape.port));
      forall r ensures ClearOf(AllClaims(init), Claim(last.shape.listen, r)) <==>
        forall n :: n in init ==> ClearOfNode(n, Claim(last.shape.listen, r))
      {
        ClearOfAll(init, Claim(last.shape.listen, r));
      }
      forall n: Node ensures (n.shape.listen == last.shape.listen ==> RangesApart(n.shape.port, last.shape.port))
        <==> forall r :: r in RangesOf(last.shape.port) ==> ClearOfNode(n, Claim(last.shape.listen, r))
      {
        NodesApart(n, last);
      }
      ClaimsSplit(nodes);
    }
  }

  lemma NothingClashes()
    ensures NoClash([])
  {
  }

  lemma NodesApart(n: Node, last: Node)
    ensures (n.shape.listen == last.shape.listen ==> RangesApart(n.shape.port, last.shape.port))
       <==> forall r :: r in RangesOf(last.shape.port) ==> ClearOfNode(n, Claim(last.shape.listen, r))
  {
    hide RangesOf;
    if n.shape.listen == last.shape.listen && forall r :: r in RangesOf(last.shape.port) ==> ClearOfNode(n, Claim(last.shape.listen, r)) {
      forall q, r | q in RangesOf(n.shape.port) && r in RangesOf(last.shape.port) ensures !Overlap(q, r) {
        assert ClearOfNode(n, Claim(last.shape.listen, r));
      }
    }
  }

  lemma ClaimsSplit(nodes: seq<Node>)
    requires nodes != []
    ensures var init, last := nodes[..|nodes| - 1], nodes[|nodes| - 1];
      ClaimsDisjoint(nodes) <==>
        && ClaimsDisjoint(init)
        && forall n :: n in init && n.shape.listen == last.shape.listen ==> RangesApart(n.shape.port, last.shape.port)
  {
    hide RangesApart;
    var init, last := nodes[..|nodes| - 1], nodes[|nodes| - 1];
    if ClaimsDisjoint(nodes) {
      forall n | n in init && n.shape.listen == last.shape.listen ensures RangesApart(n.shape.port, last.shape.port) {
        var i :| 0 <= i < |init| && init[i] == n;
        assert nodes[i] == n;
      }
    }
  }

  /** One node's claims against all claims before it. */
  method AddClaims(n: Node, bound: seq<Claim>) returns (extended: seq<Claim>, conflict: bool)
    ensures extended == bound + ClaimsOf(n.shape.listen, RangesOf(n.shape.port))
    ensures NoClash(extended) <==> NoClash(bound) && !conflict
  {
    hide Sort, Listed, NoClash, RangesOf;
    extended, conflict := bound, false;
    var ranges := Parse(n.shape.port);
    assert bound + ClaimsOf(n.shape.listen, ranges[..0]) == bound;
    for i := 0 to |ranges|
      invariant extended == bound + ClaimsOf(n.shape.listen, ranges[..i])
      invariant NoClash(extended) <==> NoClash(bound) && !conflict
    {
      var current := Claim(n.shape.listen, ranges[i]);
      var clear := CheckClear(extended, current);
      NoClashAppend(extended, current);
      assert ClaimsOf(n.shape.listen, ranges[..i + 1]) == ClaimsOf(n.shape.listen, ranges[..i]) + [current];
      conflict := conflict || !clear;
      extended := extended + [current];
    }
    assert ranges[..|ranges|] == ranges;
  }

  method Parse(port: string) returns (ranges: seq<Range>)
    ensures ranges == RangesOf(port)
  {
    var parsed := ParsePortRanges(port);
    return if parsed.Some? then parsed.value else [];
  }

  method CheckClear(bound: seq<Claim>, current: Claim) returns (clear: bool)
    ensures clear <==> ClearOf(bound, current)
  {
    clear := true;
    for k := 0 to |bound|
      invariant clear <==> ClearOf(bound[..k], current)
    {
      assert bound[..k + 1] == bound[..k] + [bound[k]];
      if Conflict(bound[k], current) {
        clear := false;
      }
    }
    assert bound[..|bound|] == bound;
  }

  // ---------------------------------------------------------------- Validate

  /** Validate's loop over the nodes: identities seen so far, claims collected so far, and whether anything was wrong. */
  method ValidateState(rules: Rules, state: State) returns (ok: bool)
    ensures ok <==> Valid(rules, state)
    ensures ok <==> PlainlyValid(rules, state)
  {
    hide NodeValid, AllClaims, NoClash, ClaimsDisjoint, RangesOf, PlainlyValid;
    ValidInPlainTerms(rules, state);
    ok := state.asOf != ZERO_TIME && rules.settingsOk(state.settings);
    var ids: set<string>, names: set<string>, bound: seq<Claim> := {}, {}, [];
    var nodes := state.nodes;
    NothingYet(rules, nodes[..0], state.asOf);
    for i := 0 to |nodes|
      invariant forall s :: s in ids <==> s in NodeIds(nodes[..i])
      invariant forall s :: s in names <==> s in NodeNames(nodes[..i])
      invariant bound == AllClaims(nodes[..i])
      invariant ok <==> state.asOf != ZERO_TIME && rules.settingsOk(state.settings) && Accepted(rules, nodes[..i], state.asOf)
    {
      var node := nodes[i];
      var conflict;
      ghost var before := bound;
      bound, conflict := AddClaims(node, bound);
      var nodeOk := ValidateNode(rules, node, state.asOf);
      AcceptedStep(rules, nodes, i, state.asOf, conflict, before, bound);
      ok := ok && node.shape.id !in ids && node.shape.name !in names && !conflict && nodeOk;
      ids, names := ids + {node.shape.id}, names + {node.shape.name};
    }
    assert nodes[..|nodes|] == nodes;
  }

  ghost predicate Accepted(rules: Rules, nodes: seq<Node>, asOf: int) {
    && NoDuplicates(NodeIds(nodes)) && NoDuplicates(NodeNames(nodes)) && ClaimsDisjoint(nodes)
    && forall n :: n in nodes ==> NodeValid(rules, n, asOf)
  }

  lemma NothingYet(rules: Rules, nodes: seq<Node>, asOf: int)
    requires nodes == []
    ensures AllClaims(nodes) == [] && Accepted(rules, nodes, asOf)
  {
  }

  lemma AcceptedStep(rules: Rules, nodes: seq<Node>, i: nat, asOf: int, conflict: bool, before: seq<Claim>, after: seq<Claim>)
    requires i < |nodes| && before == AllClaims(nodes[..i])
    requires after == before + ClaimsOf(nodes[i].shape.listen, RangesOf(nodes[i].shape.port))
    requires NoClash(after) <==> NoClash(before) && !conflict
    ensures after == AllClaims(nodes[..i + 1])
    ensures NodeIds(nodes[..i + 1]) == NodeIds(nodes[..i]) + [nodes[i].shape.id]
    ensures NodeNames(nodes[..i + 1]) == NodeNames(nodes[..i]) + [nodes[i].shape.name]
    ensures Accepted(rules, nodes[..i + 1], asOf) <==>
      && Accepted(rules, nodes[..i], asOf) && NodeValid(rules, nodes[i], asOf) && !conflict
      && nodes[i].shape.id !in NodeIds(nodes[..i]) && nodes[i].shape.name !in NodeNames(nodes[..i])
  {
    hide NodeValid, NoClash, ClaimsDisjoint, RangesOf, NoDuplicates;
    var init, next := nodes[..i], nodes[..i + 1];
    assert next[..|next| - 1] == init && next == init + [nodes[i]];
    ClaimsMatch(init);
    ClaimsMatch(next);
    NoDuplicatesAppend(NodeIds(init), nodes[i].shape.id);
    NoDuplicatesAppend(NodeNames(init), nodes[i].shape.name);
    assert NodeIds(next) == NodeIds(init) + [nodes[i].shape.id];
    assert NodeNames(next) == NodeNames(init) + [nodes[i].shape.name];
  }

  /** validateNode */
  method ValidateNode(rules: Rules, n: Node, asOf: int) returns (ok: bool)
    ensures ok <==> NodeValid(rules, n, asOf)
    ensures ok <==> PlainlyValidNode(rules, n, asOf)
  {
    hide NoDuplicates, PlainlyValidNode;
    NodeIsPlainlyValid(rules, n, asOf);
    ok := rules.shapeOk(n.shape) && PortOk(n.shape.port) && n.generation >= 1;
    var usersOk := ValidateUsers(rules, n);
    var effective := EffectiveUsers(n.users, asOf);
    ok := ok && usersOk && (n.enabled ==> effective != []);
    if n.shape.protocol == SHADOWSOCKS {
      ok := ok && |effective| <= 1 && forall u :: u in effective ==> rules.passwordOk(n.shape, u.credential);
    }
  }

  /** Node.EffectiveUsers */
  method EffectiveUsers(users: seq<User>, asOf: int) returns (effective: seq<User>)
    ensures effective == Effective(users, asOf)
    // exactly those enabled and not expired, as often and in the order in which they are listed
    ensures forall u ::
      multiset(effective)[u] == (if u.enabled && (u.expiresAt.None? || u.expiresAt.value > asOf) then multiset(users)[u] else 0)
    ensures Within(effective, users)
  {
    hide Within;
    effective := [];
    for i := 0 to |users|
      invariant effective + Effective(users[i..], asOf) == Effective(users, asOf)
    {
      var u := users[i];
      assert users[i..][1..] == users[i + 1..];
      if !u.enabled || (u.expiresAt.Some? && u.expiresAt.value <= asOf) {
        continue;
      }
      effective := effective + [u];
    }
    EffectiveCount(users, asOf);
  }

  /** The loop over a node's users: three sets of identities, as in the source. */
  method ValidateUsers(rules: Rules, n: Node) returns (ok: bool)
    ensures ok <==> UsersValid(rules, n)
  {
    hide NoDuplicates;
    ok := true;
    var ids: set<string>, names: set<string>, credentials: set<Option<string>> := {}, {}, {};
    NothingDuplicated();
    for i := 0 to |n.users|
      invariant ok <==> UsersAccepted(rules, n, i)
      invariant forall s :: s in ids <==> s in Ids(n.users)[..i]
      invariant forall s :: s in names <==> s in Names(n.users)[..i]
      invariant forall c: Option<string> :: c.Some? ==> (c in credentials <==> c in Credentials(rules, n)[..i])
    {
      var u := n.users[i];
      UsersStep(rules, n, i);
      ok := ok && u.id !in ids && u.name !in names;
      ids, names := ids + {u.id}, names + {u.name};
      var credential := CredentialOf(rules, n, u);
      if credential.None? || credential in credentials {
        ok := false;
      } else {
        credentials := credentials + {credential};
      }
    }
    WholeUsers(rules, n);
  }

  ghost predicate UsersAccepted(rules: Rules, n: Node, i: nat)
    requires i <= |n.users|
  {
    && NoDuplicates(Ids(n.users)[..i]) && NoDuplicates(Names(n.users)[..i]) && NoDuplicates(Credentials(rules, n)[..i])
    && forall k :: 0 <= k < i ==> CredentialOf(rules, n, n.users[k]).Some?
  }

  lemma NothingDuplicated()
    ensures NoDuplicates<string>([]) && NoDuplicates<Option<string>>([])
  {
  }

  lemma UsersStep(rules: Rules, n: Node, i: nat)
    requires i < |n.users|
    ensures var u := n.users[i];
      UsersAccepted(rules, n, i + 1) <==>
        && UsersAccepted(rules, n, i) && u.id !in Ids(n.users)[..i] && u.name !in Names(n.users)[..i]
        && CredentialOf(rules, n, u).Some? && CredentialOf(rules, n, u) !in Credentials(rules, n)[..i]
    ensures Ids(n.users)[..i + 1] == Ids(n.users)[..i] + [n.users[i].id]
    ensures Names(n.users)[..i + 1] == Names(n.users)[..i] + [n.users[i].name]
    ensures Credentials(rules, n)[..i + 1] == Credentials(rules, n)[..i] + [CredentialOf(rules, n, n.users[i])]
  {
    hide NoDuplicates;
    assert Ids(n.users)[..i + 1] == Ids(n.users)[..i] + [n.users[i].id];
    assert Names(n.users)[..i + 1] == Names(n.users)[..i] + [n.users[i].name];
    assert Credentials(rules, n)[..i + 1] == Credentials(rules, n)[..i] + [CredentialOf(rules, n, n.users[i])];
    NoDuplicatesAppend(Ids(n.users)[..i], n.users[i].id);
    NoDuplicatesAppend(Names(n.users)[..i], n.users[i].name);
    NoDuplicatesAppend(Credentials(rules, n)[..i], CredentialOf(rules, n, n.users[i]));
  }

  lemma WholeUsers(rules: Rules, n: Node)
    ensures UsersAccepted(rules, n, |n.users|) <==> UsersValid(rules, n)
  {
    var m := |n.users|;
    assert Ids(n.users)[..m] == Ids(n.users) && Names(n.users)[..m] == Names(n.users);
    assert Credentials(rules, n)[..m] == Credentials(rules, n);
  }
}
