/** Binding nodes to approved host routes and rebinding after one machine was
    replaced (provider_inventory.py, provider_plan.py, replacement_binding.py,
    replacement_policy.py): routes and nodes correspond one to one throughout. */
module Replacement {
  import opened Sets
  import opened Wrappers

  datatype Family = V4 | V6
  datatype Address = Address(family: Family, bits: nat)

  /** An approved route as configured: a canonical host CIDR, which names one
      address, or any text that is not one. */
  datatype Route = Host(address: Address) | Malformed

  datatype Machine = Machine(system: nat, boot: nat)
  datatype Runtime = Runtime(kubelet: string, kernel: string, runtime: string, osImage: string, architecture: string)

  datatype Effect = NoSchedule | NoExecute | PreferNoSchedule | OtherEffect

  /** A live node. The pool is the value of its provider's pool label, the addresses
      are its unscoped internal addresses, which may fail to parse, and machine is
      missing unless both identities are proper UUIDs. */
  datatype Node = Node(
    linux: bool, name: string, uid: string, providerID: string, pool: Option<string>,
    deleting: bool, unschedulable: bool, ready: bool, taints: seq<Effect>,
    addresses: set<Address>, addressesParse: bool, machine: Option<Machine>, runtime: Runtime)

  datatype Binding = Binding(name: string, uid: string, route: Route, providerID: string)

  datatype Provider = GKE | EKS | AKS | SelfManaged

  /** The texts that the inventory profile's three patterns match. */
  datatype Patterns = Patterns(osImage: string -> bool, runtime: string -> bool, architecture: string -> bool)

  /** The approved profile and configuration. */
  datatype Plan = Plan(
    provider: Provider, linuxNodes: nat, routes: seq<Route>, poolName: string, version: string, patterns: Patterns)
  datatype Bound = Bound(nodes: seq<Binding>, runtime: Runtime)

  // --------------------------------------------------------------- host routes

  ghost predicate Distinct<T>(s: seq<T>) {
    forall i, j | 0 <= i < j < |s| :: s[i] != s[j]
  }

  /** Canonical, allowed and unduplicated host routes, at most so many. */
  ghost predicate RoutesOk(routes: seq<Route>, maximum: nat, allowed: Address -> bool) {
    && 1 <= |routes| <= maximum
    && (forall i | 0 <= i < |routes| :: routes[i].Host? && allowed(routes[i].address))
    && Distinct(routes)
  }

  /** host_routes. */
  method HostRoutes(values: seq<Route>, maximum: nat, allowed: Address -> bool) returns (ok: bool)
    ensures ok <==> RoutesOk(values, maximum, allowed)
    ensures ok <==> && 0 < |values| <= maximum && (forall v | v in values :: v.Host? && allowed(v.address))
                    && forall i, j | 0 <= i < |values| && 0 <= j < |values| && i != j :: values[i] != values[j]
  {
    if !(1 <= |values| <= maximum) {
      return false;
    }
    var result: seq<Route> := [];
    for index := 0 to |values|
      invariant result == values[..index] && Distinct(result)
      invariant forall i | 0 <= i < index :: values[i].Host? && allowed(values[i].address)
    {
      var value := values[index];
      if value.Malformed? || !allowed(value.address) {
        return false;
      }
      if value in result {
        return false;
      }
      result := result + [value];
    }
    assert values[..|values|] == values;
    return true;
  }

  // ------------------------------------------------------------------- counting

  function Elements<T(==)>(s: seq<T>): set<T> {
    set x | x in s
  }

  /** len(set(s)) == len(s) says exactly that nothing is listed twice. */
  lemma {:induction false} DistinctSize<T>(s: seq<T>)
    ensures |Elements(s)| <= |s|
    ensures |Elements(s)| == |s| <==> Distinct(s)
  {
    if s != [] {
      var tail := s[1..];
      DistinctSize(tail);
      assert Elements(s) == {s[0]} + Elements(tail);
      if s[0] in tail {
        assert Elements(s) == Elements(tail);
        var j :| 0 <= j < |tail| && tail[j] == s[0];
        assert s[0] == s[j + 1];
      } else {
        assert s[0] !in Elements(tail);
        if Distinct(tail) {
          forall i, j | 0 <= i < j < |s| ensures s[i] != s[j] {
            assert s[j] == tail[j - 1];
            if i > 0 {
              assert s[i] == tail[i - 1];
            }
          }
        } else {
          var i, j :| 0 <= i < j < |tail| && tail[i] == tail[j];
          assert s[i + 1] == s[j + 1];
        }
      }
    }
  }

  // ------------------------------------------------------------------ bind_nodes

  function LinuxNodes(items: seq<Node>): seq<Node> {
    if items == [] then []
    else (if items[0].linux then [items[0]] else []) + LinuxNodes(items[1..])
  }

  /** The configured routes whose address the node has, in configured order. */
  function Matches(routes: seq<Route>, addresses: set<Address>): seq<Route> {
    if routes == [] then []
    else (if routes[0].Host? && routes[0].address in addresses then [routes[0]] else [])
         + Matches(routes[1..], addresses)
  }

  lemma {:induction false} MatchesAre(routes: seq<Route>, addresses: set<Address>)
    ensures forall r | r in Matches(routes, addresses) :: r in routes && r.Host? && r.address in addresses
    ensures forall r | r in routes && r.Host? && r.address in addresses :: r in Matches(routes, addresses)
  {
    if routes != [] {
      MatchesAre(routes[1..], addresses);
      assert routes == [routes[0]] + routes[1..];
    }
  }

  function Names(bindings: seq<Binding>): (s: seq<string>) ensures |s| == |bindings| {
    seq(|bindings|, i requires 0 <= i < |bindings| => bindings[i].name)
  }

  function Uids(bindings: seq<Binding>): (s: seq<string>) ensures |s| == |bindings| {
    seq(|bindings|, i requires 0 <= i < |bindings| => bindings[i].uid)
  }

  function Routes(bindings: seq<Binding>): (s: seq<Route>) ensures |s| == |bindings| {
    seq(|bindings|, i requires 0 <= i < |bindings| => bindings[i].route)
  }

  function Instances(bindings: seq<Binding>): (s: seq<string>) ensures |s| == |bindings| {
    seq(|bindings|, i requires 0 <= i < |bindings| => bindings[i].providerID)
  }

  /** Bindings and routes correspond one to one. */
  ghost predicate OneToOne(bindings: seq<Binding>, routes: seq<Route>) {
    && |bindings| == |routes|
    && (forall i | 0 <= i < |bindings| :: bindings[i].route in routes)
    && (forall r | r in routes :: exists i | 0 <= i < |bindings| :: bindings[i].route == r)
    && Distinct(Routes(bindings))
  }

  /** As many distinctly routed bindings as there are routes use every route. */
  lemma {:induction false} Pigeonhole(bindings: seq<Binding>, routes: seq<Route>)
    requires |bindings| == |routes| && Distinct(routes) && Distinct(Routes(bindings))
    requires forall i | 0 <= i < |bindings| :: bindings[i].route in routes
    ensures OneToOne(bindings, routes)
  {
    var used := Routes(bindings);
    DistinctSize(used);
    DistinctSize(routes);
    forall r | r in Elements(used) ensures r in Elements(routes) {
      var i :| 0 <= i < |used| && used[i] == r;
      assert bindings[i].route in routes;
    }
    SubsetSize(Elements(used), Elements(routes));
    forall r | r in routes ensures exists i | 0 <= i < |bindings| :: bindings[i].route == r {
      assert r in Elements(used);
      var i :| 0 <= i < |used| && used[i] == r;
      assert bindings[i].route == r;
    }
  }

  predicate Less(a: string, b: string) {
    if a == [] || b == [] then a == [] && b != []
    else a[0] < b[0] || (a[0] == b[0] && Less(a[1..], b[1..]))
  }

  function InsertByName(b: Binding, s: seq<Binding>): seq<Binding> {
    if s == [] || !Less(s[0].name, b.name) then [b] + s else [s[0]] + InsertByName(b, s[1..])
  }

  /** sorted(bindings, key=name). */
  function SortByName(s: seq<Binding>): seq<Binding> {
    if s == [] then [] else InsertByName(s[0], SortByName(s[1..]))
  }

  lemma {:induction false} InsertKeeps(b: Binding, s: seq<Binding>)
    ensures multiset(InsertByName(b, s)) == multiset(s) + multiset{b}
  {
    if s != [] && Less(s[0].name, b.name) {
      InsertKeeps(b, s[1..]);
      assert s == [s[0]] + s[1..];
    }
  }

  lemma {:induction false} SameMembers<T>(s: seq<T>, t: seq<T>)
    requires multiset(s) == multiset(t)
    ensures |s| == |t|
    ensures forall x :: x in s <==> x in t
  {
    assert |multiset(s)| == |s| && |multiset(t)| == |t|;
    forall x ensures x in s <==> x in t {
      assert x in s <==> x in multiset(s);
      assert x in t <==> x in multiset(t);
    }
  }

  lemma {:induction false} SortKeeps(s: seq<Binding>)
    ensures multiset(SortByName(s)) == multiset(s)
  {
    if s != [] {
      SortKeeps(s[1..]);
      InsertKeeps(s[0], SortByName(s[1..]));
      assert s == [s[0]] + s[1..];
    }
  }

  /** Two places of a list that hold the same key hold it twice in any order. */
  lemma {:induction false} DistinctByKey(s: seq<Binding>, t: seq<Binding>)
    requires multiset(s) == multiset(t) && Distinct(Routes(s)) && Distinct(Uids(s))
    ensures Distinct(Routes(t)) && Distinct(Uids(t))
  {
    forall i, j | 0 <= i < j < |t| ensures Routes(t)[i] != Routes(t)[j] && Uids(t)[i] != Uids(t)[j] {
      assert t[i] in multiset(s) && t[j] in multiset(s);
      var a :| 0 <= a < |s| && s[a] == t[i];
      var b :| 0 <= b < |s| && s[b] == t[j];
      if a == b {
        TwiceTwice(s, t, i, j);
      } else if a < b {
        assert Routes(s)[a] != Routes(s)[b] && Uids(s)[a] != Uids(s)[b];
      } else {
        assert Routes(s)[b] != Routes(s)[a] && Uids(s)[b] != Uids(s)[a];
      }
    }
  }

  lemma {:induction false} TwiceTwice(s: seq<Binding>, t: seq<Binding>, i: nat, j: nat)
    requires multiset(s) == multiset(t) && i < j < |t| && t[i] == t[j]
    ensures !Distinct(Uids(s))
  {
    assert t == t[..i] + [t[i]] + t[i + 1..j] + [t[j]] + t[j + 1..];
    assert multiset(s)[t[i]] >= 2;
    var a, b := TwoPlaces(s, t[i]);
    assert Uids(s)[a] == Uids(s)[b];
  }

  lemma {:induction false} TwoPlaces(s: seq<Binding>, x: Binding) returns (a: nat, b: nat)
    requires multiset(s)[x] >= 2
    ensures a < b < |s| && s[a] == s[b] == x
  {
    assert s == [s[0]] + s[1..];
    if s[0] == x {
      assert x in multiset(s[1..]);
      var k :| 0 <= k < |s| - 1 && s[1..][k] == x;
      a, b := 0, k + 1;
    } else {
      var c, d := TwoPlaces(s[1..], x);
      a, b := c + 1, d + 1;
    }
  }

  /** The route a node is bound to. */
  function Selected(routes: seq<Route>, node: Node): Route {
    var matching := Matches(routes, node.addresses);
    if |matching| == 1 then matching[0] else Malformed
  }

  function BindingOf(routes: seq<Route>, node: Node): Binding {
    Binding(node.name, node.uid, Selected(routes, node), node.providerID)
  }

  /** Exactly one approved route is an address of the node. */
  predicate Fits(routes: seq<Route>, node: Node) {
    |Matches(routes, node.addresses)| == 1
  }

  /** The prefix of instance identities where the provider manages them. */
  function InstancePrefix(provider: Provider): Option<string> {
    match provider
    case GKE => Some("gce://")
    case EKS => Some("aws://")
    case AKS => Some("azure://")
    case SelfManaged => None
  }

  function WithoutV(version: string): string {
    if version != [] && version[0] == 'v' then version[1..] else version
  }

  /** The control plane has the approved version, or on EKS an abbreviation of it. */
  predicate VersionOk(plan: Plan, control: string) {
    var live := WithoutV(plan.version);
    live == WithoutV(control) || (plan.provider == EKS && WithoutV(control) + ['.'] <= live)
  }

  /** The node is of the approved pool, version and runtime, and takes any workload. */
  predicate Serves(plan: Plan, node: Node) {
    && (plan.provider == SelfManaged || node.pool == Some(plan.poolName))
    && !node.deleting && !node.unschedulable && node.ready
    && NoSchedule !in node.taints && NoExecute !in node.taints
    && plan.patterns.osImage(node.runtime.osImage) && plan.patterns.runtime(node.runtime.runtime)
    && plan.patterns.architecture(node.runtime.architecture)
    && WithoutV(node.runtime.kubelet) == WithoutV(plan.version)
    && node.addressesParse
  }

  function Bindings(routes: seq<Route>, linux: seq<Node>): (s: seq<Binding>) ensures |s| == |linux| {
    seq(|linux|, i requires 0 <= i < |linux| => BindingOf(routes, linux[i]))
  }

  ghost predicate OneRuntime(linux: seq<Node>) {
    linux != [] && forall i | 0 <= i < |linux| :: linux[i].runtime == linux[0].runtime
  }

  /** No name, identity, route or, where the provider manages them, instance is used twice. */
  ghost predicate Unambiguous(prefix: Option<string>, bindings: seq<Binding>) {
    && Distinct(Names(bindings)) && Distinct(Uids(bindings)) && Distinct(Routes(bindings))
    && (prefix.Some? ==>
          Distinct(Instances(bindings)) && forall i | 0 <= i < |bindings| :: prefix.value <= bindings[i].providerID)
  }

  ghost predicate Bindable(plan: Plan, control: string, items: seq<Node>) {
    var linux := LinuxNodes(items);
    && |items| <= 128 && |linux| == plan.linuxNodes
    && (forall i | 0 <= i < |linux| :: Serves(plan, linux[i]))
    && (forall i | 0 <= i < |linux| :: Fits(plan.routes, linux[i]))
    && OneRuntime(linux)
    && Unambiguous(InstancePrefix(plan.provider), Bindings(plan.routes, linux))
    && VersionOk(plan, control)
  }

  lemma {:induction false} OnlyOne<T>(s: set<T>, x: T, y: T)
    requires |s| == 1 && x in s && y in s
    ensures x == y
  {
    if x != y {
      SubsetSize({x, y}, s);
    }
  }

  /** The set of distinct tuples is a singleton exactly when there is one runtime. */
  lemma {:induction false} OneTuple(linux: seq<Node>, tuples: set<Runtime>)
    requires tuples == set k | 0 <= k < |linux| :: linux[k].runtime
    ensures |tuples| == 1 <==> OneRuntime(linux)
  {
    if OneRuntime(linux) {
      assert tuples == {linux[0].runtime};
    } else if |tuples| == 1 {
      assert tuples != {};
      assert linux != [];
      forall i | 0 <= i < |linux| ensures linux[i].runtime == linux[0].runtime {
        OnlyOne(tuples, linux[i].runtime, linux[0].runtime);
      }
    }
  }

  /** The loop of bind_nodes. */
  method Collect(plan: Plan, linux: seq<Node>) returns (ok: bool, tuples: set<Runtime>, bindings: seq<Binding>)
    ensures ok <==> && (forall i | 0 <= i < |linux| :: Serves(plan, linux[i]))
                    && (forall i | 0 <= i < |linux| :: Fits(plan.routes, linux[i]))
    ensures ok ==> && tuples == (set k | 0 <= k < |linux| :: linux[k].runtime)
                   && bindings == Bindings(plan.routes, linux)
  {
    var routes := plan.routes;
    tuples, bindings := {}, [];
    for index := 0 to |linux|
      invariant tuples == set k | 0 <= k < index :: linux[k].runtime
      invariant |bindings| == index && forall k | 0 <= k < index :: bindings[k] == BindingOf(routes, linux[k])
      invariant forall k | 0 <= k < index :: Serves(plan, linux[k])
      invariant forall k | 0 <= k < index :: Fits(routes, linux[k])
    {
      var node := linux[index];
      if !Serves(plan, node) {
        return false, {}, [];
      }
      tuples := tuples + {node.runtime};
      var selected := Matches(routes, node.addresses);
      if |selected| != 1 {
        return false, {}, [];
      }
      bindings := bindings + [Binding(node.name, node.uid, selected[0], node.providerID)];
    }
    return true, tuples, bindings;
  }

  method CheckUnique(prefix: Option<string>, bindings: seq<Binding>) returns (ok: bool)
    ensures ok <==> Unambiguous(prefix, bindings)
  {
    DistinctSize(Names(bindings));
    DistinctSize(Uids(bindings));
    DistinctSize(Routes(bindings));
    DistinctSize(Instances(bindings));
    ok := && |Elements(Names(bindings))| == |bindings| && |Elements(Uids(bindings))| == |bindings|
          && |Elements(Routes(bindings))| == |bindings|;
    if prefix.Some? && ok {
      ok := && (forall i | 0 <= i < |bindings| :: prefix.value <= bindings[i].providerID)
            && |Elements(Instances(bindings))| == |bindings|;
    }
  }

  /** bind_nodes. */
  method BindNodes(plan: Plan, control: string, items: seq<Node>) returns (r: Option<Bound>)
    requires forall i | 0 <= i < |plan.routes| :: plan.routes[i].Host?
    ensures r.Some? <==> Bindable(plan, control, items)
    ensures r.Some? ==> r.value.nodes == SortByName(Bindings(plan.routes, LinuxNodes(items)))
    ensures r.Some? ==> r.value.runtime == LinuxNodes(items)[0].runtime
    ensures r.Some? <==> ApprovedPool(plan, control, items)
    ensures r.Some? ==> && |r.value.nodes| == plan.linuxNodes
                        && (forall b :: b in r.value.nodes <==> BindsOne(plan, b, items))
                        && (forall n | n in items && n.linux :: n.runtime == r.value.runtime)
    ensures r.Some? ==> forall i, j | 0 <= i < j < |r.value.nodes| ::
                          !Precedes(r.value.nodes[j].name, r.value.nodes[i].name)
  {
    BindableExact(plan, control, items);
    if Bindable(plan, control, items) {
      BoundExact(plan, control, items);
    }
    if |items| > 128 {
      return None;
    }
    var linux := LinuxNodes(items);
    if |linux| != plan.linuxNodes {
      return None;
    }
    var fits, tuples, bindings := Collect(plan, linux);
    if !fits {
      return None;
    }
    OneTuple(linux, tuples);
    if |tuples| != 1 {
      return None;
    }
    var unique := CheckUnique(InstancePrefix(plan.provider), bindings);
    if !unique || !VersionOk(plan, control) {
      return None;
    }
    var runtime :| runtime in tuples;
    OnlyOne(tuples, runtime, linux[0].runtime);
    forall n | n in items && n.linux ensures n.runtime == runtime {
      LinuxAmong(items, n);
    }
    return Some(Bound(SortByName(bindings), runtime));
  }

  // ------------------------------------------------------- what bind_nodes means

  lemma {:induction false} LessIsStrict(a: string, b: string)
    requires Less(a, b)
    ensures !Less(b, a)
  {
    if a != [] && a[0] == b[0] {
      LessIsStrict(a[1..], b[1..]);
    }
  }

  ghost predicate Ascending(s: seq<Binding>) {
    |s| > 1 ==> !Less(s[1].name, s[0].name) && Ascending(s[1..])
  }

  lemma {:induction false} InsertKeepsOrder(b: Binding, s: seq<Binding>)
    requires Ascending(s)
    ensures Ascending(InsertByName(b, s))
  {
    if s != [] && Less(s[0].name, b.name) {
      LessIsStrict(s[0].name, b.name);
      InsertKeepsOrder(b, s[1..]);
      assert InsertByName(b, s)[1..] == InsertByName(b, s[1..]);
    } else {
      assert ([b] + s)[1..] == s;
    }
  }

  lemma {:induction false} SortOrders(s: seq<Binding>)
    ensures Ascending(SortByName(s))
  {
    if s != [] {
      SortOrders(s[1..]);
      InsertKeepsOrder(s[0], SortByName(s[1..]));
    }
  }

  lemma {:induction false} SelectedIsApproved(routes: seq<Route>, node: Node)
    requires Fits(routes, node)
    ensures Selected(routes, node) in routes && Selected(routes, node).Host?
    ensures Selected(routes, node).address in node.addresses
    ensures forall r | r in routes && r.Host? && r.address in node.addresses :: r == Selected(routes, node)
  {
    MatchesAre(routes, node.addresses);
    var matching := Matches(routes, node.addresses);
    assert matching[0] in matching;
    assert matching == [matching[0]];
  }

  /** The first differs from the second at some place by an earlier character or by
      having ended. */
  ghost predicate Precedes(a: string, b: string) {
    exists k: nat :: k <= |a| && k < |b| && a[..k] == b[..k] && (k == |a| || a[k] < b[k])
  }

  lemma {:induction false} LessExact(a: string, b: string)
    ensures Less(a, b) <==> Precedes(a, b)
  {
    if a != [] && b != [] {
      LessExact(a[1..], b[1..]);
      if a[0] == b[0] && Precedes(a[1..], b[1..]) {
        var k: nat :| k <= |a| - 1 && k < |b| - 1 && a[1..][..k] == b[1..][..k]
                      && (k == |a| - 1 || a[1..][k] < b[1..][k]);
        assert a[..k + 1] == [a[0]] + a[1..][..k] && b[..k + 1] == [b[0]] + b[1..][..k];
        assert Precedes(a, b);
      }
      if a[0] < b[0] {
        assert a[..0] == b[..0];
        assert Precedes(a, b);
      }
      if Precedes(a, b) {
        var k: nat :| k <= |a| && k < |b| && a[..k] == b[..k] && (k == |a| || a[k] < b[k]);
        if k > 0 {
          assert a[0] == a[..k][0] == b[..k][0] == b[0];
          assert a[1..][..k - 1] == a[..k][1..] && b[1..][..k - 1] == b[..k][1..];
          assert Precedes(a[1..], b[1..]);
        }
      }
    } else if a == [] && b != [] {
      assert a[..0] == b[..0];
    }
  }

  lemma {:induction false} NotLessOn(a: string, b: string, c: string)
    requires !Less(b, a) && !Less(c, b)
    ensures !Less(c, a)
  {
    if a != [] && b != [] && c != [] && a[0] == b[0] == c[0] {
      NotLessOn(a[1..], b[1..], c[1..]);
    }
  }

  lemma {:induction false} AscendingPairs(s: seq<Binding>, i: nat, j: nat)
    requires Ascending(s) && i < j < |s|
    ensures !Precedes(s[j].name, s[i].name)
  {
    if i > 0 {
      AscendingPairs(s[1..], i - 1, j - 1);
    } else {
      LessExact(s[j].name, s[0].name);
      FirstIsLeast(s, j);
    }
  }

  lemma {:induction false} FirstIsLeast(s: seq<Binding>, j: nat)
    requires Ascending(s) && 0 < j < |s|
    ensures !Less(s[j].name, s[0].name)
  {
    if j > 1 {
      FirstIsLeast(s[1..], j - 1);
      NotLessOn(s[0].name, s[1].name, s[j].name);
    }
  }

  predicate HasRoute(node: Node, route: Route) {
    route.Host? && route.address in node.addresses
  }

  /** The binding is that of some Linux node. */
  ghost predicate BindsSome(b: Binding, routes: seq<Route>, linux: seq<Node>) {
    exists i | 0 <= i < |linux| :: b == BindingOf(routes, linux[i])
  }

  lemma {:induction false} BindingsAreRouted(routes: seq<Route>, linux: seq<Node>, nodes: seq<Binding>)
    requires forall i | 0 <= i < |linux| :: Fits(routes, linux[i])
    requires multiset(Bindings(routes, linux)) == multiset(nodes)
    ensures forall i | 0 <= i < |nodes| :: nodes[i].route in routes
    ensures forall b :: b in nodes <==> BindsSome(b, routes, linux)
  {
    var bindings := Bindings(routes, linux);
    SameMembers(bindings, nodes);
    forall b ensures b in nodes <==> BindsSome(b, routes, linux) {
      if b in bindings {
        var k :| 0 <= k < |bindings| && bindings[k] == b;
        assert b == BindingOf(routes, linux[k]);
      }
      if BindsSome(b, routes, linux) {
        var k :| 0 <= k < |linux| && b == BindingOf(routes, linux[k]);
        assert bindings[k] == b;
      }
    }
    forall i | 0 <= i < |nodes| ensures nodes[i].route in routes {
      assert nodes[i] in nodes;
      var k :| 0 <= k < |linux| && nodes[i] == BindingOf(routes, linux[k]);
      SelectedIsApproved(routes, linux[k]);
    }
  }

  /** Whatever is bound is ordered by name, uses every approved route exactly once,
      and gives each Linux node the only approved route it has. */
  lemma {:induction false} BoundIsOneToOne(plan: Plan, control: string, items: seq<Node>, allowed: Address -> bool)
    requires Bindable(plan, control, items)
    requires RoutesOk(plan.routes, plan.linuxNodes, allowed) && |plan.routes| == plan.linuxNodes
    ensures var linux := LinuxNodes(items); var nodes := SortByName(Bindings(plan.routes, linux));
            && OneToOne(nodes, plan.routes) && Distinct(Uids(nodes)) && Ascending(nodes)
            && (forall b :: b in nodes <==> BindsSome(b, plan.routes, linux))
            && (forall i | 0 <= i < |linux| :: HasRoute(linux[i], Selected(plan.routes, linux[i])))
  {
    var linux := LinuxNodes(items);
    var bindings := Bindings(plan.routes, linux);
    var nodes := SortByName(bindings);
    SortKeeps(bindings);
    SortOrders(bindings);
    SameMembers(bindings, nodes);
    DistinctByKey(bindings, nodes);
    BindingsAreRouted(plan.routes, linux, nodes);
    Pigeonhole(nodes, plan.routes);
    forall i | 0 <= i < |linux| ensures HasRoute(linux[i], Selected(plan.routes, linux[i])) {
      SelectedIsApproved(plan.routes, linux[i]);
    }
  }

  // --------------------------------------- which inventories are bindable, in full

  /** The places of the Linux nodes, in order. */
  function Places(items: seq<Node>): (places: seq<nat>) {
    if items == [] then []
    else
      var n := |items| - 1;
      Places(items[..n]) + if items[n].linux then [n] else []
  }

  lemma {:induction false} LinuxSnoc(front: seq<Node>, last: Node)
    ensures LinuxNodes(front + [last]) == LinuxNodes(front) + if last.linux then [last] else []
  {
    var all := front + [last];
    if front == [] {
      assert all == [last] && all[1..] == [];
      assert LinuxNodes(all[1..]) == [];
    } else {
      LinuxSnoc(front[1..], last);
      assert all[0] == front[0] && all[1..] == front[1..] + [last];
      assert LinuxNodes(all) == (if front[0].linux then [front[0]] else []) + LinuxNodes(front[1..] + [last]);
    }
  }

  /** A place holds the node at its position in the list. */
  ghost predicate PlaceAt(items: seq<Node>, linux: seq<Node>, places: seq<nat>, i: nat) {
    i < |linux| && i < |places| && places[i] < |items| && linux[i] == items[places[i]]
  }

  /** The Linux nodes are the items at exactly these places. */
  lemma {:induction false} LinuxPlaces(items: seq<Node>)
    ensures |Places(items)| == |LinuxNodes(items)|
    ensures forall i | 0 <= i < |Places(items)| :: PlaceAt(items, LinuxNodes(items), Places(items), i)
    ensures forall k: nat :: k in Places(items) <==> k < |items| && items[k].linux
    ensures forall i, j | 0 <= i < j < |Places(items)| :: Places(items)[i] < Places(items)[j]
  {
    if items != [] {
      var front, n := items[..|items| - 1], |items| - 1;
      LinuxPlaces(front);
      LinuxSnoc(front, items[n]);
      assert items == front + [items[n]];
      forall i | 0 <= i < |Places(items)| ensures PlaceAt(items, LinuxNodes(items), Places(items), i) {
        assert i < |Places(front)| ==> PlaceAt(front, LinuxNodes(front), Places(front), i);
      }
      forall i | 0 <= i < |Places(front)| ensures Places(front)[i] < n {
        assert PlaceAt(front, LinuxNodes(front), Places(front), i);
      }
    }
  }

  /** A version text without its leading v, taken off once. */
  ghost predicate Plain(text: string, version: string) {
    text == ['v'] + version || (text == version && !(['v'] <= version))
  }

  lemma {:induction false} PlainExact(text: string, version: string)
    ensures Plain(text, version) <==> WithoutV(text) == version
  {
    if text != [] && text[0] == 'v' {
      assert text == ['v'] + text[1..];
    }
  }

  ghost predicate SameVersion(a: string, b: string) {
    exists version :: Plain(a, version) && Plain(b, version)
  }

  /** On EKS the control plane may be named by the start of the version up to a dot. */
  ghost predicate Abbreviates(control: string, version: string) {
    exists live, short, rest :: Plain(version, live) && Plain(control, short) && live == short + "." + rest
  }

  lemma {:induction false} VersionExact(plan: Plan, control: string)
    ensures VersionOk(plan, control) <==>
            SameVersion(plan.version, control) || (plan.provider == EKS && Abbreviates(control, plan.version))
  {
    var live, short := WithoutV(plan.version), WithoutV(control);
    PlainExact(plan.version, live);
    PlainExact(control, short);
    forall version: string ensures Plain(plan.version, version) <==> version == live {
      PlainExact(plan.version, version);
    }
    forall version: string ensures Plain(control, version) <==> version == short {
      PlainExact(control, version);
    }
    if short + ['.'] <= live {
      assert live == short + "." + live[|short| + 1..];
    }
  }

  /** What the operator approved a node for. */
  ghost predicate Eligible(plan: Plan, n: Node) {
    && (plan.provider in {GKE, EKS, AKS} ==> n.pool.Some? && n.pool.value == plan.poolName)
    && !(n.deleting || n.unschedulable) && n.ready
    && (forall t | t in n.taints :: t == PreferNoSchedule || t == OtherEffect)
    && plan.patterns.osImage(n.runtime.osImage) && plan.patterns.runtime(n.runtime.runtime)
    && plan.patterns.architecture(n.runtime.architecture)
    && SameVersion(n.runtime.kubelet, plan.version) && n.addressesParse
  }

  lemma {:induction false} EligibleExact(plan: Plan, n: Node)
    ensures Eligible(plan, n) <==> Serves(plan, n)
  {
    var version := WithoutV(plan.version);
    PlainExact(plan.version, version);
    PlainExact(n.runtime.kubelet, version);
    if SameVersion(n.runtime.kubelet, plan.version) {
      var same :| Plain(n.runtime.kubelet, same) && Plain(plan.version, same);
      PlainExact(plan.version, same);
    }
    forall t | t in n.taints ensures t == PreferNoSchedule || t == OtherEffect <==> t != NoSchedule && t != NoExecute {
    }
  }

  /** The node has the route at this place and no other configured one. */
  ghost predicate OnlyRoute(routes: seq<Route>, n: Node, place: nat) {
    && place < |routes| && routes[place].Host? && routes[place].address in n.addresses
    && forall k | 0 <= k < |routes| && k != place :: routes[k].Malformed? || routes[k].address !in n.addresses
  }

  lemma {:induction false} NoMatches(routes: seq<Route>, addresses: set<Address>)
    ensures Matches(routes, addresses) == [] <==>
            forall k | 0 <= k < |routes| :: routes[k].Malformed? || routes[k].address !in addresses
  {
    if routes != [] {
      NoMatches(routes[1..], addresses);
      if Matches(routes, addresses) == [] {
        forall k | 0 <= k < |routes| ensures routes[k].Malformed? || routes[k].address !in addresses {
          assert k > 0 ==> routes[k] == routes[1..][k - 1];
        }
      }
    }
  }

  lemma {:induction false} MatchesOnly(routes: seq<Route>, n: Node, place: nat)
    requires OnlyRoute(routes, n, place)
    ensures Matches(routes, n.addresses) == [routes[place]]
  {
    var tail := routes[1..];
    if place == 0 {
      forall k | 0 <= k < |tail| ensures tail[k].Malformed? || tail[k].address !in n.addresses {
        assert tail[k] == routes[k + 1];
      }
      NoMatches(tail, n.addresses);
    } else {
      assert OnlyRoute(tail, n, place - 1);
      MatchesOnly(tail, n, place - 1);
      assert routes[0].Malformed? || routes[0].address !in n.addresses;
    }
  }

  lemma {:induction false} OnlyMatch(routes: seq<Route>, n: Node) returns (place: nat)
    requires |Matches(routes, n.addresses)| == 1
    ensures OnlyRoute(routes, n, place)
  {
    var tail := routes[1..];
    if routes[0].Host? && routes[0].address in n.addresses {
      NoMatches(tail, n.addresses);
      place := 0;
      forall k | 0 < k < |routes| ensures routes[k].Malformed? || routes[k].address !in n.addresses {
        assert routes[k] == tail[k - 1];
      }
    } else {
      var later := OnlyMatch(tail, n);
      place := later + 1;
      forall k | 0 <= k < |routes| && k != place ensures routes[k].Malformed? || routes[k].address !in n.addresses {
        assert k > 0 ==> routes[k] == tail[k - 1];
      }
    }
  }

  lemma {:induction false} FitsExact(routes: seq<Route>, n: Node)
    ensures Fits(routes, n) <==> exists place :: OnlyRoute(routes, n, place)
  {
    if Fits(routes, n) {
      var place := OnlyMatch(routes, n);
    }
    if exists place :: OnlyRoute(routes, n, place) {
      var place :| OnlyRoute(routes, n, place);
      MatchesOnly(routes, n, place);
    }
  }

  /** The instance identity is one of the provider's. */
  ghost predicate Instance(provider: Provider, providerID: string) {
    match provider
    case GKE => "gce://" <= providerID
    case EKS => "aws://" <= providerID
    case AKS => "azure://" <= providerID
    case SelfManaged => true
  }

  /** Two nodes share no name, no identity, no route and no managed instance. */
  ghost predicate Apart(plan: Plan, m: Node, n: Node) {
    && m.name != n.name && m.uid != n.uid
    && (forall place :: !(OnlyRoute(plan.routes, m, place) && OnlyRoute(plan.routes, n, place)))
    && (plan.provider != SelfManaged ==> m.providerID != n.providerID)
  }

  ghost predicate ApartAt(plan: Plan, items: seq<Node>, i: nat, j: nat)
    requires i < |items| && j < |items|
  {
    items[i].linux && items[j].linux ==> Apart(plan, items[i], items[j])
  }

  /** The places of all Linux nodes. */
  ghost predicate LinuxAre(items: seq<Node>, places: set<nat>) {
    forall k: nat :: k in places <==> k < |items| && items[k].linux
  }

  /** Everything that binding asks of an inventory, node by node and pair by pair. */
  ghost predicate ApprovedPool(plan: Plan, control: string, items: seq<Node>) {
    && |items| <= 128 && (exists places :: LinuxAre(items, places) && |places| == plan.linuxNodes > 0)
    && (forall n | n in items && n.linux :: Approved(plan, n))
    && (forall m, n | m in items && n in items && m.linux && n.linux :: m.runtime == n.runtime)
    && (forall i, j | 0 <= i < j < |items| :: ApartAt(plan, items, i, j))
    && (SameVersion(plan.version, control) || (plan.provider == EKS && Abbreviates(control, plan.version)))
  }

  ghost predicate Approved(plan: Plan, n: Node) {
    && Eligible(plan, n) && (exists place :: OnlyRoute(plan.routes, n, place))
    && Instance(plan.provider, n.providerID)
  }

  lemma {:induction false} LinuxAmong(items: seq<Node>, n: Node)
    ensures n in LinuxNodes(items) <==> n in items && n.linux
  {
    if items != [] {
      LinuxAmong(items[1..], n);
      assert items == [items[0]] + items[1..];
    }
  }

  lemma {:induction false} LinuxCount(items: seq<Node>, places: set<nat>)
    requires LinuxAre(items, places)
    ensures |places| == |LinuxNodes(items)|
  {
    var list := Places(items);
    LinuxPlaces(items);
    DistinctSize(list);
    assert Distinct(list);
    forall k: nat ensures k in places <==> k in Elements(list) {}
    assert places == Elements(list);
  }

  /** The routes that two nodes are bound to differ if no one place is both nodes' only route. */
  lemma {:induction false} RoutesApart(routes: seq<Route>, m: Node, n: Node)
    requires Fits(routes, m) && Fits(routes, n)
    ensures Selected(routes, m) != Selected(routes, n) <==>
            forall place :: !(OnlyRoute(routes, m, place) && OnlyRoute(routes, n, place))
  {
    var p := OnlyMatch(routes, m);
    var q := OnlyMatch(routes, n);
    MatchesOnly(routes, m, p);
    MatchesOnly(routes, n, q);
    if exists place :: OnlyRoute(routes, m, place) && OnlyRoute(routes, n, place) {
      var place :| OnlyRoute(routes, m, place) && OnlyRoute(routes, n, place);
      assert place == p && place == q;
    }
    if Selected(routes, m) == Selected(routes, n) {
      assert p == q;
    }
  }

  ghost predicate BoundApart(plan: Plan, m: Node, n: Node) {
    && m.name != n.name && m.uid != n.uid && Selected(plan.routes, m) != Selected(plan.routes, n)
    && (InstancePrefix(plan.provider).Some? ==> m.providerID != n.providerID)
  }

  predicate HasInstance(plan: Plan, n: Node) {
    InstancePrefix(plan.provider).Some? ==> InstancePrefix(plan.provider).value <= n.providerID
  }

  ghost predicate AllApart(plan: Plan, linux: seq<Node>) {
    forall i, j | 0 <= i < j < |linux| :: BoundApart(plan, linux[i], linux[j])
  }

  lemma {:induction false} UnambiguousExact(plan: Plan, linux: seq<Node>)
    ensures Unambiguous(InstancePrefix(plan.provider), Bindings(plan.routes, linux)) <==>
            AllApart(plan, linux) && forall i | 0 <= i < |linux| :: HasInstance(plan, linux[i])
  {
    var bindings := Bindings(plan.routes, linux);
    forall i | 0 <= i < |linux| ensures bindings[i] == BindingOf(plan.routes, linux[i]) {}
    if Unambiguous(InstancePrefix(plan.provider), bindings) {
      forall i, j | 0 <= i < j < |linux| ensures BoundApart(plan, linux[i], linux[j]) {
        assert Names(bindings)[i] != Names(bindings)[j] && Uids(bindings)[i] != Uids(bindings)[j];
        assert Routes(bindings)[i] != Routes(bindings)[j];
        if InstancePrefix(plan.provider).Some? {
          assert Instances(bindings)[i] != Instances(bindings)[j];
        }
      }
      forall i | 0 <= i < |linux| ensures HasInstance(plan, linux[i]) {
        assert bindings[i].providerID == linux[i].providerID;
      }
    }
    if AllApart(plan, linux) && forall i | 0 <= i < |linux| :: HasInstance(plan, linux[i]) {
      forall i, j | 0 <= i < j < |linux|
        ensures Names(bindings)[i] != Names(bindings)[j] && Uids(bindings)[i] != Uids(bindings)[j]
        ensures Routes(bindings)[i] != Routes(bindings)[j]
        ensures InstancePrefix(plan.provider).Some? ==> Instances(bindings)[i] != Instances(bindings)[j]
      {
        assert BoundApart(plan, linux[i], linux[j]);
      }
      forall i | 0 <= i < |linux| && InstancePrefix(plan.provider).Some?
        ensures InstancePrefix(plan.provider).value <= bindings[i].providerID
      {
        assert HasInstance(plan, linux[i]);
      }
    }
  }

  lemma {:induction false} PairsExact(plan: Plan, items: seq<Node>)
    requires forall n | n in items && n.linux :: Fits(plan.routes, n)
    ensures AllApart(plan, LinuxNodes(items)) <==>
            forall i, j | 0 <= i < j < |items| :: ApartAt(plan, items, i, j)
  {
    var linux, places := LinuxNodes(items), Places(items);
    LinuxPlaces(items);
    if AllApart(plan, linux) {
      forall i, j | 0 <= i < j < |items| ensures ApartAt(plan, items, i, j) {
        if items[i].linux && items[j].linux {
          var a :| 0 <= a < |places| && places[a] == i;
          var b :| 0 <= b < |places| && places[b] == j;
          assert PlaceAt(items, linux, places, a) && PlaceAt(items, linux, places, b);
          assert a < b;
          assert BoundApart(plan, linux[a], linux[b]);
          RoutesApart(plan.routes, items[i], items[j]);
        }
      }
    }
    if forall i, j | 0 <= i < j < |items| :: ApartAt(plan, items, i, j) {
      forall i, j | 0 <= i < j < |linux| ensures BoundApart(plan, linux[i], linux[j]) {
        assert PlaceAt(items, linux, places, i) && PlaceAt(items, linux, places, j);
        assert places[i] in places && places[j] in places;
        assert ApartAt(plan, items, places[i], places[j]);
        RoutesApart(plan.routes, linux[i], linux[j]);
      }
    }
  }

  lemma {:induction false} RuntimesExact(items: seq<Node>)
    ensures OneRuntime(LinuxNodes(items)) <==>
            && LinuxNodes(items) != []
            && forall m, n | m in items && n in items && m.linux && n.linux :: m.runtime == n.runtime
  {
    var linux := LinuxNodes(items);
    forall n ensures n in linux <==> n in items && n.linux {
      LinuxAmong(items, n);
    }
    if OneRuntime(linux) {
      forall n | n in linux ensures n.runtime == linux[0].runtime {
        var k :| 0 <= k < |linux| && linux[k] == n;
      }
    }
    if linux != [] && forall m, n | m in items && n in items && m.linux && n.linux :: m.runtime == n.runtime {
      forall i | 0 <= i < |linux| ensures linux[i].runtime == linux[0].runtime {
        assert linux[i] in linux && linux[0] in linux;
      }
    }
  }

  predicate Acceptable(plan: Plan, n: Node) {
    Serves(plan, n) && Fits(plan.routes, n) && HasInstance(plan, n)
  }

  lemma {:induction false} ApprovedExact(plan: Plan, n: Node)
    ensures Approved(plan, n) <==> Acceptable(plan, n)
  {
    EligibleExact(plan, n);
    FitsExact(plan.routes, n);
  }

  ghost predicate AllAcceptable(plan: Plan, linux: seq<Node>) {
    forall i | 0 <= i < |linux| :: Acceptable(plan, linux[i])
  }

  lemma {:induction false} NodesExact(plan: Plan, items: seq<Node>)
    ensures AllAcceptable(plan, LinuxNodes(items)) <==> forall n | n in items && n.linux :: Approved(plan, n)
  {
    var linux := LinuxNodes(items);
    if AllAcceptable(plan, linux) {
      forall n | n in items && n.linux ensures Approved(plan, n) {
        LinuxAmong(items, n);
        var i :| 0 <= i < |linux| && linux[i] == n;
        ApprovedExact(plan, n);
      }
    }
    if forall n | n in items && n.linux :: Approved(plan, n) {
      forall i | 0 <= i < |linux| ensures Acceptable(plan, linux[i]) {
        LinuxAmong(items, linux[i]);
        ApprovedExact(plan, linux[i]);
      }
    }
  }

  lemma {:induction false} BindableParts(plan: Plan, control: string, items: seq<Node>)
    ensures var linux := LinuxNodes(items);
            Bindable(plan, control, items) <==>
            && |items| <= 128 && |linux| == plan.linuxNodes && AllAcceptable(plan, linux) && AllApart(plan, linux)
            && OneRuntime(linux) && VersionOk(plan, control)
  {
    UnambiguousExact(plan, LinuxNodes(items));
  }

  lemma {:induction false} CountExact(items: seq<Node>, n: nat)
    ensures |LinuxNodes(items)| == n <==> exists places :: LinuxAre(items, places) && |places| == n
  {
    var places := Elements(Places(items));
    LinuxPlaces(items);
    assert LinuxAre(items, places);
    LinuxCount(items, places);
    if exists other :: LinuxAre(items, other) && |other| == n {
      var other :| LinuxAre(items, other) && |other| == n;
      LinuxCount(items, other);
    }
  }

  /** An inventory is bound if and only if it is the approved pool. */
  lemma {:induction false} BindableExact(plan: Plan, control: string, items: seq<Node>)
    ensures Bindable(plan, control, items) <==> ApprovedPool(plan, control, items)
  {
    BindableParts(plan, control, items);
    CountExact(items, plan.linuxNodes);
    VersionExact(plan, control);
    RuntimesExact(items);
    NodesExact(plan, items);
    if forall n | n in items && n.linux :: Approved(plan, n) {
      forall n | n in items && n.linux ensures Fits(plan.routes, n) {
        ApprovedExact(plan, n);
      }
      PairsExact(plan, items);
    }
  }

  /** The binding is that of this node, with its only route. */
  ghost predicate Binds(plan: Plan, b: Binding, n: Node) {
    && b.name == n.name && b.uid == n.uid && b.providerID == n.providerID
    && exists place: nat :: OnlyRoute(plan.routes, n, place) && b.route == plan.routes[place]
  }

  ghost predicate BindsOne(plan: Plan, b: Binding, items: seq<Node>) {
    exists n :: n in items && n.linux && Binds(plan, b, n)
  }

  lemma {:induction false} BindingBinds(plan: Plan, b: Binding, n: Node)
    requires Fits(plan.routes, n)
    ensures b == BindingOf(plan.routes, n) <==> Binds(plan, b, n)
  {
    var place := OnlyMatch(plan.routes, n);
    MatchesOnly(plan.routes, n, place);
    if Binds(plan, b, n) {
      var other: nat :| OnlyRoute(plan.routes, n, other) && b.route == plan.routes[other];
      assert other == place;
    }
  }

  /** What is bound: each Linux node with its only route, in the order of the names. */
  lemma {:induction false} BoundExact(plan: Plan, control: string, items: seq<Node>)
    requires Bindable(plan, control, items)
    ensures var nodes := SortByName(Bindings(plan.routes, LinuxNodes(items)));
            && |nodes| == plan.linuxNodes
            && (forall i, j | 0 <= i < j < |nodes| :: !Precedes(nodes[j].name, nodes[i].name))
            && forall b :: b in nodes <==> BindsOne(plan, b, items)
  {
    var linux := LinuxNodes(items);
    var bindings := Bindings(plan.routes, linux);
    var nodes := SortByName(bindings);
    SortKeeps(bindings);
    SortOrders(bindings);
    SameMembers(bindings, nodes);
    forall i, j | 0 <= i < j < |nodes| ensures !Precedes(nodes[j].name, nodes[i].name) {
      AscendingPairs(nodes, i, j);
    }
    forall b ensures b in bindings <==> BindsOne(plan, b, items) {
      BindsOneExact(plan, b, items);
    }
  }

  lemma {:induction false} BindsOneExact(plan: Plan, b: Binding, items: seq<Node>)
    requires forall i | 0 <= i < |LinuxNodes(items)| :: Fits(plan.routes, LinuxNodes(items)[i])
    ensures b in Bindings(plan.routes, LinuxNodes(items)) <==> BindsOne(plan, b, items)
  {
    var linux := LinuxNodes(items);
    var bindings := Bindings(plan.routes, linux);
    if b in bindings {
      var i :| 0 <= i < |linux| && bindings[i] == b;
      LinuxAmong(items, linux[i]);
      BindingBinds(plan, b, linux[i]);
    }
    if BindsOne(plan, b, items) {
      var n :| n in items && n.linux && Binds(plan, b, n);
      LinuxAmong(items, n);
      var i :| 0 <= i < |linux| && linux[i] == n;
      BindingBinds(plan, b, n);
      assert bindings[i] == b;
    }
  }

  // -------------------------------------------------------------- linux_nodes

  function NodeUids(nodes: seq<Node>): (s: seq<string>) ensures |s| == |nodes| {
    seq(|nodes|, i requires 0 <= i < |nodes| => nodes[i].uid)
  }

  ghost predicate Identified(items: seq<Node>) {
    var linux := LinuxNodes(items);
    |items| <= 128 && (forall i | 0 <= i < |linux| :: linux[i].uid != "") && Distinct(NodeUids(linux))
  }

  /** At most 128 items, whose Linux nodes all have identities of their own. */
  ghost predicate Named(items: seq<Node>) {
    && |items| <= 128 && (forall n | n in items && n.linux :: |n.uid| > 0)
    && forall i, j | 0 <= i < j < |items| :: UidsApart(items, i, j)
  }

  predicate UidsApart(items: seq<Node>, i: nat, j: nat)
    requires i < |items| && j < |items|
  {
    items[i].linux && items[j].linux ==> items[i].uid != items[j].uid
  }

  ghost predicate Live(items: seq<Node>, uid: string) {
    exists n :: n in items && n.linux && n.uid == uid
  }

  ghost predicate HasUid(nodes: seq<Binding>, uid: string) {
    exists b :: b in nodes && b.uid == uid
  }

  lemma {:induction false} UidsExact(items: seq<Node>)
    ensures Distinct(NodeUids(LinuxNodes(items))) <==> forall i, j | 0 <= i < j < |items| :: UidsApart(items, i, j)
  {
    var linux, places := LinuxNodes(items), Places(items);
    var uids := NodeUids(linux);
    LinuxPlaces(items);
    if Distinct(uids) {
      forall i, j | 0 <= i < j < |items| ensures UidsApart(items, i, j) {
        if items[i].linux && items[j].linux {
          var a :| 0 <= a < |places| && places[a] == i;
          var b :| 0 <= b < |places| && places[b] == j;
          assert PlaceAt(items, linux, places, a) && PlaceAt(items, linux, places, b);
          assert uids[a] != uids[b];
        }
      }
    }
    if forall i, j | 0 <= i < j < |items| :: UidsApart(items, i, j) {
      forall i, j | 0 <= i < j < |linux| ensures uids[i] != uids[j] {
        assert PlaceAt(items, linux, places, i) && PlaceAt(items, linux, places, j);
        assert places[i] in places && places[j] in places;
        assert UidsApart(items, places[i], places[j]);
      }
    }
  }

  lemma {:induction false} IdentifiedExact(items: seq<Node>)
    ensures Identified(items) <==> Named(items)
  {
    var linux := LinuxNodes(items);
    UidsExact(items);
    if Identified(items) {
      forall n | n in items && n.linux ensures |n.uid| > 0 {
        LinuxAmong(items, n);
      }
    }
    if Named(items) {
      forall i | 0 <= i < |linux| ensures linux[i].uid != "" {
        LinuxAmong(items, linux[i]);
      }
    }
  }

  lemma {:induction false} LiveExact(items: seq<Node>, uid: string)
    ensures uid in LinuxUids(items) <==> Live(items, uid)
  {
    var linux := LinuxNodes(items);
    if uid in NodeUids(linux) {
      var i :| 0 <= i < |linux| && NodeUids(linux)[i] == uid;
      LinuxAmong(items, linux[i]);
    }
    if Live(items, uid) {
      var n :| n in items && n.linux && n.uid == uid;
      LinuxAmong(items, n);
      var i :| 0 <= i < |linux| && linux[i] == n;
      assert NodeUids(linux)[i] == uid;
    }
  }

  lemma {:induction false} HasUidExact(nodes: seq<Binding>, uid: string)
    ensures uid in Elements(Uids(nodes)) <==> HasUid(nodes, uid)
  {
    if uid in Uids(nodes) {
      var i :| 0 <= i < |nodes| && Uids(nodes)[i] == uid;
      assert nodes[i] in nodes;
    }
    if HasUid(nodes, uid) {
      var b :| b in nodes && b.uid == uid;
      var i :| 0 <= i < |nodes| && nodes[i] == b;
      assert Uids(nodes)[i] == uid;
    }
  }

  /** The map holds each node under its own identity and nothing else. */
  ghost predicate Indexes(index: map<string, Node>, nodes: seq<Node>) {
    && (forall i | 0 <= i < |nodes| :: nodes[i].uid in index && index[nodes[i].uid] == nodes[i])
    && (forall u | u in index :: index[u] in nodes && index[u].uid == u)
  }

  lemma {:induction false} IndexKeys(index: map<string, Node>, nodes: seq<Node>)
    requires Indexes(index, nodes)
    ensures index.Keys == Elements(NodeUids(nodes))
  {
    var uids := NodeUids(nodes);
    forall u ensures u in index.Keys <==> u in Elements(uids) {
      if u in index {
        var k :| 0 <= k < |nodes| && nodes[k] == index[u];
        assert uids[k] == u;
      }
      if u in uids {
        var k :| 0 <= k < |uids| && uids[k] == u;
        assert nodes[k].uid == u;
      }
    }
  }

  ghost function LinuxUids(items: seq<Node>): set<string> {
    Elements(NodeUids(LinuxNodes(items)))
  }

  /** linux_nodes. */
  method LinuxByUid(items: seq<Node>) returns (r: Option<map<string, Node>>)
    ensures r.Some? <==> Identified(items)
    ensures r.Some? ==> Indexes(r.value, LinuxNodes(items))
    ensures r.Some? ==> r.value.Keys == LinuxUids(items)
  {
    if |items| > 128 {
      return None;
    }
    var linux := LinuxNodes(items);
    var uids := NodeUids(linux);
    DistinctSize(uids);
    if (exists i | 0 <= i < |linux| :: linux[i].uid == "") || |Elements(uids)| != |uids| {
      return None;
    }
    var index: map<string, Node> := map[];
    for i := 0 to |linux|
      invariant forall k | 0 <= k < i :: linux[k].uid in index && index[linux[k].uid] == linux[k]
      invariant forall u | u in index :: index[u] in linux && index[u].uid == u
    {
      forall k | 0 <= k < i ensures linux[k].uid != linux[i].uid {
        assert uids[k] != uids[i];
      }
      index := index[linux[i].uid := linux[i]];
    }
    IndexKeys(index, linux);
    return Some(index);
  }

  // ------------------------------------------------------------ capture, detect

  ghost predicate LiveAs(binding: Binding, linux: seq<Node>) {
    exists n | n in linux :: n.uid == binding.uid && n.name == binding.name && n.providerID == binding.providerID
  }

  /** Each bound node is live under its own name and instance with a proper machine
      identity, and no other Linux node is live. */
  ghost predicate Capturable(nodes: seq<Binding>, items: seq<Node>) {
    && Identified(items) && LinuxUids(items) == Elements(Uids(nodes))
    && (forall n | n in LinuxNodes(items) :: n.machine.Some?)
    && (forall i | 0 <= i < |nodes| :: LiveAs(nodes[i], LinuxNodes(items)))
  }

  lemma {:induction false} LiveAsItself(binding: Binding, index: map<string, Node>, linux: seq<Node>)
    requires Indexes(index, linux) && binding.uid in index
    ensures LiveAs(binding, linux) <==>
            index[binding.uid].name == binding.name && index[binding.uid].providerID == binding.providerID
  {
    assert index[binding.uid] in linux;
    if LiveAs(binding, linux) {
      var n :| n in linux && n.uid == binding.uid && n.name == binding.name && n.providerID == binding.providerID;
      var k :| 0 <= k < |linux| && linux[k] == n;
    }
  }

  lemma {:induction false} IndexHolds(index: map<string, Node>, linux: seq<Node>, n: Node)
    requires Indexes(index, linux) && n in linux
    ensures n.uid in index && index[n.uid] == n
  {
    var k :| 0 <= k < |linux| && linux[k] == n;
  }

  /** What can be captured, node by node. */
  ghost predicate CapturedPool(nodes: seq<Binding>, items: seq<Node>) {
    && Named(items)
    && (forall n | n in items && n.linux :: HasUid(nodes, n.uid) && n.machine.Some?)
    && (forall b | b in nodes :: exists n ::
          n in items && n.linux && n.uid == b.uid && n.name == b.name && n.providerID == b.providerID)
  }

  lemma {:induction false} LiveAsExact(binding: Binding, items: seq<Node>)
    ensures LiveAs(binding, LinuxNodes(items)) <==> exists n ::
              n in items && n.linux && n.uid == binding.uid && n.name == binding.name
              && n.providerID == binding.providerID
  {
    forall n: Node ensures n in LinuxNodes(items) <==> n in items && n.linux {
      LinuxAmong(items, n);
    }
  }

  lemma {:induction false} CapturableExact(nodes: seq<Binding>, items: seq<Node>)
    ensures Capturable(nodes, items) <==> CapturedPool(nodes, items)
  {
    IdentifiedExact(items);
    forall n: Node ensures n in LinuxNodes(items) <==> n in items && n.linux {
      LinuxAmong(items, n);
    }
    forall u: string ensures u in LinuxUids(items) <==> Live(items, u) {
      LiveExact(items, u);
    }
    forall u: string ensures u in Elements(Uids(nodes)) <==> HasUid(nodes, u) {
      HasUidExact(nodes, u);
    }
    forall b: Binding ensures LiveAs(b, LinuxNodes(items)) <==> exists n ::
              n in items && n.linux && n.uid == b.uid && n.name == b.name && n.providerID == b.providerID {
      LiveAsExact(b, items);
    }
    if Capturable(nodes, items) {
      forall n | n in items && n.linux ensures HasUid(nodes, n.uid) {
        assert n.uid in LinuxUids(items);
      }
      forall b | b in nodes ensures LiveAs(b, LinuxNodes(items)) {
        var i :| 0 <= i < |nodes| && nodes[i] == b;
      }
    }
    if CapturedPool(nodes, items) {
      forall u: string ensures u in LinuxUids(items) <==> u in Elements(Uids(nodes)) {
        if HasUid(nodes, u) {
          var b :| b in nodes && b.uid == u;
        }
      }
      assert LinuxUids(items) == Elements(Uids(nodes));
    }
  }

  /** capture. */
  method Capture(nodes: seq<Binding>, items: seq<Node>) returns (r: Option<map<string, Machine>>)
    ensures r.Some? <==> Capturable(nodes, items)
    ensures r.Some? ==> r.value.Keys == Elements(Uids(nodes))
    ensures r.Some? ==> forall n | n in LinuxNodes(items) :: n.uid in r.value && n.machine == Some(r.value[n.uid])
  {
    var found := LinuxByUid(items);
    if found.None? {
      return None;
    }
    var index := found.value;
    ghost var linux := LinuxNodes(items);
    if index.Keys != Elements(Uids(nodes)) {
      return None;
    }
    for i := 0 to |nodes|
      invariant forall k | 0 <= k < i :: LiveAs(nodes[k], linux)
    {
      assert Uids(nodes)[i] in Elements(Uids(nodes));
      LiveAsItself(nodes[i], index, linux);
      var node := index[nodes[i].uid];
      if !(node.name == nodes[i].name && node.providerID == nodes[i].providerID) {
        return None;
      }
    }
    forall n | n in linux ensures n.uid in index && index[n.uid] == n {
      IndexHolds(index, linux, n);
    }
    if exists u | u in index :: index[u].machine.None? {
      return None;
    }
    r := Some(map u | u in index :: index[u].machine.value);
  }

  datatype Detection = Raised | NotYet | New(uid: string)

  /** Exactly the approved identity is gone and exactly this other one has come. */
  predicate Swapped(before: set<string>, after: set<string>, approved: string, uid: string) {
    approved in before && uid !in before && after == before - {approved} + {uid}
  }

  method CompareUids(before: set<string>, after: set<string>, approved: string) returns (r: Detection)
    requires approved in before
    ensures forall uid :: r == New(uid) <==> Swapped(before, after, approved, uid)
    ensures r == NotYet <==> after == before || |after| != |before|
  {
    forall uid | Swapped(before, after, approved, uid)
      ensures |after| == |before| && after != before && before - after == {approved} && after - before == {uid} {
      assert uid in after;
    }
    if after == before || |after| != |before| {
      return NotYet;
    }
    var removed, added := before - after, after - before;
    if !(removed == {approved} && |added| == 1) {
      return Raised;
    }
    var uid :| uid in added;
    forall other | other in added ensures other == uid {
      OnlyOne(added, other, uid);
    }
    forall x ensures x in after <==> x in before - {approved} + {uid} {
      assert x in after && x !in before ==> x in added;
      assert x in before && x !in after ==> x in removed;
      assert uid in added && approved in removed;
    }
    return New(uid);
  }

  ghost predicate Registers(nodes: seq<Binding>, items: seq<Node>, approved: string, uid: string) {
    Identified(items) && Swapped(Elements(Uids(nodes)), LinuxUids(items), approved, uid)
  }

  /** detect. */
  method Detect(nodes: seq<Binding>, items: seq<Node>, approved: string) returns (r: Detection)
    ensures forall uid :: r == New(uid) <==> Registers(nodes, items, approved, uid)
    ensures r == NotYet <==>
            var before, after := Elements(Uids(nodes)), LinuxUids(items);
            approved in before && Identified(items) && (after == before || |after| != |before|)
  {
    var before := Elements(Uids(nodes));
    if approved !in before {
      return Raised;
    }
    var found := LinuxByUid(items);
    if found.None? {
      return Raised;
    }
    r := CompareUids(before, found.value.Keys, approved);
  }

  // ------------------------------------------------------------- replace_route

  /** The list with the approved route exchanged wherever it stands. */
  function Substitute(routes: seq<Route>, before: Route, after: Route): (s: seq<Route>)
    ensures |s| == |routes|
  {
    seq(|routes|, i requires 0 <= i < |routes| => if routes[i] == before then after else routes[i])
  }

  function CountOf(routes: seq<Route>, route: Route): nat {
    if routes == [] then 0 else (if routes[0] == route then 1 else 0) + CountOf(routes[1..], route)
  }

  lemma {:induction false} CountOnce(routes: seq<Route>, route: Route)
    requires Distinct(routes)
    ensures CountOf(routes, route) == if route in routes then 1 else 0
  {
    if routes != [] {
      var tail := routes[1..];
      assert forall i, j | 0 <= i < j < |tail| :: tail[i] == routes[i + 1] && tail[j] == routes[j + 1];
      CountOnce(tail, route);
      assert routes == [routes[0]] + tail;
    }
  }

  /** Exchanging one of distinct routes changes exactly one place of the list, and
      leaves distinct routes exactly when the new one was not already there. */
  lemma {:induction false} SubstituteChangesOne(routes: seq<Route>, before: Route, after: Route) returns (place: nat)
    requires Distinct(routes) && before in routes
    ensures place < |routes| && routes[place] == before
    ensures Substitute(routes, before, after) == routes[place := after]
    ensures Distinct(Substitute(routes, before, after)) <==> after == before || after !in routes
  {
    place :| 0 <= place < |routes| && routes[place] == before;
    var result := Substitute(routes, before, after);
    assert result == routes[place := after];
    if after != before && after in routes {
      var k :| 0 <= k < |routes| && routes[k] == after;
      assert result[k] == result[place] == after;
    }
  }

  /** replace_route: the new list of peers, to be written with one tested patch. */
  method ReplaceRoute(routes: seq<Route>, before: Route, after: Route, allowed: Address -> bool)
    returns (r: Option<seq<Route>>)
    ensures r.Some? <==>
            && RoutesOk(routes, 10, allowed) && before in routes
            && after.Host? && allowed(after.address) && after.address.family == before.address.family
            && (after == before || after !in routes)
    ensures r.Some? ==> r.value == Substitute(routes, before, after)
    ensures r.Some? ==> exists place | 0 <= place < |routes| ::
                          routes[place] == before && r.value == routes[place := after]
  {
    if Distinct(routes) {
      CountOnce(routes, before);
    }
    assert RoutesOk([after], 1, allowed) <==> after.Host? && allowed(after.address) by {
      assert [after][0] == after;
    }
    if CountOf(routes, before) != 1 {
      return None;
    }
    var held := HostRoutes(routes, 10, allowed);
    var incoming := HostRoutes([after], 1, allowed);
    if !held || !incoming {
      return None;
    }
    assert before.Host? && after.Host? by {
      assert before in routes && [after][0] == after;
    }
    if before.address.family != after.address.family {
      return None;
    }
    var result := Substitute(routes, before, after);
    ghost var place := SubstituteChangesOne(routes, before, after);
    var valid := HostRoutes(result, 10, allowed);
    if !valid {
      return None;
    }
    return Some(result);
  }

  // --------------------------------------------------------------------- rebind

  /** The fields of an inventory receipt that a replacement may not change. */
  datatype Receipt = Receipt(
    profile: string, commit: string, provider: string, nodeImage: string, cni: string, control: string, proof: string)

  /** What rebind is given: the approved configuration, the binding and machines
      captured before, both receipts, and whose node may be replaced. */
  datatype Change = Change(
    plan: Plan, before: Bound, machines: map<string, Machine>, originalReceipt: Receipt, freshReceipt: Receipt,
    approved: string)

  datatype Rebound = Rebound(bound: Bound, routes: seq<Route>)

  /** The configuration is validated and the old binding is one of bind_nodes. */
  ghost predicate Standing(plan: Plan, nodes: seq<Binding>) {
    && |plan.routes| == plan.linuxNodes && Distinct(plan.routes)
    && (forall i | 0 <= i < |plan.routes| :: plan.routes[i].Host?)
    && OneToOne(nodes, plan.routes) && Distinct(Uids(nodes))
  }

  function Lookup(bindings: seq<Binding>, uid: string): (b: Option<Binding>)
    ensures b.Some? <==> uid in Uids(bindings)
    ensures b.Some? ==> b.value in bindings && b.value.uid == uid
  {
    if bindings == [] then None
    else if bindings[0].uid == uid then (assert Uids(bindings)[0] == uid; Some(bindings[0]))
    else (assert Uids(bindings) == [bindings[0].uid] + Uids(bindings[1..]); Lookup(bindings[1..], uid))
  }

  lemma {:induction false} SameUidSameBinding(bindings: seq<Binding>, a: Binding, b: Binding)
    requires Distinct(Uids(bindings)) && a in bindings && b in bindings && a.uid == b.uid
    ensures a == b
  {
    var i :| 0 <= i < |bindings| && bindings[i] == a;
    var j :| 0 <= j < |bindings| && bindings[j] == b;
    assert Uids(bindings)[i] == Uids(bindings)[j];
  }

  function InFamily(node: Node, family: Family): set<Address> {
    set a | a in node.addresses && a.family == family
  }

  /** The new node runs on another machine, another boot; every other on its own. */
  predicate MachineOk(c: Change, n: Node, uid: string)
    requires c.approved in c.machines
  {
    if n.uid == uid then
      && n.machine.Some?
      && n.machine.value.system != c.machines[c.approved].system
      && n.machine.value.boot != c.machines[c.approved].boot
    else n.uid in c.machines && n.machine == Some(c.machines[n.uid])
  }

  /** In the family of the old route the node has this one address. */
  predicate ExposesOnly(n: Node, before: Route, route: Route) {
    before.Host? && route.Host? && InFamily(n, before.address.family) == {route.address}
  }

  function OldRoute(c: Change): Route {
    var held := Lookup(c.before.nodes, c.approved);
    if held.Some? then held.value.route else Malformed
  }

  ghost predicate Proven(c: Change, items: seq<Node>, uid: string, route: Route) {
    && c.freshReceipt == c.originalReceipt
    && Registers(c.before.nodes, items, c.approved, uid) && c.approved in c.machines
    && (forall n | n in LinuxNodes(items) :: MachineOk(c, n, uid))
    && (forall n | n in LinuxNodes(items) && n.uid == uid :: ExposesOnly(n, OldRoute(c), route))
  }

  /** The new node is on another machine and another boot, and its one address of the
      old route's family is the new route. */
  ghost predicate NewMachine(c: Change, n: Node, route: Route) {
    && c.approved in c.machines && n.machine.Some?
    && n.machine.value.system != c.machines[c.approved].system
    && n.machine.value.boot != c.machines[c.approved].boot
    && route.Host? && route.address in n.addresses
    && forall b | b in c.before.nodes && b.uid == c.approved ::
         && b.route.Host? && b.route.address.family == route.address.family
         && forall a | a in n.addresses && a.family == route.address.family :: a == route.address
  }

  /** The same machine has the same node. */
  ghost predicate SameMachine(c: Change, n: Node) {
    n.uid in c.machines && n.machine.Some? && n.machine.value == c.machines[n.uid]
  }

  /** One operator-performed replacement, in full: under the same inventory receipt the
      approved node is gone and one new one has come, on another machine and with one
      route, while all others are the same nodes on the same machines. */
  ghost predicate Replaced(c: Change, items: seq<Node>, uid: string, route: Route) {
    && c.freshReceipt == c.originalReceipt && Named(items)
    && HasUid(c.before.nodes, c.approved) && !Live(items, c.approved)
    && !HasUid(c.before.nodes, uid) && Live(items, uid)
    && (forall u | u != c.approved && u != uid :: HasUid(c.before.nodes, u) <==> Live(items, u))
    && (forall n | n in items && n.linux ::
          if n.uid == uid then NewMachine(c, n, route) else SameMachine(c, n))
  }

  lemma {:induction false} SwappedExact(nodes: seq<Binding>, items: seq<Node>, approved: string, uid: string)
    ensures Swapped(Elements(Uids(nodes)), LinuxUids(items), approved, uid) <==>
            && HasUid(nodes, approved) && !Live(items, approved) && !HasUid(nodes, uid) && Live(items, uid)
            && forall u | u != approved && u != uid :: HasUid(nodes, u) <==> Live(items, u)
  {
    var before, after := Elements(Uids(nodes)), LinuxUids(items);
    forall u: string ensures u in before <==> HasUid(nodes, u) {
      HasUidExact(nodes, u);
    }
    forall u: string ensures u in after <==> Live(items, u) {
      LiveExact(items, u);
    }
    if HasUid(nodes, approved) && !Live(items, approved) && !HasUid(nodes, uid) && Live(items, uid)
       && (forall u | u != approved && u != uid :: HasUid(nodes, u) <==> Live(items, u)) {
      assert after == before - {approved} + {uid};
    }
  }

  lemma {:induction false} ExposesExact(c: Change, n: Node, route: Route)
    requires Distinct(Uids(c.before.nodes)) && HasUid(c.before.nodes, c.approved)
    ensures c.approved in c.machines ==>
              (MachineOk(c, n, n.uid) && ExposesOnly(n, OldRoute(c), route) <==> NewMachine(c, n, route))
  {
    HasUidExact(c.before.nodes, c.approved);
    var held := Lookup(c.before.nodes, c.approved).value;
    forall b | b in c.before.nodes && b.uid == c.approved ensures b == held {
      SameUidSameBinding(c.before.nodes, b, held);
    }
    if held.route.Host? {
      var family := held.route.address.family;
      assert forall a :: a in InFamily(n, family) <==> a in n.addresses && a.family == family;
      if route.Host? && route.address in n.addresses && route.address.family == family
         && (forall a | a in n.addresses && a.family == family :: a == route.address) {
        assert InFamily(n, family) == {route.address};
      }
      if ExposesOnly(n, held.route, route) {
        assert route.address in InFamily(n, family);
        forall a | a in n.addresses && a.family == family ensures a == route.address {
          assert a in InFamily(n, family);
        }
      }
    }
  }

  lemma {:induction false} ProvenExact(c: Change, items: seq<Node>, uid: string, route: Route)
    requires Standing(c.plan, c.before.nodes)
    ensures Proven(c, items, uid, route) <==> Replaced(c, items, uid, route)
  {
    IdentifiedExact(items);
    SwappedExact(c.before.nodes, items, c.approved, uid);
    if HasUid(c.before.nodes, c.approved) && Live(items, uid) {
      NodesReplacedExact(c, items, uid, route);
    }
  }

  lemma {:induction false} NodesReplacedExact(c: Change, items: seq<Node>, uid: string, route: Route)
    requires Distinct(Uids(c.before.nodes)) && HasUid(c.before.nodes, c.approved) && Live(items, uid)
    ensures c.approved in c.machines
            && (forall n | n in LinuxNodes(items) :: MachineOk(c, n, uid))
            && (forall n | n in LinuxNodes(items) && n.uid == uid :: ExposesOnly(n, OldRoute(c), route))
            <==> forall n | n in items && n.linux ::
                   if n.uid == uid then NewMachine(c, n, route) else SameMachine(c, n)
  {
    var newest :| newest in items && newest.linux && newest.uid == uid;
    forall n: Node ensures n in LinuxNodes(items) <==> n in items && n.linux {
      LinuxAmong(items, n);
    }
    forall n: Node ensures c.approved in c.machines ==>
        (MachineOk(c, n, n.uid) && ExposesOnly(n, OldRoute(c), route) <==> NewMachine(c, n, route)) {
      ExposesExact(c, n, route);
    }
    assert NewMachine(c, newest, route) ==> c.approved in c.machines;
  }

  /** The part of rebind that establishes which node is new, on which machine and route. */
  method ProveReplacement(c: Change, items: seq<Node>) returns (r: Option<(string, Route)>)
    ensures forall uid, route :: r == Some((uid, route)) <==> Proven(c, items, uid, route)
  {
    var detected := Detect(c.before.nodes, items, c.approved);
    if !detected.New? || c.freshReceipt != c.originalReceipt {
      return None;
    }
    var uid := detected.uid;
    assert Registers(c.before.nodes, items, c.approved, uid);
    var found := LinuxByUid(items);
    var index := found.value;
    ghost var linux := LinuxNodes(items);
    forall n | n in linux ensures n.uid in index && index[n.uid] == n {
      IndexHolds(index, linux, n);
    }
    if c.approved !in c.machines || (exists u | u in index :: !MachineOk(c, index[u], uid)) {
      return None;
    }
    var before := OldRoute(c);
    if before.Malformed? {
      return None;
    }
    var addresses := InFamily(index[uid], before.address.family);
    if |addresses| != 1 {
      return None;
    }
    var address :| address in addresses;
    forall other | other in addresses ensures other == address {
      OnlyOne(addresses, other, address);
    }
    assert addresses == {address};
    return Some((uid, Host(address)));
  }

  ghost predicate Retained(c: Change, b: Binding, bindings: seq<Binding>) {
    b.uid != c.approved ==> b in bindings
  }

  /** With the new route in place of the old one every node binds as before. */
  ghost predicate Rebindable(c: Change, items: seq<Node>, route: Route, allowed: Address -> bool) {
    var routes := Substitute(c.plan.routes, OldRoute(c), route);
    && RoutesOk(routes, |c.before.nodes|, allowed)
    && Bindable(c.plan.(routes := routes), c.freshReceipt.control, items)
    && LinuxNodes(items)[0].runtime == c.before.runtime
    && (forall i | 0 <= i < |c.before.nodes| :: Retained(c, c.before.nodes[i], Bindings(routes, LinuxNodes(items))))
  }

  /** Slot by slot the old nodes, the new one standing where the approved one stood. */
  ghost predicate InSlots(c: Change, nodes: seq<Binding>, bindings: seq<Binding>, uid: string) {
    && |nodes| == |c.before.nodes|
    && forall i | 0 <= i < |nodes| :: FillsSlot(c, nodes[i], c.before.nodes[i], bindings, uid)
  }

  ghost predicate FillsSlot(c: Change, b: Binding, before: Binding, bindings: seq<Binding>, uid: string) {
    b in bindings && b.uid == if before.uid == c.approved then uid else before.uid
  }

  /** The last loop of rebind. */
  method FillSlots(c: Change, bound: seq<Binding>, uid: string) returns (nodes: seq<Binding>)
    requires forall i | 0 <= i < |c.before.nodes| ::
               (if c.before.nodes[i].uid == c.approved then uid else c.before.nodes[i].uid) in Uids(bound)
    ensures InSlots(c, nodes, bound, uid)
  {
    nodes := [];
    for i := 0 to |c.before.nodes|
      invariant |nodes| == i && forall k | 0 <= k < i :: FillsSlot(c, nodes[k], c.before.nodes[k], bound, uid)
    {
      var key := if c.before.nodes[i].uid == c.approved then uid else c.before.nodes[i].uid;
      nodes := nodes + [Lookup(bound, key).value];
    }
  }

  /** Every slot's identity is bound: the bound identities are those that registered. */
  lemma {:induction false} SlotsAreBound(
    c: Change, items: seq<Node>, uid: string, routes: seq<Route>, nodes: seq<Binding>)
    requires Registers(c.before.nodes, items, c.approved, uid)
    requires multiset(nodes) == multiset(Bindings(routes, LinuxNodes(items)))
    ensures forall i | 0 <= i < |c.before.nodes| ::
               (if c.before.nodes[i].uid == c.approved then uid else c.before.nodes[i].uid) in Uids(nodes)
  {
    var linux := LinuxNodes(items);
    var bindings := Bindings(routes, linux);
    SameMembers(nodes, bindings);
    forall i | 0 <= i < |c.before.nodes|
      ensures (if c.before.nodes[i].uid == c.approved then uid else c.before.nodes[i].uid) in Uids(nodes) {
      var key := if c.before.nodes[i].uid == c.approved then uid else c.before.nodes[i].uid;
      assert Uids(c.before.nodes)[i] in Elements(Uids(c.before.nodes));
      assert key in LinuxUids(items);
      var k :| 0 <= k < |linux| && NodeUids(linux)[k] == key;
      assert bindings[k] in nodes;
      var m :| 0 <= m < |nodes| && nodes[m] == bindings[k];
      assert Uids(nodes)[m] == key;
    }
  }

  /** Looking a retained node up by its identity and comparing is asking whether it is bound. */
  method CheckRetained(c: Change, bound: seq<Binding>) returns (ok: bool)
    requires Distinct(Uids(bound))
    ensures ok <==> forall i | 0 <= i < |c.before.nodes| :: Retained(c, c.before.nodes[i], bound)
  {
    for i := 0 to |c.before.nodes|
      invariant forall k | 0 <= k < i :: Retained(c, c.before.nodes[k], bound)
    {
      var before := c.before.nodes[i];
      var now := Lookup(bound, before.uid);
      if before in bound {
        var m :| 0 <= m < |bound| && bound[m] == before;
        assert Uids(bound)[m] == before.uid;
        SameUidSameBinding(bound, before, now.value);
      }
      if before.uid != c.approved && now != Some(before) {
        return false;
      }
    }
    return true;
  }

  /** rebind. */
  method Rebind(c: Change, items: seq<Node>, allowed: Address -> bool)
    returns (r: Option<Rebound>, ghost uid: string, ghost route: Route)
    requires Standing(c.plan, c.before.nodes)
    ensures r.Some? ==>
            var routes := Substitute(c.plan.routes, OldRoute(c), route);
            && Proven(c, items, uid, route) && Rebindable(c, items, route, allowed)
            && r.value.routes == routes && r.value.bound.runtime == c.before.runtime
            && InSlots(c, r.value.bound.nodes, Bindings(routes, LinuxNodes(items)), uid)
    ensures forall u, t | Proven(c, items, u, t) && Rebindable(c, items, t, allowed) :: r.Some?
  {
    uid, route := "", Malformed;
    var proven := ProveReplacement(c, items);
    if proven.None? {
      return None, uid, route;
    }
    var (newUid, newRoute) := proven.value;
    uid, route := newUid, newRoute;
    assert Proven(c, items, newUid, newRoute);
    var routes := Substitute(c.plan.routes, OldRoute(c), newRoute);
    var ok := HostRoutes(routes, |c.before.nodes|, allowed);
    if !ok {
      return None, uid, route;
    }
    var bound := BindAgain(c, items, routes);
    if bound.None? {
      return None, uid, route;
    }
    SlotsAreBound(c, items, newUid, routes, bound.value);
    SameMembers(bound.value, Bindings(routes, LinuxNodes(items)));
    var nodes := FillSlots(c, bound.value, newUid);
    return Some(Rebound(Bound(nodes, c.before.runtime), routes)), uid, route;
  }

  /** Every node with these routes, if the runtime is as it was and every retained
      node is bound as it was. */
  method BindAgain(c: Change, items: seq<Node>, routes: seq<Route>) returns (r: Option<seq<Binding>>)
    requires forall i | 0 <= i < |routes| :: routes[i].Host?
    ensures r.Some? <==>
            && Bindable(c.plan.(routes := routes), c.freshReceipt.control, items)
            && LinuxNodes(items)[0].runtime == c.before.runtime
            && forall i | 0 <= i < |c.before.nodes| ::
                 Retained(c, c.before.nodes[i], Bindings(routes, LinuxNodes(items)))
    ensures r.Some? ==> multiset(r.value) == multiset(Bindings(routes, LinuxNodes(items)))
  {
    var bound := BindNodes(c.plan.(routes := routes), c.freshReceipt.control, items);
    if bound.None? || bound.value.runtime != c.before.runtime {
      return None;
    }
    ghost var bindings := Bindings(routes, LinuxNodes(items));
    SortKeeps(bindings);
    SameMembers(bound.value.nodes, bindings);
    DistinctByKey(bindings, bound.value.nodes);
    var retained := CheckRetained(c, bound.value.nodes);
    return if retained then Some(bound.value.nodes) else None;
  }

  /** The new node's only matching route is the substituted one. */
  lemma {:induction false} NewNodeHasNewRoute(c: Change, items: seq<Node>, uid: string, route: Route, b: Binding)
    requires Standing(c.plan, c.before.nodes) && Proven(c, items, uid, route)
    requires var routes := Substitute(c.plan.routes, OldRoute(c), route);
             && (forall i | 0 <= i < |LinuxNodes(items)| :: Fits(routes, LinuxNodes(items)[i]))
             && b in Bindings(routes, LinuxNodes(items)) && b.uid == uid
    ensures b.route == route
  {
    var linux := LinuxNodes(items);
    var routes := Substitute(c.plan.routes, OldRoute(c), route);
    var k :| 0 <= k < |linux| && Bindings(routes, linux)[k] == b;
    var n := linux[k];
    assert n in linux && ExposesOnly(n, OldRoute(c), route);
    assert route.address in InFamily(n, OldRoute(c).address.family);
    var held := Lookup(c.before.nodes, c.approved).value;
    var i :| 0 <= i < |c.before.nodes| && c.before.nodes[i] == held;
    assert held.route in c.plan.routes;
    var place :| 0 <= place < |c.plan.routes| && c.plan.routes[place] == OldRoute(c);
    assert routes[place] == route;
    SelectedIsApproved(routes, n);
  }

  /** What a slot holds after the replacement. */
  predicate SlotKept(c: Change, before: Binding, now: Binding, uid: string, route: Route) {
    if before.uid == c.approved then now.uid == uid && now.route == route else now == before
  }

  lemma {:induction false} SlotIsKept(
    c: Change, items: seq<Node>, uid: string, route: Route, before: Binding, now: Binding)
    requires Standing(c.plan, c.before.nodes) && Proven(c, items, uid, route)
    requires var routes := Substitute(c.plan.routes, OldRoute(c), route);
             var bindings := Bindings(routes, LinuxNodes(items));
             && (forall i | 0 <= i < |LinuxNodes(items)| :: Fits(routes, LinuxNodes(items)[i]))
             && Distinct(Uids(bindings))
             && Retained(c, before, bindings) && FillsSlot(c, now, before, bindings, uid)
    ensures SlotKept(c, before, now, uid, route)
    ensures now.route in Substitute(c.plan.routes, OldRoute(c), route)
  {
    var linux := LinuxNodes(items);
    var routes := Substitute(c.plan.routes, OldRoute(c), route);
    var bindings := Bindings(routes, linux);
    if before.uid == c.approved {
      NewNodeHasNewRoute(c, items, uid, route, now);
    } else {
      SameUidSameBinding(bindings, now, before);
    }
    var k :| 0 <= k < |linux| && bindings[k] == now;
    SelectedIsApproved(routes, linux[k]);
  }

  /** After a replacement nodes and routes still correspond one to one. Every slot
      but the approved one holds exactly the binding it held; the approved one holds
      the node that registered, bound to the substituted route. */
  lemma {:induction false} ReboundIsOneToOne(
    c: Change, items: seq<Node>, uid: string, route: Route, allowed: Address -> bool, nodes: seq<Binding>)
    requires Standing(c.plan, c.before.nodes)
    requires Proven(c, items, uid, route) && Rebindable(c, items, route, allowed)
    requires InSlots(c, nodes, Bindings(Substitute(c.plan.routes, OldRoute(c), route), LinuxNodes(items)), uid)
    ensures Standing(c.plan.(routes := Substitute(c.plan.routes, OldRoute(c), route)), nodes)
    ensures forall i | 0 <= i < |nodes| :: SlotKept(c, c.before.nodes[i], nodes[i], uid, route)
  {
    var routes := Substitute(c.plan.routes, OldRoute(c), route);
    var bindings := Bindings(routes, LinuxNodes(items));
    forall i | 0 <= i < |nodes|
      ensures SlotKept(c, c.before.nodes[i], nodes[i], uid, route) && nodes[i].route in routes {
      assert Retained(c, c.before.nodes[i], bindings) && FillsSlot(c, nodes[i], c.before.nodes[i], bindings, uid);
      SlotIsKept(c, items, uid, route, c.before.nodes[i], nodes[i]);
    }
    SlotsStayDistinct(c, items, uid, nodes, bindings);
    Pigeonhole(nodes, routes);
  }

  lemma {:induction false} SlotsStayDistinct(
    c: Change, items: seq<Node>, uid: string, nodes: seq<Binding>, bindings: seq<Binding>)
    requires Distinct(Uids(c.before.nodes)) && Registers(c.before.nodes, items, c.approved, uid)
    requires Distinct(Uids(bindings)) && Distinct(Routes(bindings)) && InSlots(c, nodes, bindings, uid)
    ensures Distinct(Uids(nodes)) && Distinct(Routes(nodes))
  {
    var before := c.before.nodes;
    forall i, j | 0 <= i < j < |nodes|
      ensures Uids(nodes)[i] != Uids(nodes)[j] && Routes(nodes)[i] != Routes(nodes)[j] {
      assert FillsSlot(c, nodes[i], before[i], bindings, uid) && FillsSlot(c, nodes[j], before[j], bindings, uid);
      assert Uids(before)[i] != Uids(before)[j];
      assert Uids(before)[i] in Elements(Uids(before)) && Uids(before)[j] in Elements(Uids(before));
      assert nodes[i].uid != nodes[j].uid;
      var a :| 0 <= a < |bindings| && bindings[a] == nodes[i];
      var b :| 0 <= b < |bindings| && bindings[b] == nodes[j];
      assert Routes(bindings)[a] != Routes(bindings)[b] by {
        assert a != b;
        assert Routes(bindings)[if a < b then a else b] != Routes(bindings)[if a < b then b else a];
      }
    }
  }
}
