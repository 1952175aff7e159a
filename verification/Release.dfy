/** The order the workspace members are published in: each after every member it depends on,
    ties broken alphabetically. */
module Release {
  import opened Wrappers
  import opened Ordering
  import opened Finite

  datatype Member = Member(name: string, publishable: bool, deps: seq<string>)

  datatype Error =
    | NotPublishable(member: string, dep: string)
    | DependencyCycle(names: seq<string>)

  /** The names each name depends on. */
  type Graph = map<string, set<string>>

  // ----- What the members ask for -----

  ghost function Publishable(members: seq<Member>): set<string> {
    set k | 0 <= k < |members| && members[k].publishable :: members[k].name
  }

  function Needs(deps: seq<string>): set<string> { set dep | dep in deps }

  /** The dependencies of the publishable members; of two members of one name the last counts. */
  function GraphOf(members: seq<Member>): Graph {
    if members == [] then map[]
    else
      var last := members[|members| - 1];
      var earlier := GraphOf(members[..|members| - 1]);
      if last.publishable then earlier[last.name := Needs(last.deps)] else earlier
  }

  lemma {:induction false} GraphKeys(members: seq<Member>)
    ensures GraphOf(members).Keys == Publishable(members)
  {
    if members != [] {
      var n := |members| - 1;
      GraphKeys(members[..n]);
      assert Publishable(members) == Publishable(members[..n]) + if members[n].publishable then {members[n].name} else {};
    }
  }

  /** Every publishable member depends on publishable members only. */
  ghost predicate Closed(members: seq<Member>) {
    forall k, d :: 0 <= k < |members| && members[k].publishable && 0 <= d < |members[k].deps|
      ==> members[k].deps[d] in Publishable(members)
  }

  /** The first dependency of a publishable member, in the order of the members, that is not
      publishable. */
  ghost predicate FirstUnpublishable(members: seq<Member>, k: int, d: int) {
    && 0 <= k < |members| && members[k].publishable
    && 0 <= d < |members[k].deps| && members[k].deps[d] !in Publishable(members)
    && (forall i, e :: 0 <= i < k && members[i].publishable && 0 <= e < |members[i].deps|
          ==> members[i].deps[e] in Publishable(members))
    && (forall e :: 0 <= e < d ==> members[k].deps[e] in Publishable(members))
  }

  // ----- Orders of a graph -----

  /** The names that may come next after `done`. */
  function Ready(g: Graph, done: seq<string>): set<string> {
    set name | name in g && name !in done && forall dep :: dep in g[name] ==> dep in done
  }

  /** A sequence of names, each after those it depends on. */
  ghost predicate Ordered(g: Graph, order: seq<string>) {
    forall k :: 0 <= k < |order| ==> order[k] in Ready(g, order[..k])
  }

  /** An order of the whole graph. */
  ghost predicate IsOrder(g: Graph, order: seq<string>) {
    Ordered(g, order) && forall name :: name in g ==> name in order
  }

  /** A sequence that always takes the first of the names that may come next. */
  ghost predicate Greedy(g: Graph, order: seq<string>) {
    forall k :: 0 <= k < |order| ==> IsFirst(order[k], Ready(g, order[..k]))
  }

  // ----- Cycles -----

  ghost predicate Walk(g: Graph, walk: seq<string>) {
    && (forall k :: 0 <= k < |walk| ==> walk[k] in g)
    && (forall k :: 0 <= k < |walk| - 1 ==> walk[k + 1] in g[walk[k]])
  }

  /** That dependencies lead from a name into a cycle: a walk from it visits some name twice. */
  ghost predicate ReachesCycle(g: Graph, name: string) {
    exists walk :: Walk(g, walk) && walk != [] && walk[0] == name && !Distinct(walk)
  }

  ghost predicate Cyclic(g: Graph) {
    exists cycle :: Walk(g, cycle) && |cycle| >= 2 && cycle[0] == cycle[|cycle| - 1]
  }

  // ----- The algorithm -----

  /** The names that wait after `done`, with what each still needs. */
  function Waiting(g: Graph, done: seq<string>): Graph {
    map name | name in g && name !in done :: set dep | dep in g[name] && dep !in done
  }

  /** The first waiting name, in order, that needs nothing more. */
  method NextReady(waiting: Graph) returns (next: Option<string>)
    ensures next.None? ==> forall name :: name in waiting ==> waiting[name] != {}
    ensures next.Some? ==> IsFirst(next.value, set name | name in waiting && waiting[name] == {})
  {
    var names := SortedKeys(waiting);
    for k := 0 to |names|
      invariant forall j :: 0 <= j < k ==> waiting[names[j]] != {}
    {
      if waiting[names[k]] == {} {
        forall other | other in waiting && waiting[other] == {} && other != names[k]
          ensures Before(names[k], other)
        {
          assert other in names;
        }
        return Some(names[k]);
      }
    }
    forall name | name in waiting ensures waiting[name] != {} {
      assert name in names;
    }
    return None;
  }

  /** What every publishable member waits for, or the first dependency that is not publishable. */
  method CollectNeeds(members: seq<Member>) returns (r: Result<Graph, Error>)
    ensures r.Ok? <==> Closed(members)
    ensures r.Ok? ==> r.value == GraphOf(members)
    ensures r.Err? ==> exists k, d :: FirstUnpublishable(members, k, d) &&
                         r.error == NotPublishable(members[k].name, members[k].deps[d])
  {
    var publishable := set k | 0 <= k < |members| && members[k].publishable :: members[k].name;
    var waiting: Graph := map[];
    for k := 0 to |members|
      invariant waiting == GraphOf(members[..k])
      invariant forall i, d :: 0 <= i < k && members[i].publishable && 0 <= d < |members[i].deps|
                  ==> members[i].deps[d] in publishable
    {
      var member := members[k];
      assert members[..k + 1][..k] == members[..k];
      if member.publishable {
        var needs := {};
        for d := 0 to |member.deps|
          invariant needs == Needs(member.deps[..d])
          invariant forall i :: 0 <= i < d ==> member.deps[i] in publishable
        {
          if member.deps[d] !in publishable {
            assert FirstUnpublishable(members, k, d);
            return Err(NotPublishable(member.name, member.deps[d]));
          }
          needs := needs + {member.deps[d]};
        }
        assert member.deps[..|member.deps|] == member.deps;
        waiting := waiting[member.name := needs];
      }
    }
    assert members[..|members|] == members;
    return Ok(waiting);
  }

  /** The names of a map in order. */
  method SortedKeys(waiting: Graph) returns (names: seq<string>)
    ensures Lists(names, waiting.Keys)
  {
    names := [];
    var rest := waiting.Keys;
    while rest != {}
      invariant rest <= waiting.Keys
      invariant forall name :: name in waiting.Keys <==> name in names || name in rest
      invariant forall i, j :: 0 <= i < j < |names| ==> Before(names[i], names[j])
      invariant forall name, other :: name in names && other in rest ==> Before(name, other)
      decreases rest
    {
      ghost var first := First(rest);
      assert first in rest && forall other :: other in rest && other != first ==> Before(first, other);
      var name :| name in rest && forall other :: other in rest && other != name ==> Before(name, other);
      names := names + [name];
      rest := rest - {name};
    }
  }

  /** The names from which dependencies lead into a cycle. */
  ghost function CycleNames(g: Graph): set<string> {
    set name | name in g && ReachesCycle(g, name)
  }

  /** Orders the publishable members. The result is the first of all the orders of their graph;
      there is none exactly when the graph has a cycle, and then the names from which one is
      reached are reported, in order. */
  method PublishOrder(members: seq<Member>) returns (r: Result<seq<string>, Error>)
    ensures r.Ok? <==> Closed(members) && !Cyclic(GraphOf(members))
    ensures r.Ok? ==> Least(GraphOf(members), r.value)
    ensures r.Err? && r.error.NotPublishable? ==>
              exists k, d :: FirstUnpublishable(members, k, d) &&
                r.error == NotPublishable(members[k].name, members[k].deps[d])
    ensures r.Err? && r.error.DependencyCycle? ==>
              Closed(members) && r.error.names != [] && Lists(r.error.names, CycleNames(GraphOf(members)))
  {
    var collected := CollectNeeds(members);
    if collected.Err? { return Err(collected.error); }
    var waiting := collected.value;
    ghost var g := GraphOf(members);
    var order: seq<string> := [];
    WaitingAll(g);
    GraphClosed(members);
    while waiting != map[]
      invariant waiting == Waiting(g, order)
      invariant Greedy(g, order)
      decreases |waiting|
    {
      hide Waiting, Ready, Greedy, GraphOf, Closed;
      var next := NextReady(waiting);
      ReadyWaiting(g, order);
      if next.None? {
        var names := SortedKeys(waiting);
        WaitingKeys(g, order);
        assert Ready(g, order) == {};
        StuckIsCycleNames(g, order);
        var name :| name in waiting;
        assert name in names && ReachesCycle(g, name);
        CycleFound(g, name);
        return Err(DependencyCycle(names));
      }
      WaitingNext(g, order, next.value);
      GreedyNext(g, order, next.value);
      waiting := waiting - {next.value};
      waiting := map name | name in waiting :: waiting[name] - {next.value};
      order := order + [next.value];
    }
    WaitingKeys(g, order);
    GreedyOrdered(g, order);
    OrderedAcyclic(g, order);
    forall other | IsOrder(g, other) ensures order == other || SeqBefore(order, other) {
      GreedyIsLeast(g, order, other);
    }
    return Ok(order);
  }

  lemma WaitingKeys(g: Graph, done: seq<string>)
    ensures Waiting(g, done).Keys == g.Keys - Needs(done)
  {
  }

  /** A waiting name may come next exactly when it needs nothing more. */
  lemma ReadyWaiting(g: Graph, done: seq<string>)
    ensures Ready(g, done) == set name | name in Waiting(g, done) && Waiting(g, done)[name] == {}
  {
    forall name | name in g && name !in done
      ensures name in Ready(g, done) <==> Waiting(g, done)[name] == {}
    {
      forall dep | dep in g[name] && dep !in done ensures dep in Waiting(g, done)[name] {}
      assert forall dep :: dep in Waiting(g, done)[name] ==> dep in g[name] && dep !in done;
    }
  }

  lemma WaitingNext(g: Graph, done: seq<string>, next: string)
    requires next in Waiting(g, done)
    ensures var rest := Waiting(g, done) - {next};
            Waiting(g, done + [next]) == map name | name in rest :: rest[name] - {next}
    ensures |Waiting(g, done + [next])| < |Waiting(g, done)|
  {
    var waiting, after := Waiting(g, done), Waiting(g, done + [next]);
    var rest := waiting - {next};
    assert after.Keys == waiting.Keys - {next} == rest.Keys;
    forall name | name in after ensures after[name] == rest[name] - {next} {}
    assert |waiting.Keys| == |waiting.Keys - {next}| + 1;
    assert |after| == |after.Keys| && |waiting| == |waiting.Keys|;
  }

  lemma GreedyNext(g: Graph, done: seq<string>, next: string)
    requires Greedy(g, done) && IsFirst(next, Ready(g, done))
    ensures Greedy(g, done + [next])
  {
    var order := done + [next];
    forall k | 0 <= k < |order| ensures IsFirst(order[k], Ready(g, order[..k])) {
      assert order[..k] == done[..k];
      assert done[..|done|] == done;
    }
  }

  lemma GreedyOrdered(g: Graph, order: seq<string>)
    requires Greedy(g, order)
    ensures Ordered(g, order)
  {
  }

  lemma WaitingAll(g: Graph)
    ensures Waiting(g, []) == g
  {
    forall name | name in g ensures Waiting(g, [])[name] == g[name] {}
  }

  // ----- What the greedy order means -----

  /** An order of the whole graph is a permutation of its names in which every dependency comes
      before what depends on it. */
  lemma OrderMeans(g: Graph, order: seq<string>)
    requires forall name, dep :: name in g && dep in g[name] ==> dep in g
    ensures IsOrder(g, order)
       <==> && Distinct(order)
            && (forall name :: name in order <==> name in g)
            && (forall j, dep :: 0 <= j < |order| && order[j] in g && dep in g[order[j]] ==> dep in order[..j])
  {
    if IsOrder(g, order) {
      forall i, j | 0 <= i < j < |order| ensures order[i] != order[j] {
        assert order[i] in order[..j];
      }
    }
    if && Distinct(order)
       && (forall name :: name in order <==> name in g)
       && (forall j, dep :: 0 <= j < |order| && order[j] in g && dep in g[order[j]] ==> dep in order[..j])
    {
      forall k | 0 <= k < |order| ensures order[k] in Ready(g, order[..k]) {
        assert order[k] in order;
      }
    }
  }

  /** Of all the orders of a graph, the greedy one is the first. */
  lemma GreedyIsLeast(g: Graph, order: seq<string>, other: seq<string>)
    requires Greedy(g, order) && IsOrder(g, order) && IsOrder(g, other)
    ensures order == other || SeqBefore(order, other)
  {
    hide IsOrder, Ready, Ordered;
    SameLength(g, order, other);
    var k := 0;
    while k < |order| && order[k] == other[k]
      invariant 0 <= k <= |order| && order[..k] == other[..k]
    {
      k := k + 1;
    }
    if k < |order| {
      OrderReady(g, other, k);
      assert IsFirst(order[k], Ready(g, order[..k]));
      assert Before(order[k], other[k]);
    } else {
      assert order[..k] == order && other[..k] == other;
    }
  }

  /** An order that no other comes before. */
  ghost predicate Least(g: Graph, order: seq<string>) {
    IsOrder(g, order) && forall other :: IsOrder(g, other) ==> order == other || SeqBefore(order, other)
  }

  /** There is only one first order, whatever way it was found. */
  lemma LeastIsUnique(g: Graph, a: seq<string>, b: seq<string>)
    requires Least(g, a) && Least(g, b)
    ensures a == b
  {
    hide IsOrder;
    if a != b { SeqAsymmetric(a, b); }
  }

  lemma OrderReady(g: Graph, order: seq<string>, k: nat)
    requires IsOrder(g, order) && k < |order|
    ensures order[k] in Ready(g, order[..k])
  {
  }

  lemma SameLength(g: Graph, a: seq<string>, b: seq<string>)
    requires IsOrder(g, a) && IsOrder(g, b)
    ensures |a| == |b|
  {
    OrderedDistinct(g, a);
    OrderedDistinct(g, b);
    DistinctSize(a);
    DistinctSize(b);
    assert (set x | x in a) == g.Keys == (set x | x in b);
  }

  lemma OrderedDistinct(g: Graph, order: seq<string>)
    requires Ordered(g, order)
    ensures Distinct(order) && forall name :: name in order ==> name in g
  {
    forall i, j | 0 <= i < j < |order| ensures order[i] != order[j] {
      assert order[i] in order[..j];
    }
  }

  // ----- What the stuck names mean -----

  /** Walks from an ordered name go back through the order and visit no name twice. */
  lemma {:induction false} WalkDescends(g: Graph, order: seq<string>, k: nat, walk: seq<string>)
    requires Ordered(g, order) && k <= |order| && Walk(g, walk)
    requires walk != [] ==> walk[0] in order[..k]
    ensures Distinct(walk) && forall name :: name in walk ==> name in order[..k]
    decreases |walk|
  {
    if |walk| > 0 {
      var i :| 0 <= i < k && order[i] == walk[0];
      assert walk[0] in Ready(g, order[..i]);
      WalkDescends(g, order, i, walk[1..]);
      assert walk == [walk[0]] + walk[1..];
      assert forall name :: name in order[..i] ==> name in order[..k];
    }
  }

  /** That a name depends on a name of a set. */
  ghost predicate DependsInto(g: Graph, inside: set<string>, name: string) {
    name in g && exists dep :: dep in g[name] && dep in inside
  }

  lemma DependencyInto(g: Graph, inside: set<string>, name: string) returns (dep: string)
    requires DependsInto(g, inside, name)
    ensures name in g && dep in g[name] && dep in inside
  {
    dep :| dep in g[name] && dep in inside;
  }

  /** From a name of a set in which every name depends on another, walks of any length stay in
      the set. */
  lemma {:induction false} WalkInside(g: Graph, inside: set<string>, name: string, n: nat) returns (walk: seq<string>)
    requires name in inside && name in g
    requires forall x {:trigger DependsInto(g, inside, x)} :: x in inside ==> DependsInto(g, inside, x)
    ensures |walk| == n + 1 && walk[0] == name && Walk(g, walk) && forall x :: x in walk ==> x in inside
    decreases n
  {
    hide DependsInto;
    if n == 0 {
      walk := [name];
    } else {
      assert DependsInto(g, inside, name);
      var dep := DependencyInto(g, inside, name);
      assert DependsInto(g, inside, dep);
      var _ := DependencyInto(g, inside, dep);
      var rest := WalkInside(g, inside, dep, n - 1);
      walk := [name] + rest;
      WalkExtend(g, name, rest);
    }
  }

  lemma WalkExtend(g: Graph, name: string, walk: seq<string>)
    requires Walk(g, walk) && walk != [] && name in g && walk[0] in g[name]
    ensures Walk(g, [name] + walk)
  {
    var longer := [name] + walk;
    forall k | 0 <= k < |longer| - 1 ensures longer[k + 1] in g[longer[k]] {
      if k > 0 { assert longer[k] == walk[k - 1] && longer[k + 1] == walk[k]; }
    }
  }

  /** When no name may come next, the names left over are exactly those from which a cycle is
      reached. */
  lemma StuckIsCycleNames(g: Graph, done: seq<string>)
    requires Greedy(g, done) && Ready(g, done) == {}
    requires forall name, dep :: name in g && dep in g[name] ==> dep in g
    ensures g.Keys - Needs(done) == CycleNames(g)
  {
    hide Greedy, Ordered, Walk, Ready, Distinct;
    GreedyOrdered(g, done);
    var left := g.Keys - Needs(done);
    forall name | name in done ensures !ReachesCycle(g, name) {
      forall walk | Walk(g, walk) && walk != [] && walk[0] == name ensures Distinct(walk) {
        assert done[..|done|] == done;
        WalkDescends(g, done, |done|, walk);
      }
    }
    forall x | x in left ensures DependsInto(g, left, x) {
      NotReady(g, done, x);
    }
    forall name | name in left ensures ReachesCycle(g, name) {
      var walk := WalkInside(g, left, name, |left|);
      if Distinct(walk) {
        DistinctFits(walk, left);
      }
    }
  }

  lemma NotReady(g: Graph, done: seq<string>, name: string)
    requires name in g && name !in done && name !in Ready(g, done)
    ensures exists dep :: dep in g[name] && dep !in done
  {
  }

  /** A cycle is reached from somewhere if and only if there is one. */
  lemma CycleFound(g: Graph, name: string)
    requires ReachesCycle(g, name)
    ensures Cyclic(g)
  {
    var walk :| Walk(g, walk) && walk != [] && walk[0] == name && !Distinct(walk);
    var i, j :| 0 <= i < j < |walk| && walk[i] == walk[j];
    WalkPart(g, walk, i, j + 1);
    var cycle := walk[i..j + 1];
    hide Walk;
    assert cycle[0] == walk[i] && cycle[|cycle| - 1] == walk[j];
  }

  lemma WalkPart(g: Graph, walk: seq<string>, i: nat, j: nat)
    requires Walk(g, walk) && i <= j <= |walk|
    ensures Walk(g, walk[i..j])
  {
    var part := walk[i..j];
    forall k | 0 <= k < |part| ensures part[k] in g {
      assert part[k] == walk[i + k];
    }
    forall k | 0 <= k < |part| - 1 ensures part[k + 1] in g[part[k]] {
      assert part[k] == walk[i + k] && part[k + 1] == walk[i + k + 1];
    }
  }

  lemma OrderedAcyclic(g: Graph, order: seq<string>)
    requires IsOrder(g, order)
    ensures !Cyclic(g)
  {
    forall cycle | Walk(g, cycle) && |cycle| >= 2 ensures cycle[0] != cycle[|cycle| - 1] {
      assert order[..|order|] == order;
      assert cycle[0] in order;
      WalkDescends(g, order, |order|, cycle);
    }
  }

  /** With every dependency publishable, every dependency is a name of the graph. */
  lemma {:induction false} GraphClosed(members: seq<Member>)
    requires Closed(members)
    ensures var g := GraphOf(members); forall name, dep :: name in g && dep in g[name] ==> dep in g
  {
    GraphKeys(members);
    GraphNeeds(members);
  }

  /** That some publishable member of a name needs just this. */
  ghost predicate NeededBy(members: seq<Member>, name: string, needs: set<string>) {
    exists k :: 0 <= k < |members| && members[k].publishable && members[k].name == name && needs == Needs(members[k].deps)
  }

  /** What a name needs are the dependencies of a publishable member of that name. */
  lemma {:induction false} GraphNeeds(members: seq<Member>)
    ensures forall name :: name in GraphOf(members) ==> NeededBy(members, name, GraphOf(members)[name])
  {
    if members != [] {
      var n := |members| - 1;
      GraphNeeds(members[..n]);
      forall name | name in GraphOf(members)
        ensures NeededBy(members, name, GraphOf(members)[name])
      {
        if members[n].publishable && members[n].name == name {
          assert GraphOf(members)[name] == Needs(members[n].deps);
        } else {
          assert name in GraphOf(members[..n]) && NeededBy(members[..n], name, GraphOf(members[..n])[name]);
          NeededEarlier(members, n, name, GraphOf(members)[name]);
        }
      }
    }
  }

  lemma NeededEarlier(members: seq<Member>, n: nat, name: string, needs: set<string>)
    requires n <= |members| && NeededBy(members[..n], name, needs)
    ensures NeededBy(members, name, needs)
  {
    var k :| 0 <= k < n && members[..n][k].publishable && members[..n][k].name == name && needs == Needs(members[..n][k].deps);
    assert members[k] == members[..n][k];
  }

  /** What the members ask for, when no two are of one name: the publishable ones are the names, and
      each waits for its own dependencies. */
  lemma {:induction false} GraphIs(members: seq<Member>, k: nat)
    requires forall i, j :: 0 <= i < j < |members| ==> members[i].name != members[j].name
    requires k < |members|
    ensures members[k].name in GraphOf(members) <==> members[k].publishable
    ensures members[k].publishable ==> forall dep :: dep in GraphOf(members)[members[k].name] <==> dep in members[k].deps
    decreases |members|
  {
    GraphKeys(members);
    var n := |members| - 1;
    if k < n { GraphIs(members[..n], k); }
  }

  /** Members without dependencies are published in the order of their names: of two, that with the
      lower code point at the first difference, or that which ends there. */
  lemma IndependentSorted(g: Graph, order: seq<string>, i: nat, j: nat)
    requires Least(g, order) && (forall name :: name in g ==> g[name] == {}) && i < j < |order|
    ensures exists k: nat :: DiffersAt(order[i], order[j], k)
    ensures forall name :: name in order <==> name in g
  {
    var names := Sorted(g.Keys);
    SortedIsOrder(g);
    SortedIsLeast(g);
    LeastIsUnique(g, order, names);
    BeforeMeans(order[i], order[j]);
  }

  lemma SortedIsOrder(g: Graph)
    requires forall name :: name in g ==> g[name] == {}
    ensures IsOrder(g, Sorted(g.Keys))
  {
    var names := Sorted(g.Keys);
    forall k | 0 <= k < |names| ensures names[k] in Ready(g, names[..k]) {
      assert names[k] in names;
      forall i | 0 <= i < k ensures names[i] != names[k] { Irreflexive(names[i]); }
    }
  }

  lemma SortedIsLeast(g: Graph)
    requires forall name :: name in g ==> g[name] == {}
    ensures Least(g, Sorted(g.Keys))
  {
    var names := Sorted(g.Keys);
    SortedIsOrder(g);
    forall k | 0 <= k < |names| ensures IsFirst(names[k], Ready(g, names[..k])) {
      assert forall i :: 0 <= i < k ==> names[i] in names[..k];
      assert forall other :: other in g ==> other in names;
    }
    forall other | IsOrder(g, other) ensures names == other || SeqBefore(names, other) {
      GreedyIsLeast(g, names, other);
    }
  }

  lemma {:induction false} NoNeeds(members: seq<Member>)
    requires forall k :: 0 <= k < |members| && members[k].publishable ==> members[k].deps == []
    ensures forall name :: name in GraphOf(members) ==> GraphOf(members)[name] == {}
  {
    if members != [] { NoNeeds(members[..|members| - 1]); }
  }

  /** So what is published of publishable members without dependencies is their names, sorted. */
  lemma PublishedSorted(members: seq<Member>, order: seq<string>, i: nat, j: nat)
    requires forall k :: 0 <= k < |members| && members[k].publishable ==> members[k].deps == []
    requires Least(GraphOf(members), order) && i < j < |order|
    ensures exists k: nat :: DiffersAt(order[i], order[j], k)
    ensures forall name :: name in order <==> exists k :: 0 <= k < |members| && members[k].publishable && members[k].name == name
  {
    hide Least, DiffersAt, GraphOf;
    NoNeeds(members);
    GraphKeys(members);
    IndependentSorted(GraphOf(members), order, i, j);
  }
}
