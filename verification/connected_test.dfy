/**
 Connected components, ConnectedTest.cpp. Connectivity ignores the
 direction of edges: the nodes are read through their in-out neighbours
 (`NavOf(g, InOut)`). A sweep takes the nodes in graph order and, from
 each one no earlier search has marked, runs a breadth-first search that
 marks its whole component.
 */
module ConnectedTests {
  import opened Wrappers
  import opened Seqs
  import opened Graphs
  import opened GraphIterators
  import opened GraphTools

  // ---------------------------------------------------------------------------
  // Reachability without direction
  // ---------------------------------------------------------------------------

  /** Every neighbour relation goes both ways. */
  ghost predicate Symmetric(nav: Nav)
  {
    forall a, b :: Adjacent(nav, a, b) ==> Adjacent(nav, b, a)
  }

  /** The in-out neighbours of a valid graph are symmetric: an edge is listed at both its ends. */
  lemma InOutSymmetric(g: Graph)
    requires Valid(g)
    ensures Symmetric(NavOf(g, InOut))
  {
    var nav := NavOf(g, InOut);
    NavOfOk(g, InOut);
    forall a, b | Adjacent(nav, a, b) ensures Adjacent(nav, b, a) {
      var k :| 0 <= k < |nav.adj[a]| && nav.adj[a][k].1 == b;
      var e := nav.adj[a][k].0;
      NavOfPairs(g, InOut, a, e, b);
      NavOfPairs(g, InOut, b, e, a);
      var k' :| 0 <= k' < |nav.adj[b]| && nav.adj[b][k'] == (e, a);
    }
  }

  /** Two walks joined end to start. */
  lemma ReachableTrans(nav: Nav, a: nat, b: nat, c: nat)
    requires Reachable(nav, a, b) && Reachable(nav, b, c)
    ensures Reachable(nav, a, c)
  {
    var p :| Walk(nav, p) && p[0] == a && p[|p| - 1] == b;
    var q :| Walk(nav, q) && q[0] == b && q[|q| - 1] == c;
    var r := p + q[1..];
    assert Walk(nav, r) by {
      forall i | 0 <= i < |r| - 1 ensures Adjacent(nav, r[i], r[i + 1]) {
        if i < |p| - 1 {
          assert r[i] == p[i] && r[i + 1] == p[i + 1];
        } else {
          assert r[i] == q[i - |p| + 1] && r[i + 1] == q[i - |p| + 2];
        }
      }
    }
    assert r[|r| - 1] == c;
  }

  /** A walk read backwards, when neighbours go both ways. */
  lemma ReachableBack(nav: Nav, a: nat, b: nat)
    requires Symmetric(nav) && Reachable(nav, a, b)
    ensures Reachable(nav, b, a)
  {
    var p :| Walk(nav, p) && p[0] == a && p[|p| - 1] == b;
    var r := Reverse(p);
    assert Walk(nav, r) by {
      forall i | 0 <= i < |r| - 1 ensures Adjacent(nav, r[i], r[i + 1]) {
        assert Adjacent(nav, p[|p| - 2 - i], p[|p| - 2 - i + 1]);
      }
    }
  }

  /** A neighbour of a reached node is reached. */
  lemma ReachableStep(nav: Nav, a: nat, b: nat, c: nat)
    requires Reachable(nav, a, b) && Adjacent(nav, b, c)
    ensures Reachable(nav, a, c)
  {
    ReachableWithin(nav, a, b);
    var len: nat :| Within(nav, a, b, len);
    WithinStep(nav, a, b, c, len);
  }

  /** With symmetric neighbours a closed set holding the end of a walk holds its start. */
  lemma ClosedBack(nav: Nav, s: set<nat>, a: nat, b: nat)
    requires Symmetric(nav) && Closed(nav, s) && Reachable(nav, a, b)
    ensures b in s ==> a in s
  {
    if b in s {
      ReachableBack(nav, a, b);
      var p :| Walk(nav, p) && p[0] == b && p[|p| - 1] == a;
      ClosedHoldsWalk(nav, s, p);
    }
  }

  // ---------------------------------------------------------------------------
  // The sweep
  // ---------------------------------------------------------------------------

  /** The nodes of the components found. */
  function Union(cs: seq<seq<nat>>): (r: set<nat>)
  {
    if |cs| == 0 then {}
    else
      var last := cs[|cs| - 1];
      Union(cs[..|cs| - 1]) + (set x | x in last)
  }

  /** A node of a component is among the nodes of all of them, and conversely. */
  lemma {:induction false} UnionHas(cs: seq<seq<nat>>, x: nat)
    ensures x in Union(cs) <==> exists j :: 0 <= j < |cs| && x in cs[j]
    decreases |cs|
  {
    if |cs| > 0 {
      var init := cs[..|cs| - 1];
      UnionHas(init, x);
      if x in Union(init) {
        var j :| 0 <= j < |init| && x in init[j];
        assert cs[j] == init[j];
      }
      if exists j :: 0 <= j < |cs| && x in cs[j] {
        var j :| 0 <= j < |cs| && x in cs[j];
        if j < |cs| - 1 {
          assert init[j] == cs[j];
        }
      }
    }
  }

  /**
   `cs` is the component list of the sweep over `nodes[..i]`: components,
   each the nodes reachable from its first node and listed once, that do
   not overlap; their first nodes in graph order, each the first node no
   earlier component holds; and `visited`, the nodes marked, is their union
   and holds `nodes[..i]`.
   */
  ghost predicate Sweep(nav: Nav, nodes: seq<nat>, i: nat, cs: seq<seq<nat>>, visited: set<nat>)
  {
    && i <= |nodes|
    && visited == Union(cs) && visited <= nav.adj.Keys && Closed(nav, visited)
    && (forall k :: 0 <= k < i ==> nodes[k] in visited)
    && (forall j :: 0 <= j < |cs| ==> |cs[j]| > 0 && Distinct(cs[j]) && cs[j][0] in nodes[..i])
    && (forall j, x :: 0 <= j < |cs| ==> (x in cs[j] <==> Reachable(nav, cs[j][0], x)))
    && (forall j, j', x :: 0 <= j < j' < |cs| && x in cs[j] ==> x !in cs[j'])
    && (forall j, k :: 0 <= j < |cs| && 0 <= k < |nodes| && nodes[k] == cs[j][0] ==>
                       forall k' :: 0 <= k' < k ==> nodes[k'] in Union(cs[..j]))
  }

  /** The marks a search leaves: the component of its root, closed with everything marked before. */
  lemma SearchedComponent(nav: Nav, root: nat, visited: set<nat>, ns: seq<nat>, seen: set<nat>)
    requires NavOk(nav) && Symmetric(nav) && Closed(nav, visited) && root !in visited
    requires |ns| > 0 && ns[0] == root && seen == visited + (set x | x in ns) && Expanded(nav, ns, seen)
    requires forall x :: x in ns ==> x !in visited && Reachable(nav, root, x)
    ensures Closed(nav, seen)
    ensures forall x :: x in ns <==> Reachable(nav, root, x)
  {
    forall n, k | n in seen && n in nav.adj && 0 <= k < |nav.adj[n]| ensures nav.adj[n][k].1 in seen {
      if n !in visited {
        var i :| 0 <= i < |ns| && ns[i] == n;
      }
    }
    forall x | Reachable(nav, root, x) ensures x in ns {
      var p :| Walk(nav, p) && p[0] == root && p[|p| - 1] == x;
      ClosedHoldsWalk(nav, seen, p);
      ClosedBack(nav, visited, root, x);
    }
  }

  /** One node of the sweep: a new component found from it, unless it is marked already. */
  method SweepRound(nav: Nav, nodes: seq<nat>, i: nat, cs: seq<seq<nat>>, visited: set<nat>)
    returns (cs': seq<seq<nat>>, visited': set<nat>)
    requires NavOk(nav) && Symmetric(nav) && Distinct(nodes) && (forall x :: x in nodes ==> x in nav.adj)
    requires Sweep(nav, nodes, i, cs, visited) && i < |nodes|
    ensures Sweep(nav, nodes, i + 1, cs', visited')
  {
    var n := nodes[i];
    if n in visited {
      SweepSkip(nav, nodes, i, cs, visited);
      return cs, visited;
    }
    var ns, es, seen := Bfs(nav, n, visited);
    SearchedComponent(nav, n, visited, ns, seen);
    SweepAppend(nav, nodes, i, cs, visited, ns, seen);
    cs', visited' := cs + [ns], seen;
  }

  /** A node marked already leaves the sweep as it is. */
  lemma SweepSkip(nav: Nav, nodes: seq<nat>, i: nat, cs: seq<seq<nat>>, visited: set<nat>)
    requires Sweep(nav, nodes, i, cs, visited) && i < |nodes| && nodes[i] in visited
    ensures Sweep(nav, nodes, i + 1, cs, visited)
  {
    assert nodes[..i + 1] == nodes[..i] + [nodes[i]];
  }

  /** The component searched from an unmarked node extends the sweep. */
  lemma SweepAppend(nav: Nav, nodes: seq<nat>, i: nat, cs: seq<seq<nat>>, visited: set<nat>,
                    ns: seq<nat>, seen: set<nat>)
    requires Sweep(nav, nodes, i, cs, visited) && i < |nodes| && Distinct(nodes)
    requires |ns| > 0 && ns[0] == nodes[i] && Distinct(ns)
    requires forall x :: x in ns ==> x in nav.adj && x !in visited
    requires seen == visited + (set x | x in ns) && Closed(nav, seen)
    requires forall x :: x in ns <==> Reachable(nav, nodes[i], x)
    ensures Sweep(nav, nodes, i + 1, cs + [ns], seen)
  {
    var cs' := cs + [ns];
    assert cs'[..|cs|] == cs;
    assert Union(cs') == seen;
    assert nodes[..i + 1] == nodes[..i] + [nodes[i]];
    AppendDisjoint(cs, ns);
    AppendOrdered(nodes, i, cs, ns);
  }

  /** A component found outside the earlier ones overlaps none of them. */
  lemma AppendDisjoint(cs: seq<seq<nat>>, ns: seq<nat>)
    requires forall j, j', x :: 0 <= j < j' < |cs| && x in cs[j] ==> x !in cs[j']
    requires forall x :: x in ns ==> x !in Union(cs)
    ensures forall j, j', x :: 0 <= j < j' < |cs + [ns]| && x in (cs + [ns])[j] ==> x !in (cs + [ns])[j']
  {
    var cs' := cs + [ns];
    forall j, j', x | 0 <= j < j' < |cs'| && x in cs'[j] ensures x !in cs'[j'] {
      if j' == |cs| {
        UnionHas(cs, x);
        assert cs'[j] == cs[j];
      }
    }
  }

  /** A component found from `nodes[i]`, all of `nodes[..i]` being in earlier ones, keeps the order. */
  lemma AppendOrdered(nodes: seq<nat>, i: nat, cs: seq<seq<nat>>, ns: seq<nat>)
    requires Distinct(nodes) && i < |nodes| && |ns| > 0 && ns[0] == nodes[i]
    requires forall k :: 0 <= k < i ==> nodes[k] in Union(cs)
    requires forall j :: 0 <= j < |cs| ==> |cs[j]| > 0
    requires forall j, k :: 0 <= j < |cs| && 0 <= k < |nodes| && nodes[k] == cs[j][0] ==>
                             forall k' :: 0 <= k' < k ==> nodes[k'] in Union(cs[..j])
    ensures forall j, k :: 0 <= j < |cs + [ns]| && 0 <= k < |nodes| && nodes[k] == (cs + [ns])[j][0] ==>
                             forall k' :: 0 <= k' < k ==> nodes[k'] in Union((cs + [ns])[..j])
  {
    var cs' := cs + [ns];
    assert cs'[..|cs|] == cs;
    forall j, k | 0 <= j < |cs'| && 0 <= k < |nodes| && nodes[k] == cs'[j][0]
      ensures forall k' :: 0 <= k' < k ==> nodes[k'] in Union(cs'[..j])
    {
      if j == |cs| {
        assert k == i;
      } else {
        assert cs'[..j] == cs[..j];
      }
    }
  }

  /**
   `computeConnectedComponents(graph, components)`: the components in the
   order of their first nodes, each the first node of the graph outside
   the earlier ones; a component is exactly the nodes joined to its first
   node by a path of edges taken either way, each listed once; the
   components do not overlap and together hold every node.
   */
  method ConnectedComponents(g: Graph) returns (cs: seq<seq<nat>>)
    requires Valid(g)
    ensures forall x :: x in Union(cs) <==> x in g.nodes
    ensures forall j :: 0 <= j < |cs| ==> |cs[j]| > 0 && Distinct(cs[j])
    ensures forall j, x :: 0 <= j < |cs| ==> (x in cs[j] <==> Reachable(NavOf(g, InOut), cs[j][0], x))
    ensures forall j, j', x :: 0 <= j < j' < |cs| && x in cs[j] ==> x !in cs[j']
    ensures forall j, k :: 0 <= j < |cs| && 0 <= k < |g.nodes| && g.nodes[k] == cs[j][0] ==>
                           forall k' :: 0 <= k' < k ==> g.nodes[k'] in Union(cs[..j])
  {
    var nav := NavOf(g, InOut);
    NavOfOk(g, InOut);
    InOutSymmetric(g);
    cs := [];
    var visited: set<nat> := {};
    var i := 0;
    while i < |g.nodes|
      invariant Sweep(nav, g.nodes, i, cs, visited)
    {
      cs, visited := SweepRound(nav, g.nodes, i, cs, visited);
      i := i + 1;
    }
  }

  /** `s` is the set of nodes reached from one of its members. */
  ghost predicate IsComponent(nav: Nav, s: set<nat>)
  {
    exists r :: r in s && forall x :: x in s <==> Reachable(nav, r, x)
  }

  /** Each component as a set. */
  function ToSets(cs: seq<seq<nat>>): (ss: seq<set<nat>>)
    ensures |ss| == |cs| && forall j, x :: 0 <= j < |cs| ==> (x in ss[j] <==> x in cs[j])
  {
    seq(|cs|, j requires 0 <= j < |cs| => set x | x in cs[j])
  }

  /**
   `computeConnectedComponents(graph, components)` with sets: the
   components as sets, which cover the nodes without overlapping, each
   the nodes reached from one of its own.
   */
  method ConnectedComponentSets(g: Graph) returns (ss: seq<set<nat>>)
    requires Valid(g)
    ensures forall x :: x in g.nodes <==> exists j :: 0 <= j < |ss| && x in ss[j]
    ensures forall j, j', x :: 0 <= j < j' < |ss| && x in ss[j] ==> x !in ss[j']
    ensures forall j :: 0 <= j < |ss| ==> IsComponent(NavOf(g, InOut), ss[j])
  {
    var cs := ConnectedComponents(g);
    ss := ToSets(cs);
    SetsOk(NavOf(g, InOut), g.nodes, cs, ss);
  }

  /** The component sets keep what the component lists state. */
  lemma SetsOk(nav: Nav, nodes: seq<nat>, cs: seq<seq<nat>>, ss: seq<set<nat>>)
    requires forall x :: x in Union(cs) <==> x in nodes
    requires forall j :: 0 <= j < |cs| ==> |cs[j]| > 0
    requires forall j, x :: 0 <= j < |cs| ==> (x in cs[j] <==> Reachable(nav, cs[j][0], x))
    requires forall j, j', x :: 0 <= j < j' < |cs| && x in cs[j] ==> x !in cs[j']
    requires |ss| == |cs| && forall j, x :: 0 <= j < |cs| ==> (x in ss[j] <==> x in cs[j])
    ensures forall x :: x in nodes <==> exists j :: 0 <= j < |ss| && x in ss[j]
    ensures forall j, j', x :: 0 <= j < j' < |ss| && x in ss[j] ==> x !in ss[j']
    ensures forall j :: 0 <= j < |ss| ==> IsComponent(nav, ss[j])
  {
    forall x ensures x in nodes <==> exists j :: 0 <= j < |ss| && x in ss[j] {
      UnionHas(cs, x);
      if x in nodes {
        var j :| 0 <= j < |cs| && x in cs[j];
        assert x in ss[j];
      }
      if exists j :: 0 <= j < |ss| && x in ss[j] {
        var j :| 0 <= j < |ss| && x in ss[j];
        assert x in cs[j];
      }
    }
    forall j | 0 <= j < |ss| ensures IsComponent(nav, ss[j]) {
      var r := cs[j][0];
      assert r in ss[j];
      forall x ensures x in ss[j] <==> Reachable(nav, r, x) {
        assert x in ss[j] <==> x in cs[j];
      }
      assert r in ss[j] && forall x :: (x in ss[j] <==> Reachable(nav, r, x));
    }
    forall j, j', x | 0 <= j < j' < |ss| && x in ss[j] ensures x !in ss[j'] {
      assert x in cs[j];
    }
  }

  // ---------------------------------------------------------------------------
  // Connectivity
  // ---------------------------------------------------------------------------

  /** Every two of `nodes` are joined. */
  ghost predicate ConnectedNav(nav: Nav, nodes: seq<nat>)
  {
    forall x, y :: x in nodes && y in nodes ==> Reachable(nav, x, y)
  }

  /** A graph is connected: every two nodes are joined by a path of edges taken either way. */
  ghost predicate Connected(g: Graph)
    requires Valid(g)
  {
    ConnectedNav(NavOf(g, InOut), g.nodes)
  }

  /** Every one of `nodes` is reached from one of `reps`. */
  ghost predicate Covers(nav: Nav, nodes: seq<nat>, reps: seq<nat>)
  {
    forall x :: x in nodes ==> ReachedFrom(nav, reps, x)
  }

  /** `x` is reached from one of `reps`. */
  ghost predicate ReachedFrom(nav: Nav, reps: seq<nat>, x: nat)
  {
    exists j :: 0 <= j < |reps| && Reachable(nav, reps[j], x)
  }

  /** None of `reps` reaches another. */
  ghost predicate Apart(nav: Nav, reps: seq<nat>)
  {
    forall j, j' :: 0 <= j < j' < |reps| ==> !Reachable(nav, reps[j], reps[j'])
  }

  /**
   One node per component: `reps` are nodes, every node is reached from
   one of them, and none of them reaches another.
   */
  ghost predicate Representatives(nav: Nav, nodes: seq<nat>, reps: seq<nat>)
  {
    (forall j :: 0 <= j < |reps| ==> reps[j] in nodes) && Covers(nav, nodes, reps) && Apart(nav, reps)
  }

  /** The representatives come in graph order: a node before one of them is reached from an earlier one. */
  ghost predicate InNodeOrder(nav: Nav, nodes: seq<nat>, reps: seq<nat>)
  {
    forall j, k :: 0 <= j < |reps| && 0 <= k < |nodes| && nodes[k] == reps[j] ==>
                   forall k' :: 0 <= k' < k ==> exists j' :: 0 <= j' < j && Reachable(nav, reps[j'], nodes[k'])
  }

  /** The first node of each component. */
  function Firsts(cs: seq<seq<nat>>): (r: seq<nat>)
    requires forall j :: 0 <= j < |cs| ==> |cs[j]| > 0
    ensures |r| == |cs| && forall j :: 0 <= j < |cs| ==> r[j] == cs[j][0]
  {
    seq(|cs|, j requires 0 <= j < |cs| => cs[j][0])
  }

  /** The first nodes of the components of the sweep represent them. */
  lemma FirstsRepresent(nav: Nav, nodes: seq<nat>, cs: seq<seq<nat>>)
    requires forall x :: x in Union(cs) <==> x in nodes
    requires forall j :: 0 <= j < |cs| ==> |cs[j]| > 0
    requires forall j, x :: 0 <= j < |cs| ==> (x in cs[j] <==> Reachable(nav, cs[j][0], x))
    requires forall j, j', x :: 0 <= j < j' < |cs| && x in cs[j] ==> x !in cs[j']
    ensures Representatives(nav, nodes, Firsts(cs))
  {
    var reps := Firsts(cs);
    forall j | 0 <= j < |reps| ensures reps[j] in nodes {
      UnionHas(cs, reps[j]);
    }
    forall x | x in nodes ensures exists j :: 0 <= j < |reps| && Reachable(nav, reps[j], x) {
      UnionHas(cs, x);
    }
    forall j, j' | 0 <= j < j' < |reps| ensures !Reachable(nav, reps[j], reps[j']) {
      assert reps[j'] in cs[j'];
    }
  }

  /** A node of the earlier components is reached from the first node of one of them. */
  lemma EarlierReached(nav: Nav, cs: seq<seq<nat>>, j: nat, x: nat)
    requires j <= |cs| && x in Union(cs[..j])
    requires forall i :: 0 <= i < |cs| ==> |cs[i]| > 0 && forall y :: y in cs[i] ==> Reachable(nav, cs[i][0], y)
    ensures exists j' :: 0 <= j' < j && Reachable(nav, Firsts(cs)[j'], x)
  {
    UnionHas(cs[..j], x);
    var j' :| 0 <= j' < j && x in cs[..j][j'];
    assert cs[..j][j'] == cs[j'];
    assert Reachable(nav, Firsts(cs)[j'], x);
  }

  /** The first nodes of the components of the sweep come in graph order. */
  lemma FirstsOrdered(nav: Nav, nodes: seq<nat>, cs: seq<seq<nat>>)
    requires forall i :: 0 <= i < |cs| ==> |cs[i]| > 0 && forall y :: y in cs[i] ==> Reachable(nav, cs[i][0], y)
    requires forall j, k :: 0 <= j < |cs| && 0 <= k < |nodes| && nodes[k] == cs[j][0] ==>
                           forall k' :: 0 <= k' < k ==> nodes[k'] in Union(cs[..j])
    ensures InNodeOrder(nav, nodes, Firsts(cs))
  {
    var reps := Firsts(cs);
    forall j, k, k' | 0 <= j < |reps| && 0 <= k < |nodes| && nodes[k] == reps[j] && 0 <= k' < k
      ensures exists j' :: 0 <= j' < j && Reachable(nav, reps[j'], nodes[k'])
    {
      EarlierReached(nav, cs, j, nodes[k']);
    }
  }

  /**
   `connect(graph, toLink)`: nothing when the cached result says the graph
   is connected; otherwise, sweeping the nodes in order, each node no
   earlier search reached is listed and searched from. The list holds one
   node per component, the first in graph order.
   */
  method Connect(g: Graph, cached: Option<bool>) returns (toLink: seq<nat>)
    requires Valid(g)
    ensures cached == Some(true) ==> toLink == []
    ensures cached != Some(true) ==> Representatives(NavOf(g, InOut), g.nodes, toLink)
                                     && InNodeOrder(NavOf(g, InOut), g.nodes, toLink)
  {
    if cached == Some(true) {
      return [];
    }
    if |g.nodes| == 0 {
      return [];
    }
    var cs := ConnectedComponents(g);
    FirstsRepresent(NavOf(g, InOut), g.nodes, cs);
    FirstsOrdered(NavOf(g, InOut), g.nodes, cs);
    toLink := Firsts(cs);
  }

  /** The nodes reached from a node of a valid graph are nodes of it. */
  lemma ReachedNodes(g: Graph, a: nat, x: nat)
    requires Valid(g) && a in g.nodes && Reachable(NavOf(g, InOut), a, x)
    ensures x in g.nodes
  {
    var nav := NavOf(g, InOut);
    NavOfOk(g, InOut);
    var p :| Walk(nav, p) && p[0] == a && p[|p| - 1] == x;
    ClosedHoldsWalk(nav, nav.adj.Keys, p);
  }

  /** With symmetric neighbours, `nodes` are all joined exactly when one of them reaches them all. */
  lemma ConnectedFromOne(nav: Nav, nodes: seq<nat>, a: nat)
    requires Symmetric(nav) && a in nodes
    ensures ConnectedNav(nav, nodes) <==> forall x :: x in nodes ==> Reachable(nav, a, x)
  {
    if forall x :: x in nodes ==> Reachable(nav, a, x) {
      JoinedFromOne(nav, nodes, a);
    }
  }

  /** With symmetric neighbours, a node reaching all of `nodes` joins every two of them. */
  lemma JoinedFromOne(nav: Nav, nodes: seq<nat>, a: nat)
    requires Symmetric(nav) && forall x :: x in nodes ==> Reachable(nav, a, x)
    ensures ConnectedNav(nav, nodes)
  {
    forall x, y | x in nodes && y in nodes ensures Reachable(nav, x, y) {
      ReachableBack(nav, a, x);
      ReachableTrans(nav, x, a, y);
    }
  }

  /** With nodes and symmetric neighbours, there is one representative exactly when all nodes are joined. */
  lemma OneIffConnected(nav: Nav, nodes: seq<nat>, reps: seq<nat>)
    requires Symmetric(nav) && |nodes| > 0 && Representatives(nav, nodes, reps)
    ensures |reps| > 0
    ensures |reps| == 1 <==> ConnectedNav(nav, nodes)
  {
    assert nodes[0] in nodes;
    assert Covers(nav, nodes, reps);
    OneRepJoins(nav, nodes, reps);
    if |reps| > 1 {
      ApartNotJoined(nav, nodes, reps);
    }
  }

  /** Two representatives apart: not all nodes are joined. */
  lemma ApartNotJoined(nav: Nav, nodes: seq<nat>, reps: seq<nat>)
    requires Apart(nav, reps) && |reps| > 1 && reps[0] in nodes && reps[1] in nodes
    ensures !ConnectedNav(nav, nodes)
  {
    assert !Reachable(nav, reps[0], reps[1]);
  }

  /** A single representative joins all nodes. */
  lemma OneRepJoins(nav: Nav, nodes: seq<nat>, reps: seq<nat>)
    requires Symmetric(nav) && Covers(nav, nodes, reps) && |reps| > 0 && reps[0] in nodes
    ensures |reps| == 1 ==> ConnectedNav(nav, nodes)
  {
    if |reps| == 1 {
      forall x | x in nodes ensures Reachable(nav, reps[0], x) {
        var j :| 0 <= j < |reps| && Reachable(nav, reps[j], x);
      }
      ConnectedFromOne(nav, nodes, reps[0]);
    }
  }

  /**
   `isConnected(graph)` (`compute`): the cached result when there is one;
   true for a graph without nodes; otherwise whether a search from one
   node (the first) counts every node. Uncached, it is true exactly when
   the graph is connected.
   */
  method IsConnected(g: Graph, cached: Option<bool>) returns (r: bool)
    requires Valid(g)
    ensures cached.Some? ==> r == cached.value
    ensures cached.None? ==> (r <==> Connected(g))
  {
    if cached.Some? {
      return cached.value;
    }
    if |g.nodes| == 0 {
      return true;
    }
    var nav := NavOf(g, InOut);
    NavOfOk(g, InOut);
    var ns, es := SearchFrom(nav, g.nodes[0], false);
    r := |ns| == |g.nodes|;
    forall x | x in ns ensures x in g.nodes {
      ReachedNodes(g, g.nodes[0], x);
    }
    InOutSymmetric(g);
    CountIffConnected(nav, g.nodes, ns);
  }

  /** A search from the first node counts every node exactly when all nodes are joined. */
  lemma CountIffConnected(nav: Nav, nodes: seq<nat>, ns: seq<nat>)
    requires Symmetric(nav) && |nodes| > 0 && Distinct(nodes) && Distinct(ns)
    requires forall x :: x in ns <==> Reachable(nav, nodes[0], x)
    requires forall x :: x in ns ==> x in nodes
    ensures |ns| == |nodes| <==> ConnectedNav(nav, nodes)
  {
    ConnectedFromOne(nav, nodes, nodes[0]);
    var a := set x | x in ns;
    var b := set x | x in nodes;
    DistinctSize(ns, a);
    DistinctSize(nodes, b);
    if |ns| == |nodes| {
      SubsetSame(a, b);
    }
    if ConnectedNav(nav, nodes) {
      assert b <= a;
      assert a == b;
    }
  }

  /** A subset as large as its superset is the superset. */
  lemma SubsetSame(a: set<nat>, b: set<nat>)
    requires a <= b && |a| == |b|
    ensures a == b
  {
    assert b == a + (b - a);
  }

  /**
   `numberOfConnectedComponents(graph)`: 0 without nodes; otherwise the
   size of the list `connect` fills, or 1 when it is empty (the cache said
   connected). Unless the cache said so, the count is the number of
   components, and the result stored back, count == 1, says whether the
   graph is connected.
   */
  method NumberOfConnectedComponents(g: Graph, cached: Option<bool>) returns (n: nat, stored: Option<bool>)
    requires Valid(g)
    ensures |g.nodes| == 0 ==> n == 0 && stored == None
    ensures |g.nodes| > 0 ==> n > 0 && stored == Some(n == 1)
    ensures |g.nodes| > 0 && cached != Some(true) ==>
              (n == 1 <==> Connected(g)) && exists reps :: |reps| == n && Representatives(NavOf(g, InOut), g.nodes, reps)
  {
    if |g.nodes| == 0 {
      return 0, None;
    }
    var toLink := Connect(g, cached);
    n := if |toLink| > 0 then |toLink| else 1;
    stored := Some(n == 1);
    if cached != Some(true) {
      InOutSymmetric(g);
      OneIffConnected(NavOf(g, InOut), g.nodes, toLink);
    }
  }

  // ---------------------------------------------------------------------------
  // makeConnected
  // ---------------------------------------------------------------------------

  /**
   The in-out lists after an edge from `a` to `b` is added: the edge (its
   identifier does not matter here) is appended to the list of each end.
   */
  function Link(nav: Nav, a: nat, b: nat): (r: Nav)
    requires a in nav.adj && b in nav.adj
    ensures r.adj.Keys == nav.adj.Keys
  {
    var adj1 := nav.adj[a := nav.adj[a] + [(0, b)]];
    Nav(adj1[b := adj1[b] + [(0, a)]])
  }

  /** What the link appends to the list of `x`. */
  function Appended(a: nat, b: nat, x: nat): seq<(nat, nat)>
  {
    (if x == a then [(0, b)] else []) + (if x == b then [(0, a)] else [])
  }

  /** The list of `x` after the link: the old one, then what is appended to it. */
  lemma LinkList(nav: Nav, a: nat, b: nat, x: nat)
    requires a in nav.adj && b in nav.adj && x in nav.adj
    ensures Link(nav, a, b).adj[x] == nav.adj[x] + Appended(a, b, x)
  {
  }

  /** After the link, the old neighbours remain and `a`, `b` are neighbours both ways; nothing else is new. */
  lemma LinkAdjacent(nav: Nav, a: nat, b: nat, x: nat, y: nat)
    requires a in nav.adj && b in nav.adj
    ensures Adjacent(Link(nav, a, b), x, y) <==> Adjacent(nav, x, y) || (x == a && y == b) || (x == b && y == a)
  {
    if x in nav.adj {
      var l := Link(nav, a, b);
      var old_ := nav.adj[x];
      var extra := Appended(a, b, x);
      LinkList(nav, a, b, x);
      if Adjacent(nav, x, y) {
        var k :| 0 <= k < |old_| && old_[k].1 == y;
        assert l.adj[x][k] == old_[k];
      }
      if x == a && y == b {
        assert l.adj[x][|old_|] == (0, b);
      }
      if x == b && y == a {
        assert l.adj[x][|l.adj[x]| - 1] == (0, a);
      }
      if Adjacent(l, x, y) {
        var k :| 0 <= k < |l.adj[x]| && l.adj[x][k].1 == y;
        if k < |old_| {
          assert l.adj[x][k] == old_[k];
        } else {
          assert extra[k - |old_|].1 == y;
        }
      }
    }
  }

  /** The in-out lists after the edges `added` are added one by one. */
  function WithLinks(nav: Nav, added: seq<(nat, nat)>): (r: Nav)
    requires forall i :: 0 <= i < |added| ==> added[i].0 in nav.adj && added[i].1 in nav.adj
    ensures r.adj.Keys == nav.adj.Keys
    decreases |added|
  {
    if |added| == 0 then nav
    else
      var last := added[|added| - 1];
      Link(WithLinks(nav, added[..|added| - 1]), last.0, last.1)
  }

  /** Every neighbour in `n1` is one in `n2`. */
  ghost predicate Sub(n1: Nav, n2: Nav)
  {
    forall x, y :: Adjacent(n1, x, y) ==> Adjacent(n2, x, y)
  }

  /** More neighbours reach at least as much. */
  lemma SubReachable(n1: Nav, n2: Nav, a: nat, b: nat)
    requires Sub(n1, n2) && Reachable(n1, a, b)
    ensures Reachable(n2, a, b)
  {
    var p :| Walk(n1, p) && p[0] == a && p[|p| - 1] == b;
    assert Walk(n2, p);
  }

  /** Links added keep the old neighbours, add their own both ways, and keep neighbours symmetric. */
  lemma {:induction false} WithLinksAdjacent(nav: Nav, added: seq<(nat, nat)>)
    requires forall i :: 0 <= i < |added| ==> added[i].0 in nav.adj && added[i].1 in nav.adj
    ensures Sub(nav, WithLinks(nav, added))
    ensures forall i :: 0 <= i < |added| ==> Adjacent(WithLinks(nav, added), added[i].0, added[i].1)
    ensures Symmetric(nav) ==> Symmetric(WithLinks(nav, added))
    decreases |added|
  {
    if |added| > 0 {
      var init := added[..|added| - 1];
      var last := added[|added| - 1];
      var w := WithLinks(nav, init);
      WithLinksAdjacent(nav, init);
      var w' := Link(w, last.0, last.1);
      assert w' == WithLinks(nav, added);
      forall x, y ensures Adjacent(w', x, y) <==> Adjacent(w, x, y) || (x == last.0 && y == last.1) || (x == last.1 && y == last.0) {
        LinkAdjacent(w, last.0, last.1, x, y);
      }
      forall i | 0 <= i < |added| ensures Adjacent(w', added[i].0, added[i].1) {
        if i < |init| {
          assert added[i] == init[i];
        }
      }
    }
  }

  /** The links `makeConnected` adds: each listed node to the next. */
  function Chain(toLink: seq<nat>): (r: seq<(nat, nat)>)
    ensures |r| == if |toLink| == 0 then 0 else |toLink| - 1
    ensures forall i {:trigger r[i]} :: 0 <= i < |r| ==> r[i] == (toLink[i], toLink[i + 1])
  {
    if |toLink| == 0 then [] else seq(|toLink| - 1, i requires 0 <= i < |toLink| - 1 => (toLink[i], toLink[i + 1]))
  }

  /** The `i`-th listed node is a neighbour of the next. */
  ghost predicate Linked(w: Nav, reps: seq<nat>, i: nat)
    requires i + 1 < |reps|
  {
    Adjacent(w, reps[i], reps[i + 1])
  }

  /** The chain of links: each listed node becomes a neighbour of the next, and the old neighbours stay. */
  lemma ChainLinked(nav: Nav, reps: seq<nat>)
    requires forall j :: 0 <= j < |reps| ==> reps[j] in nav.adj
    ensures Sub(nav, WithLinks(nav, Chain(reps)))
    ensures Symmetric(nav) ==> Symmetric(WithLinks(nav, Chain(reps)))
    ensures forall i :: 0 <= i < |reps| - 1 ==> Linked(WithLinks(nav, Chain(reps)), reps, i)
  {
    var added := Chain(reps);
    WithLinksAdjacent(nav, added);
    forall i | 0 <= i < |reps| - 1 ensures Linked(WithLinks(nav, added), reps, i) {
      assert added[i] == (reps[i], reps[i + 1]);
    }
  }

  /** Linking one node of each component to the next joins all nodes. */
  lemma ChainJoins(nav: Nav, w: Nav, nodes: seq<nat>, reps: seq<nat>)
    requires Sub(nav, w) && Symmetric(w) && Covers(nav, nodes, reps)
    requires forall j :: 0 <= j < |reps| ==> reps[j] in nodes
    requires forall i :: 0 <= i < |reps| - 1 ==> Linked(w, reps, i)
    ensures ConnectedNav(w, nodes)
  {
    if |nodes| > 0 {
      assert nodes[0] in nodes;
      assert |reps| > 0;
      AllFromFirst(nav, w, nodes, reps);
      JoinedFromOne(w, nodes, reps[0]);
    }
  }

  /** The first listed node reaches every node once the listed nodes are chained. */
  lemma AllFromFirst(nav: Nav, w: Nav, nodes: seq<nat>, reps: seq<nat>)
    requires Sub(nav, w) && Covers(nav, nodes, reps) && |reps| > 0
    requires forall i :: 0 <= i < |reps| - 1 ==> Linked(w, reps, i)
    ensures forall x :: x in nodes ==> Reachable(w, reps[0], x)
  {
    forall x | x in nodes ensures Reachable(w, reps[0], x) {
      var j :| 0 <= j < |reps| && Reachable(nav, reps[j], x);
      SubReachable(nav, w, reps[j], x);
      ChainReaches(w, reps, j);
      ReachableTrans(w, reps[0], reps[j], x);
    }
  }

  /** Along the chain the first listed node reaches the others. */
  lemma {:induction false} ChainReaches(w: Nav, reps: seq<nat>, j: nat)
    requires j < |reps|
    requires forall i :: 0 <= i < |reps| - 1 ==> Linked(w, reps, i)
    ensures Reachable(w, reps[0], reps[j])
  {
    if j == 0 {
      WithinStart(w, reps[0]);
    } else {
      ChainReaches(w, reps, j - 1);
      assert Linked(w, reps, j - 1);
      ReachableStep(w, reps[0], reps[j - 1], reps[j]);
    }
  }

  /**
   The graph connected by the links `added` (edges whose identifiers do
   not matter here) appended to the in-out lists of their ends.
   */
  ghost predicate ConnectedWith(g: Graph, added: seq<(nat, nat)>)
    requires Valid(g) && forall i :: 0 <= i < |added| ==> added[i].0 in g.nodes && added[i].1 in g.nodes
  {
    NavOfOk(g, InOut);
    ConnectedNav(WithLinks(NavOf(g, InOut), added), g.nodes)
  }

  /**
   `makeConnected(graph, addedEdges)`: the cached result dropped, `connect`
   lists one node per component in graph order, and an edge is added from
   each listed node to the next: one edge fewer than there are components.
   Afterwards the graph is connected.
   */
  method MakeConnected(g: Graph) returns (toLink: seq<nat>, added: seq<(nat, nat)>)
    requires Valid(g)
    ensures Representatives(NavOf(g, InOut), g.nodes, toLink) && InNodeOrder(NavOf(g, InOut), g.nodes, toLink)
    ensures forall j :: 0 <= j < |toLink| ==> toLink[j] in g.nodes
    ensures |added| == (if |toLink| == 0 then 0 else |toLink| - 1)
    ensures forall i {:trigger added[i]} :: 0 <= i < |added| ==> added[i] == (toLink[i], toLink[i + 1])
    ensures ConnectedWith(g, added)
  {
    toLink := Connect(g, None);
    added := Chain(toLink);
    ChainConnects(g, toLink);
  }

  /** Chaining one node per component connects the graph. */
  lemma ChainConnects(g: Graph, reps: seq<nat>)
    requires Valid(g) && Representatives(NavOf(g, InOut), g.nodes, reps)
    ensures forall i :: 0 <= i < |Chain(reps)| ==> Chain(reps)[i].0 in g.nodes && Chain(reps)[i].1 in g.nodes
    ensures ConnectedWith(g, Chain(reps))
  {
    NavOfOk(g, InOut);
    InOutSymmetric(g);
    var nav := NavOf(g, InOut);
    ChainLinked(nav, reps);
    ChainJoins(nav, WithLinks(nav, Chain(reps)), g.nodes, reps);
  }
}
