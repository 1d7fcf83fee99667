/**
 Traversals of GraphTools.cpp: breadth- and depth-first search from a root
 or over the whole graph, the nodes reachable within a distance, and the
 closure of an edge selection.

 A traversal only asks the graph, for a node, for its incident edges in a
 direction and for the opposite end of each. `Nav` holds exactly that: for
 every node the (edge, neighbour) pairs in iteration order. `NavOf` builds
 it from a graph and a direction, and the search methods work on it.
 */
module GraphTools {
  import opened Wrappers
  import opened Seqs
  import opened Graphs
  import opened GraphIterators

  // ---------------------------------------------------------------------------
  // Direction dispatch
  // ---------------------------------------------------------------------------

  /** `EDGE_TYPE`. */
  datatype EdgeType = Directed | InvDirected | Undirected

  /** `getIncidentEdgesIterator` / `getAdjacentNodesIterator`: out-edges, in-edges, or both. */
  function DirectionOf(t: EdgeType): Direction
  {
    match t
    case Directed => Out
    case InvDirected => In
    case Undirected => InOut
  }

  /** For every node, the (edge, neighbour) pairs a traversal reads, in iteration order. */
  datatype Nav = Nav(adj: map<nat, seq<(nat, nat)>>)

  /** Every neighbour is itself a node. */
  ghost predicate NavOk(nav: Nav)
  {
    forall n, k :: n in nav.adj && 0 <= k < |nav.adj[n]| ==> nav.adj[n][k].1 in nav.adj
  }

  /** Each edge of `es` paired with the node the node iterator yields for it. */
  function Pairs(g: Graph, es: seq<nat>, n: nat, dir: Direction): (r: seq<(nat, nat)>)
    requires forall e :: e in es ==> e in g.ends
    ensures |r| == |es| && forall k :: 0 <= k < |es| ==> r[k] == (es[k], NodeOf(g, es[k], n, dir))
  {
    seq(|es|, k requires 0 <= k < |es| => (es[k], NodeOf(g, es[k], n, dir)))
  }

  /** The edges a node's iterator yields in a valid graph have ends, and `n` is the end the direction names. */
  lemma RootEdgesEnds(g: Graph, n: nat, dir: Direction)
    requires Valid(g) && n in g.data
    ensures forall e :: e in RootEdges(g, n, dir) <==> e in g.edges && e in g.ends && match dir
              case Out => g.ends[e].0 == n
              case In => g.ends[e].1 == n
              case InOut => g.ends[e].0 == n || g.ends[e].1 == n
  {
  }

  /** The traversal structure of a graph in a direction. */
  function NavOf(g: Graph, dir: Direction): Nav
    requires Valid(g)
  {
    assert forall n :: n in g.data ==> forall e :: e in RootEdges(g, n, dir) ==> e in g.ends by {
      forall n | n in g.data {
        RootEdgesEnds(g, n, dir);
      }
    }
    Nav(map n | n in g.data :: Pairs(g, RootEdges(g, n, dir), n, dir))
  }

  /**
   A node's pairs are exactly its edges in the direction, each with the
   target (out), the source (in) or the other end (in-out); every
   neighbour is a node of the graph.
   */
  lemma NavOfOk(g: Graph, dir: Direction)
    requires Valid(g)
    ensures NavOk(NavOf(g, dir)) && forall n :: n in NavOf(g, dir).adj <==> n in g.data
  {
    var nav := NavOf(g, dir);
    forall x, k | x in nav.adj && 0 <= k < |nav.adj[x]| ensures nav.adj[x][k].1 in nav.adj {
      RootEdgesEnds(g, x, dir);
      var es := RootEdges(g, x, dir);
      assert es[k] in es;
    }
  }

  /** The pairs of a node, in a valid graph. */
  lemma NavOfPairs(g: Graph, dir: Direction, n: nat, e: nat, m: nat)
    requires Valid(g) && n in g.data
    ensures n in NavOf(g, dir).adj
    ensures (e, m) in NavOf(g, dir).adj[n] <==> e in g.edges && e in g.ends && match dir
              case Out => g.ends[e] == (n, m)
              case In => g.ends[e] == (m, n)
              case InOut => (g.ends[e].0 == n && m == g.ends[e].1) || (g.ends[e].1 == n && m == g.ends[e].0)
  {
    var nav := NavOf(g, dir);
    RootEdgesEnds(g, n, dir);
    var es := RootEdges(g, n, dir);
    var ps := nav.adj[n];
    if (e, m) in ps {
      var k :| 0 <= k < |ps| && ps[k] == (e, m);
      assert es[k] in es;
    }
    if e in g.edges && e in g.ends && e in es {
      var k :| 0 <= k < |es| && es[k] == e;
      assert ps[k] == (e, NodeOf(g, e, n, dir));
    }
  }

  // ---------------------------------------------------------------------------
  // Walks
  // ---------------------------------------------------------------------------

  /** `b` is one of the neighbours `a`'s iterator yields. */
  predicate Adjacent(nav: Nav, a: nat, b: nat)
  {
    a in nav.adj && exists k :: 0 <= k < |nav.adj[a]| && nav.adj[a][k].1 == b
  }

  /** A walk: nodes each adjacent to the next. */
  ghost predicate Walk(nav: Nav, p: seq<nat>)
  {
    |p| > 0 && forall i :: 0 <= i < |p| - 1 ==> Adjacent(nav, p[i], p[i + 1])
  }

  /** `b` is reached from `a` along at most `len` steps. */
  ghost predicate Within(nav: Nav, a: nat, b: nat, len: nat)
  {
    exists p :: Walk(nav, p) && p[0] == a && p[|p| - 1] == b && |p| <= len + 1
  }

  /** `b` is reached from `a`. */
  ghost predicate Reachable(nav: Nav, a: nat, b: nat)
  {
    exists p :: Walk(nav, p) && p[0] == a && p[|p| - 1] == b
  }

  lemma WithinStart(nav: Nav, a: nat)
    ensures Within(nav, a, a, 0) && Reachable(nav, a, a)
  {
    assert Walk(nav, [a]);
  }

  /** A walk extended by one neighbour. */
  lemma WithinStep(nav: Nav, a: nat, b: nat, c: nat, len: nat)
    requires Within(nav, a, b, len) && Adjacent(nav, b, c)
    ensures Within(nav, a, c, len + 1) && Reachable(nav, a, c)
  {
    var p :| Walk(nav, p) && p[0] == a && p[|p| - 1] == b && |p| <= len + 1;
    var q := p + [c];
    assert Walk(nav, q) by {
      forall i | 0 <= i < |q| - 1 ensures Adjacent(nav, q[i], q[i + 1]) {
        if i < |p| - 1 {
          assert q[i] == p[i] && q[i + 1] == p[i + 1];
        }
      }
    }
  }

  lemma ReachableWithin(nav: Nav, a: nat, b: nat)
    requires Reachable(nav, a, b)
    ensures exists len: nat :: Within(nav, a, b, len)
  {
    var p :| Walk(nav, p) && p[0] == a && p[|p| - 1] == b;
    assert Within(nav, a, b, |p|);
  }

  /** A set holding every neighbour of its members. */
  ghost predicate Closed(nav: Nav, s: set<nat>)
  {
    forall n, k :: n in s && n in nav.adj && 0 <= k < |nav.adj[n]| ==> nav.adj[n][k].1 in s
  }

  /** A closed set holding the start of a walk holds all of it. */
  lemma {:induction false} ClosedHoldsWalk(nav: Nav, s: set<nat>, p: seq<nat>)
    requires Closed(nav, s) && Walk(nav, p) && p[0] in s
    ensures p[|p| - 1] in s
    decreases |p|
  {
    if |p| > 1 {
      var q := p[..|p| - 1];
      assert Walk(nav, q) by {
        forall i | 0 <= i < |q| - 1 ensures Adjacent(nav, q[i], q[i + 1]) {
          assert q[i] == p[i] && q[i + 1] == p[i + 1];
        }
      }
      ClosedHoldsWalk(nav, s, q);
      assert Adjacent(nav, p[|p| - 2], p[|p| - 1]);
    }
  }

  // ---------------------------------------------------------------------------
  // Scanning a node's neighbours
  // ---------------------------------------------------------------------------

  /** The nodes of a list of (edge, node) pairs. */
  function NodesIn(ps: seq<(nat, nat)>): (r: seq<nat>)
    ensures |r| == |ps| && forall i :: 0 <= i < |ps| ==> r[i] == ps[i].1
  {
    seq(|ps|, i requires 0 <= i < |ps| => ps[i].1)
  }

  /** The edges of a list of (edge, node) pairs. */
  function EdgesIn(ps: seq<(nat, nat)>): (r: seq<nat>)
    ensures |r| == |ps| && forall i :: 0 <= i < |ps| ==> r[i] == ps[i].0
  {
    seq(|ps|, i requires 0 <= i < |ps| => ps[i].0)
  }

  /**
   The inner loop of both searches: each pair whose node is not visited
   yet is kept and the node marked, in scanning order.
   */
  method Discover(scan: seq<(nat, nat)>, visited: set<nat>) returns (found: seq<(nat, nat)>, seen: set<nat>)
    ensures forall i :: 0 <= i < |found| ==> found[i] in scan && found[i].1 !in visited
    ensures Distinct(NodesIn(found))
    ensures seen == visited + (set x | x in NodesIn(found))
    ensures forall k :: 0 <= k < |scan| ==> scan[k].1 in seen
  {
    found := [];
    seen := visited;
    var k := 0;
    while k < |scan|
      invariant k <= |scan|
      invariant forall i :: 0 <= i < |found| ==> found[i] in scan && found[i].1 !in visited
      invariant Distinct(NodesIn(found))
      invariant seen == visited + (set x | x in NodesIn(found))
      invariant forall j :: 0 <= j < k ==> scan[j].1 in seen
    {
      var m := scan[k].1;
      if m !in seen {
        assert forall i :: 0 <= i < |found| ==> NodesIn(found)[i] != m;
        assert NodesIn(found + [scan[k]]) == NodesIn(found) + [m];
        DistinctSnoc(NodesIn(found), m);
        found := found + [scan[k]];
        seen := seen + {m};
      }
      k := k + 1;
    }
  }

  lemma ReachStep(nav: Nav, a: nat, b: nat, c: nat)
    requires Reachable(nav, a, b) && Adjacent(nav, b, c)
    ensures Reachable(nav, a, c)
  {
    ReachableWithin(nav, a, b);
    var len: nat :| Within(nav, a, b, len);
    WithinStep(nav, a, b, c, len);
  }

  /** Taking a subset away removes exactly its size. */
  lemma {:induction false} SubsetCard(a: set<nat>, s: set<nat>)
    requires s <= a
    ensures |a - s| == |a| - |s|
    decreases |s|
  {
    if s != {} {
      var y :| y in s;
      SubsetCard(a - {y}, s - {y});
      assert a - s == (a - {y}) - (s - {y});
    }
  }

  /** Marking the distinct unmarked nodes of `s` leaves `|s|` fewer nodes unmarked. */
  lemma MarkCount(keys: set<nat>, marked: set<nat>, s: seq<nat>)
    requires Distinct(s) && forall x :: x in s ==> x in keys && x !in marked
    ensures |keys - (marked + set x | x in s)| == |keys - marked| - |s|
  {
    var t := set x | x in s;
    DistinctSize(s, t);
    SubsetCard(keys - marked, t);
    assert keys - (marked + t) == (keys - marked) - t;
  }

  /** The members of two lists laid end to end. */
  lemma SetOfAppend<T>(a: seq<T>, b: seq<T>)
    ensures (set x | x in a + b) == (set x | x in a) + (set x | x in b)
  {
  }

  /** Moving the front of a queue to the end of a list keeps the two together unchanged. */
  lemma PopAppend<T>(ns: seq<T>, queue: seq<T>, tail: seq<T>)
    requires |queue| > 0
    ensures (ns + [queue[0]]) + (queue[1..] + tail) == (ns + queue) + tail
  {
  }

  /** Each edge `es[i]` joins an earlier node of `ns` to `ns[i + 1]`: the search tree. */
  ghost predicate TreeEdges(nav: Nav, ns: seq<nat>, es: seq<nat>)
  {
    forall i :: 0 <= i < |es| && i + 1 < |ns| ==> TreeEdge(nav, ns, es, i)
  }

  /** `es[i]` is an edge from a node listed at or before `i` to `ns[i + 1]`. */
  ghost predicate TreeEdge(nav: Nav, ns: seq<nat>, es: seq<nat>, i: nat)
    requires i < |es| && i + 1 < |ns|
  {
    exists j :: 0 <= j <= i && ns[j] in nav.adj && (es[i], ns[i + 1]) in nav.adj[ns[j]]
  }

  // ---------------------------------------------------------------------------
  // Breadth-first search
  // ---------------------------------------------------------------------------

  /** The nodes a search from `root` has seen, in order: new, reachable, each once, root first. */
  ghost predicate Listed(nav: Nav, root: nat, visited: set<nat>, d: seq<nat>)
  {
    Distinct(d) && |d| > 0 && d[0] == root
    && forall x :: x in d ==> x in nav.adj && x !in visited && Reachable(nav, root, x)
  }

  /** Every neighbour of a listed node is marked. */
  ghost predicate Expanded(nav: Nav, ns: seq<nat>, seen: set<nat>)
  {
    forall i, k :: 0 <= i < |ns| && ns[i] in nav.adj && 0 <= k < |nav.adj[ns[i]]| ==> nav.adj[ns[i]][k].1 in seen
  }

  /** The state of a search from `root` begun with the nodes `visited` marked: `ns` listed, `pending` still to list. */
  ghost predicate Searching(nav: Nav, root: nat, visited: set<nat>, ns: seq<nat>, pending: seq<nat>, es: seq<nat>, seen: set<nat>)
  {
    SearchState(nav, root, visited, ns, ns + pending, es, seen)
  }

  /** `Searching`, with the listed and pending nodes together as `d`. */
  ghost predicate SearchState(nav: Nav, root: nat, visited: set<nat>, ns: seq<nat>, d: seq<nat>, es: seq<nat>, seen: set<nat>)
  {
    Listed(nav, root, visited, d)
    && seen == visited + (set x | x in d)
    && |es| + 1 == |d|
    && Expanded(nav, ns, seen)
    && TreeEdges(nav, d, es)
  }

  /** What `Discover` promises about a scan of `scan` from the marks `seen`. */
  ghost predicate Discovered(scan: seq<(nat, nat)>, seen: set<nat>, found: seq<(nat, nat)>, seen2: set<nat>)
  {
    (forall i :: 0 <= i < |found| ==> found[i] in scan && found[i].1 !in seen)
    && Distinct(NodesIn(found))
    && seen2 == seen + (set x | x in NodesIn(found))
    && (forall k :: 0 <= k < |scan| ==> scan[k].1 in seen2)
  }

  /** The nodes first seen around a listed node extend the list. */
  lemma ListedStep(nav: Nav, root: nat, visited: set<nat>, d: seq<nat>, seen: set<nat>, cur: nat, found: seq<(nat, nat)>)
    requires NavOk(nav) && Listed(nav, root, visited, d) && visited <= seen && (forall x :: x in d ==> x in seen)
    requires cur in d && forall i :: 0 <= i < |found| ==> found[i] in nav.adj[cur] && found[i].1 !in seen
    requires Distinct(NodesIn(found))
    ensures Listed(nav, root, visited, d + NodesIn(found))
  {
    var fn := NodesIn(found);
    var d2 := d + fn;
    var scan := nav.adj[cur];
    forall x | x in fn ensures x in nav.adj && x !in visited && Reachable(nav, root, x) {
      var i :| 0 <= i < |fn| && fn[i] == x;
      var k :| 0 <= k < |scan| && scan[k] == found[i];
      assert Adjacent(nav, cur, x);
      ReachStep(nav, root, cur, x);
    }
    forall i, j | 0 <= i < j < |d2| ensures d2[i] != d2[j] {
      if j >= |d| {
        assert d2[j] == fn[j - |d|];
        if i >= |d| {
          assert d2[i] == fn[i - |d|];
        } else {
          assert d2[i] == d[i] && d[i] in seen;
        }
      }
    }
  }

  /** The edges that reached the nodes first seen around `d[p]` extend the search tree. */
  lemma TreeStep(nav: Nav, d: seq<nat>, es: seq<nat>, p: nat, found: seq<(nat, nat)>)
    requires TreeEdges(nav, d, es) && |es| + 1 == |d| && p < |d| && d[p] in nav.adj
    requires forall i :: 0 <= i < |found| ==> found[i] in nav.adj[d[p]]
    ensures TreeEdges(nav, d + NodesIn(found), es + EdgesIn(found))
  {
    var d2, es2 := d + NodesIn(found), es + EdgesIn(found);
    forall i | 0 <= i < |es2| && i + 1 < |d2| ensures TreeEdge(nav, d2, es2, i) {
      if i < |es| {
        assert es2[i] == es[i] && d2[i + 1] == d[i + 1];
        assert TreeEdge(nav, d, es, i);
        var j :| 0 <= j <= i && d[j] in nav.adj && (es[i], d[i + 1]) in nav.adj[d[j]];
        assert d2[j] == d[j];
      } else {
        var t := i - |es|;
        assert es2[i] == found[t].0 && d2[i + 1] == found[t].1 && d2[p] == d[p];
        assert found[t] in nav.adj[d2[p]] && 0 <= p <= i;
      }
    }
  }

  /** Once all neighbours of `cur` are marked, `cur` may join the listed nodes. */
  lemma ExpandedStep(nav: Nav, ns: seq<nat>, seen: set<nat>, cur: nat, seen2: set<nat>)
    requires Expanded(nav, ns, seen) && seen <= seen2 && cur in nav.adj
    requires forall k :: 0 <= k < |nav.adj[cur]| ==> nav.adj[cur][k].1 in seen2
    ensures Expanded(nav, ns + [cur], seen2)
  {
    var ns2 := ns + [cur];
    forall i, k | 0 <= i < |ns2| && ns2[i] in nav.adj && 0 <= k < |nav.adj[ns2[i]]| ensures nav.adj[ns2[i]][k].1 in seen2 {
      if i < |ns| {
        assert ns2[i] == ns[i];
      }
    }
  }

  /**
   One round of breadth-first search: the node at the front leaves the
   queue for the list, and the neighbours first seen join the queue's back
   with the edges that reached them.
   */
  lemma BfsStep(nav: Nav, root: nat, visited: set<nat>, ns: seq<nat>, queue: seq<nat>, es: seq<nat>,
                seen: set<nat>, found: seq<(nat, nat)>, seen2: set<nat>)
    requires NavOk(nav) && visited <= nav.adj.Keys && |queue| > 0
    requires Searching(nav, root, visited, ns, queue, es, seen)
    requires queue[0] in nav.adj && Discovered(nav.adj[queue[0]], seen, found, seen2)
    ensures Searching(nav, root, visited, ns + [queue[0]], queue[1..] + NodesIn(found), es + EdgesIn(found), seen2)
    ensures |nav.adj.Keys - seen2| == |nav.adj.Keys - seen| - |found|
  {
    var cur := queue[0];
    var fn := NodesIn(found);
    var d := ns + queue;
    assert d[|ns|] == cur;
    ListedStep(nav, root, visited, d, seen, cur, found);
    TreeStep(nav, d, es, |ns|, found);
    ExpandedStep(nav, ns, seen, cur, seen2);
    MarkCount(nav.adj.Keys, seen, fn);
    SetOfAppend(d, fn);
    assert SearchState(nav, root, visited, ns + [cur], d + fn, es + EdgesIn(found), seen2);
    PopAppend(ns, queue, fn);
  }

  /**
   The static `bfs`: nothing when `root` is marked already; otherwise nodes
   leave a FIFO queue in the order they were first seen, each marked and
   the edge it was reached by recorded when first seen. The nodes listed
   are new, reachable from `root`, each once, root first, one edge fewer
   than nodes, and every neighbour of a listed node ends marked.
   */
  method Bfs(nav: Nav, root: nat, visited: set<nat>) returns (ns: seq<nat>, es: seq<nat>, seen: set<nat>)
    requires NavOk(nav) && root in nav.adj && visited <= nav.adj.Keys
    ensures root in visited ==> ns == [] && es == [] && seen == visited
    ensures root !in visited ==> |ns| > 0 && ns[0] == root && |es| == |ns| - 1
    ensures Distinct(ns) && forall x :: x in ns ==> x in nav.adj && x !in visited && Reachable(nav, root, x)
    ensures seen == visited + (set x | x in ns)
    ensures Expanded(nav, ns, seen)
    ensures TreeEdges(nav, ns, es)
  {
    if root in visited {
      return [], [], visited;
    }
    seen := visited + {root};
    var queue := [root];
    ns, es := [], [];
    SearchStart(nav, root, visited);
    while |queue| > 0
      invariant Searching(nav, root, visited, ns, queue, es, seen)
      invariant seen <= nav.adj.Keys
      decreases 2 * |nav.adj.Keys - seen| + |queue|
    {
      var cur := queue[0];
      assert cur in ns + queue;
      var found, seen2 := Discover(nav.adj[cur], seen);
      BfsStep(nav, root, visited, ns, queue, es, seen, found, seen2);
      ns, queue, es, seen := ns + [cur], queue[1..] + NodesIn(found), es + EdgesIn(found), seen2;
    }
    assert ns + queue == ns;
  }

  /** A search begins with the root alone marked and pending. */
  lemma SearchStart(nav: Nav, root: nat, visited: set<nat>)
    requires root in nav.adj && root !in visited
    ensures Searching(nav, root, visited, [], [root], [], visited + {root})
  {
    WithinStart(nav, root);
    assert [] + [root] == [root];
    assert (set x | x in [root]) == {root};
  }

  /** A list whose members' neighbours are all among its members is closed. */
  lemma ExpandedClosed(nav: Nav, ns: seq<nat>)
    requires Expanded(nav, ns, (set y | y in ns))
    ensures Closed(nav, (set y | y in ns))
  {
    forall n, k | n in (set y | y in ns) && n in nav.adj && 0 <= k < |nav.adj[n]|
      ensures nav.adj[n][k].1 in (set y | y in ns)
    {
      var i :| 0 <= i < |ns| && ns[i] == n;
    }
  }

  /** A search from scratch lists exactly the nodes reachable from its root. */
  lemma BfsReachesAll(nav: Nav, root: nat, ns: seq<nat>, x: nat)
    requires |ns| > 0 && ns[0] == root && Expanded(nav, ns, (set y | y in ns))
    requires Reachable(nav, root, x)
    ensures x in ns
  {
    ExpandedClosed(nav, ns);
    var p :| Walk(nav, p) && p[0] == root && p[|p| - 1] == x;
    ClosedHoldsWalk(nav, (set y | y in ns), p);
  }

  /** The root `performBfs` and `performDfs` start from: the one given, else the source, else the first node. */
  function StartNode(g: Graph, root: Option<nat>, source: Option<nat>): nat
    requires |g.nodes| > 0
  {
    if root.Some? then root.value else if source.Some? then source.value else g.nodes[0]
  }

  /** The direction a search with the `directed` flag follows. */
  function SearchDirection(directed: bool): Direction
  {
    if directed then Out else InOut
  }

  /**
   `bfs(graph, root, directed)` and `bfsEdges`: nothing on a graph without
   nodes; otherwise, from the chosen root, every node reachable from it once,
   root first, and one edge of the search tree per node after the root.
   `source` is the graph's `getSource()`.
   */
  method PerformBfs(g: Graph, root: Option<nat>, source: Option<nat>, directed: bool) returns (ns: seq<nat>, es: seq<nat>)
    requires Valid(g)
    requires root.Some? ==> root.value in g.data
    requires source.Some? ==> source.value in g.data
    ensures |g.nodes| == 0 ==> ns == [] && es == []
    ensures |g.nodes| > 0 ==> var r := StartNode(g, root, source);
              |ns| > 0 && ns[0] == r && |es| == |ns| - 1 && Distinct(ns)
              && forall x :: x in ns <==> Reachable(NavOf(g, SearchDirection(directed)), r, x)
    ensures TreeEdges(NavOf(g, SearchDirection(directed)), ns, es)
  {
    if |g.nodes| == 0 {
      return [], [];
    }
    NavOfOk(g, SearchDirection(directed));
    ns, es := SearchFrom(NavOf(g, SearchDirection(directed)), StartNode(g, root, source), false);
  }

  /** A search from scratch, depth-first or breadth-first: the nodes reachable from `r`, each once, `r` first. */
  method SearchFrom(nav: Nav, r: nat, depth: bool) returns (ns: seq<nat>, es: seq<nat>)
    requires NavOk(nav) && r in nav.adj
    ensures |ns| > 0 && ns[0] == r && |es| == |ns| - 1 && Distinct(ns)
    ensures forall x :: x in ns <==> Reachable(nav, r, x)
    ensures TreeEdges(nav, ns, es)
  {
    var seen;
    if depth {
      ns, es, seen := Dfs(nav, r, {});
    } else {
      ns, es, seen := Bfs(nav, r, {});
    }
    assert seen == (set y | y in ns);
    forall x | Reachable(nav, r, x) ensures x in ns {
      BfsReachesAll(nav, r, ns, x);
    }
  }

  /**
   The cumulative `bfs(graph)` and `bfsEdges(graph)`: a search from every
   node in graph order, sharing the marks, so every node of the graph is
   listed exactly once.
   */
  method CumulativeBfs(g: Graph) returns (ns: seq<nat>, es: seq<nat>)
    requires Valid(g)
    ensures Distinct(ns) && |ns| == |g.nodes| && forall x :: x in ns <==> x in g.nodes
  {
    NavOfOk(g, InOut);
    ns, es := SearchAll(NavOf(g, InOut), g.nodes, false);
    DistinctSize(ns, (set y | y in g.nodes));
    DistinctSize(g.nodes, (set y | y in g.nodes));
  }

  /** Searches from each of `starts` in turn with shared marks: every node listed once, all of `starts` among them. */
  method SearchAll(nav: Nav, starts: seq<nat>, depth: bool) returns (ns: seq<nat>, es: seq<nat>)
    requires NavOk(nav) && forall x :: x in starts <==> x in nav.adj
    ensures Distinct(ns) && forall x :: x in ns <==> x in starts
  {
    var visited: set<nat> := {};
    ns, es := [], [];
    var i := 0;
    while i < |starts|
      invariant i <= |starts|
      invariant visited == (set x | x in ns) && visited <= nav.adj.Keys
      invariant Distinct(ns)
      invariant forall j :: 0 <= j < i ==> starts[j] in visited
    {
      var a, b, v;
      if depth {
        a, b, v := Dfs(nav, starts[i], visited);
      } else {
        a, b, v := Bfs(nav, starts[i], visited);
      }
      ConcatDistinct(ns, a, visited);
      SetOfAppend(ns, a);
      ns, es, visited := ns + a, es + b, v;
      i := i + 1;
    }
    forall x | x in starts ensures x in ns {
      var j :| 0 <= j < |starts| && starts[j] == x;
    }
  }

  /** Two lists without repeats, the second avoiding the first, laid end to end. */
  lemma ConcatDistinct(a: seq<nat>, b: seq<nat>, s: set<nat>)
    requires Distinct(a) && Distinct(b) && s == (set x | x in a) && forall x :: x in b ==> x !in s
    ensures Distinct(a + b)
  {
    var c := a + b;
    forall i, j | 0 <= i < j < |c| ensures c[i] != c[j] {
      if i < |a| && j >= |a| {
        assert c[i] in s && c[j] == b[j - |a|];
      } else if i >= |a| {
        assert c[i] == b[i - |a|] && c[j] == b[j - |a|];
      }
    }
  }

  // ---------------------------------------------------------------------------
  // Depth-first search
  // ---------------------------------------------------------------------------

  /** An entry of the search stack: the edge that reached the node (none for the root) and the node. */
  type Entry = (Option<nat>, nat)

  /** The nodes of stack entries. */
  function StackNodes(st: seq<Entry>): (r: seq<nat>)
    ensures |r| == |st| && forall i :: 0 <= i < |st| ==> r[i] == st[i].1
  {
    seq(|st|, i requires 0 <= i < |st| => st[i].1)
  }

  /** The pairs found around a node, as stack entries. */
  function Tagged(ps: seq<(nat, nat)>): (r: seq<Entry>)
    ensures |r| == |ps| && forall i :: 0 <= i < |ps| ==> r[i] == (Some(ps[i].0), ps[i].1)
  {
    seq(|ps|, i requires 0 <= i < |ps| => (Some(ps[i].0), ps[i].1))
  }

  /** `reversed(incidentEdges)`. */
  function Reverse<T>(s: seq<T>): (r: seq<T>)
    ensures |r| == |s| && forall i :: 0 <= i < |s| ==> r[i] == s[|s| - 1 - i]
  {
    seq(|s|, i requires 0 <= i < |s| => s[|s| - 1 - i])
  }

  /** The stack entry `p` came from a listed node: its edge leads there from one of `ns`. */
  ghost predicate HangsFrom(nav: Nav, ns: seq<nat>, p: Entry)
  {
    p.0.Some? && exists j :: 0 <= j < |ns| && ns[j] in nav.adj && (p.0.value, p.1) in nav.adj[ns[j]]
  }

  /** The state of a depth-first search from `root`: `ns` listed, `stack` pending, `es` the tree edges so far. */
  ghost predicate Stacked(nav: Nav, root: nat, visited: set<nat>, ns: seq<nat>, stack: seq<Entry>, es: seq<nat>, seen: set<nat>)
  {
    StackState(nav, root, visited, ns, ns + StackNodes(stack), stack, es, seen)
  }

  /** `Stacked`, with the listed and pending nodes `d` named. */
  ghost predicate StackState(nav: Nav, root: nat, visited: set<nat>, ns: seq<nat>, d: seq<nat>, stack: seq<Entry>, es: seq<nat>, seen: set<nat>)
  {
    Listed(nav, root, visited, d)
    && seen == visited + (set x | x in d)
    && Expanded(nav, ns, seen)
    && StackTree(nav, root, ns, stack, es)
  }

  /** The tree edges so far, and every pending entry hanging from a listed node; only the root's entry has no edge. */
  ghost predicate StackTree(nav: Nav, root: nat, ns: seq<nat>, stack: seq<Entry>, es: seq<nat>)
  {
    TreeEdges(nav, ns, es)
    && (if |ns| == 0 then stack == [(None, root)] && es == []
        else |es| + 1 == |ns| && forall k :: 0 <= k < |stack| ==> HangsFrom(nav, ns, stack[k]))
  }

  /** Moving the last node of a list of distinct, reachable nodes to a middle position keeps it such a list. */
  lemma ListedMove(nav: Nav, root: nat, visited: set<nat>, ns: seq<nat>, rest: seq<nat>, cur: nat)
    requires Listed(nav, root, visited, ns + rest + [cur]) && (|ns| == 0 ==> cur == root)
    ensures Listed(nav, root, visited, ns + [cur] + rest)
    ensures (set x | x in ns + [cur] + rest) == (set x | x in ns + rest + [cur])
  {
    var a, b := ns + rest + [cur], ns + [cur] + rest;
    assert forall x :: x in b <==> x in a;
    assert b[0] == root by {
      if |ns| > 0 {
        assert b[0] == ns[0] == a[0];
      }
    }
    forall i, j | 0 <= i < j < |b| ensures b[i] != b[j] {
      var m := |ns|;
      var i2 := if i < m then i else if i == m then |a| - 1 else i - 1;
      var j2 := if j < m then j else if j == m then |a| - 1 else j - 1;
      assert b[i] == a[i2] && b[j] == a[j2] && i2 != j2;
    }
  }

  /** The tree edges after listing the top entry of the stack. */
  lemma DfsTreeStep(nav: Nav, ns: seq<nat>, es: seq<nat>, top: Entry)
    requires TreeEdges(nav, ns, es) && |es| + 1 == |ns| && HangsFrom(nav, ns, top)
    ensures TreeEdges(nav, ns + [top.1], es + [top.0.value])
  {
    var ns2, es2 := ns + [top.1], es + [top.0.value];
    forall i | 0 <= i < |es2| && i + 1 < |ns2| ensures TreeEdge(nav, ns2, es2, i) {
      if i < |es| {
        assert TreeEdge(nav, ns, es, i);
        var j :| 0 <= j <= i && ns[j] in nav.adj && (es[i], ns[i + 1]) in nav.adj[ns[j]];
        assert ns2[j] == ns[j] && ns2[i + 1] == ns[i + 1] && es2[i] == es[i];
      } else {
        var j :| 0 <= j < |ns| && ns[j] in nav.adj && (top.0.value, top.1) in nav.adj[ns[j]];
        assert ns2[j] == ns[j] && ns2[i + 1] == top.1 && es2[i] == top.0.value;
      }
    }
  }

  /** The pending entries after listing the top one and pushing those found around it. */
  lemma HangStep(nav: Nav, ns: seq<nat>, rest: seq<Entry>, cur: nat, found: seq<(nat, nat)>)
    requires forall k :: 0 <= k < |rest| ==> HangsFrom(nav, ns, rest[k])
    requires cur in nav.adj && forall i :: 0 <= i < |found| ==> found[i] in nav.adj[cur]
    ensures forall k :: 0 <= k < |rest + Tagged(found)| ==> HangsFrom(nav, ns + [cur], (rest + Tagged(found))[k])
  {
    var ns2, st := ns + [cur], rest + Tagged(found);
    forall k | 0 <= k < |st| ensures HangsFrom(nav, ns2, st[k]) {
      if k < |rest| {
        assert HangsFrom(nav, ns, rest[k]);
        var j :| 0 <= j < |ns| && ns[j] in nav.adj && (rest[k].0.value, rest[k].1) in nav.adj[ns[j]];
        assert ns2[j] == ns[j] && st[k] == rest[k];
      } else {
        var t := k - |rest|;
        assert st[k] == (Some(found[t].0), found[t].1) && ns2[|ns|] == cur;
      }
    }
  }

  /** A pair found in the reversed scan of a node's pairs is one of its pairs; every pair's node ends marked. */
  lemma ReversedScan(nav: Nav, cur: nat, seen: set<nat>, found: seq<(nat, nat)>, seen2: set<nat>)
    requires cur in nav.adj && Discovered(Reverse(nav.adj[cur]), seen, found, seen2)
    ensures forall i :: 0 <= i < |found| ==> found[i] in nav.adj[cur] && found[i].1 !in seen
    ensures forall k :: 0 <= k < |nav.adj[cur]| ==> nav.adj[cur][k].1 in seen2
  {
    var s := nav.adj[cur];
    var r := Reverse(s);
    forall i | 0 <= i < |found| ensures found[i] in s {
      var k :| 0 <= k < |r| && r[k] == found[i];
      assert s[|s| - 1 - k] == found[i];
    }
    forall k | 0 <= k < |s| ensures s[k].1 in seen2 {
      assert r[|s| - 1 - k] == s[k];
    }
  }

  /** The listed and pending nodes after one round of depth-first search. */
  lemma DfsListedStep(nav: Nav, root: nat, visited: set<nat>, ns: seq<nat>, rest: seq<nat>, cur: nat,
                      seen: set<nat>, found: seq<(nat, nat)>, seen2: set<nat>)
    requires NavOk(nav) && (|ns| == 0 ==> cur == root) && cur in nav.adj
    requires Listed(nav, root, visited, ns + rest + [cur]) && seen == visited + (set x | x in ns + rest + [cur])
    requires Discovered(Reverse(nav.adj[cur]), seen, found, seen2)
    ensures Listed(nav, root, visited, ns + [cur] + rest + NodesIn(found))
    ensures seen2 == visited + (set x | x in ns + [cur] + rest + NodesIn(found))
  {
    ListedMove(nav, root, visited, ns, rest, cur);
    var d := ns + [cur] + rest;
    ReversedScan(nav, cur, seen, found, seen2);
    ListedStep(nav, root, visited, d, seen, cur, found);
    SetOfAppend(d, NodesIn(found));
  }

  /** The tree part after one round of depth-first search. */
  lemma DfsTreeRound(nav: Nav, root: nat, ns: seq<nat>, stack: seq<Entry>, es: seq<nat>, found: seq<(nat, nat)>)
    requires |stack| > 0 && StackTree(nav, root, ns, stack, es)
    requires stack[|stack| - 1].1 in nav.adj && forall i :: 0 <= i < |found| ==> found[i] in nav.adj[stack[|stack| - 1].1]
    ensures var top := stack[|stack| - 1];
            StackTree(nav, root, ns + [top.1], stack[..|stack| - 1] + Tagged(found), if top.0.Some? then es + [top.0.value] else es)
  {
    var top := stack[|stack| - 1];
    var rest := stack[..|stack| - 1];
    if |ns| == 0 {
      assert rest == [] && top == (None, root);
    } else {
      assert HangsFrom(nav, ns, top);
      DfsTreeStep(nav, ns, es, top);
    }
    HangStep(nav, ns, rest, top.1, found);
  }

  /** The nodes of a stack, split at its top. */
  lemma StackPop(ns: seq<nat>, stack: seq<Entry>)
    requires |stack| > 0
    ensures ns + StackNodes(stack) == ns + StackNodes(stack[..|stack| - 1]) + [stack[|stack| - 1].1]
  {
    assert StackNodes(stack) == StackNodes(stack[..|stack| - 1]) + [stack[|stack| - 1].1];
  }

  /** The nodes of a stack after pushing found pairs. */
  lemma StackPush(ns: seq<nat>, rest: seq<Entry>, found: seq<(nat, nat)>)
    ensures ns + StackNodes(rest + Tagged(found)) == ns + StackNodes(rest) + NodesIn(found)
  {
    assert StackNodes(rest + Tagged(found)) == StackNodes(rest) + NodesIn(found);
  }

  /**
   One round of depth-first search: the top entry is popped and listed,
   with its edge; the neighbours first seen in the reversed scan are pushed.
   */
  lemma DfsStep(nav: Nav, root: nat, visited: set<nat>, ns: seq<nat>, stack: seq<Entry>, es: seq<nat>,
                seen: set<nat>, found: seq<(nat, nat)>, seen2: set<nat>)
    requires NavOk(nav) && visited <= nav.adj.Keys && |stack| > 0
    requires Stacked(nav, root, visited, ns, stack, es, seen)
    requires stack[|stack| - 1].1 in nav.adj && Discovered(Reverse(nav.adj[stack[|stack| - 1].1]), seen, found, seen2)
    ensures var top := stack[|stack| - 1];
            Stacked(nav, root, visited, ns + [top.1], stack[..|stack| - 1] + Tagged(found),
                    if top.0.Some? then es + [top.0.value] else es, seen2)
    ensures |nav.adj.Keys - seen2| == |nav.adj.Keys - seen| - |found|
  {
    var top := stack[|stack| - 1];
    var cur := top.1;
    var rest := stack[..|stack| - 1];
    var fn := NodesIn(found);
    var st2 := rest + Tagged(found);
    StackPop(ns, stack);
    assert |ns| == 0 ==> cur == root;
    DfsListedStep(nav, root, visited, ns, StackNodes(rest), cur, seen, found, seen2);
    StackPush(ns + [cur], rest, found);
    ReversedScan(nav, cur, seen, found, seen2);
    ExpandedStep(nav, ns, seen, cur, seen2);
    DfsTreeRound(nav, root, ns, stack, es, found);
    MarkCount(nav.adj.Keys, seen, fn);
  }

  /** A depth-first search begins with the root's entry, without an edge, alone on the stack. */
  lemma DfsStart(nav: Nav, root: nat, visited: set<nat>)
    requires root in nav.adj && root !in visited
    ensures Stacked(nav, root, visited, [], [(None, root)], [], visited + {root})
  {
    WithinStart(nav, root);
    assert [] + StackNodes([(None, root)]) == [root];
    assert (set x | x in [root]) == {root};
  }

  /**
   The static `dfs`: nothing when `root` is marked already; otherwise the
   entry on top of the stack is popped and its node listed, with the edge
   that reached it, and the neighbours not yet marked, scanned in reverse
   incidence order, are marked and pushed with their edges. The result
   has the properties `Bfs` has.
   */
  method Dfs(nav: Nav, root: nat, visited: set<nat>) returns (ns: seq<nat>, es: seq<nat>, seen: set<nat>)
    requires NavOk(nav) && root in nav.adj && visited <= nav.adj.Keys
    ensures root in visited ==> ns == [] && es == [] && seen == visited
    ensures root !in visited ==> |ns| > 0 && ns[0] == root && |es| == |ns| - 1
    ensures Distinct(ns) && forall x :: x in ns ==> x in nav.adj && x !in visited && Reachable(nav, root, x)
    ensures seen == visited + (set x | x in ns)
    ensures Expanded(nav, ns, seen)
    ensures TreeEdges(nav, ns, es)
  {
    if root in visited {
      return [], [], visited;
    }
    seen := visited + {root};
    var stack: seq<Entry> := [(None, root)];
    ns, es := [], [];
    DfsStart(nav, root, visited);
    while |stack| > 0
      invariant Stacked(nav, root, visited, ns, stack, es, seen)
      invariant seen <= nav.adj.Keys
      decreases 2 * |nav.adj.Keys - seen| + |stack|
    {
      ns, stack, es, seen := DfsRound(nav, root, visited, ns, stack, es, seen);
    }
    DfsDone(nav, root, visited, ns, stack, es, seen);
  }

  /** One pass of the loop of `Dfs`: the top entry popped and listed, its unmarked neighbours pushed. */
  method DfsRound(nav: Nav, root: nat, visited: set<nat>, ns: seq<nat>, stack: seq<Entry>, es: seq<nat>, seen: set<nat>)
    returns (ns2: seq<nat>, stack2: seq<Entry>, es2: seq<nat>, seen2: set<nat>)
    requires NavOk(nav) && visited <= nav.adj.Keys && seen <= nav.adj.Keys && |stack| > 0
    requires Stacked(nav, root, visited, ns, stack, es, seen)
    ensures Stacked(nav, root, visited, ns2, stack2, es2, seen2) && seen2 <= nav.adj.Keys
    ensures 2 * |nav.adj.Keys - seen2| + |stack2| < 2 * |nav.adj.Keys - seen| + |stack|
  {
    var top := stack[|stack| - 1];
    TopListed(nav, root, visited, ns, stack, es, seen);
    var found;
    found, seen2 := Discover(Reverse(nav.adj[top.1]), seen);
    DfsStep(nav, root, visited, ns, stack, es, seen, found, seen2);
    ReversedScan(nav, top.1, seen, found, seen2);
    es2 := if top.0.Some? then es + [top.0.value] else es;
    ns2, stack2 := ns + [top.1], stack[..|stack| - 1] + Tagged(found);
  }

  /** The node on top of the stack is one the search may expand. */
  lemma TopListed(nav: Nav, root: nat, visited: set<nat>, ns: seq<nat>, stack: seq<Entry>, es: seq<nat>, seen: set<nat>)
    requires Stacked(nav, root, visited, ns, stack, es, seen) && |stack| > 0
    ensures stack[|stack| - 1].1 in nav.adj
  {
    assert (ns + StackNodes(stack))[|ns| + |stack| - 1] == stack[|stack| - 1].1;
  }

  /** Once the stack is empty, the search from `root` is complete. */
  lemma DfsDone(nav: Nav, root: nat, visited: set<nat>, ns: seq<nat>, stack: seq<Entry>, es: seq<nat>, seen: set<nat>)
    requires Stacked(nav, root, visited, ns, stack, es, seen) && |stack| == 0
    ensures |ns| > 0 && ns[0] == root && |es| == |ns| - 1
    ensures Distinct(ns) && forall x :: x in ns ==> x in nav.adj && x !in visited && Reachable(nav, root, x)
    ensures seen == visited + (set x | x in ns)
    ensures Expanded(nav, ns, seen)
    ensures TreeEdges(nav, ns, es)
  {
    assert ns + StackNodes(stack) == ns;
  }

  /**
   `dfs(graph, root, directed)` and `dfsEdges`: as `PerformBfs`, with the
   nodes in depth-first order.
   */
  method PerformDfs(g: Graph, root: Option<nat>, source: Option<nat>, directed: bool) returns (ns: seq<nat>, es: seq<nat>)
    requires Valid(g)
    requires root.Some? ==> root.value in g.data
    requires source.Some? ==> source.value in g.data
    ensures |g.nodes| == 0 ==> ns == [] && es == []
    ensures |g.nodes| > 0 ==> var r := StartNode(g, root, source);
              |ns| > 0 && ns[0] == r && |es| == |ns| - 1 && Distinct(ns)
              && forall x :: x in ns <==> Reachable(NavOf(g, SearchDirection(directed)), r, x)
    ensures TreeEdges(NavOf(g, SearchDirection(directed)), ns, es)
  {
    if |g.nodes| == 0 {
      return [], [];
    }
    NavOfOk(g, SearchDirection(directed));
    ns, es := SearchFrom(NavOf(g, SearchDirection(directed)), StartNode(g, root, source), true);
  }

  /** The cumulative `dfs(graph)` and `dfsEdges(graph)`: every node of the graph listed exactly once. */
  method CumulativeDfs(g: Graph) returns (ns: seq<nat>, es: seq<nat>)
    requires Valid(g)
    ensures Distinct(ns) && |ns| == |g.nodes| && forall x :: x in ns <==> x in g.nodes
  {
    NavOfOk(g, InOut);
    ns, es := SearchAll(NavOf(g, InOut), g.nodes, true);
    DistinctSize(ns, (set y | y in g.nodes));
    DistinctSize(g.nodes, (set y | y in g.nodes));
  }

  // ---------------------------------------------------------------------------
  // Nodes within a distance
  // ---------------------------------------------------------------------------

  /** Every marked node is a node of the graph, at a recorded distance it is reached within, at most the bound. */
  ghost predicate Placed(nav: Nav, start: nat, bound: nat, seen: set<nat>, dist: map<nat, nat>)
  {
    start in seen && dist.Keys == seen && seen <= nav.adj.Keys && dist[start] == 0
    && forall x :: x in seen ==> dist[x] <= bound && Within(nav, start, x, dist[x])
  }

  /** The distances along the FIFO never decrease, and none marked exceeds the front's by more than one. */
  ghost predicate Layered(fifo: seq<nat>, dist: map<nat, nat>)
  {
    (forall i :: 0 <= i < |fifo| ==> fifo[i] in dist)
    && (forall i, j :: 0 <= i <= j < |fifo| ==> dist[fifo[i]] <= dist[fifo[j]])
    && (|fifo| > 0 ==> forall x :: x in dist ==> dist[x] <= dist[fifo[0]] + 1)
  }

  /** Each processed node below the bound has all its neighbours marked, at most one further away. */
  ghost predicate Scanned(nav: Nav, bound: nat, ns: seq<nat>, dist: map<nat, nat>)
  {
    forall i, k :: 0 <= i < |ns| && ns[i] in dist && dist[ns[i]] < bound && ns[i] in nav.adj && 0 <= k < |nav.adj[ns[i]]|
      ==> nav.adj[ns[i]][k].1 in dist && dist[nav.adj[ns[i]][k].1] <= dist[ns[i]] + 1
  }

  /** The caller's map with every node of `s` set to `true`. */
  function SetTrue(result0: map<nat, bool>, s: set<nat>): (r: map<nat, bool>)
    ensures r.Keys == result0.Keys + s
    ensures forall m :: m in r ==> r[m] == if m in s then true else result0[m]
  {
    result0 + map m | m in s :: true
  }

  /** The result so far: `true` for every marked node but the start, the caller's entries elsewhere. */
  ghost predicate Recorded(start: nat, seen: set<nat>, result0: map<nat, bool>, result: map<nat, bool>)
  {
    result == SetTrue(result0, seen - {start})
  }

  /** The marked nodes are those processed and those pending. */
  ghost predicate Covered(seen: set<nat>, ns: seq<nat>, fifo: seq<nat>)
  {
    (forall x :: x in seen ==> x in ns || x in fifo) && forall x :: x in ns ==> x in seen
  }

  /** The state of `markReachableNodes`: `ns` processed, `fifo` pending, `seen` marked, `dist` their distances. */
  ghost predicate Marking(nav: Nav, start: nat, bound: nat, ns: seq<nat>, fifo: seq<nat>, seen: set<nat>,
                          dist: map<nat, nat>, result0: map<nat, bool>, result: map<nat, bool>)
  {
    Placed(nav, start, bound, seen, dist) && Layered(fifo, dist) && Scanned(nav, bound, ns, dist)
    && Covered(seen, ns, fifo) && Recorded(start, seen, result0, result)
  }

  /** The distances with the nodes `fn` added at distance `c`. */
  function Extend(dist: map<nat, nat>, fn: seq<nat>, c: nat): (r: map<nat, nat>)
    ensures r.Keys == dist.Keys + (set x | x in fn)
    ensures forall x :: x in r ==> r[x] == if x in fn then c else dist[x]
  {
    dist + map x | x in fn :: c
  }

  /** The result with the nodes `fn` set to `true`. */
  function MarkAll(result: map<nat, bool>, fn: seq<nat>): (r: map<nat, bool>)
    ensures r.Keys == result.Keys + (set x | x in fn)
    ensures forall x :: x in r ==> r[x] == if x in fn then true else result[x]
  {
    result + map x | x in fn :: true
  }

  /** The nodes first seen around a node below the bound are placed one step further. */
  lemma PlacedStep(nav: Nav, start: nat, bound: nat, seen: set<nat>, dist: map<nat, nat>, cur: nat,
                   found: seq<(nat, nat)>, seen2: set<nat>)
    requires NavOk(nav) && Placed(nav, start, bound, seen, dist) && cur in seen && dist[cur] < bound
    requires Discovered(nav.adj[cur], seen, found, seen2)
    ensures Placed(nav, start, bound, seen2, Extend(dist, NodesIn(found), dist[cur] + 1))
  {
    var fn := NodesIn(found);
    var d2 := Extend(dist, fn, dist[cur] + 1);
    forall x | x in seen2 ensures d2[x] <= bound && Within(nav, start, x, d2[x]) {
      if x in fn {
        var i :| 0 <= i < |fn| && fn[i] == x;
        var k :| 0 <= k < |nav.adj[cur]| && nav.adj[cur][k] == found[i];
        WithinStep(nav, start, cur, x, dist[cur]);
      }
    }
  }

  /** The FIFO keeps its layers when its front leaves and nodes one step further join its back. */
  lemma LayeredStep(fifo: seq<nat>, dist: map<nat, nat>, fn: seq<nat>)
    requires |fifo| > 0 && Layered(fifo, dist) && forall x :: x in fn ==> x !in dist
    ensures Layered(fifo[1..] + fn, Extend(dist, fn, dist[fifo[0]] + 1))
  {
    var c := dist[fifo[0]];
    var d2 := Extend(dist, fn, c + 1);
    var f2 := fifo[1..] + fn;
    forall i | 0 <= i < |f2| ensures f2[i] in d2 && c <= d2[f2[i]] <= c + 1 {
      if i < |fifo| - 1 {
        assert f2[i] == fifo[i + 1];
      } else {
        assert f2[i] == fn[i - |fifo| + 1];
      }
    }
    forall i, j | 0 <= i <= j < |f2| ensures d2[f2[i]] <= d2[f2[j]] {
      if j < |fifo| - 1 {
        assert f2[i] == fifo[i + 1] && f2[j] == fifo[j + 1];
      } else {
        assert f2[j] == fn[j - |fifo| + 1];
      }
    }
    if |f2| > 0 {
      forall x | x in d2 ensures d2[x] <= d2[f2[0]] + 1 {
      }
    }
  }

  /** A processed node below the bound, once scanned, has all its neighbours placed at most one further. */
  lemma ScannedStep(nav: Nav, bound: nat, ns: seq<nat>, dist: map<nat, nat>, cur: nat, d2: map<nat, nat>)
    requires Scanned(nav, bound, ns, dist) && forall x :: x in ns ==> x in dist
    requires forall x :: x in dist ==> x in d2 && d2[x] == dist[x]
    requires cur in d2 && cur in nav.adj && d2[cur] < bound ==>
               forall k :: 0 <= k < |nav.adj[cur]| ==> nav.adj[cur][k].1 in d2 && d2[nav.adj[cur][k].1] <= d2[cur] + 1
    ensures Scanned(nav, bound, ns + [cur], d2)
  {
    var ns2 := ns + [cur];
    forall i, k | 0 <= i < |ns2| && ns2[i] in d2 && d2[ns2[i]] < bound && ns2[i] in nav.adj && 0 <= k < |nav.adj[ns2[i]]|
      ensures nav.adj[ns2[i]][k].1 in d2 && d2[nav.adj[ns2[i]][k].1] <= d2[ns2[i]] + 1
    {
      if i < |ns| {
        assert ns2[i] == ns[i];
      } else {
        assert ns2[i] == cur;
      }
    }
  }

  /** The marks and the result after the nodes `fn` are first seen. */
  lemma RecordedStep(start: nat, seen: set<nat>, result0: map<nat, bool>, result: map<nat, bool>, fn: seq<nat>, seen2: set<nat>)
    requires Recorded(start, seen, result0, result) && start in seen && forall x :: x in fn ==> x !in seen
    requires seen2 == seen + (set x | x in fn)
    ensures Recorded(start, seen2, result0, MarkAll(result, fn))
  {
    var a, b := MarkAll(result, fn), SetTrue(result0, seen2 - {start});
    assert a.Keys == b.Keys;
    forall m | m in a ensures a[m] == b[m] {
    }
  }

  /** The neighbours of the front node, once scanned, are marked at most one step further. */
  lemma FrontScanned(nav: Nav, fifo: seq<nat>, seen: set<nat>, dist: map<nat, nat>, found: seq<(nat, nat)>, seen2: set<nat>)
    requires |fifo| > 0 && Layered(fifo, dist) && dist.Keys == seen && fifo[0] in nav.adj
    requires Discovered(nav.adj[fifo[0]], seen, found, seen2)
    ensures var d2 := Extend(dist, NodesIn(found), dist[fifo[0]] + 1);
            forall k :: 0 <= k < |nav.adj[fifo[0]]| ==> nav.adj[fifo[0]][k].1 in d2 && d2[nav.adj[fifo[0]][k].1] <= d2[fifo[0]] + 1
  {
  }

  /** One pass of the loop of `markReachableNodes`: the front leaves the FIFO and, below the bound, its unmarked neighbours join it. */
  method MarkRound(nav: Nav, start: nat, bound: nat, ns: seq<nat>, fifo: seq<nat>, seen: set<nat>,
                   dist: map<nat, nat>, result0: map<nat, bool>, result: map<nat, bool>)
    returns (ns2: seq<nat>, fifo2: seq<nat>, seen2: set<nat>, dist2: map<nat, nat>, result2: map<nat, bool>)
    requires NavOk(nav) && |fifo| > 0 && Marking(nav, start, bound, ns, fifo, seen, dist, result0, result)
    ensures Marking(nav, start, bound, ns2, fifo2, seen2, dist2, result0, result2)
    ensures 2 * |nav.adj.Keys - seen2| + |fifo2| < 2 * |nav.adj.Keys - seen| + |fifo|
  {
    var cur := fifo[0];
    assert cur in seen;
    var c := dist[cur];
    ns2 := ns + [cur];
    if c < bound {
      var found;
      found, seen2 := Discover(nav.adj[cur], seen);
      var fn := NodesIn(found);
      dist2 := Extend(dist, fn, c + 1);
      result2 := MarkAll(result, fn);
      fifo2 := fifo[1..] + fn;
      MarkStep(nav, start, bound, ns, fifo, seen, dist, result0, result, found, seen2);
    } else {
      seen2, dist2, result2, fifo2 := seen, dist, result, fifo[1..];
      MarkSkip(nav, start, bound, ns, fifo, seen, dist, result0, result);
    }
  }

  /** A front node below the bound: its unmarked neighbours are placed one step further and join the FIFO. */
  lemma MarkStep(nav: Nav, start: nat, bound: nat, ns: seq<nat>, fifo: seq<nat>, seen: set<nat>,
                 dist: map<nat, nat>, result0: map<nat, bool>, result: map<nat, bool>, found: seq<(nat, nat)>, seen2: set<nat>)
    requires NavOk(nav) && |fifo| > 0 && Marking(nav, start, bound, ns, fifo, seen, dist, result0, result)
    requires fifo[0] in dist && dist[fifo[0]] < bound && fifo[0] in nav.adj && Discovered(nav.adj[fifo[0]], seen, found, seen2)
    ensures var fn := NodesIn(found);
            Marking(nav, start, bound, ns + [fifo[0]], fifo[1..] + fn, seen2, Extend(dist, fn, dist[fifo[0]] + 1), result0, MarkAll(result, fn))
    ensures |nav.adj.Keys - seen2| == |nav.adj.Keys - seen| - |found|
  {
    var fn := NodesIn(found);
    assert fifo[0] in seen;
    MarkPlaced(nav, start, bound, ns, fifo, seen, dist, found, seen2);
    MarkedSet(ns, fifo, fn, seen, seen2);
    RecordedStep(start, seen, result0, result, fn, seen2);
    MarkCount(nav.adj.Keys, seen, fn);
  }

  /** The distances part of `MarkStep`. */
  lemma MarkPlaced(nav: Nav, start: nat, bound: nat, ns: seq<nat>, fifo: seq<nat>, seen: set<nat>,
                   dist: map<nat, nat>, found: seq<(nat, nat)>, seen2: set<nat>)
    requires NavOk(nav) && |fifo| > 0 && fifo[0] in seen && forall x :: x in ns ==> x in dist
    requires Placed(nav, start, bound, seen, dist) && Layered(fifo, dist) && Scanned(nav, bound, ns, dist)
    requires dist[fifo[0]] < bound && fifo[0] in nav.adj && Discovered(nav.adj[fifo[0]], seen, found, seen2)
    ensures var d2 := Extend(dist, NodesIn(found), dist[fifo[0]] + 1);
            Placed(nav, start, bound, seen2, d2) && Layered(fifo[1..] + NodesIn(found), d2) && Scanned(nav, bound, ns + [fifo[0]], d2)
  {
    var cur := fifo[0];
    var fn := NodesIn(found);
    var dist2 := Extend(dist, fn, dist[cur] + 1);
    PlacedStep(nav, start, bound, seen, dist, cur, found, seen2);
    LayeredStep(fifo, dist, fn);
    FrontScanned(nav, fifo, seen, dist, found, seen2);
    ScannedStep(nav, bound, ns, dist, cur, dist2);
  }

  /** The marked nodes stay those processed or pending as the front moves to the processed list and `fn` joins the back. */
  lemma MarkedSet(ns: seq<nat>, fifo: seq<nat>, fn: seq<nat>, seen: set<nat>, seen2: set<nat>)
    requires |fifo| > 0 && fifo[0] in seen && Covered(seen, ns, fifo) && seen2 == seen + (set x | x in fn)
    ensures Covered(seen2, ns + [fifo[0]], fifo[1..] + fn)
  {
    forall x | x in seen2 ensures x in ns + [fifo[0]] || x in fifo[1..] + fn {
      if x in fifo {
        var i :| 0 <= i < |fifo| && fifo[i] == x;
        if i > 0 {
          assert (fifo[1..] + fn)[i - 1] == x;
        }
      }
    }
  }

  /** A front node at the bound leaves the FIFO without a scan. */
  lemma MarkSkip(nav: Nav, start: nat, bound: nat, ns: seq<nat>, fifo: seq<nat>, seen: set<nat>,
                 dist: map<nat, nat>, result0: map<nat, bool>, result: map<nat, bool>)
    requires |fifo| > 0 && Marking(nav, start, bound, ns, fifo, seen, dist, result0, result)
    requires fifo[0] in dist && dist[fifo[0]] >= bound
    ensures Marking(nav, start, bound, ns + [fifo[0]], fifo[1..], seen, dist, result0, result)
  {
    assert Extend(dist, [], dist[fifo[0]] + 1) == dist;
    LayeredStep(fifo, dist, []);
    ScannedStep(nav, bound, ns, dist, fifo[0], dist);
    MarkedSet(ns, fifo, [], seen, seen);
    assert fifo[1..] + [] == fifo[1..];
  }

  /** The search begins with the start node alone marked, at distance 0, and the caller's map. */
  lemma MarkStart(nav: Nav, start: nat, bound: nat, result0: map<nat, bool>)
    requires start in nav.adj
    ensures Marking(nav, start, bound, [], [start], {start}, map[start := 0], result0, result0)
  {
    WithinStart(nav, start);
    assert SetTrue(result0, {start} - {start}) == result0;
  }

  /** A walk of at most `bound` steps from the start is marked all along, each node no further than its position. */
  lemma {:induction false} WalkMarked(nav: Nav, start: nat, bound: nat, ns: seq<nat>, seen: set<nat>, dist: map<nat, nat>,
                                      p: seq<nat>, i: nat)
    requires Placed(nav, start, bound, seen, dist) && Scanned(nav, bound, ns, dist)
    requires forall x :: x in seen <==> x in ns
    requires Walk(nav, p) && p[0] == start && |p| <= bound + 1 && i < |p|
    ensures p[i] in seen && dist[p[i]] <= i
    decreases i
  {
    if i > 0 {
      WalkMarked(nav, start, bound, ns, seen, dist, p, i - 1);
      var u := p[i - 1];
      assert Adjacent(nav, u, p[i]);
      var k :| 0 <= k < |nav.adj[u]| && nav.adj[u][k].1 == p[i];
      var j :| 0 <= j < |ns| && ns[j] == u;
      assert ns[j] in dist && dist[ns[j]] < bound;
    }
  }

  /** Reaching a node within fewer steps is reaching it within more. */
  lemma WithinMore(nav: Nav, a: nat, b: nat, len: nat, more: nat)
    requires Within(nav, a, b, len) && len <= more
    ensures Within(nav, a, b, more)
  {
  }

  /** Once the FIFO is empty, the marked nodes are exactly those within the bound. */
  lemma MarkDone(nav: Nav, start: nat, bound: nat, ns: seq<nat>, seen: set<nat>, dist: map<nat, nat>,
                 result0: map<nat, bool>, result: map<nat, bool>)
    requires Marking(nav, start, bound, ns, [], seen, dist, result0, result)
    ensures forall m :: m in seen <==> Within(nav, start, m, bound)
    ensures forall m :: m in result <==> m in result0 || (m != start && Within(nav, start, m, bound))
    ensures forall m :: m in result ==> result[m] == if m != start && Within(nav, start, m, bound) then true else result0[m]
  {
    forall m | m in seen ensures Within(nav, start, m, bound) {
      WithinMore(nav, start, m, dist[m], bound);
    }
    forall m | Within(nav, start, m, bound) ensures m in seen {
      var p :| Walk(nav, p) && p[0] == start && p[|p| - 1] == m && |p| <= bound + 1;
      WalkMarked(nav, start, bound, ns, seen, dist, p, |p| - 1);
    }
  }

  /**
   `markReachableNodes` on the neighbours a direction gives: nodes leave a
   FIFO in the order first seen; below `maxDistance`, the neighbours not
   yet marked are marked one step further, queued, and set to `true` in
   `result`. So `result` ends with `true` exactly at the nodes other than
   the start that are at most `maxDistance` steps away, and the caller's
   entries everywhere else; the start's entry is never touched.
   */
  method MarkReachable(nav: Nav, start: nat, maxDistance: nat, result0: map<nat, bool>) returns (result: map<nat, bool>)
    requires NavOk(nav) && start in nav.adj
    ensures forall m :: m in result <==> m in result0 || (m != start && Within(nav, start, m, maxDistance))
    ensures forall m :: m in result ==> result[m] == if m != start && Within(nav, start, m, maxDistance) then true else result0[m]
  {
    var fifo: seq<nat>, seen: set<nat>, dist: map<nat, nat>, ns: seq<nat> := [start], {start}, map[start := 0], [];
    result := result0;
    MarkStart(nav, start, maxDistance, result0);
    while |fifo| > 0
      invariant NavOk(nav) && Marking(nav, start, maxDistance, ns, fifo, seen, dist, result0, result)
      decreases 2 * |nav.adj.Keys - seen| + |fifo|
    {
      ns, fifo, seen, dist, result := MarkRound(nav, start, maxDistance, ns, fifo, seen, dist, result0, result);
    }
    MarkDone(nav, start, maxDistance, ns, seen, dist, result0, result);
  }

  /**
   `markReachableNodes(graph, startNode, result, maxDistance, direction)`
   on a graph: the nodes within `maxDistance` steps of `startNode`,
   following edges forwards, backwards or either way, are set to `true`.
   */
  method MarkReachableNodes(g: Graph, start: nat, result0: map<nat, bool>, maxDistance: nat, t: EdgeType)
    returns (result: map<nat, bool>)
    requires Valid(g) && start in g.data
    ensures forall m :: m in result <==> m in result0 || (m != start && Within(NavOf(g, DirectionOf(t)), start, m, maxDistance))
    ensures forall m :: m in result ==>
              result[m] == if m != start && Within(NavOf(g, DirectionOf(t)), start, m, maxDistance) then true else result0[m]
  {
    NavOfOk(g, DirectionOf(t));
    result := MarkReachable(NavOf(g, DirectionOf(t)), start, maxDistance, result0);
  }

  // ---------------------------------------------------------------------------
  // Making the selection a graph
  // ---------------------------------------------------------------------------

  /** The ends of a list of edges, as a set. */
  function AllEnds(ends: seq<(nat, nat)>): set<nat>
  {
    (set i | 0 <= i < |ends| :: ends[i].0) + (set i | 0 <= i < |ends| :: ends[i].1)
  }

  /** The ends of a list: those of its first edge and those of the rest. */
  lemma AllEndsCons(ends: seq<(nat, nat)>)
    requires |ends| > 0
    ensures AllEnds(ends) == {ends[0].0, ends[0].1} + AllEnds(ends[1..])
  {
    var r := ends[1..];
    forall x | x in AllEnds(ends) ensures x in {ends[0].0, ends[0].1} + AllEnds(r) {
      var i :| 0 <= i < |ends| && (ends[i].0 == x || ends[i].1 == x);
      if i > 0 {
        assert r[i - 1] == ends[i];
      }
    }
    forall x | x in AllEnds(r) ensures x in AllEnds(ends) {
      var i :| 0 <= i < |r| && (r[i].0 == x || r[i].1 == x);
      assert r[i] == ends[i + 1];
    }
  }

  /** Selecting one node adds one to the count of new nodes exactly when it was not selected. */
  lemma AddOne(sel: set<nat>, x: nat, later: set<nat>)
    requires sel + {x} <= later
    ensures |later - sel| == (if x in sel then 0 else 1) + |later - (sel + {x})|
  {
    if x in sel {
      assert sel + {x} == sel;
    } else {
      assert later - sel == (later - (sel + {x})) + {x};
    }
  }

  /** What the loop over the selected edges leaves: the node selection, the nodes added, whether it stopped early. */
  datatype Scan = Scan(nodes: set<nat>, added: nat, stopped: bool)

  /**
   The loop of `makeSelectionGraph` over the ends of the selected edges:
   each end not selected is selected and counted; with `test` set, the
   first such end stops the loop, after selecting it.
   */
  function ScanEnds(ends: seq<(nat, nat)>, sel: set<nat>, test: bool): Scan
    decreases |ends|
  {
    if |ends| == 0 then Scan(sel, 0, false)
    else
      var src, tgt := ends[0].0, ends[0].1;
      if src !in sel && test then Scan(sel + {src}, 1, true)
      else
        var sel1 := sel + {src};
        var a := if src in sel then 0 else 1;
        if tgt !in sel1 && test then Scan(sel1 + {tgt}, a + 1, true)
        else
          var rest := ScanEnds(ends[1..], sel1 + {tgt}, test);
          Scan(rest.nodes, a + (if tgt in sel1 then 0 else 1) + rest.added, rest.stopped)
  }

  /**
   The loop only adds to the selection and counts what it adds; run to
   the end, it leaves every end of every selected edge selected; it stops
   early exactly when testing and some end is not selected, having then
   selected one node.
   */
  lemma {:induction false} ScanEndsSpec(ends: seq<(nat, nat)>, sel: set<nat>, test: bool)
    ensures var r := ScanEnds(ends, sel, test);
            sel <= r.nodes && r.added == |r.nodes - sel|
            && (!r.stopped ==> r.nodes == sel + AllEnds(ends))
            && (r.stopped <==> test && !(AllEnds(ends) <= sel))
            && (r.stopped ==> |r.nodes - sel| == 1)
    decreases |ends|
  {
    if |ends| > 0 {
      var src, tgt := ends[0].0, ends[0].1;
      AllEndsCons(ends);
      var sel1 := sel + {src};
      if src !in sel && test {
        AddOne(sel, src, sel1);
      } else if tgt !in sel1 && test {
        AddOne(sel1, tgt, sel1 + {tgt});
        AddOne(sel, src, sel1 + {tgt});
      } else {
        var rest := ScanEnds(ends[1..], sel1 + {tgt}, test);
        ScanEndsSpec(ends[1..], sel1 + {tgt}, test);
        AddOne(sel1, tgt, rest.nodes);
        AddOne(sel, src, rest.nodes);
      }
    }
  }

  /** `-1` returned as an `unsigned` (32 bits). */
  const MinusOne32: nat := 0xFFFF_FFFF

  /**
   The outcome of `makeSelectionGraph`: the node selection, the value
   returned, what is written to `*test` (none without a `test` pointer),
   and the observer hold count left behind.
   */
  datatype Selection = Selection(nodes: set<nat>, returned: nat, test: Option<bool>, holds: nat)

  /**
   `makeSelectionGraph` as written: observers are held, the loop runs,
   and only when it runs to the end are they released; the early return
   on a failed test leaves the hold in place.
   */
  function MakeSelectionGraphAsWritten(ends: seq<(nat, nat)>, sel: set<nat>, test: bool, holds: nat): Selection
  {
    var held := holds + 1;
    var r := ScanEnds(ends, sel, test);
    if r.stopped then Selection(r.nodes, MinusOne32, Some(false), held)
    else Selection(r.nodes, r.added, if test then Some(true) else None, held - 1)
  }

  /** As written, the hold count comes back unchanged exactly when the test does not fail. */
  lemma AsWrittenHolds(ends: seq<(nat, nat)>, sel: set<nat>, test: bool, holds: nat)
    ensures var r := MakeSelectionGraphAsWritten(ends, sel, test, holds);
            (r.holds == holds <==> !(test && !(AllEnds(ends) <= sel)))
            && (r.holds != holds ==> r.holds == holds + 1)
  {
    ScanEndsSpec(ends, sel, test);
  }

  /** One selected edge with an unselected end, tested: the observers stay held. */
  lemma AsWrittenLeaksHold()
    ensures MakeSelectionGraphAsWritten([(1, 2)], {}, true, 0).holds == 1
    ensures MakeSelectionGraphAsWritten([(1, 2)], {}, true, 0).test == Some(false)
  {
    ScanEndsSpec([(1, 2)], {}, true);
    assert 1 in AllEnds([(1, 2)]);
  }

  /**
   `makeSelectionGraph` with the observers released on every return.
   Without a test, every end of a selected edge ends selected and the
   number of nodes added is returned; with one, `true` is written exactly
   when nothing was missing, and otherwise `false` is written, `-1`
   returned and the first missing end selected.
   */
  function MakeSelectionGraph(ends: seq<(nat, nat)>, sel: set<nat>, test: bool, holds: nat): (r: Selection)
    ensures r.holds == holds && sel <= r.nodes
    ensures !test ==> r.test == None && r.nodes == sel + AllEnds(ends) && r.returned == |AllEnds(ends) - sel|
    ensures test ==> r.test.Some? && (r.test.value <==> AllEnds(ends) <= sel)
    ensures r.test == Some(true) ==> r.nodes == sel && r.returned == 0
    ensures r.test == Some(false) ==> r.returned == MinusOne32 && |r.nodes - sel| == 1
  {
    ScanEndsSpec(ends, sel, test);
    var r := ScanEnds(ends, sel, test);
    assert !r.stopped ==> r.nodes - sel == AllEnds(ends) - sel;
    if r.stopped then Selection(r.nodes, MinusOne32, Some(false), holds)
    else Selection(r.nodes, r.added, if test then Some(true) else None, holds)
  }

  /** The correction changes nothing but the hold count. */
  lemma AsWrittenAgrees(ends: seq<(nat, nat)>, sel: set<nat>, test: bool, holds: nat)
    ensures MakeSelectionGraphAsWritten(ends, sel, test, holds) == MakeSelectionGraph(ends, sel, test, holds).(holds := MakeSelectionGraphAsWritten(ends, sel, test, holds).holds)
  {
  }

  /** The ends of the given edges, in order. */
  function EndsOf(g: Graph, es: seq<nat>): (r: seq<(nat, nat)>)
    requires forall e :: e in es ==> e in g.ends
    ensures |r| == |es| && forall i :: 0 <= i < |es| ==> r[i] == g.ends[es[i]]
  {
    seq(|es|, i requires 0 <= i < |es| => g.ends[es[i]])
  }

  /**
   `makeSelectionGraph(graph, selection, test)` on a graph, with the
   corrected release: the selected edges are taken in graph order. Without
   a test, afterwards every selected edge of the graph has both its ends
   selected, and the nodes added are ends of selected edges.
   */
  function MakeSelection(g: Graph, selEdges: set<nat>, selNodes: set<nat>, test: bool, holds: nat): (r: Selection)
    requires Valid(g)
    ensures r.holds == holds && selNodes <= r.nodes
    ensures !test ==> forall e :: e in g.edges && e in selEdges ==> g.ends[e].0 in r.nodes && g.ends[e].1 in r.nodes
    ensures !test ==> forall n :: n in r.nodes && n !in selNodes ==>
                        exists e :: e in g.edges && e in selEdges && (g.ends[e].0 == n || g.ends[e].1 == n)
  {
    SelectedEnds(g, selEdges);
    MakeSelectionGraph(EndsOf(g, KeepIn(g.edges, selEdges)), selNodes, test, holds)
  }

  /** The ends the loop meets are those of the selected edges of the graph. */
  lemma SelectedEnds(g: Graph, selEdges: set<nat>)
    requires Valid(g)
    ensures forall n :: n in AllEnds(EndsOf(g, KeepIn(g.edges, selEdges))) <==>
                        exists e :: e in g.edges && e in selEdges && (g.ends[e].0 == n || g.ends[e].1 == n)
  {
    var es := KeepIn(g.edges, selEdges);
    var ends := EndsOf(g, es);
    forall n | n in AllEnds(ends) ensures exists e :: e in g.edges && e in selEdges && (g.ends[e].0 == n || g.ends[e].1 == n) {
      var i :| 0 <= i < |ends| && (ends[i].0 == n || ends[i].1 == n);
      assert es[i] in es;
    }
    forall e | e in g.edges && e in selEdges ensures g.ends[e].0 in AllEnds(ends) && g.ends[e].1 in AllEnds(ends) {
      var i := IndexOf(es, e);
      assert ends[i] == g.ends[e];
    }
  }
}
