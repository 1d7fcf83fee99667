/**
 The cache behind `ConnectedTest::isConnected`, ConnectedTest.cpp. One
 listener keeps a result per graph (`resultsBuffer`) and listens to the
 graphs it holds results for; a node or edge event that may have changed
 the answer either fixes the result (a new node is not joined to the old
 ones) or drops it and stops listening. A graph is reduced here to what
 connectivity depends on: its nodes and their in-out neighbours. Each
 event is described by how it may move those.
 */
module ConnectedCache {
  import opened GraphTools
  import opened ConnectedTests
  import SimpleCache

  /** What a graph's connectivity depends on. */
  datatype View = View(nav: Nav, nodes: seq<nat>)

  /** Every node has its neighbour list, and every neighbour is a node. */
  ghost predicate ViewOk(v: View)
  {
    NavOk(v.nav) && forall x :: x in v.nodes ==> x in v.nav.adj
  }

  /** Every two nodes of the graph are joined by a path of edges taken either way. */
  ghost predicate Joined(v: View)
  {
    ConnectedNav(v.nav, v.nodes)
  }

  /** An event a graph sends. */
  datatype Change =
    | AddNode(n: nat)          // TLP_ADD_NODE
    | AddNodes(ns: seq<nat>)   // TLP_ADD_NODES
    | DelNode(n: nat)          // TLP_DEL_NODE
    | AddEdge                  // TLP_ADD_EDGE
    | AddEdges                 // TLP_ADD_EDGES
    | DelEdge                  // TLP_DEL_EDGE
    | ReverseEdge              // TLP_REVERSE_EDGE
    | SetEnds                  // TLP_AFTER_SET_ENDS
    | Deleted                  // TLP_DELETE, the graph itself goes away
    | Other                    // any event that leaves nodes and edges alone

  /** `ns` are new nodes with no edges; everything else is kept. */
  ghost predicate Isolated(b: View, a: View, ns: seq<nat>)
  {
    && a.nodes == b.nodes + ns
    && (forall n :: n in ns ==> n !in b.nav.adj && n in a.nav.adj && a.nav.adj[n] == [])
    && (forall m :: m in b.nav.adj ==> m in a.nav.adj && a.nav.adj[m] == b.nav.adj[m])
  }

  /**
   How an event may move the graph from `b` to `a`: added nodes come with
   no edges, an added edge keeps every old neighbour, a deleted one adds
   none, a reversal keeps the in-out neighbours; a deleted node or a change
   of ends may do anything.
   */
  ghost predicate Fits(ch: Change, b: View, a: View)
  {
    match ch
    case AddNode(n) => Isolated(b, a, [n])
    case AddNodes(ns) => |ns| > 0 && Isolated(b, a, ns)
    case DelNode(_) => true
    case AddEdge => a.nodes == b.nodes && Sub(b.nav, a.nav)
    case AddEdges => a.nodes == b.nodes && Sub(b.nav, a.nav)
    case DelEdge => a.nodes == b.nodes && Sub(a.nav, b.nav)
    case ReverseEdge => a.nodes == b.nodes && Sub(a.nav, b.nav) && Sub(b.nav, a.nav)
    case SetEnds => a.nodes == b.nodes
    case Deleted => true
    case Other => a == b
  }

  /** All graphs after graph `gid` sent `ch` and became `after`. */
  function Update(world: map<nat, View>, gid: nat, ch: Change, after: View): (r: map<nat, View>)
    ensures forall x :: x != gid ==> (x in r <==> x in world) && (x in r ==> r[x] == world[x])
    ensures ch.Deleted? <==> gid !in r
  {
    if ch.Deleted? then world - {gid} else world[gid := after]
  }

  type Cache = SimpleCache.Cache

  /**
   `treatEvent` as written: a new node stores false; a deleted node drops
   the result; an edge added to a graph cached connected, or deleted from
   one cached not connected, keeps it and otherwise drops it; the graph's
   deletion erases its entry. Every other event is ignored, among them a
   bulk addition of nodes or edges and a change of an edge's ends.
   */
  function TreatEventAsWritten(c: Cache, gid: nat, ch: Change): Cache
  {
    match ch
    case AddNode(_) => SimpleCache.Cache(c.results[gid := false], c.listening)
    case DelNode(_) => SimpleCache.DeleteResult(c, gid)
    case AddEdge => if gid in c.results && c.results[gid] then c else SimpleCache.DeleteResult(c, gid)
    case DelEdge => if gid in c.results && !c.results[gid] then c else SimpleCache.DeleteResult(c, gid)
    case Deleted => SimpleCache.Cache(c.results - {gid}, c.listening)
    case _ => c
  }

  /**
   `treatEvent` with a bulk addition handled like a single one, and a
   change of ends like a deleted node.
   */
  function TreatEvent(c: Cache, gid: nat, ch: Change): Cache
  {
    match ch
    case AddNode(_) => SimpleCache.Cache(c.results[gid := false], c.listening)
    case AddNodes(_) => SimpleCache.Cache(c.results[gid := false], c.listening)
    case DelNode(_) => SimpleCache.DeleteResult(c, gid)
    case AddEdge => if gid in c.results && c.results[gid] then c else SimpleCache.DeleteResult(c, gid)
    case AddEdges => if gid in c.results && c.results[gid] then c else SimpleCache.DeleteResult(c, gid)
    case DelEdge => if gid in c.results && !c.results[gid] then c else SimpleCache.DeleteResult(c, gid)
    case SetEnds => SimpleCache.DeleteResult(c, gid)
    case Deleted => SimpleCache.Cache(c.results - {gid}, c.listening)
    case _ => c
  }

  /** An event reaches the listener only from a graph it listens to. */
  function Deliver(c: Cache, gid: nat, ch: Change): Cache
  {
    if gid in c.listening then TreatEvent(c, gid, ch) else c
  }

  /** `Deliver`, with `treatEvent` as written. */
  function DeliverAsWritten(c: Cache, gid: nat, ch: Change): Cache
  {
    if gid in c.listening then TreatEventAsWritten(c, gid, ch) else c
  }

  /**
   The cache is sound: it holds a result for exactly the graphs it listens
   to (leaving aside graphs that no longer exist), and each such graph has
   nodes and is connected exactly when its result is true.
   */
  ghost predicate Sound(c: Cache, world: map<nat, View>)
  {
    c.results.Keys <= c.listening
    && (forall gid :: gid in c.listening && gid in world ==> gid in c.results)
    && forall gid :: gid in c.results ==> gid in world && |world[gid].nodes| > 0 && (c.results[gid] <==> Joined(world[gid]))
  }

  // ---------------------------------------------------------------------------
  // How events move connectivity
  // ---------------------------------------------------------------------------

  /** A node with no edges is reached from no other node. */
  lemma IsolatedUnreached(b: View, a: View, ns: seq<nat>, x: nat, n: nat)
    requires ViewOk(b) && Isolated(b, a, ns) && x in b.nodes && n in ns
    ensures !Reachable(a.nav, x, n)
  {
    var s := b.nav.adj.Keys;
    forall m, k | m in s && m in a.nav.adj && 0 <= k < |a.nav.adj[m]| ensures a.nav.adj[m][k].1 in s {
      assert a.nav.adj[m] == b.nav.adj[m];
    }
    forall p | Walk(a.nav, p) && p[0] == x ensures p[|p| - 1] != n {
      ClosedHoldsWalk(a.nav, s, p);
    }
  }

  /** New nodes without edges leave a graph that had nodes not connected. */
  lemma AddNodesDisconnect(b: View, a: View, ns: seq<nat>)
    requires ViewOk(b) && Isolated(b, a, ns) && |b.nodes| > 0 && |ns| > 0
    ensures !Joined(a)
  {
    IsolatedUnreached(b, a, ns, b.nodes[0], ns[0]);
    assert b.nodes[0] in a.nodes && ns[0] in a.nodes;
  }

  /** More neighbours keep a connected graph connected. */
  lemma MoreKeepsJoined(b: View, a: View)
    requires a.nodes == b.nodes && Sub(b.nav, a.nav)
    ensures Joined(b) ==> Joined(a)
  {
    if Joined(b) {
      forall x, y | x in a.nodes && y in a.nodes ensures Reachable(a.nav, x, y) {
        SubReachable(b.nav, a.nav, x, y);
      }
    }
  }

  /**
   Every event that fits keeps the cache sound, the listener seeing it
   when it listens to the graph.
   */
  lemma StepSound(c: Cache, world: map<nat, View>, gid: nat, ch: Change, after: View)
    requires Sound(c, world) && gid in world && ViewOk(world[gid]) && Fits(ch, world[gid], after)
    ensures Sound(Deliver(c, gid, ch), Update(world, gid, ch, after))
  {
    var c' := Deliver(c, gid, ch);
    var world' := Update(world, gid, ch, after);
    forall x | x in c'.results
      ensures x in world' && |world'[x].nodes| > 0 && (c'.results[x] <==> Joined(world'[x]))
    {
      if x == gid {
        assert gid in c.listening;
        var b := world[gid];
        match ch {
          case AddNode(n) =>
            AddNodesDisconnect(b, after, [n]);
          case AddNodes(ns) =>
            AddNodesDisconnect(b, after, ns);
          case AddEdge =>
            MoreKeepsJoined(b, after);
          case AddEdges =>
            MoreKeepsJoined(b, after);
          case DelEdge =>
            MoreKeepsJoined(after, b);
          case ReverseEdge =>
            MoreKeepsJoined(b, after);
            MoreKeepsJoined(after, b);
          case Other =>
          case DelNode(_) =>
          case SetEnds =>
          case Deleted =>
        }
      }
    }
  }

  // ---------------------------------------------------------------------------
  // isConnected, numberOfConnectedComponents, makeConnected
  // ---------------------------------------------------------------------------

  /**
   `compute(graph)`: the cached result when there is one; true for a graph
   without nodes, nothing stored; otherwise `computed` (the search from
   one node, `IsConnected`) is stored and the listener registered.
   */
  function IsConnectedCached(c: Cache, gid: nat, v: View, computed: bool): (r: (bool, Cache))
    ensures gid in c.results ==> r == (c.results[gid], c)
    ensures gid !in c.results && |v.nodes| == 0 ==> r == (true, c)
    ensures gid !in c.results && |v.nodes| > 0 ==>
              r.0 == computed && gid in r.1.results && r.1.results[gid] == computed && gid in r.1.listening
  {
    if gid in c.results then (c.results[gid], c)
    else if |v.nodes| == 0 then (true, c)
    else (computed, SimpleCache.Cache(c.results[gid := computed], c.listening + {gid}))
  }

  /** A sound cache answers `isConnected` truly, and stays sound. */
  lemma IsConnectedCachedSound(c: Cache, world: map<nat, View>, gid: nat, computed: bool)
    requires Sound(c, world) && gid in world
    requires computed <==> Joined(world[gid])
    ensures IsConnectedCached(c, gid, world[gid], computed).0 <==> Joined(world[gid])
    ensures Sound(IsConnectedCached(c, gid, world[gid], computed).1, world)
  {
  }

  /**
   `numberOfConnectedComponents(graph)`: 0 for a graph without nodes;
   otherwise `n` (the count, `NumberOfConnectedComponents`) is returned,
   whether it is 1 stored, and the listener registered.
   */
  function ComponentsCached(c: Cache, gid: nat, v: View, n: nat): (r: (nat, Cache))
    ensures |v.nodes| == 0 ==> r == (0, c)
    ensures |v.nodes| > 0 ==> r.0 == n && gid in r.1.results && (r.1.results[gid] <==> n == 1) && gid in r.1.listening
  {
    if |v.nodes| == 0 then (0, c)
    else (n, SimpleCache.Cache(c.results[gid := n == 1], c.listening + {gid}))
  }

  /** With a true count, `numberOfConnectedComponents` keeps the cache sound. */
  lemma ComponentsCachedSound(c: Cache, world: map<nat, View>, gid: nat, n: nat)
    requires Sound(c, world) && gid in world
    requires n == 1 <==> Joined(world[gid])
    ensures Sound(ComponentsCached(c, gid, world[gid], n).1, world)
  {
  }

  /**
   `makeConnected(graph)`: the result erased and the listener removed
   before any edge is added, so the additions reach no listener and the
   graph may become anything.
   */
  lemma MakeConnectedSound(c: Cache, world: map<nat, View>, gid: nat, after: View)
    requires Sound(c, world)
    ensures Sound(SimpleCache.DeleteResult(c, gid), world[gid := after])
  {
  }

  // ---------------------------------------------------------------------------
  // The stale answers of the code as written
  // ---------------------------------------------------------------------------

  /** One node, no edges. */
  function Single(): View
  {
    View(Nav(map[1 := []]), [1])
  }

  /** Two nodes, no edges. */
  function Pair(): View
  {
    View(Nav(map[1 := [], 2 := []]), [1, 2])
  }

  /** Two nodes joined by edge 0. */
  function Joint(): View
  {
    View(Nav(map[1 := [(0, 2)], 2 := [(0, 1)]]), [1, 2])
  }

  lemma SingleJoined()
    ensures ViewOk(Single()) && Joined(Single())
  {
    WithinStart(Single().nav, 1);
  }

  lemma JointJoined()
    ensures ViewOk(Joint()) && Joined(Joint())
  {
    var nav := Joint().nav;
    assert nav.adj[1][0].1 == 2 && nav.adj[2][0].1 == 1;
    assert Walk(nav, [1, 2]) && Walk(nav, [2, 1]);
    WithinStart(nav, 1);
    WithinStart(nav, 2);
  }

  /**
   A bulk addition of a node to a one-node graph cached connected is
   ignored by `treatEvent` as written: the cache was sound and no longer
   is, since the new node has no edge.
   */
  lemma AddNodesMissed()
    ensures var c := SimpleCache.Cache(map[0 := true], {0});
            var world := map[0 := Single()];
            var ch := AddNodes([2]);
            && Sound(c, world) && Fits(ch, Single(), Pair())
            && !Sound(DeliverAsWritten(c, 0, ch), Update(world, 0, ch, Pair()))
  {
    SingleJoined();
    AddNodesDisconnect(Single(), Pair(), [2]);
  }

  /**
   A bulk addition of an edge joining the two nodes of a graph cached not
   connected is ignored in the same way.
   */
  lemma AddEdgesMissed()
    ensures var c := SimpleCache.Cache(map[0 := false], {0});
            var world := map[0 := Pair()];
            && Sound(c, world) && Fits(AddEdges, Pair(), Joint())
            && !Sound(DeliverAsWritten(c, 0, AddEdges), Update(world, 0, AddEdges, Joint()))
  {
    SingleJoined();
    AddNodesDisconnect(Single(), Pair(), [2]);
    JointJoined();
    assert Sub(Pair().nav, Joint().nav);
  }

  /** Edge 0 of `Joint` turned into a loop at node 1. */
  function Looped(): View
  {
    View(Nav(map[1 := [(0, 1), (0, 1)], 2 := []]), [1, 2])
  }

  lemma LoopedApart()
    ensures !Joined(Looped())
  {
    var nav := Looped().nav;
    forall p | Walk(nav, p) && p[0] == 1 ensures p[|p| - 1] != 2 {
      ClosedHoldsWalk(nav, {1}, p);
    }
    assert 1 in Looped().nodes && 2 in Looped().nodes;
  }

  /**
   Moving the ends of the only edge of a connected two-node graph is
   ignored too: the cache still answers true for a graph that is not
   connected.
   */
  lemma SetEndsMissed()
    ensures var c := SimpleCache.Cache(map[0 := true], {0});
            var world := map[0 := Joint()];
            && Sound(c, world) && Fits(SetEnds, Joint(), Looped())
            && !Sound(DeliverAsWritten(c, 0, SetEnds), Update(world, 0, SetEnds, Looped()))
  {
    JointJoined();
    LoopedApart();
  }

  /** With the corrected `treatEvent` the three events reach the cache. */
  lemma ChangesTracked()
    ensures 0 !in Deliver(SimpleCache.Cache(map[0 := true], {0}), 0, SetEnds).results
    ensures Deliver(SimpleCache.Cache(map[0 := true], {0}), 0, AddNodes([2])).results[0] == false
    ensures 0 !in Deliver(SimpleCache.Cache(map[0 := false], {0}), 0, AddEdges).results
  {
  }
}
