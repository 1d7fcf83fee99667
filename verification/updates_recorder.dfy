/**
 The bookkeeping of GraphUpdatesRecorder, the undo/redo recorder of a
 graph hierarchy. While recording, the recorder hears every change made
 to the graphs and properties of the hierarchy and keeps what undoing
 needs: the elements added and deleted per graph, the ends an edge had,
 the adjacency a node had, the first old value of each property value and
 graph attribute. An element added and then deleted within one recording
 leaves no deletion behind, and only the first old value of anything is
 kept.

 Graphs, nodes, edges and properties are identifiers; the recorder reads
 the hierarchy, never changes it, through `Ctx`, a snapshot of it at the
 time of the event.
 */
module UpdatesRecorder {
  import opened Wrappers

  /** A property or attribute value; its type does not matter to the recorder. */
  type Value = int

  /** The graph hierarchy as the recorder reads it when an event reaches it. */
  datatype Ctx = Ctx(
    superOf: nat -> nat,                 // getSuperGraph; the root is its own super graph
    subGraphs: nat -> seq<nat>,          // subGraphs() of a graph
    nodesOf: nat -> seq<nat>,            // nodes() of a graph, in order
    edgesOf: nat -> seq<nat>,            // edges() of a graph, in order
    ends: nat -> (nat, nat),             // source and target of an edge
    adj: nat -> seq<nat>,                // the root storage's adjacency of a node
    localProps: nat -> seq<nat>,         // getLocalObjectProperties of a graph
    propGraph: nat -> nat,               // the graph a property belongs to
    propName: nat -> string,             // the name of a property
    hasNode: (nat, nat) -> bool,         // isElement(node) of a graph
    hasEdge: (nat, nat) -> bool,         // isElement(edge) of a graph
    nodeValue: (nat, nat) -> Value,      // a property's value at a node
    edgeValue: (nat, nat) -> Value,      // a property's value at an edge
    nodeDefault: nat -> Value,           // a property's node default value
    edgeDefault: nat -> Value,           // a property's edge default value
    nonDefaultNodes: nat -> seq<nat>,    // getNonDefaultValuatedNodes of a property
    nonDefaultEdges: nat -> seq<nat>,    // getNonDefaultValuatedEdges of a property
    attribute: (nat, string) -> Option<Value>)  // a graph attribute, None when unset

  /** `g == g->getRoot()`, equivalently `g == g->getSuperGraph()`. */
  predicate IsRoot(ctx: Ctx, g: nat)
  {
    ctx.superOf(g) == g
  }

  /** The old values saved for one property (`RecordedValues`). */
  datatype Recorded = Recorded(nodes: map<nat, Value>, edges: map<nat, Value>)

  /** The recorder's collections, each named as in the source. */
  datatype Recorder = Recorder(
    restartAllowed: bool,
    addedProperties: map<nat, set<nat>>,
    deletedProperties: map<nat, set<nat>>,
    addedSubGraphs: seq<(nat, nat)>,
    deletedSubGraphs: seq<(nat, nat)>,
    graphAddedNodes: map<nat, set<nat>>,
    graphDeletedNodes: map<nat, set<nat>>,
    addedNodes: set<nat>,
    graphAddedEdges: map<nat, set<nat>>,
    graphDeletedEdges: map<nat, set<nat>>,
    addedEdgesEnds: map<nat, (nat, nat)>,
    deletedEdgesEnds: map<nat, (nat, nat)>,
    revertedEdges: set<nat>,
    oldEdgesEnds: map<nat, (nat, nat)>,
    newEdgesEnds: map<nat, (nat, nat)>,
    oldContainers: map<nat, seq<nat>>,
    newContainers: map<nat, seq<nat>>,
    renamedProperties: map<nat, string>,
    oldNodeDefaultValues: map<nat, Value>,
    oldEdgeDefaultValues: map<nat, Value>,
    oldValues: map<nat, Recorded>,
    updatedPropsAddedNodes: map<nat, set<nat>>,
    updatedPropsAddedEdges: map<nat, set<nat>>,
    oldAttributeValues: map<nat, map<string, Option<Value>>>,
    newAttributeValues: map<nat, map<string, Option<Value>>>)

  /** A recorder that has recorded nothing yet. */
  function Start(allowRestart: bool): Recorder
  {
    Recorder(allowRestart, map[], map[], [], [], map[], map[], {}, map[], map[], map[], map[], {},
             map[], map[], map[], map[], map[], map[], map[], map[], map[], map[], map[], map[])
  }

  // ---------------------------------------------------------------------------
  // Helpers on the collections
  // ---------------------------------------------------------------------------

  /** The set kept under `k`, read as empty when there is none. */
  function Entry(m: map<nat, set<nat>>, k: nat): set<nat>
  {
    if k in m then m[k] else {}
  }

  /** `m[k].insert(x)`, the set created when missing. */
  function Insert(m: map<nat, set<nat>>, k: nat, x: nat): (r: map<nat, set<nat>>)
    ensures r.Keys == m.Keys + {k}
    ensures Entry(r, k) == Entry(m, k) + {x}
    ensures forall h :: h != k ==> Entry(r, h) == Entry(m, h)
  {
    m[k := Entry(m, k) + {x}]
  }

  /** `m[k].erase(x)` through `operator[]`, which creates a missing set. */
  function EraseIn(m: map<nat, set<nat>>, k: nat, x: nat): (r: map<nat, set<nat>>)
    ensures r.Keys == m.Keys + {k}
    ensures Entry(r, k) == Entry(m, k) - {x}
    ensures forall h :: h != k ==> Entry(r, h) == Entry(m, h)
  {
    m[k := Entry(m, k) - {x}]
  }

  /** Every entry of `a` is in `b` with the same value. */
  predicate Extends<V(==)>(a: map<nat, V>, b: map<nat, V>)
  {
    forall k :: k in a ==> k in b && b[k] == a[k]
  }

  /** Every old value saved in `a` is still saved, unchanged, in `b`. */
  predicate ValuesKept(a: map<nat, Recorded>, b: map<nat, Recorded>)
  {
    forall p :: p in a ==> p in b && Extends(a[p].nodes, b[p].nodes) && Extends(a[p].edges, b[p].edges)
  }

  lemma ExtendsTrans<V>(a: map<nat, V>, b: map<nat, V>, c: map<nat, V>)
    requires Extends(a, b) && Extends(b, c)
    ensures Extends(a, c)
  {
  }

  lemma ValuesKeptTrans(a: map<nat, Recorded>, b: map<nat, Recorded>, c: map<nat, Recorded>)
    requires ValuesKept(a, b) && ValuesKept(b, c)
    ensures ValuesKept(a, c)
  {
    forall p | p in a
      ensures p in c && Extends(a[p].nodes, c[p].nodes) && Extends(a[p].edges, c[p].edges)
    {
      ExtendsTrans(a[p].nodes, b[p].nodes, c[p].nodes);
      ExtendsTrans(a[p].edges, b[p].edges, c[p].edges);
    }
  }

  /** `recordEdgeContainer`: a node's adjacency is saved the first time only. */
  function RecordContainer(cs: map<nat, seq<nat>>, n: nat, adj: seq<nat>): (r: map<nat, seq<nat>>)
    ensures Extends(cs, r)
    ensures n in r && (n !in cs ==> r[n] == adj)
    ensures r.Keys == cs.Keys + {n}
  {
    if n in cs then cs else cs[n := adj]
  }

  /**
   The adjacency without its last `k` entries: what a node's adjacency was
   before an edge (`k == 1`) or a loop (`k == 2`) was appended to it.
   */
  function Dropped(adj: seq<nat>, k: nat): (r: seq<nat>)
    ensures k <= |adj| ==> r + adj[|adj| - k..] == adj && |r| == |adj| - k
  {
    if k <= |adj| then adj[..|adj| - k] else []
  }

  /**
   The adjacency with its trailing run of entries from `batch` removed:
   the bulk `recordEdgeContainer` scan, which walks the adjacency from its
   end while the entries belong to the edges searched.
   */
  function StripTrailing(adj: seq<nat>, batch: seq<nat>): (r: seq<nat>)
    ensures r <= adj
    ensures forall i :: |r| <= i < |adj| ==> adj[i] in batch
    ensures |r| > 0 ==> r[|r| - 1] !in batch
    decreases |adj|
  {
    if |adj| == 0 || adj[|adj| - 1] !in batch then adj else StripTrailing(adj[..|adj| - 1], batch)
  }

  /**
   The scan gives back the adjacency a node had before a batch of edges
   was appended to it, provided the edges searched are the batch (so the
   last edge the node had before is not among them).
   */
  lemma {:induction false} StripRestores(before: seq<nat>, added: seq<nat>, batch: seq<nat>)
    requires forall i :: 0 <= i < |added| ==> added[i] in batch
    requires |before| == 0 || before[|before| - 1] !in batch
    ensures StripTrailing(before + added, batch) == before
    decreases |added|
  {
    var s := before + added;
    if |added| == 0 {
      assert s == before;
    } else {
      assert s[|s| - 1] == added[|added| - 1];
      assert s[..|s| - 1] == before + added[..|added| - 1];
      StripRestores(before, added[..|added| - 1], batch);
    }
  }

  /** The first occurrence of `x` taken out (`std::find` then `erase`). */
  function EraseFirst<T(==)>(s: seq<T>, x: T): (r: seq<T>)
    ensures x in s ==> |r| == |s| - 1 && multiset(r) == multiset(s) - multiset{x}
    ensures x !in s ==> r == s
  {
    if |s| == 0 then s
    else
      assert s == [s[0]] + s[1..];
      if s[0] == x then s[1..]
      else [s[0]] + EraseFirst(s[1..], x)
  }

  /** `removeFromEdgeContainer`: `e` taken out of the saved adjacency of `n`, if one is saved. */
  function RemoveFromContainer(cs: map<nat, seq<nat>>, e: nat, n: nat): (r: map<nat, seq<nat>>)
    ensures r.Keys == cs.Keys
    ensures n in cs ==> multiset(r[n]) == multiset(cs[n]) - multiset{e}
    ensures forall m :: m in cs && m != n ==> r[m] == cs[m]
  {
    if n in cs then cs[n := EraseFirst(cs[n], e)] else cs
  }

  /** The ends of an edge exchanged. */
  function Swap(p: (nat, nat)): (q: (nat, nat))
    ensures q.0 == p.1 && q.1 == p.0
  {
    (p.1, p.0)
  }

  // ---------------------------------------------------------------------------
  // Old property values
  // ---------------------------------------------------------------------------

  /**
   `beforeSetNodeValue(p, n)`: nothing once the node default of `p` has
   changed; for a node added during the recording, nothing, or (when the
   recording may restart) a note of whether the node still belongs to the
   property's graph; otherwise the value `p` has at `n` now, unless one
   was saved before.
   */
  function BeforeSetNodeValue(r: Recorder, ctx: Ctx, p: nat, n: nat): (r': Recorder)
    ensures r' == r.(oldValues := r'.oldValues, updatedPropsAddedNodes := r'.updatedPropsAddedNodes)
    ensures p in r.oldNodeDefaultValues ==> r' == r
    ensures n in r.addedNodes ==> r'.oldValues == r.oldValues
    ensures n in r.addedNodes && !r.restartAllowed ==> r' == r
    ensures p !in r.oldNodeDefaultValues && n !in r.addedNodes ==>
              r'.updatedPropsAddedNodes == r.updatedPropsAddedNodes
              && p in r'.oldValues && n in r'.oldValues[p].nodes
              && r'.oldValues[p].nodes[n]
                 == (if p in r.oldValues && n in r.oldValues[p].nodes then r.oldValues[p].nodes[n] else ctx.nodeValue(p, n))
    ensures forall q :: q != p ==> (q in r'.oldValues <==> q in r.oldValues)
    ensures ValuesKept(r.oldValues, r'.oldValues)
  {
    if p in r.oldNodeDefaultValues then r
    else if n in r.addedNodes then
      if !r.restartAllowed then r
      else if ctx.hasNode(ctx.propGraph(p), n) then r.(updatedPropsAddedNodes := Insert(r.updatedPropsAddedNodes, p, n))
      else r.(updatedPropsAddedNodes := EraseIn(r.updatedPropsAddedNodes, p, n))
    else if p !in r.oldValues then
      r.(oldValues := r.oldValues[p := Recorded(map[n := ctx.nodeValue(p, n)], map[])])
    else if n in r.oldValues[p].nodes then r
    else
      var rec := r.oldValues[p];
      r.(oldValues := r.oldValues[p := rec.(nodes := rec.nodes[n := ctx.nodeValue(p, n)])])
  }

  /** `beforeSetEdgeValue(p, e)`: the same for edges, an edge counting as added once its ends are kept as added. */
  function BeforeSetEdgeValue(r: Recorder, ctx: Ctx, p: nat, e: nat): (r': Recorder)
    ensures r' == r.(oldValues := r'.oldValues, updatedPropsAddedEdges := r'.updatedPropsAddedEdges)
    ensures p in r.oldEdgeDefaultValues ==> r' == r
    ensures e in r.addedEdgesEnds ==> r'.oldValues == r.oldValues
    ensures e in r.addedEdgesEnds && !r.restartAllowed ==> r' == r
    ensures p !in r.oldEdgeDefaultValues && e !in r.addedEdgesEnds ==>
              r'.updatedPropsAddedEdges == r.updatedPropsAddedEdges
              && p in r'.oldValues && e in r'.oldValues[p].edges
              && r'.oldValues[p].edges[e]
                 == (if p in r.oldValues && e in r.oldValues[p].edges then r.oldValues[p].edges[e] else ctx.edgeValue(p, e))
    ensures forall q :: q != p ==> (q in r'.oldValues <==> q in r.oldValues)
    ensures ValuesKept(r.oldValues, r'.oldValues)
  {
    if p in r.oldEdgeDefaultValues then r
    else if e in r.addedEdgesEnds then
      if !r.restartAllowed then r
      else if ctx.hasEdge(ctx.propGraph(p), e) then r.(updatedPropsAddedEdges := Insert(r.updatedPropsAddedEdges, p, e))
      else r.(updatedPropsAddedEdges := EraseIn(r.updatedPropsAddedEdges, p, e))
    else if p !in r.oldValues then
      r.(oldValues := r.oldValues[p := Recorded(map[], map[e := ctx.edgeValue(p, e)])])
    else if e in r.oldValues[p].edges then r
    else
      var rec := r.oldValues[p];
      r.(oldValues := r.oldValues[p := rec.(edges := rec.edges[e := ctx.edgeValue(p, e)])])
  }

  /** A node's value saved for each property of `ps` not in `skip`, in order. */
  function BeforeSetNodeValues(r: Recorder, ctx: Ctx, ps: seq<nat>, n: nat, skip: set<nat>): (r': Recorder)
    ensures r' == r.(oldValues := r'.oldValues, updatedPropsAddedNodes := r'.updatedPropsAddedNodes)
    ensures n in r.addedNodes ==> r'.oldValues == r.oldValues
    ensures n in r.addedNodes && !r.restartAllowed ==> r' == r
    ensures ValuesKept(r.oldValues, r'.oldValues)
    ensures n !in r.addedNodes ==>
              forall i :: 0 <= i < |ps| && ps[i] !in skip && ps[i] !in r.oldNodeDefaultValues ==>
                ps[i] in r'.oldValues && n in r'.oldValues[ps[i]].nodes
    decreases |ps|
  {
    if |ps| == 0 then r
    else
      var r1 := if ps[0] in skip then r else BeforeSetNodeValue(r, ctx, ps[0], n);
      var r' := BeforeSetNodeValues(r1, ctx, ps[1..], n, skip);
      ValuesKeptTrans(r.oldValues, r1.oldValues, r'.oldValues);
      r'
  }

  /** An edge's value saved for each property of `ps` not in `skip`, in order. */
  function BeforeSetEdgeValues(r: Recorder, ctx: Ctx, ps: seq<nat>, e: nat, skip: set<nat>): (r': Recorder)
    ensures r' == r.(oldValues := r'.oldValues, updatedPropsAddedEdges := r'.updatedPropsAddedEdges)
    ensures e in r.addedEdgesEnds ==> r'.oldValues == r.oldValues
    ensures e in r.addedEdgesEnds && !r.restartAllowed ==> r' == r
    ensures ValuesKept(r.oldValues, r'.oldValues)
    ensures e !in r.addedEdgesEnds ==>
              forall i :: 0 <= i < |ps| && ps[i] !in skip && ps[i] !in r.oldEdgeDefaultValues ==>
                ps[i] in r'.oldValues && e in r'.oldValues[ps[i]].edges
    decreases |ps|
  {
    if |ps| == 0 then r
    else
      var r1 := if ps[0] in skip then r else BeforeSetEdgeValue(r, ctx, ps[0], e);
      var r' := BeforeSetEdgeValues(r1, ctx, ps[1..], e, skip);
      ValuesKeptTrans(r.oldValues, r1.oldValues, r'.oldValues);
      r'
  }

  /**
   `beforeSetAllNodeValue(p)`: unless done before, the values of the nodes
   off the default are saved, then the old default value.
   */
  function BeforeSetAllNodeValue(r: Recorder, ctx: Ctx, p: nat): (r': Recorder)
    ensures r' == r.(oldValues := r'.oldValues, updatedPropsAddedNodes := r'.updatedPropsAddedNodes,
                     oldNodeDefaultValues := r'.oldNodeDefaultValues)
    ensures p in r.oldNodeDefaultValues ==> r' == r
    ensures p !in r.oldNodeDefaultValues ==>
              r'.oldNodeDefaultValues == r.oldNodeDefaultValues[p := ctx.nodeDefault(p)]
    ensures ValuesKept(r.oldValues, r'.oldValues)
  {
    if p in r.oldNodeDefaultValues then r
    else
      var r1 := BeforeSetNodeValuesOf(r, ctx, p, ctx.nonDefaultNodes(p));
      r1.(oldNodeDefaultValues := r1.oldNodeDefaultValues[p := ctx.nodeDefault(p)])
  }

  /** The values of `p` at the nodes `ns` saved, in order. */
  function BeforeSetNodeValuesOf(r: Recorder, ctx: Ctx, p: nat, ns: seq<nat>): (r': Recorder)
    ensures r' == r.(oldValues := r'.oldValues, updatedPropsAddedNodes := r'.updatedPropsAddedNodes)
    ensures ValuesKept(r.oldValues, r'.oldValues)
    ensures p !in r.oldNodeDefaultValues ==>
              forall i :: 0 <= i < |ns| && ns[i] !in r.addedNodes ==> p in r'.oldValues && ns[i] in r'.oldValues[p].nodes
    decreases |ns|
  {
    if |ns| == 0 then r
    else
      var r1 := BeforeSetNodeValue(r, ctx, p, ns[0]);
      var r' := BeforeSetNodeValuesOf(r1, ctx, p, ns[1..]);
      ValuesKeptTrans(r.oldValues, r1.oldValues, r'.oldValues);
      r'
  }

  /** `beforeSetAllEdgeValue(p)`. */
  function BeforeSetAllEdgeValue(r: Recorder, ctx: Ctx, p: nat): (r': Recorder)
    ensures r' == r.(oldValues := r'.oldValues, updatedPropsAddedEdges := r'.updatedPropsAddedEdges,
                     oldEdgeDefaultValues := r'.oldEdgeDefaultValues)
    ensures p in r.oldEdgeDefaultValues ==> r' == r
    ensures p !in r.oldEdgeDefaultValues ==>
              r'.oldEdgeDefaultValues == r.oldEdgeDefaultValues[p := ctx.edgeDefault(p)]
    ensures ValuesKept(r.oldValues, r'.oldValues)
  {
    if p in r.oldEdgeDefaultValues then r
    else
      var r1 := BeforeSetEdgeValuesOf(r, ctx, p, ctx.nonDefaultEdges(p));
      r1.(oldEdgeDefaultValues := r1.oldEdgeDefaultValues[p := ctx.edgeDefault(p)])
  }

  /** The values of `p` at the edges `es` saved, in order. */
  function BeforeSetEdgeValuesOf(r: Recorder, ctx: Ctx, p: nat, es: seq<nat>): (r': Recorder)
    ensures r' == r.(oldValues := r'.oldValues, updatedPropsAddedEdges := r'.updatedPropsAddedEdges)
    ensures ValuesKept(r.oldValues, r'.oldValues)
    ensures p !in r.oldEdgeDefaultValues ==>
              forall i :: 0 <= i < |es| && es[i] !in r.addedEdgesEnds ==> p in r'.oldValues && es[i] in r'.oldValues[p].edges
    decreases |es|
  {
    if |es| == 0 then r
    else
      var r1 := BeforeSetEdgeValue(r, ctx, p, es[0]);
      var r' := BeforeSetEdgeValuesOf(r1, ctx, p, es[1..]);
      ValuesKeptTrans(r.oldValues, r1.oldValues, r'.oldValues);
      r'
  }

  // ---------------------------------------------------------------------------
  // Nodes
  // ---------------------------------------------------------------------------

  /**
   `addNode(g, n)`: `n` noted as added to `g` (and to the hierarchy when
   `g` is the root); its values for the local properties of `g` are saved
   as for any change of value.
   */
  function AddNode(r: Recorder, ctx: Ctx, g: nat, n: nat): (r': Recorder)
    ensures r' == r.(graphAddedNodes := r'.graphAddedNodes, addedNodes := r'.addedNodes,
                     oldValues := r'.oldValues, updatedPropsAddedNodes := r'.updatedPropsAddedNodes)
    ensures r'.graphAddedNodes.Keys == r.graphAddedNodes.Keys + {g}
    ensures Entry(r'.graphAddedNodes, g) == Entry(r.graphAddedNodes, g) + {n}
    ensures forall h :: h != g ==> Entry(r'.graphAddedNodes, h) == Entry(r.graphAddedNodes, h)
    ensures n in r'.addedNodes <==> n in r.addedNodes || IsRoot(ctx, g)
    ensures r'.addedNodes - {n} == r.addedNodes - {n}
    ensures IsRoot(ctx, g) ==> r'.oldValues == r.oldValues
    ensures ValuesKept(r.oldValues, r'.oldValues)
  {
    var r1 := r.(graphAddedNodes := Insert(r.graphAddedNodes, g, n),
                 addedNodes := if IsRoot(ctx, g) then r.addedNodes + {n} else r.addedNodes);
    BeforeSetNodeValues(r1, ctx, ctx.localProps(g), n, {})
  }

  /** `addNode` for each node of `ns`, in order. */
  function AddNodeSeq(r: Recorder, ctx: Ctx, g: nat, ns: seq<nat>): (r': Recorder)
    ensures r' == r.(graphAddedNodes := r'.graphAddedNodes, addedNodes := r'.addedNodes,
                     oldValues := r'.oldValues, updatedPropsAddedNodes := r'.updatedPropsAddedNodes)
    ensures forall i :: 0 <= i < |ns| ==> ns[i] in Entry(r'.graphAddedNodes, g)
    ensures Entry(r.graphAddedNodes, g) <= Entry(r'.graphAddedNodes, g)
    ensures forall h :: h != g ==> Entry(r'.graphAddedNodes, h) == Entry(r.graphAddedNodes, h)
    ensures ValuesKept(r.oldValues, r'.oldValues)
    decreases |ns|
  {
    if |ns| == 0 then r
    else
      var r1 := AddNode(r, ctx, g, ns[0]);
      var r' := AddNodeSeq(r1, ctx, g, ns[1..]);
      ValuesKeptTrans(r.oldValues, r1.oldValues, r'.oldValues);
      NodeFrameTrans(r, r1, r');
      assert forall i :: 1 <= i < |ns| ==> ns[i] == ns[1..][i - 1];
      r'
  }

  /** Two steps that each change only the node-addition fields change only those fields. */
  lemma NodeFrameTrans(r: Recorder, r1: Recorder, r2: Recorder)
    requires r1 == r.(graphAddedNodes := r1.graphAddedNodes, addedNodes := r1.addedNodes,
                      oldValues := r1.oldValues, updatedPropsAddedNodes := r1.updatedPropsAddedNodes)
    requires r2 == r1.(graphAddedNodes := r2.graphAddedNodes, addedNodes := r2.addedNodes,
                       oldValues := r2.oldValues, updatedPropsAddedNodes := r2.updatedPropsAddedNodes)
    ensures r2 == r.(graphAddedNodes := r2.graphAddedNodes, addedNodes := r2.addedNodes,
                     oldValues := r2.oldValues, updatedPropsAddedNodes := r2.updatedPropsAddedNodes)
  {
  }

  /**
   TLP_ADD_NODES: the last `nb` nodes of `g` added one by one. With more
   nodes announced than `g` has, the source's unsigned start index wraps
   past the end and nothing is added.
   */
  function AddNodes(r: Recorder, ctx: Ctx, g: nat, nb: nat): (r': Recorder)
    ensures nb <= |ctx.nodesOf(g)| ==>
              forall i :: |ctx.nodesOf(g)| - nb <= i < |ctx.nodesOf(g)| ==> ctx.nodesOf(g)[i] in Entry(r'.graphAddedNodes, g)
    ensures nb > |ctx.nodesOf(g)| ==> r' == r
    ensures r' == r.(graphAddedNodes := r'.graphAddedNodes, addedNodes := r'.addedNodes,
                     oldValues := r'.oldValues, updatedPropsAddedNodes := r'.updatedPropsAddedNodes)
    ensures ValuesKept(r.oldValues, r'.oldValues)
  {
    var ns := ctx.nodesOf(g);
    if nb <= |ns| then
      var r' := AddNodeSeq(r, ctx, g, ns[|ns| - nb..]);
      assert forall i :: |ns| - nb <= i < |ns| ==> ns[i] == ns[|ns| - nb..][i - (|ns| - nb)];
      r'
    else r
  }

  /**
   `delNode(g, n)`: a node added to `g` during the recording is only
   forgotten as added (it stays in `addedNodes`, so that no value of it is
   ever saved as if it had existed before); any other node is noted as
   deleted from `g`, its values for the local properties of `g` not added
   during the recording are saved, and so is its adjacency when `g` is the
   root.
   */
  function DelNode(r: Recorder, ctx: Ctx, g: nat, n: nat): (r': Recorder)
    ensures n in Entry(r.graphAddedNodes, g) ==>
              r' == r.(graphAddedNodes := r.graphAddedNodes[g := Entry(r.graphAddedNodes, g) - {n}])
    ensures n !in Entry(r.graphAddedNodes, g) ==>
              r' == r.(graphDeletedNodes := Insert(r.graphDeletedNodes, g, n), oldValues := r'.oldValues,
                       updatedPropsAddedNodes := r'.updatedPropsAddedNodes, oldContainers := r'.oldContainers)
    ensures n !in Entry(r.graphAddedNodes, g) && n !in r.addedNodes ==>
              forall p :: p in ctx.localProps(g) && p !in Entry(r.addedProperties, g) && p !in r.oldNodeDefaultValues ==>
                p in r'.oldValues && n in r'.oldValues[p].nodes
    ensures n !in Entry(r.graphAddedNodes, g) && IsRoot(ctx, g) ==>
              n in r'.oldContainers && (n !in r.oldContainers ==> r'.oldContainers[n] == ctx.adj(n))
    ensures !IsRoot(ctx, g) ==> r'.oldContainers == r.oldContainers
    ensures ValuesKept(r.oldValues, r'.oldValues) && Extends(r.oldContainers, r'.oldContainers)
  {
    if n in Entry(r.graphAddedNodes, g) then
      r.(graphAddedNodes := r.graphAddedNodes[g := Entry(r.graphAddedNodes, g) - {n}])
    else
      var r1 := r.(graphDeletedNodes := Insert(r.graphDeletedNodes, g, n));
      var r2 := BeforeSetNodeValues(r1, ctx, ctx.localProps(g), n, Entry(r.addedProperties, g));
      assert forall p :: p in ctx.localProps(g) ==> exists i :: 0 <= i < |ctx.localProps(g)| && ctx.localProps(g)[i] == p;
      if IsRoot(ctx, g) then r2.(oldContainers := RecordContainer(r2.oldContainers, n, ctx.adj(n))) else r2
  }

  /**
   Adding a node to a graph and deleting it again within one recording
   leaves only the note of the addition undone: the graph's set of added
   nodes is back to what it was, and everything else is as the addition
   left it.
   */
  lemma AddNodeThenDelNode(r: Recorder, ctx1: Ctx, ctx2: Ctx, g: nat, n: nat)
    requires n !in Entry(r.graphAddedNodes, g)
    ensures var r1 := AddNode(r, ctx1, g, n);
            DelNode(r1, ctx2, g, n) == r1.(graphAddedNodes := r.graphAddedNodes[g := Entry(r.graphAddedNodes, g)])
  {
    var r1 := AddNode(r, ctx1, g, n);
    assert Entry(r1.graphAddedNodes, g) - {n} == Entry(r.graphAddedNodes, g);
    SameBesides(r.graphAddedNodes, r1.graphAddedNodes, g, Entry(r.graphAddedNodes, g));
  }

  /** Two maps that agree off `k` agree once `k` is given the same value. */
  lemma SameBesides(a: map<nat, set<nat>>, b: map<nat, set<nat>>, k: nat, v: set<nat>)
    requires b.Keys == a.Keys + {k}
    requires forall h :: h != k ==> Entry(b, h) == Entry(a, h)
    ensures b[k := v] == a[k := v]
  {
    forall h | h in b && h != k
      ensures b[h] == a[h]
    {
      assert Entry(b, h) == Entry(a, h);
    }
  }

  /**
   At the root, when the recording cannot restart, a node added then
   deleted leaves the recorder as it was but for the note that the node
   was created during the recording.
   */
  lemma AddNodeThenDelNodeAtRoot(r: Recorder, ctx1: Ctx, ctx2: Ctx, g: nat, n: nat)
    requires IsRoot(ctx1, g) && !r.restartAllowed
    requires n !in Entry(r.graphAddedNodes, g)
    ensures DelNode(AddNode(r, ctx1, g, n), ctx2, g, n)
            == r.(graphAddedNodes := r.graphAddedNodes[g := Entry(r.graphAddedNodes, g)], addedNodes := r.addedNodes + {n})
  {
    AddNodeThenDelNode(r, ctx1, ctx2, g, n);
    var r1 := AddNode(r, ctx1, g, n);
    assert r1.addedNodes == r.addedNodes + {n};
    assert r1.updatedPropsAddedNodes == r.updatedPropsAddedNodes by {
      var r0 := r.(graphAddedNodes := Insert(r.graphAddedNodes, g, n), addedNodes := r.addedNodes + {n});
      assert r1 == BeforeSetNodeValues(r0, ctx1, ctx1.localProps(g), n, {});
    }
  }

  // ---------------------------------------------------------------------------
  // Edges
  // ---------------------------------------------------------------------------

  /** The adjacencies of both ends of `e` saved as they are, each the first time only. */
  function SaveEnds(cs: map<nat, seq<nat>>, ctx: Ctx, e: nat): (r: map<nat, seq<nat>>)
    ensures Extends(cs, r)
    ensures ctx.ends(e).0 in r && ctx.ends(e).1 in r
    ensures forall m :: m in r && m !in cs ==> r[m] == ctx.adj(m)
  {
    var ends := ctx.ends(e);
    var c1 := RecordContainer(cs, ends.0, ctx.adj(ends.0));
    var r := RecordContainer(c1, ends.1, ctx.adj(ends.1));
    ExtendsTrans(cs, c1, r);
    r
  }

  /**
   The adjacencies of both ends of the edge `e` just appended, saved as
   they were before: without their last entry, or their last two for a
   loop, which was appended twice to its node.
   */
  function SaveEndsBefore(cs: map<nat, seq<nat>>, ctx: Ctx, e: nat): (r: map<nat, seq<nat>>)
    ensures Extends(cs, r)
    ensures ctx.ends(e).0 in r && ctx.ends(e).1 in r
    ensures forall m :: m in r && m !in cs ==> r[m] == Dropped(ctx.adj(m), if ctx.ends(e).0 == ctx.ends(e).1 then 2 else 1)
  {
    var ends := ctx.ends(e);
    var k := if ends.0 == ends.1 then 2 else 1;
    var c1 := RecordContainer(cs, ends.0, Dropped(ctx.adj(ends.0), k));
    var r := RecordContainer(c1, ends.1, Dropped(ctx.adj(ends.1), k));
    ExtendsTrans(cs, c1, r);
    r
  }

  /** The adjacencies of both ends of `e` saved with their trailing run of edges from `searched` taken off. */
  function SaveEndsStripped(cs: map<nat, seq<nat>>, ctx: Ctx, e: nat, searched: seq<nat>): (r: map<nat, seq<nat>>)
    ensures Extends(cs, r)
    ensures ctx.ends(e).0 in r && ctx.ends(e).1 in r
    ensures forall m :: m in r && m !in cs ==> r[m] == StripTrailing(ctx.adj(m), searched)
  {
    var ends := ctx.ends(e);
    var c1 := RecordContainer(cs, ends.0, StripTrailing(ctx.adj(ends.0), searched));
    var r := RecordContainer(c1, ends.1, StripTrailing(ctx.adj(ends.1), searched));
    ExtendsTrans(cs, c1, r);
    r
  }

  /**
   `addEdge(g, e)`: `e` noted as added to `g`; at the root its ends are
   kept and the adjacency each end had before `e` was appended is saved;
   then its values for the local properties of `g` are saved as for any
   change of value.
   */
  function AddEdge(r: Recorder, ctx: Ctx, g: nat, e: nat): (r': Recorder)
    ensures r' == r.(graphAddedEdges := Insert(r.graphAddedEdges, g, e), addedEdgesEnds := r'.addedEdgesEnds,
                     oldContainers := r'.oldContainers, oldValues := r'.oldValues, updatedPropsAddedEdges := r'.updatedPropsAddedEdges)
    ensures IsRoot(ctx, g) ==>
              r'.addedEdgesEnds == r.addedEdgesEnds[e := ctx.ends(e)] && r'.oldValues == r.oldValues
              && r'.oldContainers == SaveEndsBefore(r.oldContainers, ctx, e)
    ensures !IsRoot(ctx, g) ==> r'.addedEdgesEnds == r.addedEdgesEnds && r'.oldContainers == r.oldContainers
    ensures ValuesKept(r.oldValues, r'.oldValues)
  {
    var root := IsRoot(ctx, g);
    var r1 := r.(graphAddedEdges := Insert(r.graphAddedEdges, g, e),
                 addedEdgesEnds := if root then r.addedEdgesEnds[e := ctx.ends(e)] else r.addedEdgesEnds,
                 oldContainers := if root then SaveEndsBefore(r.oldContainers, ctx, e) else r.oldContainers);
    BeforeSetEdgeValues(r1, ctx, ctx.localProps(g), e, {})
  }

  /** `addEdge` for each edge of `es`, in order. */
  function AddEdgeSeq(r: Recorder, ctx: Ctx, g: nat, es: seq<nat>): (r': Recorder)
    ensures r' == r.(graphAddedEdges := r'.graphAddedEdges, addedEdgesEnds := r'.addedEdgesEnds, oldContainers := r'.oldContainers,
                     oldValues := r'.oldValues, updatedPropsAddedEdges := r'.updatedPropsAddedEdges)
    ensures Extends(r.oldContainers, r'.oldContainers) && ValuesKept(r.oldValues, r'.oldValues)
    decreases |es|
  {
    if |es| == 0 then r
    else
      var r1 := AddEdge(r, ctx, g, es[0]);
      var r' := AddEdgeSeq(r1, ctx, g, es[1..]);
      ValuesKeptTrans(r.oldValues, r1.oldValues, r'.oldValues);
      ExtendsTrans(r.oldContainers, r1.oldContainers, r'.oldContainers);
      r'
  }

  /** After `addEdge` for each edge of `es`, every one of them is noted as added to `g`, and no other graph's set changed. */
  lemma {:induction false} AddEdgeSeqAdds(r: Recorder, ctx: Ctx, g: nat, es: seq<nat>)
    ensures forall e :: e in es ==> e in Entry(AddEdgeSeq(r, ctx, g, es).graphAddedEdges, g)
    ensures Entry(r.graphAddedEdges, g) <= Entry(AddEdgeSeq(r, ctx, g, es).graphAddedEdges, g)
    ensures forall h :: h != g ==> Entry(AddEdgeSeq(r, ctx, g, es).graphAddedEdges, h) == Entry(r.graphAddedEdges, h)
    decreases |es|
  {
    if |es| > 0 {
      var r1 := AddEdge(r, ctx, g, es[0]);
      AddEdgeSeqAdds(r1, ctx, g, es[1..]);
      assert forall e :: e in es ==> e == es[0] || e in es[1..];
    }
  }

  /** One edge of a TLP_ADD_EDGES batch: `addEdge` with the adjacencies of the ends stripped of the edges `searched`. */
  function AddBatchEdge(r: Recorder, ctx: Ctx, g: nat, e: nat, searched: seq<nat>): (r': Recorder)
    ensures r' == r.(graphAddedEdges := Insert(r.graphAddedEdges, g, e), addedEdgesEnds := r'.addedEdgesEnds,
                     oldContainers := r'.oldContainers, oldValues := r'.oldValues, updatedPropsAddedEdges := r'.updatedPropsAddedEdges)
    ensures IsRoot(ctx, g) ==>
              r'.addedEdgesEnds == r.addedEdgesEnds[e := ctx.ends(e)] && r'.oldValues == r.oldValues
              && r'.oldContainers == SaveEndsStripped(r.oldContainers, ctx, e, searched)
    ensures !IsRoot(ctx, g) ==> r'.addedEdgesEnds == r.addedEdgesEnds && r'.oldContainers == r.oldContainers
    ensures ValuesKept(r.oldValues, r'.oldValues)
  {
    var root := IsRoot(ctx, g);
    var r1 := r.(graphAddedEdges := Insert(r.graphAddedEdges, g, e),
                 addedEdgesEnds := if root then r.addedEdgesEnds[e := ctx.ends(e)] else r.addedEdgesEnds,
                 oldContainers := if root then SaveEndsStripped(r.oldContainers, ctx, e, searched) else r.oldContainers);
    BeforeSetEdgeValues(r1, ctx, ctx.localProps(g), e, {})
  }

  /** The edges of `batch` added to `g` in order, the ends' adjacencies stripped of the edges `searched`. */
  function AddBatch(r: Recorder, ctx: Ctx, g: nat, batch: seq<nat>, searched: seq<nat>): (r': Recorder)
    ensures r' == r.(graphAddedEdges := r'.graphAddedEdges, addedEdgesEnds := r'.addedEdgesEnds, oldContainers := r'.oldContainers,
                     oldValues := r'.oldValues, updatedPropsAddedEdges := r'.updatedPropsAddedEdges)
    ensures r.graphAddedEdges.Keys <= r'.graphAddedEdges.Keys
    ensures !IsRoot(ctx, g) ==> r'.oldContainers == r.oldContainers
    ensures Extends(r.oldContainers, r'.oldContainers) && ValuesKept(r.oldValues, r'.oldValues)
    decreases |batch|
  {
    if |batch| == 0 then r
    else
      var r1 := AddBatchEdge(r, ctx, g, batch[0], searched);
      var r' := AddBatch(r1, ctx, g, batch[1..], searched);
      ValuesKeptTrans(r.oldValues, r1.oldValues, r'.oldValues);
      ExtendsTrans(r.oldContainers, r1.oldContainers, r'.oldContainers);
      r'
  }

  /** Every edge of a batch is noted as added to `g`. */
  lemma {:induction false} AddBatchAdds(r: Recorder, ctx: Ctx, g: nat, batch: seq<nat>, searched: seq<nat>)
    ensures forall e :: e in batch ==> e in Entry(AddBatch(r, ctx, g, batch, searched).graphAddedEdges, g)
    decreases |batch|
  {
    if |batch| > 0 {
      var r1 := AddBatchEdge(r, ctx, g, batch[0], searched);
      AddBatchAdds(r1, ctx, g, batch[1..], searched);
      AddBatchKeeps(r1, ctx, g, batch[1..], searched);
      assert forall e :: e in batch ==> e == batch[0] || e in batch[1..];
    }
  }

  /** A batch never takes an edge out of a graph's set of added edges. */
  lemma {:induction false} AddBatchKeeps(r: Recorder, ctx: Ctx, g: nat, batch: seq<nat>, searched: seq<nat>)
    ensures Entry(r.graphAddedEdges, g) <= Entry(AddBatch(r, ctx, g, batch, searched).graphAddedEdges, g)
    decreases |batch|
  {
    if |batch| > 0 {
      AddBatchKeeps(AddBatchEdge(r, ctx, g, batch[0], searched), ctx, g, batch[1..], searched);
    }
  }

  /** At the root, both ends of every edge of a batch have a saved adjacency afterwards. */
  lemma {:induction false} AddBatchSavesEnds(r: Recorder, ctx: Ctx, g: nat, batch: seq<nat>, searched: seq<nat>, e: nat)
    requires IsRoot(ctx, g) && e in batch
    ensures ctx.ends(e).0 in AddBatch(r, ctx, g, batch, searched).oldContainers
    ensures ctx.ends(e).1 in AddBatch(r, ctx, g, batch, searched).oldContainers
    decreases |batch|
  {
    var r1 := AddBatchEdge(r, ctx, g, batch[0], searched);
    var r' := AddBatch(r1, ctx, g, batch[1..], searched);
    assert r' == AddBatch(r, ctx, g, batch, searched);
    if e == batch[0] {
      assert Extends(r1.oldContainers, r'.oldContainers);
    } else {
      assert e in batch[1..];
      AddBatchSavesEnds(r1, ctx, g, batch[1..], searched, e);
    }
  }

  /**
   At the root, each adjacency a batch saves is the node's adjacency with
   its trailing run of edges from `searched` taken off.
   */
  lemma {:induction false} AddBatchStrips(r: Recorder, ctx: Ctx, g: nat, batch: seq<nat>, searched: seq<nat>, m: nat)
    requires IsRoot(ctx, g)
    requires m in AddBatch(r, ctx, g, batch, searched).oldContainers && m !in r.oldContainers
    ensures AddBatch(r, ctx, g, batch, searched).oldContainers[m] == StripTrailing(ctx.adj(m), searched)
    decreases |batch|
  {
    var r1 := AddBatchEdge(r, ctx, g, batch[0], searched);
    var r' := AddBatch(r1, ctx, g, batch[1..], searched);
    assert r' == AddBatch(r, ctx, g, batch, searched);
    if m in r1.oldContainers {
      assert Extends(r1.oldContainers, r'.oldContainers);
    } else {
      AddBatchStrips(r1, ctx, g, batch[1..], searched, m);
    }
  }

  /** The last `nb` edges of `g`: the batch a TLP_ADD_EDGES announces (none when `g` has fewer). */
  function Batch(ctx: Ctx, g: nat, nb: nat): (b: seq<nat>)
    ensures nb <= |ctx.edgesOf(g)| ==> |b| == nb && ctx.edgesOf(g) == ctx.edgesOf(g)[..|ctx.edgesOf(g)| - nb] + b
  {
    var es := ctx.edgesOf(g);
    if nb <= |es| then es[|es| - nb..] else []
  }

  /**
   The edges the source searches when it strips a saved adjacency after a
   TLP_ADD_EDGES: from index `size - nb - 1`, one edge before the batch
   (all the edges when the batch is all of them, where that index would
   wrap).
   */
  function SearchedAsWritten(ctx: Ctx, g: nat, nb: nat): (s: seq<nat>)
    ensures 0 < nb < |ctx.edgesOf(g)| ==> s == [ctx.edgesOf(g)[|ctx.edgesOf(g)| - nb - 1]] + Batch(ctx, g, nb)
  {
    var es := ctx.edgesOf(g);
    if nb < |es| then es[|es| - nb - 1..] else es
  }

  /**
   TLP_ADD_EDGES as the source handles it: the batch is added edge by edge,
   each end's adjacency being saved with its trailing run of edges from
   `SearchedAsWritten` taken off.
   */
  function AddEdgesAsWritten(r: Recorder, ctx: Ctx, g: nat, nb: nat): (r': Recorder)
    ensures r' == AddBatch(r.(graphAddedEdges := r.graphAddedEdges[g := Entry(r.graphAddedEdges, g)]),
                           ctx, g, Batch(ctx, g, nb), SearchedAsWritten(ctx, g, nb))
    ensures g in r'.graphAddedEdges
    ensures Extends(r.oldContainers, r'.oldContainers) && ValuesKept(r.oldValues, r'.oldValues)
  {
    var r1 := r.(graphAddedEdges := r.graphAddedEdges[g := Entry(r.graphAddedEdges, g)]);
    AddBatch(r1, ctx, g, Batch(ctx, g, nb), SearchedAsWritten(ctx, g, nb))
  }

  /** TLP_ADD_EDGES with each end's adjacency stripped of the batch's own edges only. */
  function AddEdges(r: Recorder, ctx: Ctx, g: nat, nb: nat): (r': Recorder)
    ensures r' == AddBatch(r.(graphAddedEdges := r.graphAddedEdges[g := Entry(r.graphAddedEdges, g)]),
                           ctx, g, Batch(ctx, g, nb), Batch(ctx, g, nb))
    ensures g in r'.graphAddedEdges
    ensures Extends(r.oldContainers, r'.oldContainers) && ValuesKept(r.oldValues, r'.oldValues)
  {
    var r1 := r.(graphAddedEdges := r.graphAddedEdges[g := Entry(r.graphAddedEdges, g)]);
    AddBatch(r1, ctx, g, Batch(ctx, g, nb), Batch(ctx, g, nb))
  }

  /**
   The first half of `delEdge(g, e)` for an edge added to `g` during the
   recording: it is only forgotten as added (its ends stay kept, so that
   no value of it is ever saved as if it had existed before), and taken
   out of the new adjacencies of its ends.
   */
  function ForgetAddedEdge(r: Recorder, g: nat, e: nat): (r': Recorder)
    ensures r' == r.(graphAddedEdges := r.graphAddedEdges[g := Entry(r.graphAddedEdges, g) - {e}], newContainers := r'.newContainers)
    ensures e !in r.addedEdgesEnds ==> r'.newContainers == r.newContainers
    ensures r'.newContainers.Keys == r.newContainers.Keys
  {
    var r1 := r.(graphAddedEdges := r.graphAddedEdges[g := Entry(r.graphAddedEdges, g) - {e}]);
    if e in r.addedEdgesEnds then
      var ends := r.addedEdgesEnds[e];
      r1.(newContainers := RemoveFromContainer(RemoveFromContainer(r1.newContainers, e, ends.0), e, ends.1))
    else r1
  }

  /**
   The ends a deleted edge is kept with: at the root, the ends it had when
   the recording started (its current ends exchanged back if it was
   reversed, its first old ends if they were changed); elsewhere its
   current ends.
   */
  function FirstEnds(r: Recorder, ctx: Ctx, g: nat, e: nat): (nat, nat)
  {
    if !IsRoot(ctx, g) then ctx.ends(e)
    else if e in r.revertedEdges then Swap(ctx.ends(e))
    else if e in r.oldEdgesEnds then r.oldEdgesEnds[e]
    else ctx.ends(e)
  }

  /**
   The ends bookkeeping of `delEdge(g, e)` for an edge that existed
   before: `e` noted as deleted from `g` and its ends kept, the first time
   only; at the root it leaves `revertedEdges`, or the changed ends it was
   in.
   */
  function DeleteEnds(r: Recorder, ctx: Ctx, g: nat, e: nat): (r': Recorder)
    ensures r' == r.(graphDeletedEdges := Insert(r.graphDeletedEdges, g, e), deletedEdgesEnds := r'.deletedEdgesEnds,
                     revertedEdges := r'.revertedEdges, oldEdgesEnds := r'.oldEdgesEnds, newEdgesEnds := r'.newEdgesEnds)
    ensures e in r'.deletedEdgesEnds && Extends(r.deletedEdgesEnds, r'.deletedEdgesEnds)
    ensures e !in r.deletedEdgesEnds ==> r'.deletedEdgesEnds[e] == FirstEnds(r, ctx, g, e)
    ensures e in r.deletedEdgesEnds || !IsRoot(ctx, g) ==>
              r'.revertedEdges == r.revertedEdges && r'.oldEdgesEnds == r.oldEdgesEnds && r'.newEdgesEnds == r.newEdgesEnds
    ensures e !in r.deletedEdgesEnds && IsRoot(ctx, g) ==>
              r'.revertedEdges == r.revertedEdges - {e}
              && (e !in r.revertedEdges ==> r'.oldEdgesEnds == r.oldEdgesEnds - {e} && r'.newEdgesEnds == r.newEdgesEnds - {e})
  {
    var root := IsRoot(ctx, g);
    var first := e !in r.deletedEdgesEnds;
    r.(graphDeletedEdges := Insert(r.graphDeletedEdges, g, e),
       deletedEdgesEnds := if first then r.deletedEdgesEnds[e := FirstEnds(r, ctx, g, e)] else r.deletedEdgesEnds,
       revertedEdges := if first && root then r.revertedEdges - {e} else r.revertedEdges,
       oldEdgesEnds := if first && root && e !in r.revertedEdges then r.oldEdgesEnds - {e} else r.oldEdgesEnds,
       newEdgesEnds := if first && root && e !in r.revertedEdges then r.newEdgesEnds - {e} else r.newEdgesEnds)
  }

  /**
   The rest of `delEdge(g, e)` for an edge that existed before: after the
   ends bookkeeping, its values for the local properties of `g` not added
   during the recording are saved, and so are the adjacencies of its ends
   when `g` is the root.
   */
  function DelPresentEdge(r: Recorder, ctx: Ctx, g: nat, e: nat): (r': Recorder)
    ensures r' == DeleteEnds(r, ctx, g, e).(oldValues := r'.oldValues, updatedPropsAddedEdges := r'.updatedPropsAddedEdges,
                                            oldContainers := r'.oldContainers)
    ensures IsRoot(ctx, g) ==> r'.oldContainers == SaveEnds(r.oldContainers, ctx, e)
    ensures !IsRoot(ctx, g) ==> r'.oldContainers == r.oldContainers
    ensures ValuesKept(r.oldValues, r'.oldValues)
  {
    var r1 := DeleteEnds(r, ctx, g, e);
    var r2 := BeforeSetEdgeValues(r1, ctx, ctx.localProps(g), e, Entry(r.addedProperties, g));
    if IsRoot(ctx, g) then r2.(oldContainers := SaveEnds(r2.oldContainers, ctx, e)) else r2
  }

  /**
   Deleting an edge that existed before saves its value for every local
   property of the graph not added during the recording, unless that
   property's edge default was changed (which saved all its values).
   */
  lemma DelPresentEdgeSavesValues(r: Recorder, ctx: Ctx, g: nat, e: nat, p: nat)
    requires e !in r.addedEdgesEnds
    requires p in ctx.localProps(g) && p !in Entry(r.addedProperties, g) && p !in r.oldEdgeDefaultValues
    ensures p in DelPresentEdge(r, ctx, g, e).oldValues && e in DelPresentEdge(r, ctx, g, e).oldValues[p].edges
  {
    var r1 := DeleteEnds(r, ctx, g, e);
    assert r1.addedEdgesEnds == r.addedEdgesEnds && r1.oldEdgeDefaultValues == r.oldEdgeDefaultValues;
    var r2 := BeforeSetEdgeValues(r1, ctx, ctx.localProps(g), e, Entry(r.addedProperties, g));
    var i :| 0 <= i < |ctx.localProps(g)| && ctx.localProps(g)[i] == p;
    assert p in r2.oldValues && e in r2.oldValues[p].edges;
    assert DelPresentEdge(r, ctx, g, e).oldValues == r2.oldValues;
  }

  /**
   `delEdge(g, e)` as the source handles it: for an edge added to `g`
   during the recording, besides forgetting the addition, `e` is taken
   out of `revertedEdges`.
   */
  function DelEdgeAsWritten(r: Recorder, ctx: Ctx, g: nat, e: nat): (r': Recorder)
    ensures e in Entry(r.graphAddedEdges, g) ==> r' == ForgetAddedEdge(r, g, e).(revertedEdges := r.revertedEdges - {e})
    ensures e !in Entry(r.graphAddedEdges, g) ==> r' == DelPresentEdge(r, ctx, g, e)
  {
    if e in Entry(r.graphAddedEdges, g) then ForgetAddedEdge(r, g, e).(revertedEdges := r.revertedEdges - {e})
    else DelPresentEdge(r, ctx, g, e)
  }

  /** `delEdge(g, e)` with the reversal of an edge left alone when only its addition to `g` is forgotten. */
  function DelEdge(r: Recorder, ctx: Ctx, g: nat, e: nat): (r': Recorder)
    ensures e in Entry(r.graphAddedEdges, g) ==> r' == ForgetAddedEdge(r, g, e)
    ensures e !in Entry(r.graphAddedEdges, g) ==> r' == DelPresentEdge(r, ctx, g, e)
  {
    if e in Entry(r.graphAddedEdges, g) then ForgetAddedEdge(r, g, e)
    else DelPresentEdge(r, ctx, g, e)
  }

  /**
   Deleting an edge leaves the reversal notes of every other edge alone,
   and the note of `e` itself when only its addition to `g` is forgotten.
   */
  lemma DelEdgeKeepsReversals(r: Recorder, ctx: Ctx, g: nat, e: nat)
    ensures DelEdge(r, ctx, g, e).revertedEdges - {e} == r.revertedEdges - {e}
    ensures e in Entry(r.graphAddedEdges, g) ==> DelEdge(r, ctx, g, e).revertedEdges == r.revertedEdges
  {
    if e !in Entry(r.graphAddedEdges, g) {
      var r1 := DeleteEnds(r, ctx, g, e);
      assert r1.revertedEdges - {e} == r.revertedEdges - {e};
      assert DelPresentEdge(r, ctx, g, e).revertedEdges == r1.revertedEdges;
    }
  }

  /**
   Adding an edge to a graph and deleting it again within one recording
   undoes the note of the addition and changes only the new adjacencies
   besides: everything else is as the addition left it.
   */
  lemma AddEdgeThenDelEdge(r: Recorder, ctx1: Ctx, ctx2: Ctx, g: nat, e: nat)
    requires e !in Entry(r.graphAddedEdges, g)
    ensures var r1 := AddEdge(r, ctx1, g, e);
            var r2 := DelEdge(r1, ctx2, g, e);
            r2 == r1.(graphAddedEdges := r.graphAddedEdges[g := Entry(r.graphAddedEdges, g)], newContainers := r2.newContainers)
            && (e !in r1.addedEdgesEnds ==> r2.newContainers == r.newContainers)
  {
    var r1 := AddEdge(r, ctx1, g, e);
    assert Entry(r1.graphAddedEdges, g) - {e} == Entry(r.graphAddedEdges, g);
    SameBesides(r.graphAddedEdges, r1.graphAddedEdges, g, Entry(r.graphAddedEdges, g));
  }

  /**
   The source forgets a reversal it should undo: an edge of the root
   reversed, then added to a subgraph and deleted from it again, is no
   longer noted as reversed, whereas `DelEdge` keeps the note.
   */
  lemma ReversalForgotten(r: Recorder, ctx: Ctx, root: nat, sg: nat, e: nat)
    requires IsRoot(ctx, root) && !IsRoot(ctx, sg)
    requires e !in r.addedEdgesEnds && e !in r.newEdgesEnds && e !in r.revertedEdges
    requires e !in Entry(r.graphAddedEdges, sg)
    ensures var r1 := AddEdge(ReverseEdge(r, ctx, root, e), ctx, sg, e);
            e in r1.revertedEdges
            && e !in DelEdgeAsWritten(r1, ctx, sg, e).revertedEdges
            && e in DelEdge(r1, ctx, sg, e).revertedEdges
  {
    var r0 := ReverseEdge(r, ctx, root, e);
    assert e in r0.revertedEdges;
    var r1 := AddEdge(r0, ctx, sg, e);
    assert e in Entry(r1.graphAddedEdges, sg);
  }

  // ---------------------------------------------------------------------------
  // Reversals and ends changes
  // ---------------------------------------------------------------------------

  /**
   `reverseEdge(g, e)`, heeded at the root only: the kept ends of an edge
   added during the recording are exchanged; so are the new ends of an
   edge whose ends were changed; any other edge is noted as reversed, or
   no longer reversed when it already was, and the adjacencies of its ends
   are saved.
   */
  function ReverseEdge(r: Recorder, ctx: Ctx, g: nat, e: nat): (r': Recorder)
    ensures r' == r.(addedEdgesEnds := r'.addedEdgesEnds, newEdgesEnds := r'.newEdgesEnds,
                     revertedEdges := r'.revertedEdges, oldContainers := r'.oldContainers)
    ensures !IsRoot(ctx, g) ==> r' == r
    ensures IsRoot(ctx, g) && e in r.addedEdgesEnds ==>
              r' == r.(addedEdgesEnds := r.addedEdgesEnds[e := Swap(r.addedEdgesEnds[e])])
    ensures IsRoot(ctx, g) && e !in r.addedEdgesEnds && e in r.newEdgesEnds ==>
              r' == r.(newEdgesEnds := r.newEdgesEnds[e := Swap(r.newEdgesEnds[e])])
    ensures IsRoot(ctx, g) && e !in r.addedEdgesEnds && e !in r.newEdgesEnds ==>
              (e in r'.revertedEdges <==> e !in r.revertedEdges) && r'.revertedEdges - {e} == r.revertedEdges - {e}
              && r'.addedEdgesEnds == r.addedEdgesEnds && r'.newEdgesEnds == r.newEdgesEnds
    ensures Extends(r.oldContainers, r'.oldContainers)
  {
    if !IsRoot(ctx, g) then r
    else if e in r.addedEdgesEnds then r.(addedEdgesEnds := r.addedEdgesEnds[e := Swap(r.addedEdgesEnds[e])])
    else if e in r.newEdgesEnds then r.(newEdgesEnds := r.newEdgesEnds[e := Swap(r.newEdgesEnds[e])])
    else if e in r.revertedEdges then r.(revertedEdges := r.revertedEdges - {e})
    else r.(revertedEdges := r.revertedEdges + {e}, oldContainers := SaveEnds(r.oldContainers, ctx, e))
  }

  /**
   Reversing an edge twice leaves the recorder as it was, but for the
   adjacencies saved on the way.
   */
  lemma ReverseTwice(r: Recorder, ctx1: Ctx, ctx2: Ctx, g: nat, e: nat)
    requires IsRoot(ctx1, g) == IsRoot(ctx2, g)
    ensures var r2 := ReverseEdge(ReverseEdge(r, ctx1, g, e), ctx2, g, e);
            r2 == r.(oldContainers := r2.oldContainers) && Extends(r.oldContainers, r2.oldContainers)
  {
    var r1 := ReverseEdge(r, ctx1, g, e);
    var r2 := ReverseEdge(r1, ctx2, g, e);
    ExtendsTrans(r.oldContainers, r1.oldContainers, r2.oldContainers);
    if !IsRoot(ctx1, g) {
    } else if e in r.addedEdgesEnds {
      SwapTwiceIn(r.addedEdgesEnds, e);
    } else if e in r.newEdgesEnds {
      SwapTwiceIn(r.newEdgesEnds, e);
    } else {
      ToggleTwice(r.revertedEdges, r1.revertedEdges, r2.revertedEdges, e);
    }
  }

  /** Exchanging the ends kept for `e` twice gives back the map. */
  lemma SwapTwiceIn(m: map<nat, (nat, nat)>, e: nat)
    requires e in m
    ensures var m1 := m[e := Swap(m[e])]; m1[e := Swap(m1[e])] == m
  {
  }

  /** Toggling `e` in a set twice gives back the set. */
  lemma ToggleTwice(a: set<nat>, b: set<nat>, c: set<nat>, e: nat)
    requires (e in b <==> e !in a) && b - {e} == a - {e}
    requires (e in c <==> e !in b) && c - {e} == b - {e}
    ensures c == a
  {
    forall x
      ensures x in c <==> x in a
    {
      if x != e {
        assert (x in c <==> x in c - {e}) && (x in b <==> x in b - {e}) && (x in a <==> x in a - {e});
      }
    }
  }

  /**
   `beforeSetEnds(g, e)`, heeded at the root for an edge whose ends were
   neither changed before nor added during the recording: the ends `e`
   had when the recording started are kept (its current ends exchanged
   back, and the note of reversal dropped, for a reversed edge; otherwise
   its current ends, the adjacencies of which are saved).
   */
  function BeforeSetEnds(r: Recorder, ctx: Ctx, g: nat, e: nat): (r': Recorder)
    ensures r' == r.(revertedEdges := r'.revertedEdges, oldEdgesEnds := r'.oldEdgesEnds, oldContainers := r'.oldContainers)
    ensures !IsRoot(ctx, g) || e in r.oldEdgesEnds || e in r.addedEdgesEnds ==> r' == r
    ensures IsRoot(ctx, g) && e !in r.oldEdgesEnds && e !in r.addedEdgesEnds ==>
              r'.oldEdgesEnds == r.oldEdgesEnds[e := FirstEnds(r, ctx, g, e)] && r'.revertedEdges == r.revertedEdges - {e}
    ensures Extends(r.oldContainers, r'.oldContainers)
  {
    if !IsRoot(ctx, g) || e in r.oldEdgesEnds || e in r.addedEdgesEnds then r
    else if e in r.revertedEdges then
      r.(revertedEdges := r.revertedEdges - {e}, oldEdgesEnds := r.oldEdgesEnds[e := Swap(ctx.ends(e))])
    else
      r.(oldEdgesEnds := r.oldEdgesEnds[e := ctx.ends(e)], oldContainers := SaveEnds(r.oldContainers, ctx, e))
  }

  /**
   `afterSetEnds(g, e)`, heeded at the root: the new ends are kept, in
   place of the kept ends of an edge added during the recording.
   */
  function AfterSetEnds(r: Recorder, ctx: Ctx, g: nat, e: nat): (r': Recorder)
    ensures r' == r.(addedEdgesEnds := r'.addedEdgesEnds, newEdgesEnds := r'.newEdgesEnds)
    ensures !IsRoot(ctx, g) ==> r' == r
    ensures IsRoot(ctx, g) && e in r.addedEdgesEnds ==> r' == r.(addedEdgesEnds := r.addedEdgesEnds[e := ctx.ends(e)])
    ensures IsRoot(ctx, g) && e !in r.addedEdgesEnds ==> r' == r.(newEdgesEnds := r.newEdgesEnds[e := ctx.ends(e)])
  {
    if !IsRoot(ctx, g) then r
    else if e in r.addedEdgesEnds then r.(addedEdgesEnds := r.addedEdgesEnds[e := ctx.ends(e)])
    else r.(newEdgesEnds := r.newEdgesEnds[e := ctx.ends(e)])
  }

  /** The ends an edge had first are kept once: a second `beforeSetEnds` changes nothing. */
  lemma EndsOnce(r: Recorder, ctx1: Ctx, ctx2: Ctx, g: nat, e: nat)
    requires IsRoot(ctx1, g) == IsRoot(ctx2, g)
    ensures BeforeSetEnds(BeforeSetEnds(r, ctx1, g, e), ctx2, g, e) == BeforeSetEnds(r, ctx1, g, e)
  {
  }

  /**
   An edge of the root reversed and then deleted is kept as deleted with
   the ends it had before the reversal, and is no longer noted as
   reversed.
   */
  lemma ReverseThenDelete(r: Recorder, ctx1: Ctx, ctx2: Ctx, g: nat, e: nat)
    requires IsRoot(ctx1, g) && IsRoot(ctx2, g)
    requires e !in r.addedEdgesEnds && e !in r.newEdgesEnds && e !in r.revertedEdges && e !in r.deletedEdgesEnds
    requires e !in Entry(r.graphAddedEdges, g)
    requires ctx2.ends(e) == Swap(ctx1.ends(e))
    ensures var r2 := DelEdge(ReverseEdge(r, ctx1, g, e), ctx2, g, e);
            e in r2.deletedEdgesEnds && r2.deletedEdgesEnds[e] == ctx1.ends(e) && r2.revertedEdges == r.revertedEdges
  {
    var r1 := ReverseEdge(r, ctx1, g, e);
    assert e in r1.revertedEdges && r1.revertedEdges - {e} == r.revertedEdges;
  }

  /**
   An edge of the root whose ends were changed and which is then deleted
   is kept as deleted with the ends it had before the change, and its
   changed ends are dropped.
   */
  lemma SetEndsThenDelete(r: Recorder, ctx1: Ctx, ctx2: Ctx, g: nat, e: nat)
    requires IsRoot(ctx1, g) && IsRoot(ctx2, g)
    requires e !in r.addedEdgesEnds && e !in r.oldEdgesEnds && e !in r.revertedEdges && e !in r.deletedEdgesEnds
    requires e !in Entry(r.graphAddedEdges, g)
    ensures var r2 := DelEdge(AfterSetEnds(BeforeSetEnds(r, ctx1, g, e), ctx2, g, e), ctx2, g, e);
            e in r2.deletedEdgesEnds && r2.deletedEdgesEnds[e] == ctx1.ends(e)
            && e !in r2.oldEdgesEnds && e !in r2.newEdgesEnds
  {
    var r1 := BeforeSetEnds(r, ctx1, g, e);
    assert r1.oldEdgesEnds[e] == ctx1.ends(e);
  }
}
