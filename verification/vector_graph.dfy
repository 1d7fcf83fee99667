/**
 VectorGraph.cpp: a graph kept as id containers of nodes and edges plus,
 for each node, its adjacency as three parallel vectors (`_adje` the
 edge, `_adjn` the opposite node, `_adjt` whether the node is the source)
 and an out-degree, and for each edge its ends and the position of the
 edge in the adjacency of each end.

 The three parallel vectors are one sequence of `Slot`s here, so the
 equal-length checks of `integrityTest` hold by construction.
 VectorGraph.h is not part of this model: `_iNodes::addEdge` is taken to
 append one slot, and `_iNodes::clear` to empty the adjacency and reset
 the out-degree.
 */
module VectorGraphs {
  import opened Wrappers
  import opened IdManager
  import opened IdContainers

  datatype Slot = Slot(e: nat, opp: nat, out: bool)

  datatype VNode = VNode(adj: seq<Slot>, outdeg: int)

  datatype VEdge = VEdge(src: nat, tgt: nat, srcPos: nat, tgtPos: nat)

  datatype VGraph = VGraph(nodes: IdContainer, edges: IdContainer, nData: seq<VNode>, eData: seq<VEdge>)

  const EmptyGraph := VGraph(EmptyContainer, EmptyContainer, [], [])

  predicate IsNode(g: VGraph, n: nat)
  {
    IsElement(g.nodes, n)
  }

  predicate IsEdge(g: VGraph, e: nat)
  {
    IsElement(g.edges, e)
  }

  /** The number of slots where the node is the source. */
  function CountOut(adj: seq<Slot>): nat
  {
    if |adj| == 0 then 0 else CountOut(adj[..|adj| - 1]) + (if adj[|adj| - 1].out then 1 else 0)
  }

  /** The id containers are valid and every id handed out has its data. */
  ghost predicate Sized(g: VGraph)
  {
    ValidContainer(g.nodes) && ValidContainer(g.edges) && |g.nodes.pos| <= |g.nData| && |g.edges.pos| <= |g.eData|
  }

  /** Slot `j` of `n` holds an edge in use whose recorded position for that end is `j` (tests "p1".."p6", "opposite"). */
  ghost predicate SlotOk(g: VGraph, n: nat, j: nat)
    requires n < |g.nData| && j < |g.nData[n].adj|
  {
    var s := g.nData[n].adj[j];
    IsEdge(g, s.e) && s.e < |g.eData|
    && (if s.out then g.eData[s.e].src == n && g.eData[s.e].srcPos == j && s.opp == g.eData[s.e].tgt
        else g.eData[s.e].tgt == n && g.eData[s.e].tgtPos == j && s.opp == g.eData[s.e].src)
  }

  /** Edge `e` joins two nodes and sits at its recorded positions in their adjacencies. */
  ghost predicate EdgeOk(g: VGraph, e: nat)
    requires e < |g.eData|
  {
    var d := g.eData[e];
    IsNode(g, d.src) && IsNode(g, d.tgt) && d.src < |g.nData| && d.tgt < |g.nData|
    && d.srcPos < |g.nData[d.src].adj| && g.nData[d.src].adj[d.srcPos] == Slot(e, d.tgt, true)
    && d.tgtPos < |g.nData[d.tgt].adj| && g.nData[d.tgt].adj[d.tgtPos] == Slot(e, d.src, false)
  }

  /** Every slot of every node is right. */
  ghost predicate SlotsOk(g: VGraph)
    requires Sized(g)
  {
    forall n: nat, j {:trigger SlotOk(g, n, j)} :: IsNode(g, n) && 0 <= j < |g.nData[n].adj| ==> SlotOk(g, n, j)
  }

  /** Every edge in use is right. */
  ghost predicate EdgesOk(g: VGraph)
    requires Sized(g)
  {
    forall e: nat {:trigger EdgeOk(g, e)} :: IsEdge(g, e) ==> EdgeOk(g, e)
  }

  /** Every edge in use but `x` is right. */
  ghost predicate EdgesOkBut(g: VGraph, x: nat)
    requires Sized(g)
  {
    forall e: nat {:trigger EdgeOk(g, e)} :: IsEdge(g, e) && e != x ==> EdgeOk(g, e)
  }

  /** The out-degree counts the slots where the node is the source (tests "_adjt out", "deg/in/out"). */
  ghost predicate DegOk(g: VGraph, n: nat)
    requires n < |g.nData|
  {
    g.nData[n].outdeg == CountOut(g.nData[n].adj)
  }

  ghost predicate DegsOk(g: VGraph)
    requires Sized(g)
  {
    forall n: nat {:trigger DegOk(g, n)} :: IsNode(g, n) ==> DegOk(g, n)
  }

  /** The invariant `integrityTest` checks. */
  ghost predicate VValid(g: VGraph)
  {
    Sized(g) && SlotsOk(g) && EdgesOk(g) && DegsOk(g)
  }

  lemma EmptyValid()
    ensures VValid(EmptyGraph)
  {
  }

  /** `deg(n)`. */
  function Deg(g: VGraph, n: nat): nat
    requires n < |g.nData|
  {
    |g.nData[n].adj|
  }

  /** `indeg(n)`: the slots where the node is the target. */
  function InDeg(g: VGraph, n: nat): int
    requires n < |g.nData|
  {
    Deg(g, n) - g.nData[n].outdeg
  }

  lemma CountOutBound(adj: seq<Slot>)
    ensures CountOut(adj) <= |adj|
  {
  }

  /** In a valid graph, the in-degree is never negative: deg = indeg + outdeg with both counts natural. */
  lemma InDegNatural(g: VGraph, n: nat)
    requires VValid(g) && IsNode(g, n)
    ensures 0 <= InDeg(g, n) && InDeg(g, n) + g.nData[n].outdeg == Deg(g, n)
  {
    assert DegOk(g, n);
    CountOutBound(g.nData[n].adj);
  }

  // ---------------------------------------------------------------------------
  // Nodes
  // ---------------------------------------------------------------------------

  datatype NodeAdded = NodeAdded(g: VGraph, n: nat)

  /** `addNode`: a new id; its data is pushed when the id is new, cleared otherwise. */
  function AddNode(g: VGraph): (r: NodeAdded)
    requires VValid(g) && |g.nodes.pos| + 1 < NoPos
    ensures VValid(r.g)
    ensures !IsNode(g, r.n) && IsNode(r.g, r.n) && forall x: nat :: IsNode(r.g, x) <==> IsNode(g, x) || x == r.n
    ensures r.n < |r.g.nData| && r.g.nData[r.n] == VNode([], 0)
    ensures r.g.edges == g.edges && r.g.eData == g.eData
    ensures forall x: nat :: IsNode(g, x) ==> x < |r.g.nData| && r.g.nData[x] == g.nData[x]
  {
    var a := Add(g.nodes);
    var n := a.elt;
    assert n <= |g.nData| by {
      if |g.nodes.freeIds| > 0 {
        assert g.nodes.freeIds[0] < |g.nodes.pos|;
      }
    }
    var data := if n == |g.nData| then g.nData + [VNode([], 0)] else g.nData[n := VNode([], 0)];
    var r := VGraph(a.c, g.edges, data, g.eData);
    AddNodeValid(g, r, n);
    NodeAdded(r, n)
  }

  lemma AddNodeValid(g: VGraph, r: VGraph, n: nat)
    requires VValid(g) && ValidContainer(r.nodes) && |r.nodes.pos| <= |r.nData|
    requires forall x: nat :: IsNode(r, x) <==> IsNode(g, x) || x == n
    requires !IsNode(g, n) && n < |r.nData| && r.nData[n] == VNode([], 0)
    requires forall x: nat :: IsNode(g, x) ==> x < |r.nData| && r.nData[x] == g.nData[x]
    requires r.edges == g.edges && r.eData == g.eData
    ensures VValid(r)
  {
    assert Sized(r);
    forall x: nat, j | IsNode(r, x) && 0 <= j < |r.nData[x].adj| ensures SlotOk(r, x, j) {
      assert SlotOk(g, x, j);
    }
    forall e: nat | IsEdge(r, e) ensures EdgeOk(r, e) {
      assert EdgeOk(g, e);
    }
    forall x: nat | IsNode(r, x) ensures DegOk(r, x) {
      if x != n {
        assert DegOk(g, x);
      }
    }
  }

  // ---------------------------------------------------------------------------
  // Taking an edge's slots out (moveEdge, partialDelEdge)
  // ---------------------------------------------------------------------------

  /** Every edge keeps its ends; only recorded positions may differ. */
  ghost predicate SameEnds(g: VGraph, r: VGraph)
  {
    |r.eData| == |g.eData| && forall f :: 0 <= f < |g.eData| ==> r.eData[f].src == g.eData[f].src && r.eData[f].tgt == g.eData[f].tgt
  }

  /** Edge `x` is in use and is being taken out: its own slots may be gone, everything else agrees. */
  ghost predicate Unplugging(g: VGraph, x: nat)
  {
    Sized(g) && IsEdge(g, x) && x < |g.eData| && SlotsOk(g) && EdgesOkBut(g, x)
  }

  /** No slot of `n` belongs to `x` with direction `out`. */
  ghost predicate NoSlot(g: VGraph, n: nat, x: nat, out: bool)
    requires n < |g.nData|
  {
    forall j :: 0 <= j < |g.nData[n].adj| ==> !(g.nData[n].adj[j].e == x && g.nData[n].adj[j].out == out)
  }

  lemma {:induction false} CountOutUpdate(s: seq<Slot>, i: nat, v: Slot)
    requires i < |s|
    ensures CountOut(s[i := v]) == CountOut(s) - (if s[i].out then 1 else 0) + (if v.out then 1 else 0)
    decreases |s|
  {
    var t := s[i := v];
    var last := |s| - 1;
    if i == last {
      assert t[..last] == s[..last];
    } else {
      assert t[..last] == s[..last][i := v];
      CountOutUpdate(s[..last], i, v);
    }
  }

  /**
   `moveEdge(n, last, i)` followed by dropping the last slot of `n`: the
   last slot takes the place of slot `i` (nothing moves when `i` is the
   last), and the position recorded for the moved edge's end follows it.
   */
  function DropSlot(g: VGraph, n: nat, i: nat): (r: VGraph)
    requires n < |g.nData| && i < |g.nData[n].adj| && g.nData[n].adj[|g.nData[n].adj| - 1].e < |g.eData|
    ensures r.nodes == g.nodes && r.edges == g.edges && |r.nData| == |g.nData| && |r.eData| == |g.eData|
    ensures forall y :: 0 <= y < |g.nData| && y != n ==> r.nData[y] == g.nData[y]
    ensures r.nData[n].outdeg == g.nData[n].outdeg && |r.nData[n].adj| == |g.nData[n].adj| - 1
    ensures forall j :: 0 <= j < |r.nData[n].adj| ==>
              r.nData[n].adj[j] == if j == i then g.nData[n].adj[|g.nData[n].adj| - 1] else g.nData[n].adj[j]
    ensures forall f :: 0 <= f < |g.eData| && f != g.nData[n].adj[|g.nData[n].adj| - 1].e ==> r.eData[f] == g.eData[f]
    ensures i < |g.nData[n].adj| - 1 ==>
              var m := g.nData[n].adj[|g.nData[n].adj| - 1];
              r.eData[m.e] == if m.out then g.eData[m.e].(srcPos := i) else g.eData[m.e].(tgtPos := i)
    ensures i == |g.nData[n].adj| - 1 ==> r.eData == g.eData
    ensures CountOut(r.nData[n].adj) == CountOut(g.nData[n].adj) - (if g.nData[n].adj[i].out then 1 else 0)
    ensures SameEnds(g, r)
  {
    var adj := g.nData[n].adj;
    var last := |adj| - 1;
    if i == last then
      g.(nData := g.nData[n := g.nData[n].(adj := adj[..last])])
    else
      var m := adj[last];
      var d := g.eData[m.e];
      var moved := if m.out then d.(srcPos := i) else d.(tgtPos := i);
      CountOutUpdate(adj[..last], i, m);
      assert adj[..last][i] == adj[i];
      g.(nData := g.nData[n := g.nData[n].(adj := adj[..last][i := m])], eData := g.eData[m.e := moved])
  }

  /** What dropping slot `i` of `n` asks for: the slot belongs to `x`, and the last slot does only if it is slot `i`. */
  ghost predicate Droppable(g: VGraph, x: nat, n: nat, i: nat)
  {
    Unplugging(g, x) && IsNode(g, n) && n < |g.nData| && i < |g.nData[n].adj|
    && g.nData[n].adj[i].e == x
    && (g.nData[n].adj[|g.nData[n].adj| - 1].e == x ==> i == |g.nData[n].adj| - 1)
  }

  lemma DropSlotSlot(g: VGraph, x: nat, n: nat, i: nat, y: nat, j: nat)
    requires Droppable(g, x, n, i)
    requires g.nData[n].adj[|g.nData[n].adj| - 1].e < |g.eData|
    requires IsNode(g, y) && y < |g.nData| && j < |DropSlot(g, n, i).nData[y].adj|
    ensures SlotOk(DropSlot(g, n, i), y, j)
  {
    var r := DropSlot(g, n, i);
    var adj := g.nData[n].adj;
    var last := |adj| - 1;
    var m := adj[last];
    assert SlotOk(g, n, last);
    if y != n {
      assert SlotOk(g, y, j);
    } else if j != i {
      assert SlotOk(g, n, j);
    }
  }

  lemma DropSlotEdge(g: VGraph, x: nat, n: nat, i: nat, f: nat)
    requires Droppable(g, x, n, i)
    requires g.nData[n].adj[|g.nData[n].adj| - 1].e < |g.eData|
    requires IsEdge(g, f) && f != x && f < |g.eData|
    ensures EdgeOk(DropSlot(g, n, i), f)
  {
    var r := DropSlot(g, n, i);
    var adj := g.nData[n].adj;
    var last := |adj| - 1;
    var m := adj[last];
    assert EdgeOk(g, f);
    assert SlotOk(g, n, last);
  }

  /** Dropping a slot of `x` keeps everything but `x` in agreement, and the dropped direction of `x` is gone from `n`. */
  lemma DropSlotKeeps(g: VGraph, x: nat, n: nat, i: nat)
    requires Droppable(g, x, n, i)
    ensures g.nData[n].adj[|g.nData[n].adj| - 1].e < |g.eData|
    ensures Unplugging(DropSlot(g, n, i), x)
    ensures NoSlot(DropSlot(g, n, i), n, x, g.nData[n].adj[i].out)
    ensures DropSlot(g, n, i).eData[x] == g.eData[x]
    ensures NoSlot(g, n, x, true) ==> NoSlot(DropSlot(g, n, i), n, x, true)
    ensures NoSlot(g, n, x, false) ==> NoSlot(DropSlot(g, n, i), n, x, false)
  {
    var adj := g.nData[n].adj;
    var last := |adj| - 1;
    assert SlotOk(g, n, last);
    var r := DropSlot(g, n, i);
    forall y: nat, j | IsNode(r, y) && 0 <= j < |r.nData[y].adj| ensures SlotOk(r, y, j) {
      DropSlotSlot(g, x, n, i, y, j);
    }
    forall f: nat | IsEdge(r, f) && f != x ensures EdgeOk(r, f) {
      DropSlotEdge(g, x, n, i, f);
    }
    assert SlotOk(g, n, i);
    forall j | 0 <= j < |r.nData[n].adj| ensures !(r.nData[n].adj[j].e == x && r.nData[n].adj[j].out == adj[i].out) {
      if r.nData[n].adj[j].e == x {
        assert SlotOk(r, n, j);
      }
    }
  }

  /** The slots of `x`'s ends at `n` are where `x` records them. */
  ghost predicate EndsAt(g: VGraph, x: nat, n: nat)
    requires x < |g.eData| && n < |g.nData|
  {
    var d := g.eData[x];
    (d.src == n ==> d.srcPos < |g.nData[n].adj| && g.nData[n].adj[d.srcPos] == Slot(x, d.tgt, true))
    && (d.tgt == n ==> d.tgtPos < |g.nData[n].adj| && g.nData[n].adj[d.tgtPos] == Slot(x, d.src, false))
  }

  /** The number of ends of `x` at `n`: 2 for a loop at `n`. */
  function EndsCount(d: VEdge, n: nat): nat
  {
    (if d.src == n then 1 else 0) + (if d.tgt == n then 1 else 0)
  }

  /** The slots of `x` at `n` are the last ones of the adjacency, as `addEdge` leaves them. */
  ghost predicate OnTop(g: VGraph, x: nat, n: nat)
    requires x < |g.eData| && n < |g.nData|
  {
    var d := g.eData[x];
    var k := |g.nData[n].adj| - EndsCount(d, n);
    (d.src == n ==> d.srcPos >= k) && (d.tgt == n ==> d.tgtPos >= k)
  }

  /**
   `partialDelEdge(n, x)`: the slots of `x` at `n` are dropped, for a loop
   the one at the larger position first. When `n` has a single slot the
   source only shrinks the adjacency, which is what dropping slot 0 does.
   */
  function PartialDel(g: VGraph, n: nat, x: nat): (r: VGraph)
    requires Unplugging(g, x) && IsNode(g, n) && n < |g.nData|
    requires (g.eData[x].src == n || g.eData[x].tgt == n) && EndsAt(g, x, n)
    ensures Unplugging(r, x)
    ensures r.nodes == g.nodes && r.edges == g.edges && |r.nData| == |g.nData| && |r.eData| == |g.eData|
    ensures r.eData[x] == g.eData[x]
    ensures forall y :: 0 <= y < |g.nData| && y != n ==> r.nData[y] == g.nData[y]
    ensures r.nData[n].outdeg == g.nData[n].outdeg
    ensures NoSlot(r, n, x, true) && NoSlot(r, n, x, false)
    ensures |r.nData[n].adj| == |g.nData[n].adj| - EndsCount(g.eData[x], n)
    ensures CountOut(r.nData[n].adj) == CountOut(g.nData[n].adj) - (if g.eData[x].src == n then 1 else 0)
    ensures SameEnds(g, r)
  {
    if g.eData[x].src == g.eData[x].tgt then DropLoop(g, n, x) else DropEnd(g, n, x)
  }

  /** The two slots of a loop `x` at `n`, the larger position first. */
  function DropLoop(g: VGraph, n: nat, x: nat): (r: VGraph)
    requires Unplugging(g, x) && IsNode(g, n) && n < |g.nData|
    requires g.eData[x].src == n && g.eData[x].tgt == n && EndsAt(g, x, n)
    ensures Unplugging(r, x)
    ensures r.nodes == g.nodes && r.edges == g.edges && |r.nData| == |g.nData| && |r.eData| == |g.eData|
    ensures r.eData[x] == g.eData[x]
    ensures forall y :: 0 <= y < |g.nData| && y != n ==> r.nData[y] == g.nData[y]
    ensures r.nData[n].outdeg == g.nData[n].outdeg
    ensures NoSlot(r, n, x, true) && NoSlot(r, n, x, false)
    ensures |r.nData[n].adj| == |g.nData[n].adj| - 2
    ensures CountOut(r.nData[n].adj) == CountOut(g.nData[n].adj) - 1
    ensures SameEnds(g, r)
  {
    var d := g.eData[x];
    var i1 := if d.srcPos < d.tgtPos then d.tgtPos else d.srcPos;
    var i2 := if d.srcPos < d.tgtPos then d.srcPos else d.tgtPos;
    LoopDroppable(g, n, x, i1, i2);
    DropOwnSlot(DropOwnSlot(g, x, n, i1), x, n, i2)
  }

  /** Both slots of a loop can be dropped in turn, the larger position first. */
  lemma LoopDroppable(g: VGraph, n: nat, x: nat, i1: nat, i2: nat)
    requires Unplugging(g, x) && IsNode(g, n) && n < |g.nData|
    requires g.eData[x].src == n && g.eData[x].tgt == n && EndsAt(g, x, n)
    requires i1 == if g.eData[x].srcPos < g.eData[x].tgtPos then g.eData[x].tgtPos else g.eData[x].srcPos
    requires i2 == if g.eData[x].srcPos < g.eData[x].tgtPos then g.eData[x].srcPos else g.eData[x].tgtPos
    ensures Droppable(g, x, n, i1) && g.nData[n].adj[|g.nData[n].adj| - 1].e < |g.eData|
    ensures i2 < i1 && g.nData[n].adj[i1].out == !g.nData[n].adj[i2].out
    ensures var g1 := DropSlot(g, n, i1);
            g1.eData[x] == g.eData[x] && NoSlot(g1, n, x, g.nData[n].adj[i1].out)
            && Droppable(g1, x, n, i2) && g1.nData[n].adj[i2] == g.nData[n].adj[i2]
            && NoSlot(g1, n, x, !g.nData[n].adj[i2].out)
  {
    LoopFirstDroppable(g, n, x, i1);
    DropSlotKeeps(g, x, n, i1);
    LoopSecondDroppable(g, n, x, i1, i2);
  }

  lemma LoopFirstDroppable(g: VGraph, n: nat, x: nat, i1: nat)
    requires Unplugging(g, x) && IsNode(g, n) && n < |g.nData|
    requires g.eData[x].src == n && g.eData[x].tgt == n && EndsAt(g, x, n)
    requires i1 == if g.eData[x].srcPos < g.eData[x].tgtPos then g.eData[x].tgtPos else g.eData[x].srcPos
    ensures Droppable(g, x, n, i1)
  {
    assert SlotOk(g, n, |g.nData[n].adj| - 1);
  }

  lemma LoopSecondDroppable(g: VGraph, n: nat, x: nat, i1: nat, i2: nat)
    requires Droppable(g, x, n, i1)
    requires g.eData[x].src == n && g.eData[x].tgt == n && EndsAt(g, x, n)
    requires i1 == if g.eData[x].srcPos < g.eData[x].tgtPos then g.eData[x].tgtPos else g.eData[x].srcPos
    requires i2 == if g.eData[x].srcPos < g.eData[x].tgtPos then g.eData[x].srcPos else g.eData[x].tgtPos
    requires g.nData[n].adj[|g.nData[n].adj| - 1].e < |g.eData|
    requires Unplugging(DropSlot(g, n, i1), x) && DropSlot(g, n, i1).eData[x] == g.eData[x]
    requires NoSlot(DropSlot(g, n, i1), n, x, g.nData[n].adj[i1].out)
    ensures Droppable(DropSlot(g, n, i1), x, n, i2)
    ensures NoSlot(DropSlot(g, n, i1), n, x, !g.nData[n].adj[i2].out)
  {
    var g1 := DropSlot(g, n, i1);
    assert g1.nData[n].adj[i2] == g.nData[n].adj[i2];
    assert SlotOk(g1, n, |g1.nData[n].adj| - 1);
  }

  /** The one slot of a non-loop `x` at `n`. */
  function DropEnd(g: VGraph, n: nat, x: nat): (r: VGraph)
    requires Unplugging(g, x) && IsNode(g, n) && n < |g.nData|
    requires (g.eData[x].src == n || g.eData[x].tgt == n) && g.eData[x].src != g.eData[x].tgt && EndsAt(g, x, n)
    ensures Unplugging(r, x)
    ensures r.nodes == g.nodes && r.edges == g.edges && |r.nData| == |g.nData| && |r.eData| == |g.eData|
    ensures r.eData[x] == g.eData[x]
    ensures forall y :: 0 <= y < |g.nData| && y != n ==> r.nData[y] == g.nData[y]
    ensures r.nData[n].outdeg == g.nData[n].outdeg
    ensures NoSlot(r, n, x, true) && NoSlot(r, n, x, false)
    ensures |r.nData[n].adj| == |g.nData[n].adj| - 1
    ensures CountOut(r.nData[n].adj) == CountOut(g.nData[n].adj) - (if g.eData[x].src == n then 1 else 0)
    ensures SameEnds(g, r)
  {
    var d := g.eData[x];
    var i := if d.src == n then d.srcPos else d.tgtPos;
    EndDroppable(g, n, x, i);
    DropOwnSlot(g, x, n, i)
  }

  /** One slot `i` of `x` at `n` dropped: the graph is still being unplugged and only `n` loses a slot. */
  function DropOwnSlot(g: VGraph, x: nat, n: nat, i: nat): (r: VGraph)
    requires Droppable(g, x, n, i)
    ensures g.nData[n].adj[|g.nData[n].adj| - 1].e < |g.eData| && r == DropSlot(g, n, i)
    ensures Unplugging(r, x)
    ensures r.nodes == g.nodes && r.edges == g.edges && |r.nData| == |g.nData| && |r.eData| == |g.eData|
    ensures r.eData[x] == g.eData[x]
    ensures forall y :: 0 <= y < |g.nData| && y != n ==> r.nData[y] == g.nData[y]
    ensures r.nData[n].outdeg == g.nData[n].outdeg && |r.nData[n].adj| == |g.nData[n].adj| - 1
    ensures CountOut(r.nData[n].adj) == CountOut(g.nData[n].adj) - (if g.nData[n].adj[i].out then 1 else 0)
    ensures NoSlot(r, n, x, g.nData[n].adj[i].out)
    ensures NoSlot(g, n, x, true) ==> NoSlot(r, n, x, true)
    ensures NoSlot(g, n, x, false) ==> NoSlot(r, n, x, false)
    ensures SameEnds(g, r)
  {
    DropSlotKeeps(g, x, n, i);
    DropSlot(g, n, i)
  }

  lemma EndDroppable(g: VGraph, n: nat, x: nat, i: nat)
    requires Unplugging(g, x) && IsNode(g, n) && n < |g.nData|
    requires (g.eData[x].src == n || g.eData[x].tgt == n) && g.eData[x].src != g.eData[x].tgt && EndsAt(g, x, n)
    requires i == if g.eData[x].src == n then g.eData[x].srcPos else g.eData[x].tgtPos
    ensures Droppable(g, x, n, i)
    ensures g.nData[n].adj[i].out == (g.eData[x].src == n)
    ensures NoSlot(g, n, x, g.eData[x].src != n)
  {
    var adj := g.nData[n].adj;
    assert SlotOk(g, n, |adj| - 1);
    forall j | 0 <= j < |adj| ensures !(adj[j].e == x && adj[j].out == (g.eData[x].src != n)) {
      assert SlotOk(g, n, j);
    }
  }

  /** Edge `x` is in use and no slot of any node belongs to it. */
  ghost predicate Unplugged(g: VGraph, x: nat)
  {
    Unplugging(g, x) && forall n: nat {:trigger Bare(g, n, x)} :: IsNode(g, n) ==> Bare(g, n, x)
  }

  /** No slot of `n` belongs to `x`. */
  ghost predicate Bare(g: VGraph, n: nat, x: nat)
    requires n < |g.nData|
  {
    NoSlot(g, n, x, true) && NoSlot(g, n, x, false)
  }

  /** `removeEdge`: the id is freed; the edge data goes when no edge is left. */
  function RemoveEdge(g: VGraph, x: nat): (r: VGraph)
    requires Sized(g)
    ensures Sized(r) && r.nodes == g.nodes && r.nData == g.nData
    ensures forall f: nat :: IsEdge(r, f) <==> IsEdge(g, f) && f != x
    ensures forall f: nat :: IsEdge(r, f) ==> f < |r.eData| && f < |g.eData| && r.eData[f] == g.eData[f]
  {
    if IsEdge(g, x) then
      var c := IdContainers.Free(g.edges, x);
      g.(edges := c, eData := if |c.elts| == 0 then [] else g.eData)
    else g
  }

  /** Once `x` has no slot left, freeing it leaves slots and edges in agreement. */
  lemma RemoveUnplugged(g: VGraph, x: nat)
    requires Unplugged(g, x)
    ensures SlotsOk(RemoveEdge(g, x)) && EdgesOk(RemoveEdge(g, x))
  {
    var r := RemoveEdge(g, x);
    forall n: nat, j | IsNode(r, n) && 0 <= j < |r.nData[n].adj| ensures SlotOk(r, n, j) {
      assert SlotOk(g, n, j);
      assert Bare(g, n, x);
    }
    forall f: nat | IsEdge(r, f) ensures EdgeOk(r, f) {
      assert EdgeOk(g, f);
    }
  }

  /** The out-degree of `n` moved by `delta`. */
  function BumpDeg(g: VGraph, n: nat, delta: int): (r: VGraph)
    requires n < |g.nData|
    ensures r.nodes == g.nodes && r.edges == g.edges && r.eData == g.eData && |r.nData| == |g.nData|
    ensures forall y :: 0 <= y < |g.nData| ==>
              r.nData[y].adj == g.nData[y].adj
              && r.nData[y].outdeg == g.nData[y].outdeg + (if y == n then delta else 0)
  {
    g.(nData := g.nData[n := g.nData[n].(outdeg := g.nData[n].outdeg + delta)])
  }

  lemma BumpDegSlots(g: VGraph, n: nat, delta: int, x: nat)
    requires Unplugging(g, x) && n < |g.nData|
    ensures Unplugging(BumpDeg(g, n, delta), x)
    ensures forall y: nat :: y < |g.nData| ==> EndsAt(BumpDeg(g, n, delta), x, y) == EndsAt(g, x, y)
    ensures EdgeOk(BumpDeg(g, n, delta), x) == EdgeOk(g, x)
  {
    var r := BumpDeg(g, n, delta);
    forall y: nat, j | IsNode(r, y) && 0 <= j < |r.nData[y].adj| ensures SlotOk(r, y, j) {
      assert SlotOk(g, y, j);
    }
    forall f: nat | IsEdge(r, f) && f != x ensures EdgeOk(r, f) {
      assert EdgeOk(g, f);
    }
  }

  /** Taking both ends of `x` out of their adjacencies: `partialDelEdge` at the source, then at the target unless `x` is a loop. */
  function Unplug(g: VGraph, x: nat): (r: VGraph)
    requires Unplugging(g, x) && EdgeOk(g, x)
    ensures Unplugged(r, x)
    ensures r.nodes == g.nodes && r.edges == g.edges && |r.nData| == |g.nData| && |r.eData| == |g.eData|
    ensures r.eData[x] == g.eData[x]
    ensures forall y :: 0 <= y < |g.nData| ==>
              r.nData[y].outdeg == g.nData[y].outdeg
              && |r.nData[y].adj| == |g.nData[y].adj| - EndsCount(g.eData[x], y)
              && CountOut(r.nData[y].adj) == CountOut(g.nData[y].adj) - (if y == g.eData[x].src then 1 else 0)
    ensures SameEnds(g, r)
  {
    var d := g.eData[x];
    var g1 := PartialDel(g, d.src, x);
    var r := if d.src != d.tgt then PartialDel(g1, d.tgt, x) else g1;
    forall n: nat | IsNode(r, n) ensures NoSlot(r, n, x, true) && NoSlot(r, n, x, false) {
      forall j | 0 <= j < |r.nData[n].adj| ensures r.nData[n].adj[j].e != x {
        assert SlotOk(r, n, j);
      }
    }
    r
  }

  /**
   `delEdge`: the source's out-degree drops, both ends leave their
   adjacencies, and the id is freed.
   */
  function DelEdge(g: VGraph, e: nat): (r: VGraph)
    requires VValid(g) && IsEdge(g, e)
    ensures VValid(r)
    ensures r.nodes == g.nodes && forall f: nat :: IsEdge(r, f) <==> IsEdge(g, f) && f != e
    ensures forall f: nat :: IsEdge(r, f) ==> f < |r.eData| && f < |g.eData| && r.eData[f].src == g.eData[f].src && r.eData[f].tgt == g.eData[f].tgt
    ensures forall y: nat :: IsNode(g, y) ==>
              Deg(r, y) == Deg(g, y) - EndsCount(g.eData[e], y)
              && r.nData[y].outdeg == g.nData[y].outdeg - (if y == g.eData[e].src then 1 else 0)
  {
    var d := g.eData[e];
    assert EdgeOk(g, e);
    BumpDegSlots(g, d.src, -1, e);
    var g1 := Unplug(BumpDeg(g, d.src, -1), e);
    RemoveUnplugged(g1, e);
    var r := RemoveEdge(g1, e);
    DelEdgeDegs(g, e, BumpDeg(g, d.src, -1), g1, r);
    r
  }

  lemma DelEdgeDegs(g: VGraph, e: nat, g0: VGraph, g1: VGraph, r: VGraph)
    requires VValid(g) && IsEdge(g, e) && EdgeOk(g, e)
    requires g0 == BumpDeg(g, g.eData[e].src, -1) && Unplugging(g0, e) && EdgeOk(g0, e)
    requires g1 == Unplug(g0, e) && Sized(g1) && r == RemoveEdge(g1, e)
    ensures DegsOk(r)
  {
    var d := g.eData[e];
    forall y: nat | IsNode(r, y) ensures DegOk(r, y) {
      assert DegOk(g, y);
    }
  }

  // ---------------------------------------------------------------------------
  // Putting an edge's slots in (addEdgeInternal, addEdge)
  // ---------------------------------------------------------------------------

  /** The slots an edge from `src` to `tgt` appends to the adjacency of `y`: the source's first. */
  function Appended(x: nat, src: nat, tgt: nat, y: nat): seq<Slot>
  {
    (if y == src then [Slot(x, tgt, true)] else []) + (if y == tgt then [Slot(x, src, false)] else [])
  }

  lemma {:induction false} CountOutAppend(s: seq<Slot>, t: seq<Slot>)
    ensures CountOut(s + t) == CountOut(s) + CountOut(t)
    decreases |t|
  {
    if |t| > 0 {
      var last := |t| - 1;
      assert (s + t)[..|s + t| - 1] == s + t[..last];
      CountOutAppend(s, t[..last]);
    } else {
      assert s + t == s;
    }
  }

  /**
   The slot work of `addEdgeInternal`: `x` gets its ends and positions,
   the source appends an outgoing slot, then the target an incoming one
   (right after it for a loop).
   */
  function Plug(g: VGraph, x: nat, src: nat, tgt: nat): (r: VGraph)
    requires Unplugged(g, x) && IsNode(g, src) && IsNode(g, tgt)
    ensures Sized(r) && SlotsOk(r) && EdgesOk(r)
    ensures r.nodes == g.nodes && r.edges == g.edges && |r.nData| == |g.nData| && |r.eData| == |g.eData|
    ensures r.eData[x] == VEdge(src, tgt, |g.nData[src].adj|, if src != tgt then |g.nData[tgt].adj| else |g.nData[src].adj| + 1)
    ensures forall f :: 0 <= f < |g.eData| && f != x ==> r.eData[f] == g.eData[f]
    ensures forall y :: 0 <= y < |g.nData| ==>
              r.nData[y].outdeg == g.nData[y].outdeg
              && r.nData[y].adj == g.nData[y].adj + Appended(x, src, tgt, y)
              && CountOut(r.nData[y].adj) == CountOut(g.nData[y].adj) + (if y == src then 1 else 0)
  {
    var sp := |g.nData[src].adj|;
    var tp := if src != tgt then |g.nData[tgt].adj| else sp + 1;
    var ns := g.nData[src := g.nData[src].(adj := g.nData[src].adj + [Slot(x, tgt, true)])];
    var nt := ns[tgt := ns[tgt].(adj := ns[tgt].adj + [Slot(x, src, false)])];
    var r := VGraph(g.nodes, g.edges, nt, g.eData[x := VEdge(src, tgt, sp, tp)]);
    assert Plugged(g, x, src, tgt, r);
    PlugLinked(g, x, src, tgt, r);
    r
  }

  /** What `Plug` builds, as a relation between the graph before and after. */
  ghost predicate Plugged(g: VGraph, x: nat, src: nat, tgt: nat, r: VGraph)
  {
    Unplugged(g, x) && IsNode(g, src) && IsNode(g, tgt) && src < |g.nData| && tgt < |g.nData|
    && r.nodes == g.nodes && r.edges == g.edges && |r.nData| == |g.nData| && |r.eData| == |g.eData|
    && r.eData[x] == VEdge(src, tgt, |g.nData[src].adj|, if src != tgt then |g.nData[tgt].adj| else |g.nData[src].adj| + 1)
    && (forall f :: 0 <= f < |g.eData| && f != x ==> r.eData[f] == g.eData[f])
    && (forall y :: 0 <= y < |g.nData| ==>
          r.nData[y].outdeg == g.nData[y].outdeg && r.nData[y].adj == g.nData[y].adj + Appended(x, src, tgt, y))
  }

  lemma PlugSlot(g: VGraph, x: nat, src: nat, tgt: nat, r: VGraph, y: nat, j: nat)
    requires Plugged(g, x, src, tgt, r) && IsNode(r, y) && y < |r.nData| && j < |r.nData[y].adj|
    ensures SlotOk(r, y, j)
  {
    if j < |g.nData[y].adj| {
      assert r.nData[y].adj[j] == g.nData[y].adj[j];
      assert SlotOk(g, y, j);
      assert Bare(g, y, x);
    }
  }

  lemma PlugEdge(g: VGraph, x: nat, src: nat, tgt: nat, r: VGraph, f: nat)
    requires Plugged(g, x, src, tgt, r) && IsEdge(r, f) && f < |r.eData|
    ensures EdgeOk(r, f)
  {
    if f != x {
      assert EdgeOk(g, f);
    }
  }

  lemma PlugCount(x: nat, src: nat, tgt: nat, y: nat, adj: seq<Slot>)
    ensures CountOut(adj + Appended(x, src, tgt, y)) == CountOut(adj) + (if y == src then 1 else 0)
  {
    CountOutAppend(adj, Appended(x, src, tgt, y));
    assert CountOut([Slot(x, tgt, true)]) == 1 by {
      assert [Slot(x, tgt, true)][..0] == [];
    }
    assert CountOut([Slot(x, src, false)]) == 0 by {
      assert [Slot(x, src, false)][..0] == [];
    }
    if y == src && y == tgt {
      CountOutAppend([Slot(x, tgt, true)], [Slot(x, src, false)]);
    }
  }

  lemma PlugLinked(g: VGraph, x: nat, src: nat, tgt: nat, r: VGraph)
    requires Plugged(g, x, src, tgt, r)
    ensures Sized(r) && SlotsOk(r) && EdgesOk(r)
    ensures forall y :: 0 <= y < |g.nData| ==> CountOut(r.nData[y].adj) == CountOut(g.nData[y].adj) + (if y == src then 1 else 0)
  {
    forall y: nat, j | IsNode(r, y) && 0 <= j < |r.nData[y].adj| ensures SlotOk(r, y, j) {
      PlugSlot(g, x, src, tgt, r, y, j);
    }
    forall f: nat | IsEdge(r, f) ensures EdgeOk(r, f) {
      PlugEdge(g, x, src, tgt, r, f);
    }
    forall y | 0 <= y < |g.nData| ensures CountOut(r.nData[y].adj) == CountOut(g.nData[y].adj) + (if y == src then 1 else 0) {
      PlugCount(x, src, tgt, y, g.nData[y].adj);
    }
  }

  datatype EdgeAdded = EdgeAdded(g: VGraph, e: nat)

  /**
   `addEdge`: a new id (its data pushed when the id is new), then
   `addEdgeInternal`: the slots, and one more out-degree at the source.
   */
  function AddEdge(g: VGraph, src: nat, tgt: nat): (r: EdgeAdded)
    requires VValid(g) && IsNode(g, src) && IsNode(g, tgt) && |g.edges.pos| + 1 < NoPos
    ensures VValid(r.g)
    ensures !IsEdge(g, r.e) && IsEdge(r.g, r.e) && forall f: nat :: IsEdge(r.g, f) <==> IsEdge(g, f) || f == r.e
    ensures r.g.nodes == g.nodes && |r.g.nData| == |g.nData|
    ensures r.g.eData[r.e].src == src && r.g.eData[r.e].tgt == tgt
  {
    var g1 := NewEdge(g);
    var e := g1.1;
    var g2 := Plug(g1.0, e, src, tgt);
    var r := BumpDeg(g2, src, 1);
    AddEdgeValid(g, g2, r, src);
    EdgeAdded(r, e)
  }

  /**
   `addEdge` appends one slot at each end (both at the source for a loop,
   the outgoing one first), raises the source's out-degree, and leaves
   every other edge's data alone.
   */
  lemma AddEdgeAppends(g: VGraph, src: nat, tgt: nat)
    requires VValid(g) && IsNode(g, src) && IsNode(g, tgt) && |g.edges.pos| + 1 < NoPos
    ensures var r := AddEdge(g, src, tgt);
            r.g.eData[r.e] == VEdge(src, tgt, |g.nData[src].adj|, if src != tgt then |g.nData[tgt].adj| else |g.nData[src].adj| + 1)
            && (forall f: nat :: IsEdge(g, f) ==> r.g.eData[f] == g.eData[f])
            && forall y :: 0 <= y < |g.nData| ==>
                 r.g.nData[y].adj == g.nData[y].adj + Appended(r.e, src, tgt, y)
                 && r.g.nData[y].outdeg == g.nData[y].outdeg + (if y == src then 1 else 0)
  {
    var g1 := NewEdge(g);
    var g2 := Plug(g1.0, g1.1, src, tgt);
    assert AddEdge(g, src, tgt) == EdgeAdded(BumpDeg(g2, src, 1), g1.1);
  }

  /** The id half of `addEdge`: a new edge id, its data pushed when the id is new. */
  function NewEdge(g: VGraph): (r: (VGraph, nat))
    requires VValid(g) && |g.edges.pos| + 1 < NoPos
    ensures Unplugged(r.0, r.1) && !IsEdge(g, r.1)
    ensures forall f: nat :: IsEdge(r.0, f) <==> IsEdge(g, f) || f == r.1
    ensures r.0.nodes == g.nodes && r.0.nData == g.nData
    ensures forall f :: 0 <= f < |g.eData| ==> f < |r.0.eData| && r.0.eData[f] == g.eData[f]
  {
    var a := Add(g.edges);
    var e := a.elt;
    assert e <= |g.eData| by {
      if |g.edges.freeIds| > 0 {
        assert g.edges.freeIds[0] < |g.edges.pos|;
      }
    }
    var g1 := VGraph(g.nodes, a.c, g.nData, if e == |g.eData| then g.eData + [VEdge(0, 0, 0, 0)] else g.eData);
    NewEdgeUnplugged(g, g1, e);
    (g1, e)
  }

  lemma NewEdgeUnplugged(g: VGraph, g1: VGraph, e: nat)
    requires VValid(g) && !IsEdge(g, e) && ValidContainer(g1.edges) && |g1.edges.pos| <= |g1.eData|
    requires g1.nodes == g.nodes && g1.nData == g.nData && e < |g1.eData|
    requires forall f :: 0 <= f < |g.eData| ==> f < |g1.eData| && g1.eData[f] == g.eData[f]
    requires forall f: nat :: IsEdge(g1, f) <==> IsEdge(g, f) || f == e
    ensures Unplugged(g1, e)
  {
    forall n: nat, j | IsNode(g1, n) && 0 <= j < |g1.nData[n].adj| ensures SlotOk(g1, n, j) {
      assert SlotOk(g, n, j);
    }
    forall f: nat | IsEdge(g1, f) && f != e ensures EdgeOk(g1, f) {
      assert EdgeOk(g, f);
    }
    forall n: nat | IsNode(g1, n) ensures NoSlot(g1, n, e, true) && NoSlot(g1, n, e, false) {
      forall j | 0 <= j < |g1.nData[n].adj| ensures g1.nData[n].adj[j].e != e {
        assert SlotOk(g, n, j);
      }
    }
  }

  lemma AddEdgeValid(g: VGraph, g2: VGraph, r: VGraph, src: nat)
    requires VValid(g) && Sized(g2) && SlotsOk(g2) && EdgesOk(g2) && src < |g2.nData|
    requires g2.nodes == g.nodes && |g2.nData| == |g.nData|
    requires forall y :: 0 <= y < |g.nData| ==>
               g2.nData[y].outdeg == g.nData[y].outdeg
               && CountOut(g2.nData[y].adj) == CountOut(g.nData[y].adj) + (if y == src then 1 else 0)
    requires r == BumpDeg(g2, src, 1)
    ensures VValid(r)
  {
    forall y: nat, j | IsNode(r, y) && 0 <= j < |r.nData[y].adj| ensures SlotOk(r, y, j) {
      assert SlotOk(g2, y, j);
    }
    forall f: nat | IsEdge(r, f) ensures EdgeOk(r, f) {
      assert EdgeOk(g2, f);
    }
    forall y: nat | IsNode(r, y) ensures DegOk(r, y) {
      assert DegOk(g, y);
    }
  }

  /** Dropping the last slot only shortens the adjacency. */
  lemma DropLastSlot(g: VGraph, n: nat)
    requires n < |g.nData| && |g.nData[n].adj| > 0 && g.nData[n].adj[|g.nData[n].adj| - 1].e < |g.eData|
    ensures var r := DropSlot(g, n, |g.nData[n].adj| - 1);
            r.eData == g.eData && r.nData == g.nData[n := g.nData[n].(adj := g.nData[n].adj[..|g.nData[n].adj| - 1])]
  {
  }

  /** `partialDelEdge` on slots left on top only shortens the adjacency. */
  lemma PartialDelOnTop(g: VGraph, n: nat, x: nat)
    requires Unplugging(g, x) && IsNode(g, n) && n < |g.nData|
    requires (g.eData[x].src == n || g.eData[x].tgt == n) && EndsAt(g, x, n) && OnTop(g, x, n)
    ensures var r := PartialDel(g, n, x);
            r.eData == g.eData && r.nData == g.nData[n := g.nData[n].(adj := g.nData[n].adj[..|g.nData[n].adj| - EndsCount(g.eData[x], n)])]
  {
    var d := g.eData[x];
    var adj := g.nData[n].adj;
    var last := |adj| - 1;
    if d.src == d.tgt {
      var i1 := if d.srcPos < d.tgtPos then d.tgtPos else d.srcPos;
      var i2 := if d.srcPos < d.tgtPos then d.srcPos else d.tgtPos;
      assert i1 == last && i2 == last - 1;
      assert SlotOk(g, n, last);
      DropLastSlot(g, n);
      var g1 := DropSlot(g, n, i1);
      assert g1.nData[n].adj[i2] == adj[i2];
      DropLastSlot(g1, n);
      assert adj[..last][..last - 1] == adj[..last - 1];
    } else {
      assert SlotOk(g, n, last);
      DropLastSlot(g, n);
    }
  }

  /** Unplugging an edge whose slots are on top at both ends only shortens those adjacencies. */
  lemma UnplugOnTop(g: VGraph, x: nat)
    requires Unplugging(g, x) && EdgeOk(g, x) && OnTop(g, x, g.eData[x].src) && OnTop(g, x, g.eData[x].tgt)
    ensures var r := Unplug(g, x);
            r.eData == g.eData
            && forall y :: 0 <= y < |g.nData| ==>
                 EndsCount(g.eData[x], y) <= |g.nData[y].adj|
                 && r.nData[y] == g.nData[y].(adj := g.nData[y].adj[..|g.nData[y].adj| - EndsCount(g.eData[x], y)])
  {
    var d := g.eData[x];
    PartialDelOnTop(g, d.src, x);
    if d.src != d.tgt {
      PartialDelOnTop(PartialDel(g, d.src, x), d.tgt, x);
    }
  }

  /** Appending the slots of one edge and cutting them again is the identity. */
  lemma AppendedCut(gn: seq<VNode>, pn: seq<VNode>, un: seq<VNode>, x: nat, src: nat, tgt: nat, d: VEdge)
    requires |pn| == |gn| == |un| && d.src == src && d.tgt == tgt
    requires forall y :: 0 <= y < |gn| ==>
               pn[y].outdeg == gn[y].outdeg && pn[y].adj == gn[y].adj + Appended(x, src, tgt, y)
    requires forall y :: 0 <= y < |pn| ==>
               EndsCount(d, y) <= |pn[y].adj| && un[y] == pn[y].(adj := pn[y].adj[..|pn[y].adj| - EndsCount(d, y)])
    ensures un == gn
  {
    forall y | 0 <= y < |gn| ensures un[y] == gn[y] {
      assert |Appended(x, src, tgt, y)| == EndsCount(d, y);
      assert (gn[y].adj + Appended(x, src, tgt, y))[..|gn[y].adj|] == gn[y].adj;
    }
  }

  lemma PlugUnplugging(g: VGraph, x: nat, src: nat, tgt: nat)
    requires Unplugged(g, x) && IsNode(g, src) && IsNode(g, tgt)
    ensures Unplugging(Plug(g, x, src, tgt), x) && EdgeOk(Plug(g, x, src, tgt), x)
  {
    var p := Plug(g, x, src, tgt);
    assert EdgeOk(p, x);
  }

  /** `Unplug` undoes `Plug`. */
  lemma PlugThenUnplug(g: VGraph, x: nat, src: nat, tgt: nat)
    requires Unplugged(g, x) && IsNode(g, src) && IsNode(g, tgt)
    ensures Unplugging(Plug(g, x, src, tgt), x) && EdgeOk(Plug(g, x, src, tgt), x)
    ensures Unplug(Plug(g, x, src, tgt), x).nData == g.nData
  {
    PlugUnplugging(g, x, src, tgt);
    var p := Plug(g, x, src, tgt);
    UnplugPlugged(g, x, src, tgt);
    AppendedCut(g.nData, p.nData, Unplug(p, x).nData, x, src, tgt, p.eData[x]);
  }

  /** `Unplug` after `Plug` only cuts the slots `Plug` appended. */
  lemma UnplugPlugged(g: VGraph, x: nat, src: nat, tgt: nat)
    requires Unplugged(g, x) && IsNode(g, src) && IsNode(g, tgt)
    ensures var p := Plug(g, x, src, tgt);
            var r := Unplug(p, x);
            Unplugging(p, x)
            && forall y :: 0 <= y < |p.nData| ==>
                 EndsCount(p.eData[x], y) <= |p.nData[y].adj|
                 && r.nData[y] == p.nData[y].(adj := p.nData[y].adj[..|p.nData[y].adj| - EndsCount(p.eData[x], y)])
  {
    PlugUnplugging(g, x, src, tgt);
    PlugOnTop(g, x, src, tgt);
    UnplugOnTop(Plug(g, x, src, tgt), x);
  }

  /** The slots `Plug` appends are on top at both ends. */
  lemma PlugOnTop(g: VGraph, x: nat, src: nat, tgt: nat)
    requires Unplugged(g, x) && IsNode(g, src) && IsNode(g, tgt)
    ensures var p := Plug(g, x, src, tgt);
            src < |p.nData| && tgt < |p.nData| && x < |p.eData| && OnTop(p, x, src) && OnTop(p, x, tgt)
  {
    var p := Plug(g, x, src, tgt);
    assert |p.nData[src].adj| == |g.nData[src].adj| + |Appended(x, src, tgt, src)|;
    assert |p.nData[tgt].adj| == |g.nData[tgt].adj| + |Appended(x, src, tgt, tgt)|;
  }

  /** Deleting the edge just added gives every node back its adjacency and out-degree, and the same edges. */
  lemma AddEdgeThenDelEdge(g: VGraph, src: nat, tgt: nat)
    requires VValid(g) && IsNode(g, src) && IsNode(g, tgt) && |g.edges.pos| + 1 < NoPos
    ensures var a := AddEdge(g, src, tgt);
            var r := DelEdge(a.g, a.e);
            r.nData == g.nData && forall f: nat :: IsEdge(r, f) <==> IsEdge(g, f)
  {
    var g1 := NewEdge(g);
    var e := g1.1;
    var h := BumpDeg(Plug(g1.0, e, src, tgt), src, 1);
    assert AddEdge(g, src, tgt) == EdgeAdded(h, e);
    DelPlugged(g1.0, e, src, tgt, h);
    AddEdgeThenDelEdgeSameEdges(g, src, tgt);
  }

  /** Deleting an edge just plugged in, with its source's out-degree raised, gives the adjacencies back. */
  lemma DelPlugged(g0: VGraph, e: nat, src: nat, tgt: nat, h: VGraph)
    requires Unplugged(g0, e) && IsNode(g0, src) && IsNode(g0, tgt)
    requires h == BumpDeg(Plug(g0, e, src, tgt), src, 1) && VValid(h) && IsEdge(h, e)
    ensures DelEdge(h, e).nData == g0.nData
  {
    var p := Plug(g0, e, src, tgt);
    assert h.eData[e].src == src;
    BumpDegBack(p, src);
    DelEdgeAdjacencies(h, e);
    PlugThenUnplug(g0, e, src, tgt);
  }

  /** Raising an out-degree and lowering it again changes nothing. */
  lemma BumpDegBack(g: VGraph, n: nat)
    requires n < |g.nData|
    ensures BumpDeg(BumpDeg(g, n, 1), n, -1) == g
  {
    assert g.nData[n := g.nData[n]] == g.nData;
  }

  /** The adjacencies `DelEdge` leaves are those of the source's out-degree lowered and the edge unplugged. */
  lemma DelEdgeAdjacencies(g: VGraph, e: nat)
    requires VValid(g) && IsEdge(g, e)
    ensures EdgeOk(g, e) && Unplugging(BumpDeg(g, g.eData[e].src, -1), e) && EdgeOk(BumpDeg(g, g.eData[e].src, -1), e)
    ensures DelEdge(g, e).nData == Unplug(BumpDeg(g, g.eData[e].src, -1), e).nData
  {
    assert EdgeOk(g, e);
    BumpDegSlots(g, g.eData[e].src, -1, e);
  }

  /** The edges left after deleting the edge just added are the edges there were. */
  lemma AddEdgeThenDelEdgeSameEdges(g: VGraph, src: nat, tgt: nat)
    requires VValid(g) && IsNode(g, src) && IsNode(g, tgt) && |g.edges.pos| + 1 < NoPos
    ensures var a := AddEdge(g, src, tgt);
            forall f: nat :: IsEdge(DelEdge(a.g, a.e), f) <==> IsEdge(g, f)
  {
  }

  // ---------------------------------------------------------------------------
  // Reversing an edge (reverse)
  // ---------------------------------------------------------------------------

  /**
   `reverse`: the source gives one out-degree to the target, the source's
   slot turns incoming and the target's outgoing, and the ends and their
   positions swap.
   */
  function Reverse(g: VGraph, e: nat): (r: VGraph)
    requires VValid(g) && IsEdge(g, e)
    ensures VValid(r)
    ensures r.nodes == g.nodes && r.edges == g.edges && |r.eData| == |g.eData| && |r.nData| == |g.nData|
    ensures r.eData[e] == VEdge(g.eData[e].tgt, g.eData[e].src, g.eData[e].tgtPos, g.eData[e].srcPos)
    ensures forall f :: 0 <= f < |g.eData| && f != e ==> r.eData[f] == g.eData[f]
    ensures forall y :: 0 <= y < |g.nData| ==>
              Deg(r, y) == Deg(g, y)
              && r.nData[y].outdeg == g.nData[y].outdeg - (if y == g.eData[e].src then 1 else 0) + (if y == g.eData[e].tgt then 1 else 0)
  {
    var d := g.eData[e];
    assert EdgeOk(g, e);
    var g1 := BumpDeg(BumpDeg(g, d.src, -1), d.tgt, 1);
    var ns := g1.nData[d.src := g1.nData[d.src].(adj := g1.nData[d.src].adj[d.srcPos := g1.nData[d.src].adj[d.srcPos].(out := false)])];
    var nt := ns[d.tgt := ns[d.tgt].(adj := ns[d.tgt].adj[d.tgtPos := ns[d.tgt].adj[d.tgtPos].(out := true)])];
    var r := g1.(nData := nt, eData := g.eData[e := VEdge(d.tgt, d.src, d.tgtPos, d.srcPos)]);
    ReverseValid(g, e, r);
    r
  }

  /** What `Reverse` builds, as a relation. */
  ghost predicate Reversed(g: VGraph, e: nat, r: VGraph)
  {
    VValid(g) && IsEdge(g, e) && e < |g.eData| && EdgeOk(g, e)
    && r.nodes == g.nodes && r.edges == g.edges && |r.eData| == |g.eData| && |r.nData| == |g.nData|
    && var d := g.eData[e];
       r.eData[e] == VEdge(d.tgt, d.src, d.tgtPos, d.srcPos)
       && (forall f :: 0 <= f < |g.eData| && f != e ==> r.eData[f] == g.eData[f])
       && (forall y :: 0 <= y < |g.nData| && y != d.src && y != d.tgt ==> r.nData[y] == g.nData[y])
       && (forall y :: 0 <= y < |g.nData| ==>
             (|r.nData[y].adj| == |g.nData[y].adj|
              && r.nData[y].outdeg == g.nData[y].outdeg - (if y == d.src then 1 else 0) + (if y == d.tgt then 1 else 0)))
       && (forall j :: 0 <= j < |g.nData[d.src].adj| && !(j == d.srcPos) && !(d.src == d.tgt && j == d.tgtPos) ==>
             r.nData[d.src].adj[j] == g.nData[d.src].adj[j])
       && (forall j :: 0 <= j < |g.nData[d.tgt].adj| && !(j == d.tgtPos) && !(d.src == d.tgt && j == d.srcPos) ==>
             r.nData[d.tgt].adj[j] == g.nData[d.tgt].adj[j])
       && r.nData[d.src].adj[d.srcPos] == Slot(e, d.tgt, false)
       && r.nData[d.tgt].adj[d.tgtPos] == Slot(e, d.src, true)
       && CountOut(r.nData[d.src].adj) + (if d.src == d.tgt then 0 else 1) == CountOut(g.nData[d.src].adj)
       && CountOut(r.nData[d.tgt].adj) == CountOut(g.nData[d.tgt].adj) + (if d.src == d.tgt then 0 else 1)
  }

  lemma ReverseValid(g: VGraph, e: nat, r: VGraph)
    requires VValid(g) && IsEdge(g, e) && EdgeOk(g, e)
    requires var d := g.eData[e];
             var g1 := BumpDeg(BumpDeg(g, d.src, -1), d.tgt, 1);
             var ns := g1.nData[d.src := g1.nData[d.src].(adj := g1.nData[d.src].adj[d.srcPos := g1.nData[d.src].adj[d.srcPos].(out := false)])];
             var nt := ns[d.tgt := ns[d.tgt].(adj := ns[d.tgt].adj[d.tgtPos := ns[d.tgt].adj[d.tgtPos].(out := true)])];
             r == g1.(nData := nt, eData := g.eData[e := VEdge(d.tgt, d.src, d.tgtPos, d.srcPos)])
    ensures VValid(r)
  {
    var d := g.eData[e];
    var a := g.nData[d.src].adj;
    var b := a[d.srcPos := a[d.srcPos].(out := false)];
    CountOutUpdate(a, d.srcPos, a[d.srcPos].(out := false));
    if d.src == d.tgt {
      CountOutUpdate(b, d.tgtPos, b[d.tgtPos].(out := true));
    } else {
      var c := g.nData[d.tgt].adj;
      CountOutUpdate(c, d.tgtPos, c[d.tgtPos].(out := true));
    }
    assert Reversed(g, e, r);
    ReversedValid(g, e, r);
  }

  lemma ReversedSlot(g: VGraph, e: nat, r: VGraph, y: nat, j: nat)
    requires Reversed(g, e, r) && IsNode(r, y) && y < |r.nData| && j < |r.nData[y].adj|
    ensures SlotOk(r, y, j)
  {
    assert SlotOk(g, y, j);
  }

  lemma ReversedEdge(g: VGraph, e: nat, r: VGraph, f: nat)
    requires Reversed(g, e, r) && IsEdge(r, f) && f < |r.eData|
    ensures EdgeOk(r, f)
  {
    assert EdgeOk(g, f);
  }

  lemma ReversedValid(g: VGraph, e: nat, r: VGraph)
    requires Reversed(g, e, r)
    ensures VValid(r)
  {
    forall y: nat, j | IsNode(r, y) && 0 <= j < |r.nData[y].adj| ensures SlotOk(r, y, j) {
      ReversedSlot(g, e, r, y, j);
    }
    forall f: nat | IsEdge(r, f) ensures EdgeOk(r, f) {
      ReversedEdge(g, e, r, f);
    }
    forall y: nat | IsNode(r, y) ensures DegOk(r, y) {
      assert DegOk(g, y);
    }
  }

  /** Reversing twice gives the graph back. */
  lemma ReverseTwice(g: VGraph, e: nat)
    requires VValid(g) && IsEdge(g, e)
    ensures Reverse(Reverse(g, e), e) == g
  {
    var r := Reverse(g, e);
    var t := Reverse(r, e);
    assert EdgeOk(g, e);
    var d := g.eData[e];
    assert t.eData == g.eData;
    forall y | 0 <= y < |g.nData| ensures t.nData[y] == g.nData[y] {
      if y == d.src || y == d.tgt {
        assert t.nData[y].adj == g.nData[y].adj;
      }
    }
    assert t.nData == g.nData;
  }

  // ---------------------------------------------------------------------------
  // Moving an edge's ends (setEnds)
  // ---------------------------------------------------------------------------

  /**
   `setEnds`: the out-degree moves from the old source to the new one, the
   edge leaves the adjacencies of its old ends (`partialDelEdge`) and is
   appended to those of the new ends, the source's slot first.
   */
  function SetEnds(g: VGraph, e: nat, src: nat, tgt: nat): (r: VGraph)
    requires VValid(g) && IsEdge(g, e) && IsNode(g, src) && IsNode(g, tgt)
    ensures VValid(r)
    ensures r.nodes == g.nodes && r.edges == g.edges && |r.nData| == |g.nData|
    ensures |r.eData| == |g.eData| && r.eData[e].src == src && r.eData[e].tgt == tgt
  {
    var d := g.eData[e];
    assert EdgeOk(g, e);
    var g0 := BumpDeg(BumpDeg(g, d.src, -1), src, 1);
    SetEndsUnplugging(g, e, src);
    var g1 := Unplug(g0, e);
    var r := Plug(g1, e, src, tgt);
    SetEndsDegs(g, e, src, g0, g1, r);
    r
  }

  /**
   Every other edge keeps its ends; a node's degree loses the old ends at
   it and gains the new ones, and the out-degree follows the source.
   */
  lemma SetEndsKeeps(g: VGraph, e: nat, src: nat, tgt: nat)
    requires VValid(g) && IsEdge(g, e) && IsNode(g, src) && IsNode(g, tgt)
    ensures var r := SetEnds(g, e, src, tgt);
            (forall f :: 0 <= f < |g.eData| && f != e ==> r.eData[f].src == g.eData[f].src && r.eData[f].tgt == g.eData[f].tgt)
            && forall y :: 0 <= y < |g.nData| ==>
                 Deg(r, y) == Deg(g, y) - EndsCount(g.eData[e], y) + EndsCount(r.eData[e], y)
                 && r.nData[y].outdeg == g.nData[y].outdeg - (if y == g.eData[e].src then 1 else 0) + (if y == src then 1 else 0)
  {
    var d := g.eData[e];
    assert EdgeOk(g, e);
    var g0 := BumpDeg(BumpDeg(g, d.src, -1), src, 1);
    SetEndsUnplugging(g, e, src);
    var g1 := Unplug(g0, e);
    var r := Plug(g1, e, src, tgt);
    assert SetEnds(g, e, src, tgt) == r;
    SetEndsChain(g, g0, g1, r, e, src, tgt);
  }

  /** The three steps of `setEnds`, composed. */
  lemma SetEndsChain(g: VGraph, g0: VGraph, g1: VGraph, r: VGraph, e: nat, src: nat, tgt: nat)
    requires e < |g.eData| && g0.eData == g.eData && SameEnds(g0, g1) && |r.eData| == |g1.eData|
    requires |g0.nData| == |g.nData| && |g1.nData| == |g.nData| && |r.nData| == |g.nData|
    requires forall y :: 0 <= y < |g.nData| ==>
               g0.nData[y].adj == g.nData[y].adj
               && g0.nData[y].outdeg == g.nData[y].outdeg - (if y == g.eData[e].src then 1 else 0) + (if y == src then 1 else 0)
    requires forall y :: 0 <= y < |g0.nData| ==>
               g1.nData[y].outdeg == g0.nData[y].outdeg && |g1.nData[y].adj| == |g0.nData[y].adj| - EndsCount(g0.eData[e], y)
    requires forall f :: 0 <= f < |g1.eData| && f != e ==> r.eData[f] == g1.eData[f]
    requires r.eData[e].src == src && r.eData[e].tgt == tgt
    requires forall y :: 0 <= y < |g1.nData| ==>
               r.nData[y].outdeg == g1.nData[y].outdeg && r.nData[y].adj == g1.nData[y].adj + Appended(e, src, tgt, y)
    ensures forall f :: 0 <= f < |g.eData| && f != e ==> r.eData[f].src == g.eData[f].src && r.eData[f].tgt == g.eData[f].tgt
    ensures forall y :: 0 <= y < |g.nData| ==>
              Deg(r, y) == Deg(g, y) - EndsCount(g.eData[e], y) + EndsCount(r.eData[e], y)
              && r.nData[y].outdeg == g.nData[y].outdeg - (if y == g.eData[e].src then 1 else 0) + (if y == src then 1 else 0)
  {
    forall y | 0 <= y < |g.nData|
      ensures Deg(r, y) == Deg(g, y) - EndsCount(g.eData[e], y) + EndsCount(r.eData[e], y)
    {
      assert |Appended(e, src, tgt, y)| == EndsCount(r.eData[e], y);
    }
  }

  lemma SetEndsUnplugging(g: VGraph, e: nat, src: nat)
    requires VValid(g) && IsEdge(g, e) && EdgeOk(g, e) && src < |g.nData|
    ensures Unplugging(BumpDeg(BumpDeg(g, g.eData[e].src, -1), src, 1), e)
    ensures EdgeOk(BumpDeg(BumpDeg(g, g.eData[e].src, -1), src, 1), e)
  {
    var d := g.eData[e];
    BumpDegSlots(g, d.src, -1, e);
    BumpDegSlots(BumpDeg(g, d.src, -1), src, 1, e);
  }

  lemma SetEndsDegs(g: VGraph, e: nat, src: nat, g0: VGraph, g1: VGraph, r: VGraph)
    requires Sized(g) && DegsOk(g) && e < |g.eData| && g.eData[e].src < |g.nData| && src < |g.nData|
    requires g0 == BumpDeg(BumpDeg(g, g.eData[e].src, -1), src, 1)
    requires |g1.nData| == |g0.nData| && |r.nData| == |g1.nData| && r.nodes == g.nodes
    requires forall y :: 0 <= y < |g0.nData| ==>
               g1.nData[y].outdeg == g0.nData[y].outdeg
               && CountOut(g1.nData[y].adj) == CountOut(g0.nData[y].adj) - (if y == g0.eData[e].src then 1 else 0)
    requires forall y :: 0 <= y < |g1.nData| ==>
               r.nData[y].outdeg == g1.nData[y].outdeg
               && CountOut(r.nData[y].adj) == CountOut(g1.nData[y].adj) + (if y == src then 1 else 0)
    requires Sized(r)
    ensures DegsOk(r)
  {
    forall y: nat | IsNode(r, y) ensures DegOk(r, y) {
      assert DegOk(g, y);
    }
  }

  /** Setting the old ends back gives every edge its ends and every node its degrees back. */
  lemma SetEndsBack(g: VGraph, e: nat, src: nat, tgt: nat)
    requires VValid(g) && IsEdge(g, e) && IsNode(g, src) && IsNode(g, tgt)
    ensures var d := g.eData[e];
            IsNode(g, d.src) && IsNode(g, d.tgt)
            && var r := SetEnds(SetEnds(g, e, src, tgt), e, d.src, d.tgt);
               SameEnds(g, r) && forall y :: 0 <= y < |g.nData| ==> Deg(r, y) == Deg(g, y) && r.nData[y].outdeg == g.nData[y].outdeg
  {
    var d := g.eData[e];
    assert EdgeOk(g, e);
    var h := SetEnds(g, e, src, tgt);
    SetEndsKeeps(g, e, src, tgt);
    assert IsEdge(h, e) && IsNode(h, d.src) && IsNode(h, d.tgt);
    SetEndsKeeps(h, e, d.src, d.tgt);
    SetEndsCompose(g, h, SetEnds(h, e, d.src, d.tgt), e, src);
  }

  /** Two moves of edge `e` compose: the second one's ends are the first one's old ends. */
  lemma SetEndsCompose(g: VGraph, h: VGraph, r: VGraph, e: nat, src: nat)
    requires e < |g.eData| && |h.eData| == |g.eData| && |r.eData| == |g.eData|
    requires |h.nData| == |g.nData| && |r.nData| == |g.nData|
    requires h.eData[e].src == src && r.eData[e].src == g.eData[e].src && r.eData[e].tgt == g.eData[e].tgt
    requires forall f :: 0 <= f < |g.eData| && f != e ==> h.eData[f].src == g.eData[f].src && h.eData[f].tgt == g.eData[f].tgt
    requires forall f :: 0 <= f < |h.eData| && f != e ==> r.eData[f].src == h.eData[f].src && r.eData[f].tgt == h.eData[f].tgt
    requires forall y :: 0 <= y < |g.nData| ==>
               Deg(h, y) == Deg(g, y) - EndsCount(g.eData[e], y) + EndsCount(h.eData[e], y)
               && h.nData[y].outdeg == g.nData[y].outdeg - (if y == g.eData[e].src then 1 else 0) + (if y == src then 1 else 0)
    requires forall y :: 0 <= y < |h.nData| ==>
               Deg(r, y) == Deg(h, y) - EndsCount(h.eData[e], y) + EndsCount(r.eData[e], y)
               && r.nData[y].outdeg == h.nData[y].outdeg - (if y == h.eData[e].src then 1 else 0) + (if y == g.eData[e].src then 1 else 0)
    ensures SameEnds(g, r)
    ensures forall y :: 0 <= y < |g.nData| ==> Deg(r, y) == Deg(g, y) && r.nData[y].outdeg == g.nData[y].outdeg
  {
  }
}
