/**
 A consequence of the invariant `integrityTest` checks (VectorGraph.cpp):
 every edge holds one slot at each of its ends, so the degrees of the
 nodes add up to twice the number of edges.
 */
module VectorGraphDegrees {
  import opened IdManager
  import opened IdContainers
  import opened Seqs
  import opened VectorGraphs

  /** The degrees of the nodes `ns`, added up. */
  function SumDeg(g: VGraph, ns: seq<nat>): nat
    requires forall k :: 0 <= k < |ns| ==> ns[k] < |g.nData|
  {
    if |ns| == 0 then 0 else SumDeg(g, ns[..|ns| - 1]) + Deg(g, ns[|ns| - 1])
  }

  /** The adjacency slots of the nodes `ns`, as (node, position) pairs. */
  ghost function SlotsOf(g: VGraph, ns: seq<nat>): set<(nat, nat)>
    requires forall k :: 0 <= k < |ns| ==> ns[k] < |g.nData|
  {
    set n, j: nat | n in ns && 0 <= j < Deg(g, n) :: (n, j)
  }

  /** The two ends of each of the edges `es`, as (edge, is-source) pairs. */
  ghost function EndsOf(es: seq<nat>): set<(nat, bool)>
  {
    set e, b: bool | e in es :: (e, b)
  }

  /** The slots of one node with degree `d`. */
  lemma NodeSlots(n: nat, d: nat)
    ensures |set j: nat | 0 <= j < d :: (n, j)| == d
  {
    if d > 0 {
      NodeSlots(n, d - 1);
      assert (set j: nat | 0 <= j < d :: (n, j)) == (set j: nat | 0 <= j < d - 1 :: (n, j)) + {(n, d - 1)};
    }
  }

  /** Distinct nodes have as many slots as their degrees add up to. */
  lemma {:induction false} SlotCount(g: VGraph, ns: seq<nat>)
    requires Distinct(ns) && forall k :: 0 <= k < |ns| ==> ns[k] < |g.nData|
    ensures |SlotsOf(g, ns)| == SumDeg(g, ns)
  {
    if |ns| > 0 {
      var init, n := ns[..|ns| - 1], ns[|ns| - 1];
      assert Distinct(init);
      SlotCount(g, init);
      var own := set j: nat | 0 <= j < Deg(g, n) :: (n, j);
      NodeSlots(n, Deg(g, n));
      assert n !in init;
      assert SlotsOf(g, ns) == SlotsOf(g, init) + own by {
        assert forall x :: x in ns <==> x in init || x == n;
      }
      assert SlotsOf(g, init) !! own;
    }
  }

  /** Distinct edges have twice as many ends. */
  lemma {:induction false} EndCount(es: seq<nat>)
    requires Distinct(es)
    ensures |EndsOf(es)| == 2 * |es|
  {
    if |es| > 0 {
      var init, e := es[..|es| - 1], es[|es| - 1];
      assert Distinct(init);
      EndCount(init);
      assert e !in init;
      assert EndsOf(es) == EndsOf(init) + {(e, true), (e, false)} by {
        forall end | end in EndsOf(es) ensures end in EndsOf(init) || end.0 == e {
          assert end.0 in es;
        }
        forall end | end in EndsOf(init) ensures end in EndsOf(es) {
          assert end.0 in init;
        }
      }
    }
  }

  /** A map from `a` onto `b` that never sends two elements to one has as many elements on both sides. */
  lemma {:induction false} OntoSameCard<A(!new), B(!new)>(a: set<A>, b: set<B>, f: A -> B)
    requires forall x :: x in a ==> f(x) in b
    requires forall y :: y in b ==> exists x :: x in a && f(x) == y
    requires forall x, x' :: x in a && x' in a && f(x) == f(x') ==> x == x'
    ensures |a| == |b|
    decreases |a|
  {
    if a != {} {
      var x :| x in a;
      OntoSameCard(a - {x}, b - {f(x)}, f);
    } else {
      assert b == {};
    }
  }

  /** The slot an end of an edge is recorded at. */
  function SlotOfEnd(g: VGraph, end: (nat, bool)): (nat, nat)
  {
    if end.0 >= |g.eData| then (0, 0)
    else if end.1 then (g.eData[end.0].src, g.eData[end.0].srcPos)
    else (g.eData[end.0].tgt, g.eData[end.0].tgtPos)
  }

  /** A valid container lists each element once. */
  lemma ElementsDistinct(c: IdContainer)
    requires ValidContainer(c)
    ensures Distinct(c.elts)
  {
  }

  /** Each end of an edge is recorded at a slot of a node. */
  lemma EndsToSlots(g: VGraph)
    requires VValid(g) && forall k :: 0 <= k < |g.nodes.elts| ==> g.nodes.elts[k] < |g.nData|
    ensures forall end :: end in EndsOf(g.edges.elts) ==> SlotOfEnd(g, end) in SlotsOf(g, g.nodes.elts)
  {
    forall end | end in EndsOf(g.edges.elts) ensures SlotOfEnd(g, end) in SlotsOf(g, g.nodes.elts) {
      var e := end.0;
      ElementsIndexed(g.edges, e);
      assert EdgeOk(g, e);
      ElementsIndexed(g.nodes, g.eData[e].src);
      ElementsIndexed(g.nodes, g.eData[e].tgt);
    }
  }

  /** Each slot of a node records an end of an edge. */
  lemma SlotsFromEnds(g: VGraph)
    requires VValid(g) && forall k :: 0 <= k < |g.nodes.elts| ==> g.nodes.elts[k] < |g.nData|
    ensures forall slot :: slot in SlotsOf(g, g.nodes.elts) ==>
              exists end :: end in EndsOf(g.edges.elts) && SlotOfEnd(g, end) == slot
  {
    forall slot | slot in SlotsOf(g, g.nodes.elts)
      ensures exists end :: end in EndsOf(g.edges.elts) && SlotOfEnd(g, end) == slot
    {
      var n, j := slot.0, slot.1;
      ElementsIndexed(g.nodes, n);
      assert SlotOk(g, n, j);
      var sl := g.nData[n].adj[j];
      ElementsIndexed(g.edges, sl.e);
      assert (sl.e, sl.out) in EndsOf(g.edges.elts) && SlotOfEnd(g, (sl.e, sl.out)) == slot;
    }
  }

  /** Two ends are never recorded at one slot. */
  lemma EndsApart(g: VGraph)
    requires VValid(g)
    ensures forall end, end' ::
              (end in EndsOf(g.edges.elts) && end' in EndsOf(g.edges.elts) && SlotOfEnd(g, end) == SlotOfEnd(g, end'))
              ==> end == end'
  {
    forall end, end' | end in EndsOf(g.edges.elts) && end' in EndsOf(g.edges.elts)
                       && SlotOfEnd(g, end) == SlotOfEnd(g, end')
      ensures end == end'
    {
      ElementsIndexed(g.edges, end.0);
      ElementsIndexed(g.edges, end'.0);
      assert EdgeOk(g, end.0) && EdgeOk(g, end'.0);
    }
  }

  /**
   In a valid graph the degrees of the nodes add up to twice the number of
   edges: the slots and the edge ends correspond one to one.
   */
  lemma DegreeSum(g: VGraph)
    requires VValid(g)
    ensures forall k :: 0 <= k < |g.nodes.elts| ==> g.nodes.elts[k] < |g.nData|
    ensures SumDeg(g, g.nodes.elts) == 2 * |g.edges.elts|
  {
    var ns, es := g.nodes.elts, g.edges.elts;
    forall k | 0 <= k < |ns| ensures ns[k] < |g.nData| {
      assert ns[k] < |g.nodes.pos|;
    }
    ElementsDistinct(g.nodes);
    ElementsDistinct(g.edges);
    SlotCount(g, ns);
    EndCount(es);
    EndsToSlots(g);
    SlotsFromEnds(g);
    EndsApart(g);
    OntoSameCard(EndsOf(es), SlotsOf(g, ns), end => SlotOfEnd(g, end));
  }
}
