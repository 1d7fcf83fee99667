/**
 The element bookkeeping of a subgraph, GraphView.cpp: adding and removing
 nodes and edges keeps the `SGraphNodeData` of the ends in step, edge
 deletion and reversal propagate through the subgraph tree, and an
 element added to a subgraph is added to its ancestors first.
 Notifications to observers and the property erasures are not part of
 this model.
 */
module GraphViews {
  import opened Wrappers
  import opened Seqs
  import opened Graphs
  import GraphStorages

  /** The number of ends `e` has at `n`. */
  function EndCount(ends: (nat, nat), n: nat): nat
  {
    (if ends.0 == n then 1 else 0) + (if ends.1 == n then 1 else 0)
  }

  /** `e` as many times as it has ends at `n`. */
  function AtEnds(ends: (nat, nat), e: nat, n: nat): (m: multiset<nat>)
    ensures m[e] == EndCount(ends, n) && forall x :: x != e ==> m[x] == 0
  {
    (if ends.0 == n then multiset{e} else multiset{}) + (if ends.1 == n then multiset{e} else multiset{})
  }

  // ---------------------------------------------------------------------------
  // One view
  // ---------------------------------------------------------------------------

  /** `restoreNode(n)`: a new element with an empty incidence list. */
  function RestoreNode(g: Graph, n: nat): (r: Graph)
    requires n !in g.data
    ensures r.nodes == g.nodes + [n] && r.edges == g.edges && r.ends == g.ends
    ensures r.data == g.data[n := NodeData(0, [])]
  {
    g.(nodes := g.nodes + [n], data := g.data[n := NodeData(0, [])])
  }

  lemma RestoreNodeValid(g: Graph, n: nat)
    requires Valid(g) && n !in g.data
    ensures Valid(RestoreNode(g, n))
  {
    var r := RestoreNode(g, n);
    assert n !in g.nodes;
    DistinctSnoc(g.nodes, n);
    forall m, e | m in r.data ensures multiset(r.data[m].incidence)[e] == Touches(r, m, e) {
      if m == n && e in g.edges {
        assert g.ends[e].0 != n && g.ends[e].1 != n;
      }
    }
    forall m | m in r.data ensures r.data[m].outDegree == |OutSet(r, m)| {
      if m == n {
        assert OutSet(r, m) == {};
      } else {
        assert OutSet(r, m) == OutSet(g, m);
      }
    }
  }

  /**
   `addEdgeInternal(e)`: `e` becomes an element, appended as an out-edge
   to the list of its source and as an in-edge to that of its target (both,
   for a loop).
   */
  function AddEdgeInternal(g: Graph, e: nat): (r: Graph)
    requires e in g.ends && g.ends[e].0 in g.data && g.ends[e].1 in g.data
    ensures r.nodes == g.nodes && r.edges == g.edges + [e] && r.ends == g.ends
    ensures (forall n :: n in r.data <==> n in g.data)
  {
    var (src, tgt) := g.ends[e];
    var d1 := g.data[src := OutEdgeAdd(g.data[src], e)];
    var d2 := d1[tgt := InEdgeAdd(d1[tgt], e)];
    g.(edges := g.edges + [e], data := d2)
  }

  /** After `addEdgeInternal(e)` a node's list holds `e` once more per end it has there; the source gains an out-edge. */
  lemma AddEdgeData(g: Graph, e: nat, n: nat, x: nat)
    requires e in g.ends && g.ends[e].0 in g.data && g.ends[e].1 in g.data && n in g.data
    ensures var r := AddEdgeInternal(g, e);
            multiset(r.data[n].incidence)[x] == multiset(g.data[n].incidence)[x] + (if x == e then EndCount(g.ends[e], n) else 0)
            && r.data[n].outDegree == g.data[n].outDegree + (if g.ends[e].0 == n then 1 else 0)
  {
    var r := AddEdgeInternal(g, e);
    var (src, tgt) := g.ends[e];
    if n != src && n != tgt {
      assert r.data[n] == g.data[n];
    } else if n != tgt {
      assert r.data[n] == OutEdgeAdd(g.data[n], e);
    } else if n != src {
      assert r.data[n] == InEdgeAdd(g.data[n], e);
    } else {
      assert r.data[n] == InEdgeAdd(OutEdgeAdd(g.data[n], e), e);
    }
  }

  lemma AddEdgeValid(g: Graph, e: nat)
    requires Valid(g) && e !in g.edges
    requires e in g.ends && g.ends[e].0 in g.data && g.ends[e].1 in g.data
    ensures Valid(AddEdgeInternal(g, e))
  {
    DistinctSnoc(g.edges, e);
    AddEdgeIncidence(g, e);
    AddEdgeDegree(g, e);
  }

  lemma AddEdgeIncidence(g: Graph, e: nat)
    requires IncidenceKept(g) && e !in g.edges
    requires e in g.ends && g.ends[e].0 in g.data && g.ends[e].1 in g.data
    ensures IncidenceKept(AddEdgeInternal(g, e))
  {
    var r := AddEdgeInternal(g, e);
    forall n, x | n in r.data ensures multiset(r.data[n].incidence)[x] == Touches(r, n, x) {
      AddEdgeData(g, e, n, x);
      TouchesGrow(g, r, e, n, x);
    }
  }

  lemma AddEdgeDegree(g: Graph, e: nat)
    requires DegreeKept(g) && e !in g.edges
    requires e in g.ends && g.ends[e].0 in g.data && g.ends[e].1 in g.data
    ensures DegreeKept(AddEdgeInternal(g, e))
  {
    var r := AddEdgeInternal(g, e);
    forall n | n in r.data ensures r.data[n].outDegree == |OutSet(r, n)| {
      AddEdgeData(g, e, n, e);
      OutSetGrow(g, r, e, n);
    }
  }

  /** Appending a new edge adds its ends to the count at each node. */
  lemma TouchesGrow(g: Graph, r: Graph, e: nat, n: nat, x: nat)
    requires r.edges == g.edges + [e] && r.ends == g.ends && e in g.ends && e !in g.edges
    ensures Touches(r, n, x) == Touches(g, n, x) + (if x == e then EndCount(g.ends[e], n) else 0)
  {
  }

  /** Appending a new edge adds it to the out-edges of its source. */
  lemma OutSetGrow(g: Graph, r: Graph, e: nat, n: nat)
    requires r.edges == g.edges + [e] && r.ends == g.ends && e in g.ends && e !in g.edges
    ensures |OutSet(r, n)| == |OutSet(g, n)| + (if g.ends[e].0 == n then 1 else 0)
  {
    if g.ends[e].0 == n {
      assert OutSet(r, n) == OutSet(g, n) + {e};
    } else {
      assert OutSet(r, n) == OutSet(g, n);
    }
  }

  /** What `removeEdge` needs: each of its two erasures finds `e` (a loop is listed twice at its node). */
  predicate CanRemove(g: Graph, e: nat)
  {
    e in g.ends && g.ends[e].0 in g.data && g.ends[e].1 in g.data
    && e in g.data[g.ends[e].0].incidence
    && if g.ends[e].0 == g.ends[e].1 then e in EraseFirst(g.data[g.ends[e].0].incidence, e)
       else e in g.data[g.ends[e].1].incidence
  }

  /** Every edge of a valid view can be removed. */
  lemma Removable(g: Graph, e: nat)
    requires Valid(g) && e in g.edges
    ensures CanRemove(g, e) && g.data[g.ends[e].0].outDegree > 0
  {
    var (src, tgt) := g.ends[e];
    assert multiset(g.data[src].incidence)[e] == Touches(g, src, e);
    assert multiset(g.data[tgt].incidence)[e] == Touches(g, tgt, e);
    if src == tgt {
      EraseFirstRemovesOne(g.data[src].incidence, e);
      assert multiset(EraseFirst(g.data[src].incidence, e))[e] == 1;
    }
    assert e in OutSet(g, src);
  }

  /** `removeEdge(e)`: `e` is no longer an element and leaves the lists of its ends. */
  function RemoveEdge(g: Graph, e: nat): (r: Graph)
    requires e in g.edges && CanRemove(g, e)
    ensures r.nodes == g.nodes && r.edges == SwapRemove(g.edges, e) && r.ends == g.ends
    ensures (forall n :: n in r.data <==> n in g.data)
  {
    var (src, tgt) := g.ends[e];
    var d1 := g.data[src := OutEdgeRemove(g.data[src], e)];
    var d2 := d1[tgt := InEdgeRemove(d1[tgt], e)];
    g.(edges := SwapRemove(g.edges, e), data := d2)
  }

  /** After `removeEdge(e)` a node's list holds `e` once less per end it has there; the source loses an out-edge. */
  lemma RemoveEdgeData(g: Graph, e: nat, n: nat, x: nat)
    requires e in g.edges && CanRemove(g, e) && n in g.data && g.data[g.ends[e].0].outDegree > 0
    ensures var r := RemoveEdge(g, e);
            multiset(r.data[n].incidence)[x] == multiset(g.data[n].incidence)[x] - (if x == e then EndCount(g.ends[e], n) else 0)
            && r.data[n].outDegree == g.data[n].outDegree - (if g.ends[e].0 == n then 1 else 0)
  {
    var r := RemoveEdge(g, e);
    var (src, tgt) := g.ends[e];
    var s := g.data[n].incidence;
    if n != src && n != tgt {
      assert r.data[n] == g.data[n];
    } else if n != tgt {
      assert r.data[n] == OutEdgeRemove(g.data[n], e);
      EraseFirstRemovesOne(s, e);
    } else if n != src {
      assert r.data[n] == InEdgeRemove(g.data[n], e);
      EraseFirstRemovesOne(s, e);
    } else {
      assert r.data[n] == InEdgeRemove(OutEdgeRemove(g.data[n], e), e);
      EraseFirstRemovesOne(s, e);
      EraseFirstRemovesOne(EraseFirst(s, e), e);
    }
  }

  lemma RemoveEdgeValid(g: Graph, e: nat)
    requires Valid(g) && e in g.edges
    ensures CanRemove(g, e) && Valid(RemoveEdge(g, e))
  {
    Removable(g, e);
    RemoveEdgeIncidence(g, e);
    RemoveEdgeDegree(g, e);
  }

  lemma RemoveEdgeIncidence(g: Graph, e: nat)
    requires IncidenceKept(g) && Distinct(g.edges) && e in g.edges && CanRemove(g, e) && g.data[g.ends[e].0].outDegree > 0
    ensures IncidenceKept(RemoveEdge(g, e))
  {
    var r := RemoveEdge(g, e);
    forall n, x | n in r.data ensures multiset(r.data[n].incidence)[x] == Touches(r, n, x) {
      RemoveEdgeData(g, e, n, x);
      TouchesShrink(g, r, e, n, x);
    }
  }

  lemma RemoveEdgeDegree(g: Graph, e: nat)
    requires DegreeKept(g) && Distinct(g.edges) && e in g.edges && CanRemove(g, e) && g.data[g.ends[e].0].outDegree > 0
    ensures DegreeKept(RemoveEdge(g, e))
  {
    var r := RemoveEdge(g, e);
    forall n | n in r.data ensures r.data[n].outDegree == |OutSet(r, n)| {
      RemoveEdgeData(g, e, n, e);
      OutSetShrink(g, r, e, n);
    }
  }

  /** Dropping an edge takes its ends from the count at each node. */
  lemma TouchesShrink(g: Graph, r: Graph, e: nat, n: nat, x: nat)
    requires (forall y :: y in r.edges <==> y in g.edges && y != e) && r.ends == g.ends && e in g.ends && e in g.edges
    ensures Touches(r, n, x) == Touches(g, n, x) - (if x == e then EndCount(g.ends[e], n) else 0)
  {
  }

  /** Dropping an edge takes it from the out-edges of its source. */
  lemma OutSetShrink(g: Graph, r: Graph, e: nat, n: nat)
    requires (forall y :: y in r.edges <==> y in g.edges && y != e) && r.ends == g.ends && e in g.ends && e in g.edges
    ensures |OutSet(r, n)| == |OutSet(g, n)| - (if g.ends[e].0 == n then 1 else 0)
  {
    if g.ends[e].0 == n {
      assert OutSet(r, n) == OutSet(g, n) - {e};
    } else {
      assert OutSet(r, n) == OutSet(g, n);
    }
  }

  /** Removing an edge just added gives the view back. */
  lemma AddThenRemoveEdge(g: Graph, e: nat)
    requires Valid(g) && e !in g.edges
    requires e in g.ends && g.ends[e].0 in g.data && g.ends[e].1 in g.data
    ensures e in AddEdgeInternal(g, e).edges && CanRemove(AddEdgeInternal(g, e), e)
    ensures RemoveEdge(AddEdgeInternal(g, e), e) == g
  {
    forall n | n in g.data ensures e !in g.data[n].incidence {
      Incident(g, n, e);
    }
    AddThenRemoveSame(g, e);
  }

  lemma AddThenRemoveSame(g: Graph, e: nat)
    requires Distinct(g.edges) && e !in g.edges && e in g.ends && g.ends[e].0 in g.data && g.ends[e].1 in g.data
    requires forall n :: n in g.data ==> e !in g.data[n].incidence
    ensures e in AddEdgeInternal(g, e).edges && CanRemove(AddEdgeInternal(g, e), e)
    ensures RemoveEdge(AddEdgeInternal(g, e), e) == g
  {
    AddedRemovable(g, e);
    AddThenRemoveKeepsData(g, e);
    var r := RemoveEdge(AddEdgeInternal(g, e), e);
    assert r.edges == g.edges by {
      var s := g.edges + [e];
      DistinctSnoc(g.edges, e);
      assert s[|s| - 1] == e && s[..|s| - 1] == g.edges;
    }
  }

  lemma AddThenRemoveKeepsData(g: Graph, e: nat)
    requires e !in g.edges && e in g.ends && g.ends[e].0 in g.data && g.ends[e].1 in g.data
    requires forall n :: n in g.data ==> e !in g.data[n].incidence
    ensures CanRemove(AddEdgeInternal(g, e), e)
    ensures RemoveEdge(AddEdgeInternal(g, e), e).data == g.data
  {
    AddedRemovable(g, e);
    var r := RemoveEdge(AddEdgeInternal(g, e), e);
    forall n | n in g.data ensures r.data[n] == g.data[n] {
      AddThenRemoveData(g, e, n);
    }
  }

  /** An edge just added can be removed. */
  lemma AddedRemovable(g: Graph, e: nat)
    requires e in g.ends && g.ends[e].0 in g.data && g.ends[e].1 in g.data
    requires e !in g.data[g.ends[e].0].incidence && e !in g.data[g.ends[e].1].incidence
    ensures CanRemove(AddEdgeInternal(g, e), e)
  {
    var (src, tgt) := g.ends[e];
    if src == tgt {
      var s := g.data[src].incidence;
      assert AddEdgeInternal(g, e).data[src].incidence == s + [e, e] by {
        assert s + [e] + [e] == s + [e, e];
      }
      EraseAppended(s, e, [e, e]);
      assert [e, e][1..] == [e];
    }
  }

  lemma AddThenRemoveData(g: Graph, e: nat, n: nat)
    requires e in g.ends && g.ends[e].0 in g.data && g.ends[e].1 in g.data && n in g.data
    requires e !in g.data[g.ends[e].0].incidence && e !in g.data[g.ends[e].1].incidence
    ensures CanRemove(AddEdgeInternal(g, e), e)
    ensures RemoveEdge(AddEdgeInternal(g, e), e).data[n] == g.data[n]
  {
    AddedRemovable(g, e);
    var (src, tgt) := g.ends[e];
    var d := g.data[n];
    var a := AddEdgeInternal(g, e);
    var r := RemoveEdge(a, e);
    if n == src && n == tgt {
      assert a.data[n] == InEdgeAdd(OutEdgeAdd(d, e), e);
      LoopAddRemove(d, e);
      assert r.data[n] == InEdgeRemove(OutEdgeRemove(a.data[n], e), e);
    } else if n == src {
      assert a.data[n] == OutEdgeAdd(d, e);
      OutAddRemove(d, e);
      assert r.data[n] == OutEdgeRemove(a.data[n], e);
    } else if n == tgt {
      assert a.data[n] == InEdgeAdd(d, e);
      InAddRemove(d, e);
      assert r.data[n] == InEdgeRemove(a.data[n], e);
    } else {
      assert a.data[n] == d;
    }
  }

  lemma OutAddRemove(d: NodeData, e: nat)
    requires e !in d.incidence
    ensures OutEdgeRemove(OutEdgeAdd(d, e), e) == d
  {
    EraseAppended(d.incidence, e, [e]);
    assert d.incidence + [e][1..] == d.incidence;
  }

  lemma InAddRemove(d: NodeData, e: nat)
    requires e !in d.incidence
    ensures InEdgeRemove(InEdgeAdd(d, e), e) == d
  {
    EraseAppended(d.incidence, e, [e]);
    assert d.incidence + [e][1..] == d.incidence;
  }

  lemma LoopAddRemove(d: NodeData, e: nat)
    requires e !in d.incidence
    ensures var x := OutEdgeRemove(InEdgeAdd(OutEdgeAdd(d, e), e), e);
            x == InEdgeAdd(d, e) && InEdgeRemove(x, e) == d
  {
    LoopOutRemove(d, e);
    InAddRemove(d, e);
  }

  lemma LoopOutRemove(d: NodeData, e: nat)
    requires e !in d.incidence
    ensures OutEdgeRemove(InEdgeAdd(OutEdgeAdd(d, e), e), e) == InEdgeAdd(d, e)
  {
    var s := d.incidence;
    assert s + [e] + [e] == s + [e, e];
    EraseAppended(s, e, [e, e]);
    assert [e, e][1..] == [e];
  }

  /** Erasing the first `e` of a list that has none before `t`. */
  lemma {:induction false} EraseAppended(s: seq<nat>, e: nat, t: seq<nat>)
    requires e !in s && e in t && t[0] == e
    ensures EraseFirst(s + t, e) == s + t[1..]
    decreases |s|
  {
    if |s| > 0 {
      assert (s + t)[1..] == s[1..] + t;
      EraseAppended(s[1..], e, t);
      assert s == [s[0]] + s[1..];
    }
  }

  /**
   `reverseInternal(e, src, tgt)`, once the root has swapped the ends of
   `e`: when `e` is an element it leaves the out-edges of `src` for its
   in-edges, and the reverse at `tgt`; every view reads the swapped ends.
   */
  function ReverseInternal(g: Graph, e: nat): (r: Graph)
    requires e in g.ends && (e in g.edges ==> CanRemove(g, e))
    ensures r.nodes == g.nodes && r.edges == g.edges && (forall n :: n in r.data <==> n in g.data)
    ensures r.ends == g.ends[e := (g.ends[e].1, g.ends[e].0)]
    ensures e !in g.edges ==> r.data == g.data
  {
    var (src, tgt) := g.ends[e];
    var ends := g.ends[e := (tgt, src)];
    if e !in g.edges then g.(ends := ends)
    else
      var d1 := g.data[src := InEdgeAdd(OutEdgeRemove(g.data[src], e), e)];
      var d2 := d1[tgt := OutEdgeAdd(InEdgeRemove(d1[tgt], e), e)];
      g.(ends := ends, data := d2)
  }

  /** Reversal keeps every list's contents; the out-edge moves from the old source to the old target. */
  lemma ReverseData(g: Graph, e: nat, n: nat, x: nat)
    requires e in g.edges && CanRemove(g, e) && n in g.data && g.data[g.ends[e].0].outDegree > 0
    ensures var r := ReverseInternal(g, e);
            multiset(r.data[n].incidence)[x] == multiset(g.data[n].incidence)[x]
            && r.data[n].outDegree == g.data[n].outDegree + (if n == g.ends[e].1 then 1 else 0)
                                                          - (if n == g.ends[e].0 then 1 else 0)
  {
    var r := ReverseInternal(g, e);
    var (src, tgt) := g.ends[e];
    var s := g.data[n].incidence;
    if n != src && n != tgt {
      assert r.data[n] == g.data[n];
    } else if n != tgt {
      assert r.data[n] == InEdgeAdd(OutEdgeRemove(g.data[n], e), e);
      EraseFirstRemovesOne(s, e);
    } else if n != src {
      assert r.data[n] == OutEdgeAdd(InEdgeRemove(g.data[n], e), e);
      EraseFirstRemovesOne(s, e);
    } else {
      assert r.data[n] == OutEdgeAdd(InEdgeRemove(InEdgeAdd(OutEdgeRemove(g.data[n], e), e), e), e);
      EraseFirstRemovesOne(s, e);
      EraseFirstRemovesOne(EraseFirst(s, e) + [e], e);
    }
  }

  lemma ReverseValid(g: Graph, e: nat)
    requires Valid(g) && e in g.ends
    ensures e in g.edges ==> CanRemove(g, e)
    ensures Valid(ReverseInternal(g, e))
  {
    if e in g.edges {
      Removable(g, e);
    }
    ReverseIncidence(g, e);
    ReverseDegree(g, e);
  }

  lemma ReverseIncidence(g: Graph, e: nat)
    requires IncidenceKept(g) && e in g.ends
    requires e in g.edges ==> CanRemove(g, e) && g.data[g.ends[e].0].outDegree > 0
    ensures IncidenceKept(ReverseInternal(g, e))
  {
    var r := ReverseInternal(g, e);
    forall n, x | n in r.data ensures multiset(r.data[n].incidence)[x] == Touches(r, n, x) {
      if e in g.edges {
        ReverseData(g, e, n, x);
      }
      TouchesReverse(g, r, e, n, x);
    }
  }

  lemma ReverseDegree(g: Graph, e: nat)
    requires DegreeKept(g) && e in g.ends
    requires e in g.edges ==> CanRemove(g, e) && g.data[g.ends[e].0].outDegree > 0
    ensures DegreeKept(ReverseInternal(g, e))
  {
    var r := ReverseInternal(g, e);
    forall n | n in r.data ensures r.data[n].outDegree == |OutSet(r, n)| {
      if e in g.edges {
        ReverseData(g, e, n, e);
      }
      OutSetReverse(g, r, e, n);
    }
  }

  /** Swapping the ends of an edge keeps the count at each node. */
  lemma TouchesReverse(g: Graph, r: Graph, e: nat, n: nat, x: nat)
    requires r.edges == g.edges && e in g.ends && r.ends == g.ends[e := (g.ends[e].1, g.ends[e].0)]
    ensures Touches(r, n, x) == Touches(g, n, x)
  {
  }

  /** Swapping the ends of an element moves it from the out-edges of its old source to those of its old target. */
  lemma OutSetReverse(g: Graph, r: Graph, e: nat, n: nat)
    requires r.edges == g.edges && e in g.ends && r.ends == g.ends[e := (g.ends[e].1, g.ends[e].0)]
    ensures e !in g.edges || g.ends[e].0 == g.ends[e].1 ==> OutSet(r, n) == OutSet(g, n)
    ensures e in g.edges && g.ends[e].0 != g.ends[e].1 ==>
              |OutSet(r, n)| == |OutSet(g, n)| + (if n == g.ends[e].1 then 1 else 0) - (if n == g.ends[e].0 then 1 else 0)
  {
    var (src, tgt) := g.ends[e];
    if e !in g.edges || src == tgt {
      assert OutSet(r, n) == OutSet(g, n);
    } else if n == src {
      assert OutSet(r, n) == OutSet(g, n) - {e};
    } else if n == tgt {
      assert OutSet(r, n) == OutSet(g, n) + {e};
    } else {
      assert OutSet(r, n) == OutSet(g, n);
    }
  }

  /** Reversing an edge makes its old target the node it leaves. */
  lemma ReverseMovesOut(g: Graph, e: nat)
    requires Valid(g) && e in g.edges && g.ends[e].0 != g.ends[e].1
    ensures CanRemove(g, e)
    ensures var r := ReverseInternal(g, e);
            e in OutSet(r, g.ends[e].1) && e !in OutSet(r, g.ends[e].0)
            && OutDeg(r, g.ends[e].1) == OutDeg(g, g.ends[e].1) + 1
            && OutDeg(r, g.ends[e].0) == OutDeg(g, g.ends[e].0) - 1
  {
    Removable(g, e);
    ReverseData(g, e, g.ends[e].0, e);
    ReverseData(g, e, g.ends[e].1, e);
    ReverseValid(g, e);
  }

  /** `setEdgeOrder(n, edges)`: the incidence list replaced by one as long, of elements. */
  function SetEdgeOrder(g: Graph, n: nat, order: seq<nat>): (r: Graph)
    requires n in g.data && |order| == Deg(g, n) && forall e :: e in order ==> e in g.edges
    ensures r.nodes == g.nodes && r.edges == g.edges && r.ends == g.ends && (forall n :: n in r.data <==> n in g.data)
    ensures r.data[n].incidence == order && r.data[n].outDegree == g.data[n].outDegree
    ensures forall m :: m in g.data && m != n ==> r.data[m] == g.data[m]
  {
    g.(data := g.data[n := g.data[n].(incidence := order)])
  }

  /** A new order that lists the same edges keeps the view valid. */
  lemma SetEdgeOrderValid(g: Graph, n: nat, order: seq<nat>)
    requires Valid(g) && n in g.data && multiset(order) == multiset(g.data[n].incidence)
    ensures |order| == Deg(g, n) && forall e :: e in order ==> e in g.edges
    ensures Valid(SetEdgeOrder(g, n, order))
  {
    assert |order| == |multiset(order)|;
    forall e | e in order ensures e in g.edges {
      assert multiset(order)[e] > 0;
      Incident(g, n, e);
    }
    SetEdgeOrderIncidence(g, n, order);
  }

  lemma SetEdgeOrderIncidence(g: Graph, n: nat, order: seq<nat>)
    requires IncidenceKept(g) && n in g.data && multiset(order) == multiset(g.data[n].incidence)
    requires |order| == Deg(g, n) && forall e :: e in order ==> e in g.edges
    ensures IncidenceKept(SetEdgeOrder(g, n, order))
  {
    var r := SetEdgeOrder(g, n, order);
    forall m, x | m in r.data ensures multiset(r.data[m].incidence)[x] == Touches(r, m, x) {
      assert Touches(r, m, x) == Touches(g, m, x);
    }
  }

  /** The edges of the view joining `src` to `tgt` (either way round when not `directed`). */
  function Joining(g: Graph, src: nat, tgt: nat, directed: bool): set<nat>
  {
    set e | e in g.edges && e in g.ends && GraphStorages.Joins(g.ends[e], src, tgt, directed)
  }

  /**
   `existEdge(src, tgt, directed)`: no edge when either end is not an
   element; otherwise the first of the sorted edges the root finds
   between them in this view, the least id.
   */
  function ExistEdge(g: Graph, src: nat, tgt: nat, directed: bool): (r: Option<nat>)
    ensures r.None? <==> src !in g.data || tgt !in g.data || Joining(g, src, tgt, directed) == {}
    ensures r.Some? ==> r.value in Joining(g, src, tgt, directed)
                        && forall x :: x in Joining(g, src, tgt, directed) ==> r.value <= x
  {
    if src !in g.data || tgt !in g.data then None
    else
      var r := LeastJoining(g, g.edges, src, tgt, directed);
      assert r.Some? ==> r.value in Joining(g, src, tgt, directed);
      assert r.None? ==> Joining(g, src, tgt, directed) == {};
      r
  }

  /** The least edge of `es` joining `src` to `tgt`. */
  function LeastJoining(g: Graph, es: seq<nat>, src: nat, tgt: nat, directed: bool): (r: Option<nat>)
    ensures r.None? <==> forall e :: e in es ==> e !in g.ends || !GraphStorages.Joins(g.ends[e], src, tgt, directed)
    ensures r.Some? ==> r.value in es && r.value in g.ends && GraphStorages.Joins(g.ends[r.value], src, tgt, directed)
    ensures r.Some? ==> forall e :: e in es && e in g.ends && GraphStorages.Joins(g.ends[e], src, tgt, directed) ==> r.value <= e
    decreases |es|
  {
    if |es| == 0 then None
    else
      var rest := LeastJoining(g, es[1..], src, tgt, directed);
      assert es == [es[0]] + es[1..];
      var e := es[0];
      if e in g.ends && GraphStorages.Joins(g.ends[e], src, tgt, directed) && (rest.None? || e < rest.value) then Some(e)
      else rest
  }

  // ---------------------------------------------------------------------------
  // Filtered construction
  // ---------------------------------------------------------------------------

  /** The edges `es` added one after the other with `addEdgeInternal`. */
  function AddEdges(g: Graph, es: seq<nat>): (r: Graph)
    requires forall e :: e in es ==> e in g.ends && g.ends[e].0 in g.data && g.ends[e].1 in g.data
    ensures r.nodes == g.nodes && r.edges == g.edges + es && r.ends == g.ends && (forall n :: n in r.data <==> n in g.data)
    decreases |es|
  {
    if |es| == 0 then g
    else
      var h := AddEdgeInternal(g, es[0]);
      assert forall e :: e in es[1..] ==> e in es;
      var r := AddEdges(h, es[1..]);
      ConsAppend(g.edges, es);
      r
  }

  /** Moving the head of `s` to the end of `a`. */
  lemma ConsAppend(a: seq<nat>, s: seq<nat>)
    requires |s| > 0
    ensures (a + [s[0]]) + s[1..] == a + s
  {
    assert s == [s[0]] + s[1..];
  }

  lemma {:induction false} AddEdgesValid(g: Graph, es: seq<nat>)
    requires Valid(g) && Distinct(g.edges + es)
    requires forall e :: e in es ==> e in g.ends && g.ends[e].0 in g.data && g.ends[e].1 in g.data
    ensures Valid(AddEdges(g, es))
    decreases |es|
  {
    if |es| > 0 {
      assert es[0] !in g.edges by {
        assert (g.edges + es)[|g.edges|] == es[0];
        forall k | 0 <= k < |g.edges| ensures g.edges[k] != es[0] {
          assert (g.edges + es)[k] == g.edges[k];
        }
      }
      AddEdgeValid(g, es[0]);
      var h := AddEdgeInternal(g, es[0]);
      assert h.edges + es[1..] == g.edges + es by {
        ConsAppend(g.edges, es);
      }
      assert forall e :: e in es[1..] ==> e in h.ends && h.ends[e].0 in h.data && h.ends[e].1 in h.data by {
        assert forall e :: e in es[1..] ==> e in es;
      }
      AddEdgesValid(h, es[1..]);
    }
  }

  /** The nodes `ns` added one after the other with `restoreNode`. */
  function RestoreNodes(g: Graph, ns: seq<nat>): (r: Graph)
    requires Distinct(ns) && forall n :: n in ns ==> n !in g.data
    ensures r.nodes == g.nodes + ns && r.edges == g.edges && r.ends == g.ends
    ensures forall n :: n in r.data <==> n in g.data || n in ns
    decreases |ns|
  {
    if |ns| == 0 then g
    else
      assert ns[0] !in ns[1..] by {
        forall k | 0 <= k < |ns[1..]| ensures ns[1..][k] != ns[0] {
          assert ns[1..][k] == ns[k + 1];
        }
      }
      assert Distinct(ns[1..]) by {
        forall i, j | 0 <= i < j < |ns[1..]| ensures ns[1..][i] != ns[1..][j] {
          assert ns[1..][i] == ns[i + 1] && ns[1..][j] == ns[j + 1];
        }
      }
      var r := RestoreNodes(RestoreNode(g, ns[0]), ns[1..]);
      assert g.nodes + ns == g.nodes + [ns[0]] + ns[1..];
      r
  }

  lemma {:induction false} RestoreNodesValid(g: Graph, ns: seq<nat>)
    requires Valid(g) && Distinct(ns) && forall n :: n in ns ==> n !in g.data
    ensures Valid(RestoreNodes(g, ns))
    decreases |ns|
  {
    if |ns| > 0 {
      RestoreNodeValid(g, ns[0]);
      assert Distinct(ns[1..]) by {
        forall i, j | 0 <= i < j < |ns[1..]| ensures ns[1..][i] != ns[1..][j] {
          assert ns[1..][i] == ns[i + 1] && ns[1..][j] == ns[j + 1];
        }
      }
      assert forall n :: n in ns[1..] ==> n !in RestoreNode(g, ns[0]).data by {
        forall k | 0 <= k < |ns[1..]| ensures ns[1..][k] != ns[0] {
          assert ns[1..][k] == ns[k + 1];
        }
      }
      RestoreNodesValid(RestoreNode(g, ns[0]), ns[1..]);
    }
  }

  /** A view with no element, reading the root's edge ends. */
  function EmptyView(ends: map<nat, (nat, nat)>): Graph
  {
    Graph([], [], ends, map[])
  }

  /**
   The constructor of a subgraph of `super`: without a filter the view is
   empty; with one it holds the nodes, then the edges, of `super` the
   filter selects, in the order of `super`.
   */
  function Construct(super: Graph, filter: Option<(set<nat>, set<nat>)>): (r: Graph)
    requires Valid(super)
    requires filter.Some? ==> forall e :: e in super.edges && e in filter.value.1 ==>
                                super.ends[e].0 in filter.value.0 && super.ends[e].1 in filter.value.0
    ensures filter.None? ==> r == EmptyView(super.ends)
    ensures filter.Some? ==> r.nodes == KeepIn(super.nodes, filter.value.0)
                             && r.edges == KeepIn(super.edges, filter.value.1)
    ensures Valid(r)
  {
    match filter
    case None => EmptyView(super.ends)
    case Some((ns, es)) =>
      FilteredValid(super, ns, es);
      AddEdges(RestoreNodes(EmptyView(super.ends), KeepIn(super.nodes, ns)), KeepIn(super.edges, es))
  }

  /** The filtered nodes can be restored, then the filtered edges added, into a valid view. */
  lemma FilteredValid(super: Graph, ns: set<nat>, es: set<nat>)
    requires Valid(super)
    requires forall e :: e in super.edges && e in es ==> super.ends[e].0 in ns && super.ends[e].1 in ns
    ensures Distinct(KeepIn(super.nodes, ns))
    ensures var v := RestoreNodes(EmptyView(super.ends), KeepIn(super.nodes, ns));
            var kept := KeepIn(super.edges, es);
            (forall e :: e in kept ==> e in v.ends && v.ends[e].0 in v.data && v.ends[e].1 in v.data)
            && Valid(AddEdges(v, kept))
  {
    var keptNodes := KeepIn(super.nodes, ns);
    var keptEdges := KeepIn(super.edges, es);
    SubseqDistinct(keptNodes, super.nodes);
    SubseqDistinct(keptEdges, super.edges);
    var v := RestoreNodes(EmptyView(super.ends), keptNodes);
    RestoreNodesValid(EmptyView(super.ends), keptNodes);
    assert v.edges + keptEdges == keptEdges;
    AddEdgesValid(v, keptEdges);
  }

  /** An order-preserving selection from a list without repeats has none. */
  lemma {:induction false} SubseqDistinct(a: seq<nat>, b: seq<nat>)
    requires SubseqOf(a, b) && Distinct(b)
    ensures Distinct(a)
    decreases |b|
  {
    if |a| > 0 && |b| > 0 {
      assert Distinct(b[1..]) by {
        forall i, j | 0 <= i < j < |b[1..]| ensures b[1..][i] != b[1..][j] {
          assert b[1..][i] == b[i + 1] && b[1..][j] == b[j + 1];
        }
      }
      if a[0] == b[0] {
        SubseqDistinct(a[1..], b[1..]);
        SubseqMembers(a[1..], b[1..]);
        assert b[0] !in b[1..] by {
          forall k | 0 <= k < |b[1..]| ensures b[1..][k] != b[0] {
            assert b[1..][k] == b[k + 1];
          }
        }
        forall i, j | 0 <= i < j < |a| ensures a[i] != a[j] {
          assert a[j] == a[1..][j - 1];
          if i > 0 {
            assert a[i] == a[1..][i - 1];
          }
        }
      } else {
        SubseqDistinct(a, b[1..]);
      }
    }
  }

  lemma {:induction false} SubseqMembers(a: seq<nat>, b: seq<nat>)
    requires SubseqOf(a, b)
    ensures forall x :: x in a ==> x in b
    decreases |b|
  {
    if |a| > 0 && |b| > 0 {
      if a[0] == b[0] {
        SubseqMembers(a[1..], b[1..]);
        assert a == [a[0]] + a[1..];
      } else {
        SubseqMembers(a, b[1..]);
      }
      assert b == [b[0]] + b[1..];
    }
  }

  // ---------------------------------------------------------------------------
  // Removing a node
  // ---------------------------------------------------------------------------

  /** `removeNode(n)`: `n` leaves the node list, the last node moving into its slot, and loses its data. */
  function RemoveNode(g: Graph, n: nat): Graph
    requires n in g.nodes
  {
    g.(nodes := SwapRemove(g.nodes, n), data := g.data - {n})
  }

  /** Removing a node no edge of the view touches keeps the view valid; only that node stops being an element. */
  lemma RemoveNodeValid(g: Graph, n: nat)
    requires Valid(g) && n in g.data
    requires forall x :: x in g.edges ==> g.ends[x].0 != n && g.ends[x].1 != n
    ensures n in g.nodes && Valid(RemoveNode(g, n))
    ensures forall m :: m in RemoveNode(g, n).data <==> m in g.data && m != n
    ensures RemoveNode(g, n).edges == g.edges
  {
    var r := RemoveNode(g, n);
    assert Shaped(r);
    assert IncidenceKept(r) by {
      forall m, x | m in r.data ensures multiset(r.data[m].incidence)[x] == Touches(r, m, x) {
        assert r.data[m] == g.data[m] && Touches(r, m, x) == Touches(g, m, x);
      }
    }
    assert DegreeKept(r) by {
      forall m | m in r.data ensures r.data[m].outDegree == |OutSet(r, m)| {
        assert r.data[m] == g.data[m] && OutSet(r, m) == OutSet(g, m);
      }
    }
  }

  /** `removeEdges(edges)`: each of `edges` still an element when its turn comes is removed. */
  function RemoveEdges(g: Graph, es: seq<nat>): (r: Graph)
    requires Valid(g)
    ensures Valid(r) && r.nodes == g.nodes && r.ends == g.ends && (forall n :: n in r.data <==> n in g.data)
    ensures forall x :: x in r.edges <==> x in g.edges && x !in es
    decreases |es|
  {
    if |es| == 0 then g
    else
      assert es == [es[0]] + es[1..];
      if es[0] in g.edges then
        RemoveEdgeValid(g, es[0]);
        RemoveEdges(RemoveEdge(g, es[0]), es[1..])
      else
        RemoveEdges(g, es[1..])
  }

  // ---------------------------------------------------------------------------
  // The subgraph tree
  // ---------------------------------------------------------------------------

  /** A view with the trees of its subgraphs. */
  datatype Tree = Tree(g: Graph, subs: seq<Tree>)

  /** `c` lies within `p`: its nodes and edges are elements of `p`, and its edges read the same ends. */
  ghost predicate Nested(c: Graph, p: Graph)
  {
    (forall n :: n in c.data ==> n in p.data)
    && (forall x :: x in c.edges ==> x in p.edges && x in c.ends && x in p.ends && c.ends[x] == p.ends[x])
  }

  /** Every view of the tree is valid and lies within its parent. */
  ghost predicate TreeValid(t: Tree)
    decreases t
  {
    Valid(t.g) && forall i :: 0 <= i < |t.subs| ==> Nested(t.subs[i].g, t.g) && TreeValid(t.subs[i])
  }

  /** `u` is `t`, shape for shape, with `e` an element of no view and every other element kept. */
  ghost predicate EdgeGone(t: Tree, u: Tree, e: nat)
    decreases t
  {
    u.g.nodes == t.g.nodes && u.g.ends == t.g.ends
    && (forall x :: x in u.g.edges <==> x in t.g.edges && x != e)
    && |u.subs| == |t.subs|
    && forall i :: 0 <= i < |t.subs| ==> EdgeGone(t.subs[i], u.subs[i], e)
  }

  /**
   `delEdge(e)`: every subgraph holding `e` deletes it first (so from its
   own subgraphs too), then the view removes it.
   */
  function DelEdgeTree(t: Tree, e: nat): (r: Tree)
    requires TreeValid(t) && e in t.g.edges
    ensures TreeValid(r) && EdgeGone(t, r, e)
    decreases t
  {
    var subs := seq(|t.subs|, i requires 0 <= i < |t.subs| =>
                  if e in t.subs[i].g.edges then DelEdgeTree(t.subs[i], e) else t.subs[i]);
    RemoveEdgeValid(t.g, e);
    var r := Tree(RemoveEdge(t.g, e), subs);
    assert forall i :: 0 <= i < |t.subs| ==> Nested(subs[i].g, r.g) && TreeValid(subs[i]) && EdgeGone(t.subs[i], subs[i], e) by {
      forall i | 0 <= i < |t.subs|
        ensures Nested(subs[i].g, r.g) && TreeValid(subs[i]) && EdgeGone(t.subs[i], subs[i], e)
      {
        if e !in t.subs[i].g.edges {
          AbsentBelow(t.subs[i], e);
        }
      }
    }
    r
  }

  /** A tree whose top view lacks `e` has it in no view, so deleting it there changes nothing. */
  lemma {:induction false} AbsentBelow(t: Tree, e: nat)
    requires TreeValid(t) && e !in t.g.edges
    ensures EdgeGone(t, t, e)
    decreases t
  {
    forall i | 0 <= i < |t.subs| ensures EdgeGone(t.subs[i], t.subs[i], e) {
      AbsentBelow(t.subs[i], e);
    }
  }

  /** `u` is `t` after `e` is reversed: views holding `e` read it swapped and move it between their lists; the others are untouched. */
  ghost predicate Reversed(t: Tree, u: Tree, e: nat)
    decreases t
  {
    if e !in t.g.edges then u == t
    else
      e in t.g.ends
      && u.g.nodes == t.g.nodes && u.g.edges == t.g.edges && (forall n :: n in u.g.data <==> n in t.g.data)
      && u.g.ends == t.g.ends[e := (t.g.ends[e].1, t.g.ends[e].0)]
      && |u.subs| == |t.subs|
      && forall i :: 0 <= i < |t.subs| ==> Reversed(t.subs[i], u.subs[i], e)
  }

  /** `reverseInternal(e, src, tgt)`: nothing unless `e` is an element; then the view and all its subgraphs reverse it. */
  function ReverseTree(t: Tree, e: nat): Tree
    requires TreeValid(t)
    decreases t
  {
    if e !in t.g.edges then t
    else
      Removable(t.g, e);
      Tree(ReverseInternal(t.g, e), seq(|t.subs|, i requires 0 <= i < |t.subs| => ReverseTree(t.subs[i], e)))
  }

  /** Reversal through the tree keeps it valid and reverses `e` in exactly the views holding it. */
  lemma {:induction false} ReverseTreeValid(t: Tree, e: nat)
    requires TreeValid(t)
    ensures TreeValid(ReverseTree(t, e)) && Reversed(t, ReverseTree(t, e), e)
    decreases t
  {
    if e in t.g.edges {
      var r := ReverseTree(t, e);
      ReverseValid(t.g, e);
      assert r.g == ReverseInternal(t.g, e) && |r.subs| == |t.subs|;
      forall i | 0 <= i < |t.subs| ensures TreeValid(r.subs[i]) && Reversed(t.subs[i], r.subs[i], e) {
        assert r.subs[i] == ReverseTree(t.subs[i], e);
        ReverseTreeValid(t.subs[i], e);
      }
      ReverseStep(t, r.subs, e);
    }
  }

  /** Reversing `e` in a view whose subgraphs have reversed it keeps the tree valid. */
  lemma ReverseStep(t: Tree, subs: seq<Tree>, e: nat)
    requires TreeValid(t) && e in t.g.edges && CanRemove(t.g, e) && Valid(ReverseInternal(t.g, e))
    requires |subs| == |t.subs| && forall i :: 0 <= i < |t.subs| ==> TreeValid(subs[i]) && Reversed(t.subs[i], subs[i], e)
    ensures TreeValid(Tree(ReverseInternal(t.g, e), subs)) && Reversed(t, Tree(ReverseInternal(t.g, e), subs), e)
  {
    var r := Tree(ReverseInternal(t.g, e), subs);
    forall i | 0 <= i < |t.subs| ensures Nested(subs[i].g, r.g) {
      ReverseNested(t.subs[i], subs[i], t.g, r.g, e);
    }
  }

  /** A subgraph reversed along with its parent still lies within it. */
  lemma ReverseNested(c: Tree, cu: Tree, p: Graph, pu: Graph, e: nat)
    requires Nested(c.g, p) && Reversed(c, cu, e) && e in p.edges && e in p.ends
    requires pu.edges == p.edges && pu.ends == p.ends[e := (p.ends[e].1, p.ends[e].0)]
    requires forall n :: n in pu.data <==> n in p.data
    ensures Nested(cu.g, pu)
  {
    if e in c.g.edges {
      assert c.g.ends[e] == p.ends[e];
    }
  }

  /** `es` lists exactly those edges of the view that have an end at `n`. */
  ghost predicate IncidentList(g: Graph, n: nat, es: seq<nat>)
  {
    forall x :: x in g.edges ==> x in g.ends && (x in es <==> g.ends[x].0 == n || g.ends[x].1 == n)
  }

  /** `u` is `t`, shape for shape, with `n` and the edges `es` elements of no view and every other element kept. */
  ghost predicate NodeGone(t: Tree, u: Tree, n: nat, es: seq<nat>)
    decreases t
  {
    (forall m :: m in u.g.data <==> m in t.g.data && m != n)
    && (forall x :: x in u.g.edges <==> x in t.g.edges && x !in es)
    && u.g.ends == t.g.ends
    && |u.subs| == |t.subs|
    && forall i :: 0 <= i < |t.subs| ==> NodeGone(t.subs[i], u.subs[i], n, es)
  }

  /**
   The subgraph walk of `delNode(n)`: each subgraph holding `n` is
   cleared before its parent, and a view is cleared with
   `removeNode(n, edges)` — the incident edges `es` first, then `n`.
   */
  function DelNodeTree(t: Tree, n: nat, es: seq<nat>): (r: Tree)
    requires TreeValid(t) && n in t.g.data && IncidentList(t.g, n, es)
    ensures TreeValid(r) && NodeGone(t, r, n, es)
    decreases t
  {
    assert forall i :: 0 <= i < |t.subs| ==> IncidentList(t.subs[i].g, n, es) by {
      forall i, x | 0 <= i < |t.subs| && x in t.subs[i].g.edges
        ensures x in t.subs[i].g.ends && (x in es <==> t.subs[i].g.ends[x].0 == n || t.subs[i].g.ends[x].1 == n)
      {
        assert Nested(t.subs[i].g, t.g);
      }
    }
    var subs := seq(|t.subs|, i requires 0 <= i < |t.subs| =>
                  if n in t.subs[i].g.data then DelNodeTree(t.subs[i], n, es) else t.subs[i]);
    var h := RemoveEdges(t.g, es);
    RemoveNodeValid(h, n);
    var r := Tree(RemoveNode(h, n), subs);
    assert forall i :: 0 <= i < |t.subs| ==> Nested(subs[i].g, r.g) && TreeValid(subs[i]) && NodeGone(t.subs[i], subs[i], n, es) by {
      forall i | 0 <= i < |t.subs|
        ensures Nested(subs[i].g, r.g) && TreeValid(subs[i]) && NodeGone(t.subs[i], subs[i], n, es)
      {
        if n !in t.subs[i].g.data {
          NodeAbsentBelow(t.subs[i], n, es);
        }
      }
    }
    r
  }

  /** A tree whose top view lacks `n` holds neither `n` nor any edge at `n` in any view. */
  lemma {:induction false} NodeAbsentBelow(t: Tree, n: nat, es: seq<nat>)
    requires TreeValid(t) && n !in t.g.data && IncidentList(t.g, n, es)
    ensures NodeGone(t, t, n, es)
    decreases t
  {
    forall i | 0 <= i < |t.subs| ensures NodeGone(t.subs[i], t.subs[i], n, es) {
      assert Nested(t.subs[i].g, t.g);
      NodeAbsentBelow(t.subs[i], n, es);
    }
  }

  /** `delNode(n)` without deleting in all graphs: the walk with the incidence list of `n` in the view. */
  function DelNode(t: Tree, n: nat): (r: Tree)
    requires TreeValid(t) && n in t.g.data
    ensures TreeValid(r) && NodeGone(t, r, n, t.g.data[n].incidence)
  {
    assert IncidentList(t.g, n, t.g.data[n].incidence) by {
      forall x | x in t.g.edges ensures x in t.g.ends && (x in t.g.data[n].incidence <==> t.g.ends[x].0 == n || t.g.ends[x].1 == n) {
        Incident(t.g, n, x);
      }
    }
    DelNodeTree(t, n, t.g.data[n].incidence)
  }

  // ---------------------------------------------------------------------------
  // Adding to a view and its ancestors
  // ---------------------------------------------------------------------------

  /** The views from a child of the root down to a subgraph, each valid and within all those before it. */
  ghost predicate ChainValid(cs: seq<Graph>)
  {
    (forall i :: 0 <= i < |cs| ==> Valid(cs[i]))
    && forall i, j :: 0 <= j < i < |cs| ==> Nested(cs[i], cs[j])
  }

  /** `u` is `c` after `addNode(n)` reached it: unchanged when `n` is an element, otherwise with `n` restored. */
  ghost predicate NodeAdded(c: Graph, u: Graph, n: nat)
  {
    if n in c.data then u == c else u == RestoreNode(c, n)
  }

  /**
   `addNode(n)` on the last view of `cs`, `n` a node of the root: nothing
   when it is an element; otherwise the view above adds it first (the root
   itself, above the first view, holds it) and then this view restores it.
   */
  function AddNodeUp(cs: seq<Graph>, n: nat): (r: seq<Graph>)
    requires |cs| > 0 && ChainValid(cs)
    ensures |r| == |cs| && ChainValid(r)
    ensures forall i :: 0 <= i < |cs| ==> n in r[i].data && NodeAdded(cs[i], r[i], n)
    decreases |cs|
  {
    var last := cs[|cs| - 1];
    if n in last.data then
      NodeInAll(cs, n);
      cs
    else
      var pre := cs[..|cs| - 1];
      assert cs == pre + [last];
      ChainPrefix(pre, last);
      var up := if |pre| == 0 then [] else AddNodeUp(pre, n);
      AddNodeStep(pre, last, up, n);
      up + [RestoreNode(last, n)]
  }

  /** The views above the last one of a chain form a chain. */
  lemma ChainPrefix(pre: seq<Graph>, last: Graph)
    requires ChainValid(pre + [last])
    ensures ChainValid(pre)
  {
    var cs := pre + [last];
    forall i, j | 0 <= j < i < |pre| ensures Nested(pre[i], pre[j]) {
      assert Nested(cs[i], cs[j]);
    }
    forall i | 0 <= i < |pre| ensures Valid(pre[i]) {
      assert Valid(cs[i]);
    }
  }

  /** Restoring `n` in the last view of a chain whose other views have added it keeps the chain valid. */
  lemma AddNodeStep(pre: seq<Graph>, last: Graph, up: seq<Graph>, n: nat)
    requires ChainValid(pre + [last]) && |up| == |pre| && ChainValid(up) && n !in last.data
    requires forall i :: 0 <= i < |up| ==> n in up[i].data && NodeAdded(pre[i], up[i], n)
    ensures var r := up + [RestoreNode(last, n)];
            ChainValid(r) && forall i :: 0 <= i < |pre| + 1 ==> n in r[i].data && NodeAdded((pre + [last])[i], r[i], n)
  {
    var cs := pre + [last];
    assert Valid(cs[|pre|]);
    RestoreNodeValid(last, n);
    var x := RestoreNode(last, n);
    forall j | 0 <= j < |up| ensures Nested(x, up[j]) {
      assert Nested(cs[|pre|], cs[j]);
    }
    ChainSnoc(up, x);
    assert NodeAdded(last, x, n);
    NodeAddedSnoc(cs, up, x, n);
  }

  /** A valid view within every view of a chain extends it. */
  lemma ChainSnoc(cs: seq<Graph>, x: Graph)
    requires ChainValid(cs) && Valid(x) && forall j :: 0 <= j < |cs| ==> Nested(x, cs[j])
    ensures ChainValid(cs + [x])
  {
    var r := cs + [x];
    forall i, j | 0 <= j < i < |r| ensures Nested(r[i], r[j]) {
      if i < |cs| {
        assert Nested(cs[i], cs[j]);
      }
    }
  }

  lemma NodeAddedSnoc(cs: seq<Graph>, up: seq<Graph>, x: Graph, n: nat)
    requires |cs| == |up| + 1 && n in x.data && NodeAdded(cs[|up|], x, n)
    requires forall i :: 0 <= i < |up| ==> n in up[i].data && NodeAdded(cs[i], up[i], n)
    ensures forall i :: 0 <= i < |cs| ==> n in (up + [x])[i].data && NodeAdded(cs[i], (up + [x])[i], n)
  {
    var r := up + [x];
    forall i | 0 <= i < |cs| ensures n in r[i].data && NodeAdded(cs[i], r[i], n) {
      if i < |up| {
        assert r[i] == up[i];
      }
    }
  }

  /** `u` is `c` after `addEdge(e)` reached it: unchanged when `e` is an element, otherwise with `e` added internally. */
  ghost predicate EdgeAdded(c: Graph, u: Graph, e: nat)
  {
    if e in c.edges then u == c
    else e in c.ends && c.ends[e].0 in c.data && c.ends[e].1 in c.data && u == AddEdgeInternal(c, e)
  }

  /**
   `addEdge(e)` on the last view of `cs`, `e` an edge of the root whose
   ends are elements of that view: nothing when it is an element;
   otherwise the view above adds it first and this view then adds it.
   */
  function AddEdgeUp(cs: seq<Graph>, e: nat): (r: seq<Graph>)
    requires |cs| > 0 && ChainValid(cs)
    requires forall i :: 0 <= i < |cs| ==> e in cs[i].ends
    requires forall i :: 0 <= i < |cs| ==> cs[i].ends[e] == cs[|cs| - 1].ends[e]
    requires cs[|cs| - 1].ends[e].0 in cs[|cs| - 1].data && cs[|cs| - 1].ends[e].1 in cs[|cs| - 1].data
    ensures |r| == |cs| && ChainValid(r)
    ensures forall i :: 0 <= i < |cs| ==> e in r[i].edges && EdgeAdded(cs[i], r[i], e)
    decreases |cs|
  {
    var last := cs[|cs| - 1];
    if e in last.edges then
      EdgeInAll(cs, e);
      cs
    else
      var pre := cs[..|cs| - 1];
      assert cs == pre + [last];
      EdgeUpPrefix(pre, last, e);
      var up := if |pre| == 0 then [] else AddEdgeUp(pre, e);
      AddEdgeStep(pre, last, up, e);
      up + [AddEdgeInternal(last, e)]
  }

  /** The views above the last one of a chain meet what adding `e` to the last of them needs. */
  lemma EdgeUpPrefix(pre: seq<Graph>, last: Graph, e: nat)
    requires ChainValid(pre + [last]) && e in last.ends && last.ends[e].0 in last.data && last.ends[e].1 in last.data
    requires forall i :: 0 <= i < |pre| ==> e in pre[i].ends && pre[i].ends[e] == last.ends[e]
    ensures ChainValid(pre)
    ensures |pre| > 0 ==> pre[|pre| - 1].ends[e].0 in pre[|pre| - 1].data && pre[|pre| - 1].ends[e].1 in pre[|pre| - 1].data
  {
    var cs := pre + [last];
    ChainPrefix(pre, last);
    if |pre| > 0 {
      assert Nested(cs[|pre|], cs[|pre| - 1]);
    }
  }

  /** Adding `e` to the last view of a chain whose other views have added it keeps the chain valid. */
  lemma AddEdgeStep(pre: seq<Graph>, last: Graph, up: seq<Graph>, e: nat)
    requires ChainValid(pre + [last]) && |up| == |pre| && ChainValid(up)
    requires e in last.ends && e !in last.edges && last.ends[e].0 in last.data && last.ends[e].1 in last.data
    requires forall i :: 0 <= i < |pre| ==> e in pre[i].ends && pre[i].ends[e] == last.ends[e]
    requires forall i :: 0 <= i < |up| ==> e in up[i].edges && EdgeAdded(pre[i], up[i], e)
    ensures var r := up + [AddEdgeInternal(last, e)];
            ChainValid(r) && forall i :: 0 <= i < |pre| + 1 ==> e in r[i].edges && EdgeAdded((pre + [last])[i], r[i], e)
  {
    var cs := pre + [last];
    assert Valid(cs[|pre|]);
    AddEdgeValid(last, e);
    var x := AddEdgeInternal(last, e);
    forall j | 0 <= j < |up| ensures Nested(x, up[j]) {
      assert Nested(cs[|pre|], cs[j]);
      NestedAfterAdd(last, pre[j], up[j], e);
    }
    ChainSnoc(up, x);
    assert EdgeAdded(last, x, e);
    EdgeAddedSnoc(cs, up, x, e);
  }

  lemma EdgeAddedSnoc(cs: seq<Graph>, up: seq<Graph>, x: Graph, e: nat)
    requires |cs| == |up| + 1 && e in x.edges && EdgeAdded(cs[|up|], x, e)
    requires forall i :: 0 <= i < |up| ==> e in up[i].edges && EdgeAdded(cs[i], up[i], e)
    ensures forall i :: 0 <= i < |cs| ==> e in (up + [x])[i].edges && EdgeAdded(cs[i], (up + [x])[i], e)
  {
    var r := up + [x];
    forall i | 0 <= i < |cs| ensures e in r[i].edges && EdgeAdded(cs[i], r[i], e) {
      if i < |up| {
        assert r[i] == up[i];
      }
    }
  }

  /** A view with `e` added still lies within an ancestor that has added it too. */
  lemma NestedAfterAdd(last: Graph, c: Graph, u: Graph, e: nat)
    requires Nested(last, c) && EdgeAdded(c, u, e) && e in u.edges
    requires e in last.ends && last.ends[e].0 in last.data && last.ends[e].1 in last.data
    requires e in c.ends && c.ends[e] == last.ends[e]
    ensures Nested(AddEdgeInternal(last, e), u)
  {
  }

  /** A node of the last view of a chain is a node of every view. */
  lemma NodeInAll(cs: seq<Graph>, n: nat)
    requires |cs| > 0 && ChainValid(cs) && n in cs[|cs| - 1].data
    ensures forall i :: 0 <= i < |cs| ==> n in cs[i].data && NodeAdded(cs[i], cs[i], n)
  {
    forall i | 0 <= i < |cs| - 1 ensures n in cs[i].data {
      assert Nested(cs[|cs| - 1], cs[i]);
    }
  }

  /** An edge of the last view of a chain is an edge of every view. */
  lemma EdgeInAll(cs: seq<Graph>, e: nat)
    requires |cs| > 0 && ChainValid(cs) && e in cs[|cs| - 1].edges
    ensures forall i :: 0 <= i < |cs| ==> e in cs[i].edges && EdgeAdded(cs[i], cs[i], e)
  {
    forall i | 0 <= i < |cs| - 1 ensures e in cs[i].edges {
      assert Nested(cs[|cs| - 1], cs[i]);
    }
  }
}
