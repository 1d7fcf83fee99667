/**
 The edge and node iterators of a subgraph, GraphIterators.cpp. An edge
 iterator walks the root graph's out-, in- or in-out list of a node and
 keeps the edges that are elements of the view, always holding the next
 one (`curEdge`) ready; a node iterator maps each edge to its target,
 source or opposite end.
 */
module GraphIterators {
  import opened Wrappers
  import opened Seqs
  import opened Graphs
  import GraphViews

  datatype Direction = Out | In | InOut

  /** The root's list an iterator filters: `getOutEdges`, `getInEdges` or `getInOutEdges` of `n`. */
  function RootEdges(root: Graph, n: nat, dir: Direction): seq<nat>
    requires Valid(root) && n in root.data
  {
    match dir
    case Out => OutEdges(root, n)
    case In => InEdges(root, n)
    case InOut => InOutEdges(root, n)
  }

  /** The edges of a view, as a set. */
  function Elements(view: Graph): (s: set<nat>)
    ensures forall x :: x in s <==> x in view.edges
  {
    set x | x in view.edges
  }

  /** An edge iterator: the root edges not read yet and the pending edge, none once `curEdge` is invalid. */
  datatype EdgeIter = EdgeIter(rest: seq<nat>, cur: Option<nat>)

  /** The edges the iterator has still to yield: the pending one, then the elements among those not read. */
  function Pending(it: EdgeIter, view: Graph): seq<nat>
  {
    (if it.cur.Some? then [it.cur.value] else []) + KeepIn(it.rest, Elements(view))
  }

  /** `prepareNext`: root edges are read until one is an element of the view; none is pending once they run out. */
  function PrepareNext(rest: seq<nat>, view: Graph): (r: EdgeIter)
    ensures Pending(r, view) == KeepIn(rest, Elements(view))
    ensures r.cur.Some? ==> r.cur.value in view.edges && |r.rest| < |rest|
    ensures r.cur.None? ==> r.rest == []
    decreases |rest|
  {
    if |rest| == 0 then EdgeIter([], None)
    else if rest[0] in view.edges then EdgeIter(rest[1..], Some(rest[0]))
    else PrepareNext(rest[1..], view)
  }

  /** The constructor: the root's list of `n`, the first element already prepared. */
  function Start(root: Graph, view: Graph, n: nat, dir: Direction): (it: EdgeIter)
    requires Valid(root) && n in root.data
    ensures Pending(it, view) == KeepIn(RootEdges(root, n, dir), Elements(view))
  {
    PrepareNext(RootEdges(root, n, dir), view)
  }

  /** `hasNext`: an edge is pending. */
  predicate HasNext(it: EdgeIter)
  {
    it.cur.Some?
  }

  /** `hasNext` holds exactly when something is left to yield. */
  lemma HasNextIffPending(it: EdgeIter, view: Graph)
    requires it.cur.None? ==> it.rest == []
    ensures HasNext(it) <==> |Pending(it, view)| > 0
  {
  }

  /** `next`: the pending edge is returned and the following one prepared. */
  function Next(it: EdgeIter, view: Graph): (r: (nat, EdgeIter))
    requires HasNext(it)
    ensures r.0 == Pending(it, view)[0] && Pending(r.1, view) == Pending(it, view)[1..]
    ensures r.1.cur.None? ==> r.1.rest == []
  {
    (it.cur.value, PrepareNext(it.rest, view))
  }

  /** How many steps the iterator may still take. */
  function Steps(it: EdgeIter): nat
  {
    |it.rest| + if it.cur.Some? then 1 else 0
  }

  /** Draining an iterator with `hasNext`/`next` yields what it has pending, in order. */
  method Drain(start: EdgeIter, view: Graph) returns (ys: seq<nat>)
    requires start.cur.None? ==> start.rest == []
    ensures ys == Pending(start, view)
  {
    var it := start;
    ys := [];
    while HasNext(it)
      invariant ys + Pending(it, view) == Pending(start, view)
      invariant it.cur.None? ==> it.rest == []
      decreases Steps(it)
    {
      var p := Pending(it, view);
      var (e, it') := Next(it, view);
      assert p == [e] + Pending(it', view);
      assert (ys + [e]) + Pending(it', view) == ys + p;
      ys := ys + [e];
      it := it';
    }
  }

  /**
   An edge iterator of the view over `n`, drained: the root's edges of `n`
   in the given direction that are elements of the view, in root order.
   */
  method DrainEdges(root: Graph, view: Graph, n: nat, dir: Direction) returns (ys: seq<nat>)
    requires Valid(root) && n in root.data
    ensures ys == KeepIn(RootEdges(root, n, dir), Elements(view))
  {
    ys := Drain(Start(root, view, n, dir), view);
  }

  /**
   For a view lying within the root, the out-edges (in-edges) an iterator
   yields are exactly the view's edges leaving (entering) `n`, each once.
   */
  lemma DrainedOutIn(root: Graph, view: Graph, n: nat, dir: Direction)
    requires Valid(root) && n in root.data && GraphViews.Nested(view, root) && dir != InOut
    ensures var ys := KeepIn(RootEdges(root, n, dir), Elements(view));
            Distinct(ys) && forall e :: e in ys <==> e in view.edges && End(view, e, dir == Out) == n
  {
    var ys := KeepIn(RootEdges(root, n, dir), Elements(view));
    GraphViews.SubseqDistinct(ys, RootEdges(root, n, dir));
  }

  /** The in-out edges yielded are exactly the view's edges with an end at `n`. */
  lemma DrainedInOut(root: Graph, view: Graph, n: nat)
    requires Valid(root) && n in root.data && GraphViews.Nested(view, root)
    ensures forall e :: e in KeepIn(RootEdges(root, n, InOut), Elements(view)) <==>
                          e in view.edges && (view.ends[e].0 == n || view.ends[e].1 == n)
  {
  }

  /** The node a node iterator yields for an edge: its target, its source, or its end opposite `n`. */
  function NodeOf(g: Graph, e: nat, n: nat, dir: Direction): nat
    requires e in g.ends
  {
    match dir
    case Out => g.ends[e].1
    case In => g.ends[e].0
    case InOut => Opposite(g, e, n)
  }

  /** `OutNodesIterator`, `InNodesIterator`, `InOutNodesIterator`: each yielded edge mapped to a node. */
  function NodesOf(g: Graph, es: seq<nat>, n: nat, dir: Direction): (r: seq<nat>)
    requires forall e :: e in es ==> e in g.ends
    ensures |r| == |es| && forall i :: 0 <= i < |es| ==> r[i] == NodeOf(g, es[i], n, dir)
    decreases |es|
  {
    if |es| == 0 then []
    else [NodeOf(g, es[0], n, dir)] + NodesOf(g, es[1..], n, dir)
  }

  /**
   Every node a node iterator yields is an element of the view, and it is
   the other end of the edge it came from.
   */
  lemma NodesAreElements(root: Graph, view: Graph, n: nat, dir: Direction)
    requires Valid(root) && Valid(view) && n in root.data && GraphViews.Nested(view, root)
    ensures var es := KeepIn(RootEdges(root, n, dir), Elements(view));
            (forall e :: e in es ==> e in view.ends)
            && forall i :: 0 <= i < |es| ==> NodesOf(view, es, n, dir)[i] in view.data
                                              && (dir == Out ==> view.ends[es[i]] == (n, NodesOf(view, es, n, dir)[i]))
                                              && (dir == In ==> view.ends[es[i]] == (NodesOf(view, es, n, dir)[i], n))
  {
    var es := KeepIn(RootEdges(root, n, dir), Elements(view));
    var ns := NodesOf(view, es, n, dir);
    if dir != InOut {
      DrainedOutIn(root, view, n, dir);
    }
    forall i | 0 <= i < |es|
      ensures ns[i] in view.data
      ensures dir == Out ==> view.ends[es[i]] == (n, ns[i])
      ensures dir == In ==> view.ends[es[i]] == (ns[i], n)
    {
      assert es[i] in es && es[i] in view.edges;
    }
  }
}
