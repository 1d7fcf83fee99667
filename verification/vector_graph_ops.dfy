/**
 The queries and reorderings of VectorGraph.cpp that leave the set of
 nodes and edges alone: `opposite`, `swapEdgeOrder`, `setEdgeOrder`,
 `existEdge`, the out/in iterators of a node's adjacency, and the two
 bulk removals `delAllEdges` and `delAllNodes`.
 */
module VectorGraphOps {
  import opened Wrappers
  import opened IdManager
  import opened IdContainers
  import opened VectorGraphs

  /** `n` is an end of edge `e`. */
  predicate Incident(g: VGraph, e: nat, n: nat)
    requires e < |g.eData|
  {
    g.eData[e].src == n || g.eData[e].tgt == n
  }

  // ---------------------------------------------------------------------------
  // opposite
  // ---------------------------------------------------------------------------

  /** `opposite(e, n)`: the end of `e` that is not `n` (`n` itself for a loop). */
  function Opposite(g: VGraph, e: nat, n: nat): (r: nat)
    requires VValid(g) && IsEdge(g, e) && IsNode(g, n) && Incident(g, e, n)
    ensures IsNode(g, r) && {n, r} == {g.eData[e].src, g.eData[e].tgt}
  {
    assert EdgeOk(g, e);
    if g.eData[e].src == n then g.eData[e].tgt else g.eData[e].src
  }

  /** The opposite node a slot records is the edge's opposite end. */
  lemma OppositeSlot(g: VGraph, n: nat, j: nat)
    requires VValid(g) && IsNode(g, n) && n < |g.nData| && j < |g.nData[n].adj|
    ensures var s := g.nData[n].adj[j];
            IsEdge(g, s.e) && s.e < |g.eData| && Incident(g, s.e, n) && Opposite(g, s.e, n) == s.opp
  {
    assert SlotOk(g, n, j);
  }

  /** The opposite of the opposite is where one started. */
  lemma OppositeTwice(g: VGraph, e: nat, n: nat)
    requires VValid(g) && IsEdge(g, e) && IsNode(g, n) && Incident(g, e, n)
    ensures var m := Opposite(g, e, n); Incident(g, e, m) && Opposite(g, e, m) == n
  {
  }

  // ---------------------------------------------------------------------------
  // swapEdgeOrder
  // ---------------------------------------------------------------------------

  /** The position of `e` in the adjacency of its end `n`: the source's position when `n` is the source. */
  function PosAt(g: VGraph, e: nat, n: nat): nat
    requires e < |g.eData|
  {
    if g.eData[e].src == n then g.eData[e].srcPos else g.eData[e].tgtPos
  }

  /** The edges of an adjacency, in order. */
  function EdgeOrder(s: seq<Slot>): (r: seq<nat>)
    ensures |r| == |s| && forall j :: 0 <= j < |s| ==> r[j] == s[j].e
  {
    if |s| == 0 then [] else EdgeOrder(s[..|s| - 1]) + [s[|s| - 1].e]
  }

  lemma PosAtSlot(g: VGraph, e: nat, n: nat)
    requires VValid(g) && IsEdge(g, e) && Incident(g, e, n)
    ensures n < |g.nData| && PosAt(g, e, n) < |g.nData[n].adj|
    ensures g.nData[n].adj[PosAt(g, e, n)].e == e && g.nData[n].adj[PosAt(g, e, n)].out == (g.eData[e].src == n)
  {
    assert EdgeOk(g, e);
  }

  /** The recorded position of the end at `n` becomes `p`. */
  function MovedTo(d: VEdge, n: nat, p: nat): VEdge
  {
    if d.src == n then d.(srcPos := p) else d.(tgtPos := p)
  }

  /** The exchange of the two slots and of the two recorded positions. */
  function Exchange(g: VGraph, n: nat, e1: nat, e2: nat): (r: VGraph)
    requires n < |g.nData| && e1 < |g.eData| && e2 < |g.eData|
    requires PosAt(g, e1, n) < |g.nData[n].adj| && PosAt(g, e2, n) < |g.nData[n].adj|
  {
    var i1 := PosAt(g, e1, n);
    var i2 := PosAt(g, e2, n);
    var a := g.nData[n].adj;
    var ed := g.eData[e1 := MovedTo(g.eData[e1], n, i2)];
    g.(nData := g.nData[n := g.nData[n].(adj := a[i1 := a[i2]][i2 := a[i1]])],
       eData := ed[e2 := MovedTo(g.eData[e2], n, i1)])
  }

  /** What `Exchange` builds for two distinct edges at `n`. */
  ghost predicate Swapped(g: VGraph, n: nat, e1: nat, e2: nat, r: VGraph)
  {
    VValid(g) && IsNode(g, n) && n < |g.nData| && IsEdge(g, e1) && IsEdge(g, e2) && e1 != e2
    && e1 < |g.eData| && e2 < |g.eData| && Incident(g, e1, n) && Incident(g, e2, n)
    && var a := g.nData[n].adj;
       var i1 := PosAt(g, e1, n);
       var i2 := PosAt(g, e2, n);
       i1 < |a| && i2 < |a| && a[i1].e == e1 && a[i2].e == e2
       && a[i1].out == (g.eData[e1].src == n) && a[i2].out == (g.eData[e2].src == n)
       && r.nodes == g.nodes && r.edges == g.edges && |r.nData| == |g.nData| && |r.eData| == |g.eData|
       && (forall y :: 0 <= y < |g.nData| && y != n ==> r.nData[y] == g.nData[y])
       && r.nData[n] == g.nData[n].(adj := a[i1 := a[i2]][i2 := a[i1]])
       && (forall f :: 0 <= f < |g.eData| && f != e1 && f != e2 ==> r.eData[f] == g.eData[f])
       && r.eData[e1] == MovedTo(g.eData[e1], n, i2) && r.eData[e2] == MovedTo(g.eData[e2], n, i1)
  }

  lemma SwapSlot(g: VGraph, n: nat, e1: nat, e2: nat, r: VGraph, y: nat, j: nat)
    requires Swapped(g, n, e1, e2, r) && IsNode(r, y) && y < |r.nData| && j < |r.nData[y].adj|
    ensures SlotOk(r, y, j)
  {
    var i1 := PosAt(g, e1, n);
    var i2 := PosAt(g, e2, n);
    if y != n {
      assert SlotOk(g, y, j);
    } else if j == i1 {
      assert SlotOk(g, n, i2);
    } else if j == i2 {
      assert SlotOk(g, n, i1);
    } else {
      assert SlotOk(g, n, j);
    }
  }

  lemma SwapEdge(g: VGraph, n: nat, e1: nat, e2: nat, r: VGraph, f: nat)
    requires Swapped(g, n, e1, e2, r) && IsEdge(r, f) && f < |r.eData|
    ensures EdgeOk(r, f)
  {
    assert EdgeOk(g, f);
    assert SlotOk(g, n, PosAt(g, e1, n));
    assert SlotOk(g, n, PosAt(g, e2, n));
  }

  lemma SwapDeg(g: VGraph, n: nat, e1: nat, e2: nat, r: VGraph)
    requires Swapped(g, n, e1, e2, r)
    ensures CountOut(r.nData[n].adj) == CountOut(g.nData[n].adj)
    ensures multiset(r.nData[n].adj) == multiset(g.nData[n].adj)
  {
    var a := g.nData[n].adj;
    var i1 := PosAt(g, e1, n);
    var i2 := PosAt(g, e2, n);
    CountOutUpdate(a, i1, a[i2]);
    CountOutUpdate(a[i1 := a[i2]], i2, a[i1]);
  }

  lemma SwapValid(g: VGraph, n: nat, e1: nat, e2: nat, r: VGraph)
    requires Swapped(g, n, e1, e2, r)
    ensures VValid(r)
  {
    forall y: nat, j | IsNode(r, y) && 0 <= j < |r.nData[y].adj| ensures SlotOk(r, y, j) {
      SwapSlot(g, n, e1, e2, r, y, j);
    }
    forall f: nat | IsEdge(r, f) ensures EdgeOk(r, f) {
      SwapEdge(g, n, e1, e2, r, f);
    }
    SwapDeg(g, n, e1, e2, r);
    forall y: nat | IsNode(r, y) ensures DegOk(r, y) {
      assert DegOk(g, y);
    }
  }

  /**
   `swapEdgeOrder(n, e1, e2)`: the two edges exchange their places in the
   adjacency of `n`; nothing happens when they are the same edge.
   */
  function SwapEdgeOrder(g: VGraph, n: nat, e1: nat, e2: nat): (r: VGraph)
    requires VValid(g) && IsNode(g, n) && IsEdge(g, e1) && IsEdge(g, e2) && Incident(g, e1, n) && Incident(g, e2, n)
    ensures VValid(r)
    ensures r.nodes == g.nodes && r.edges == g.edges && |r.nData| == |g.nData| && SameEnds(g, r)
    ensures e1 == e2 ==> r == g
    ensures forall y :: 0 <= y < |g.nData| && y != n ==> r.nData[y] == g.nData[y]
    ensures r.nData[n].outdeg == g.nData[n].outdeg && multiset(r.nData[n].adj) == multiset(g.nData[n].adj)
    ensures e1 != e2 ==> PosAt(r, e1, n) == PosAt(g, e2, n) && PosAt(r, e2, n) == PosAt(g, e1, n)
  {
    if e1 == e2 then g
    else
      PosAtSlot(g, e1, n);
      PosAtSlot(g, e2, n);
      var r := Exchange(g, n, e1, e2);
      assert Swapped(g, n, e1, e2, r);
      SwapValid(g, n, e1, e2, r);
      SwapDeg(g, n, e1, e2, r);
      r
  }

  /** The two edges trade places in the order of the adjacency of `n`. */
  lemma SwapEdgeOrderTrades(g: VGraph, n: nat, e1: nat, e2: nat)
    requires VValid(g) && IsNode(g, n) && IsEdge(g, e1) && IsEdge(g, e2) && Incident(g, e1, n) && Incident(g, e2, n)
    ensures n < |g.nData| && PosAt(g, e1, n) < |g.nData[n].adj| && PosAt(g, e2, n) < |g.nData[n].adj|
    ensures EdgeOrder(SwapEdgeOrder(g, n, e1, e2).nData[n].adj)
            == EdgeOrder(g.nData[n].adj)[PosAt(g, e1, n) := e2][PosAt(g, e2, n) := e1]
  {
    PosAtSlot(g, e1, n);
    PosAtSlot(g, e2, n);
    if e1 != e2 {
      var r := Exchange(g, n, e1, e2);
      assert SwapEdgeOrder(g, n, e1, e2) == r;
    }
  }

  /** Swapping twice gives the graph back. */
  lemma SwapEdgeOrderTwice(g: VGraph, n: nat, e1: nat, e2: nat)
    requires VValid(g) && IsNode(g, n) && IsEdge(g, e1) && IsEdge(g, e2) && Incident(g, e1, n) && Incident(g, e2, n)
    ensures var h := SwapEdgeOrder(g, n, e1, e2);
            e1 < |h.eData| && e2 < |h.eData| && Incident(h, e1, n) && Incident(h, e2, n)
            && SwapEdgeOrder(h, n, e1, e2) == g
  {
    if e1 != e2 {
      PosAtSlot(g, e1, n);
      PosAtSlot(g, e2, n);
      var h := SwapEdgeOrder(g, n, e1, e2);
      PosAtSlot(h, e1, n);
      PosAtSlot(h, e2, n);
      ExchangeBack(g, n, e1, e2, h, SwapEdgeOrder(h, n, e1, e2));
    }
  }

  lemma ExchangeBack(g: VGraph, n: nat, e1: nat, e2: nat, h: VGraph, t: VGraph)
    requires n < |g.nData| && e1 < |g.eData| && e2 < |g.eData| && e1 != e2
    requires PosAt(g, e1, n) < |g.nData[n].adj| && PosAt(g, e2, n) < |g.nData[n].adj|
    requires h == Exchange(g, n, e1, e2)
    requires PosAt(h, e1, n) < |h.nData[n].adj| && PosAt(h, e2, n) < |h.nData[n].adj|
    requires t == Exchange(h, n, e1, e2)
    ensures t == g
  {
    assert t.eData == g.eData;
    assert t.nData[n].adj == g.nData[n].adj;
    assert t.nData == g.nData;
  }

  // ---------------------------------------------------------------------------
  // setEdgeOrder
  // ---------------------------------------------------------------------------

  /**
   What the loop of `setEdgeOrder` reads: the slots `0 .. |v| - 2` of `n`,
   and the entries `v[0 .. |v| - 2]`, each an edge at `n`.
   */
  ghost predicate OrderFor(g: VGraph, n: nat, v: seq<nat>)
    requires n < |g.nData|
  {
    |v| <= |g.nData[n].adj| + 1
    && forall k :: 0 <= k < |v| - 1 ==> IsEdge(g, v[k]) && v[k] < |g.eData| && Incident(g, v[k], n)
  }

  /**
   The loop of `setEdgeOrder` from index `i`: the edge in slot `i` trades
   places with `v[i]`, for every `i` up to the next-to-last entry of `v`.
   */
  function OrderFrom(g: VGraph, n: nat, v: seq<nat>, i: nat): (r: VGraph)
    requires VValid(g) && IsNode(g, n) && n < |g.nData| && OrderFor(g, n, v) && i <= |v|
    ensures VValid(r) && r.nodes == g.nodes && r.edges == g.edges && |r.nData| == |g.nData| && SameEnds(g, r)
    ensures forall y :: 0 <= y < |g.nData| && y != n ==> r.nData[y] == g.nData[y]
    ensures r.nData[n].outdeg == g.nData[n].outdeg && multiset(r.nData[n].adj) == multiset(g.nData[n].adj)
    decreases |v| - i
  {
    if i + 1 >= |v| then g
    else
      assert SlotOk(g, n, i);
      var h := SwapEdgeOrder(g, n, g.nData[n].adj[i].e, v[i]);
      assert |h.nData[n].adj| == |multiset(h.nData[n].adj)|;
      OrderFrom(h, n, v, i + 1)
  }

  /**
   `setEdgeOrder(n, v)` with the loop bound read as intended: nothing to
   do for fewer than two entries.
   */
  function SetEdgeOrder(g: VGraph, n: nat, v: seq<nat>): (r: VGraph)
    requires VValid(g) && IsNode(g, n) && n < |g.nData| && OrderFor(g, n, v)
    ensures VValid(r) && r.nodes == g.nodes && r.edges == g.edges && |r.nData| == |g.nData| && SameEnds(g, r)
    ensures forall y :: 0 <= y < |g.nData| && y != n ==> r.nData[y] == g.nData[y]
    ensures r.nData[n].outdeg == g.nData[n].outdeg && multiset(r.nData[n].adj) == multiset(g.nData[n].adj)
    ensures |v| <= 1 ==> r == g
  {
    OrderFrom(g, n, v, 0)
  }

  /** `size_t` arithmetic is modulo 2^64. */
  const SizeModulus: int := 0x1_0000_0000_0000_0000

  /**
   `setEdgeOrder(n, v)` as written: the bound `v.size() - 1` is computed
   in `size_t`, so for an empty `v` it is the largest `size_t` and the
   first iteration reads `v[0]`, past the end (`None`).
   */
  function SetEdgeOrderAsWritten(g: VGraph, n: nat, v: seq<nat>): (r: Option<VGraph>)
    requires VValid(g) && IsNode(g, n) && n < |g.nData| && OrderFor(g, n, v)
    ensures r == None <==> |v| == 0
    ensures r.Some? ==> r.value == SetEdgeOrder(g, n, v)
  {
    var bound := (|v| - 1) % SizeModulus;
    if 0 < bound && |v| == 0 then None else Some(SetEdgeOrder(g, n, v))
  }

  /** An empty order for a node without edges: the loop as written reads past the end, the intended one does nothing. */
  lemma SetEdgeOrderAsWrittenEmpty()
    ensures var a := AddNode(EmptyGraph);
            a.n < |a.g.nData| && OrderFor(a.g, a.n, [])
            && SetEdgeOrderAsWritten(a.g, a.n, []) == None && SetEdgeOrder(a.g, a.n, []) == a.g
  {
    EmptyValid();
  }

  /** `n` has no loop: no slot of it leads back to it. */
  ghost predicate NoLoopAt(g: VGraph, n: nat)
    requires n < |g.nData|
  {
    forall s :: s in g.nData[n].adj ==> s.opp != n
  }

  ghost predicate Distinct(v: seq<nat>)
  {
    forall k, l :: 0 <= k < l < |v| ==> v[k] != v[l]
  }

  /** `v` lists every edge at `n` once, and `n` has no loop. */
  ghost predicate Arrangement(g: VGraph, n: nat, v: seq<nat>)
    requires n < |g.nData|
  {
    |v| == |g.nData[n].adj| && Distinct(v) && NoLoopAt(g, n)
    && forall k :: 0 <= k < |v| ==> IsEdge(g, v[k]) && v[k] < |g.eData| && Incident(g, v[k], n)
  }

  lemma {:induction false} OrderFromPlaces(g: VGraph, n: nat, v: seq<nat>, i: nat)
    requires VValid(g) && IsNode(g, n) && n < |g.nData| && Arrangement(g, n, v) && i <= |v|
    requires forall k :: 0 <= k < i ==> g.nData[n].adj[k].e == v[k]
    ensures OrderFor(g, n, v) && EdgeOrder(OrderFrom(g, n, v, i).nData[n].adj) == v
    decreases |v| - i
  {
    if i + 1 >= |v| {
      OrderLast(g, n, v, i);
    } else {
      OrderStep(g, n, v, i);
      OrderFromPlaces(SwapEdgeOrder(g, n, g.nData[n].adj[i].e, v[i]), n, v, i + 1);
    }
  }

  /** An exchange keeps the slots of `n`, so `v` still lists them. */
  lemma SwapKeepsArrangement(g: VGraph, n: nat, e1: nat, e2: nat, v: seq<nat>)
    requires VValid(g) && IsNode(g, n) && IsEdge(g, e1) && IsEdge(g, e2) && Incident(g, e1, n) && Incident(g, e2, n)
    requires n < |g.nData| && Arrangement(g, n, v)
    ensures Arrangement(SwapEdgeOrder(g, n, e1, e2), n, v)
  {
    var h := SwapEdgeOrder(g, n, e1, e2);
    assert |h.nData[n].adj| == |multiset(h.nData[n].adj)|;
    forall s | s in h.nData[n].adj ensures s.opp != n {
      assert s in multiset(h.nData[n].adj);
    }
  }

  /** With all but the last entry placed, the last one is placed too. */
  lemma OrderLast(g: VGraph, n: nat, v: seq<nat>, i: nat)
    requires VValid(g) && IsNode(g, n) && n < |g.nData| && Arrangement(g, n, v) && i <= |v| && i + 1 >= |v|
    requires forall k :: 0 <= k < i ==> g.nData[n].adj[k].e == v[k]
    ensures EdgeOrder(g.nData[n].adj) == v
  {
    var a := g.nData[n].adj;
    if |v| > 0 {
      var last := |v| - 1;
      PosAtSlot(g, v[last], n);
      forall k | 0 <= k < last ensures a[k].e != v[last] {
        assert a[k].e == v[k];
      }
    }
  }

  /** One turn of the loop places `v[i]` in slot `i` and keeps the earlier ones. */
  lemma OrderStep(g: VGraph, n: nat, v: seq<nat>, i: nat)
    requires VValid(g) && IsNode(g, n) && n < |g.nData| && Arrangement(g, n, v) && i + 1 < |v|
    requires forall k :: 0 <= k < i ==> g.nData[n].adj[k].e == v[k]
    ensures var e1 := g.nData[n].adj[i].e;
            IsEdge(g, e1) && e1 < |g.eData| && Incident(g, e1, n)
            && var h := SwapEdgeOrder(g, n, e1, v[i]);
               Arrangement(h, n, v) && forall k :: 0 <= k < i + 1 ==> h.nData[n].adj[k].e == v[k]
  {
    var a := g.nData[n].adj;
    var e1 := a[i].e;
    assert SlotOk(g, n, i);
    assert a[i] in a;
    assert PosAt(g, e1, n) == i;
    PosAtSlot(g, v[i], n);
    forall k | 0 <= k < i ensures a[k].e != v[i] {
      assert a[k].e == v[k];
    }
    var h := SwapEdgeOrder(g, n, e1, v[i]);
    SwapEdgeOrderTrades(g, n, e1, v[i]);
    SwapKeepsArrangement(g, n, e1, v[i], v);
    forall k | 0 <= k < i + 1 ensures h.nData[n].adj[k].e == v[k] {
      assert EdgeOrder(h.nData[n].adj)[k] == h.nData[n].adj[k].e;
    }
  }

  /**
   When `v` lists every edge at `n` once and `n` has no loop, the
   adjacency of `n` ends up in the order of `v`.
   */
  lemma SetEdgeOrderArranges(g: VGraph, n: nat, v: seq<nat>)
    requires VValid(g) && IsNode(g, n) && n < |g.nData| && Arrangement(g, n, v)
    ensures OrderFor(g, n, v) && EdgeOrder(SetEdgeOrder(g, n, v).nData[n].adj) == v
  {
    OrderFromPlaces(g, n, v, 0);
  }

  // ---------------------------------------------------------------------------
  // existEdge
  // ---------------------------------------------------------------------------

  /** Edge `e` goes from `src` to `tgt`, or from `tgt` to `src` when the direction does not count. */
  ghost predicate Joins(g: VGraph, e: nat, src: nat, tgt: nat, directed: bool)
    requires e < |g.eData|
  {
    var d := g.eData[e];
    (d.src == src && d.tgt == tgt) || (!directed && d.src == tgt && d.tgt == src)
  }

  /** The slot a scan looks for: it leads to `other`, in direction `sens` unless any direction will do. */
  predicate Hit(s: Slot, other: nat, sens: bool, directed: bool)
  {
    s.opp == other && (!directed || s.out == sens)
  }

  /**
   `existEdge(src, tgt, directed)`: scans the shorter of the two
   adjacencies (the source's on a tie) for a slot leading to the other
   end, outgoing from `src` or incoming at `tgt` when `directed`; the
   edge of the first such slot, or none.
   */
  method ExistEdge(g: VGraph, src: nat, tgt: nat, directed: bool) returns (r: Option<nat>)
    requires VValid(g) && IsNode(g, src) && IsNode(g, tgt)
    ensures r.Some? ==> IsEdge(g, r.value) && r.value < |g.eData| && Joins(g, r.value, src, tgt, directed)
    ensures r.None? ==> forall e: nat :: IsEdge(g, e) && e < |g.eData| ==> !Joins(g, e, src, tgt, directed)
  {
    var srcAdj := g.nData[src].adj;
    var tgtAdj := g.nData[tgt].adj;
    if |tgtAdj| < |srcAdj| {
      var i := 0;
      while i < |tgtAdj|
        invariant 0 <= i <= |tgtAdj|
        invariant forall k :: 0 <= k < i ==> !Hit(tgtAdj[k], src, false, directed)
      {
        if Hit(tgtAdj[i], src, false, directed) {
          assert SlotOk(g, tgt, i);
          return Some(tgtAdj[i].e);
        }
        i := i + 1;
      }
      forall e: nat | IsEdge(g, e) && e < |g.eData| ensures !Joins(g, e, src, tgt, directed) {
        assert EdgeOk(g, e);
      }
    } else {
      var i := 0;
      while i < |srcAdj|
        invariant 0 <= i <= |srcAdj|
        invariant forall k :: 0 <= k < i ==> !Hit(srcAdj[k], tgt, true, directed)
      {
        if Hit(srcAdj[i], tgt, true, directed) {
          assert SlotOk(g, src, i);
          return Some(srcAdj[i].e);
        }
        i := i + 1;
      }
      forall e: nat | IsEdge(g, e) && e < |g.eData| ensures !Joins(g, e, src, tgt, directed) {
        assert EdgeOk(g, e);
      }
    }
    return None;
  }

  // ---------------------------------------------------------------------------
  // The out/in iterators (bInOutEdgeIterator, bInOutNodeIterator)
  // ---------------------------------------------------------------------------

  /** The slots of an adjacency in direction `sens`, in order. */
  function Sens(adj: seq<Slot>, sens: bool): (r: seq<Slot>)
    ensures |r| <= |adj|
  {
    if |adj| == 0 then []
    else
      var last := adj[|adj| - 1];
      Sens(adj[..|adj| - 1], sens) + (if last.out == sens then [last] else [])
  }

  /** The slots in direction `sens` are exactly the slots of the adjacency going that way. */
  lemma {:induction false} SensMembers(adj: seq<Slot>, sens: bool)
    ensures forall s :: s in Sens(adj, sens) <==> s in adj && s.out == sens
  {
    if |adj| > 0 {
      var last := adj[|adj| - 1];
      SensMembers(adj[..|adj| - 1], sens);
      assert adj == adj[..|adj| - 1] + [last];
    }
  }

  /** There are as many outgoing slots as `CountOut` says, and the rest are incoming. */
  lemma {:induction false} SensCount(adj: seq<Slot>)
    ensures |Sens(adj, true)| == CountOut(adj) && |Sens(adj, false)| == |adj| - CountOut(adj)
  {
    if |adj| > 0 {
      SensCount(adj[..|adj| - 1]);
    }
  }

  /** The slots in direction `sens` of a prefix come first among those of the whole. */
  lemma {:induction false} SensPrefix(adj: seq<Slot>, sens: bool, i: nat)
    requires i <= |adj|
    ensures |Sens(adj[..i], sens)| <= |Sens(adj, sens)| && Sens(adj, sens)[..|Sens(adj[..i], sens)|] == Sens(adj[..i], sens)
    decreases |adj| - i
  {
    if i < |adj| {
      var front := adj[..|adj| - 1];
      assert front[..i] == adj[..i];
      SensPrefix(front, sens, i);
    } else {
      assert adj[..i] == adj;
    }
  }

  /** One more slot of the prefix adds itself to the slots in direction `sens` when it goes that way. */
  lemma SensStep(adj: seq<Slot>, sens: bool, i: nat)
    requires i < |adj|
    ensures Sens(adj[..i + 1], sens) == Sens(adj[..i], sens) + (if adj[i].out == sens then [adj[i]] else [])
  {
    assert adj[..i + 1][..i] == adj[..i];
  }

  /**
   The iterators over one direction of an adjacency: they skip the slots
   of the other direction and stop after `elem` slots; the edge iterator
   yields their `e`, the node iterator their `opp`.
   */
  method InOutSlots(adj: seq<Slot>, sens: bool, elem: nat) returns (r: seq<Slot>)
    ensures |r| == if elem < |Sens(adj, sens)| then elem else |Sens(adj, sens)|
    ensures r == Sens(adj, sens)[..|r|]
  {
    var i := 0;
    var left := elem;
    r := [];
    while i < |adj| && left > 0
      invariant 0 <= i <= |adj| && r == Sens(adj[..i], sens) && |r| + left == elem
      decreases |adj| - i
    {
      SensStep(adj, sens, i);
      if adj[i].out == sens {
        r := r + [adj[i]];
        left := left - 1;
      }
      i := i + 1;
    }
    SensTaken(adj, sens, i, elem);
  }

  /** Where the scan of `InOutSlots` stops, what it collected is the first `elem` slots in direction `sens`, or all of them. */
  lemma SensTaken(adj: seq<Slot>, sens: bool, i: nat, elem: nat)
    requires i <= |adj| && |Sens(adj[..i], sens)| <= elem
    requires i == |adj| || |Sens(adj[..i], sens)| == elem
    ensures var r := Sens(adj[..i], sens);
            |r| == (if elem < |Sens(adj, sens)| then elem else |Sens(adj, sens)|) && r == Sens(adj, sens)[..|r|]
  {
    SensPrefix(adj, sens, i);
    if i == |adj| {
      assert adj[..i] == adj;
    }
  }

  /** The source of `e` for `sens`, its target otherwise. */
  function End(g: VGraph, e: nat, sens: bool): nat
    requires e < |g.eData|
  {
    if sens then g.eData[e].src else g.eData[e].tgt
  }

  /** The slots of `n` in direction `sens` are exactly those of the edges with that end at `n`. */
  lemma SensSlots(g: VGraph, n: nat, sens: bool)
    requires VValid(g) && IsNode(g, n) && n < |g.nData|
    ensures forall s :: s in Sens(g.nData[n].adj, sens) ==>
              IsEdge(g, s.e) && s.e < |g.eData| && End(g, s.e, sens) == n && End(g, s.e, !sens) == s.opp
    ensures forall e: nat :: IsEdge(g, e) && e < |g.eData| && End(g, e, sens) == n ==>
              Slot(e, End(g, e, !sens), sens) in Sens(g.nData[n].adj, sens)
  {
    var adj := g.nData[n].adj;
    SensMembers(adj, sens);
    forall s | s in Sens(adj, sens) ensures IsEdge(g, s.e) && s.e < |g.eData| && End(g, s.e, sens) == n && End(g, s.e, !sens) == s.opp {
      var j :| 0 <= j < |adj| && adj[j] == s;
      assert SlotOk(g, n, j);
    }
    forall e: nat | IsEdge(g, e) && e < |g.eData| && End(g, e, sens) == n ensures Slot(e, End(g, e, !sens), sens) in Sens(adj, sens) {
      assert EdgeOk(g, e);
      if sens {
        assert adj[g.eData[e].srcPos] in adj;
      } else {
        assert adj[g.eData[e].tgtPos] in adj;
      }
    }
  }

  /** The number of slots an iterator of direction `sens` is given: `outdeg(n)` or `indeg(n)`, which count them. */
  function Elem(g: VGraph, n: nat, sens: bool): (r: nat)
    requires VValid(g) && IsNode(g, n) && n < |g.nData|
    ensures r == |Sens(g.nData[n].adj, sens)|
  {
    assert DegOk(g, n);
    SensCount(g.nData[n].adj);
    if sens then g.nData[n].outdeg else InDeg(g, n)
  }

  /** The other ends recorded in an adjacency, in order. */
  function OppOrder(s: seq<Slot>): (r: seq<nat>)
    ensures |r| == |s| && forall j :: 0 <= j < |s| ==> r[j] == s[j].opp
  {
    if |s| == 0 then [] else OppOrder(s[..|s| - 1]) + [s[|s| - 1].opp]
  }

  lemma SensEdges(g: VGraph, n: nat, sens: bool)
    requires VValid(g) && IsNode(g, n) && n < |g.nData|
    ensures forall e: nat :: e in EdgeOrder(Sens(g.nData[n].adj, sens)) <==> IsEdge(g, e) && e < |g.eData| && End(g, e, sens) == n
  {
    var slots := Sens(g.nData[n].adj, sens);
    var r := EdgeOrder(slots);
    SensSlots(g, n, sens);
    forall e: nat | e in r ensures IsEdge(g, e) && e < |g.eData| && End(g, e, sens) == n {
      var k :| 0 <= k < |r| && r[k] == e;
      assert slots[k] in slots;
    }
    forall e: nat | IsEdge(g, e) && e < |g.eData| && End(g, e, sens) == n ensures e in r {
      var k :| 0 <= k < |slots| && slots[k] == Slot(e, End(g, e, !sens), sens);
      assert r[k] == e;
    }
  }

  lemma SensNodes(g: VGraph, n: nat, sens: bool)
    requires VValid(g) && IsNode(g, n) && n < |g.nData|
    ensures forall m :: m in OppOrder(Sens(g.nData[n].adj, sens)) <==>
              exists e: nat :: IsEdge(g, e) && e < |g.eData| && End(g, e, sens) == n && End(g, e, !sens) == m
  {
    var slots := Sens(g.nData[n].adj, sens);
    var r := OppOrder(slots);
    SensSlots(g, n, sens);
    forall m | m in r ensures exists e: nat :: IsEdge(g, e) && e < |g.eData| && End(g, e, sens) == n && End(g, e, !sens) == m {
      var k :| 0 <= k < |r| && r[k] == m;
      assert slots[k] in slots;
      var e := slots[k].e;
      assert IsEdge(g, e) && e < |g.eData| && End(g, e, sens) == n && End(g, e, !sens) == m;
    }
    forall m | exists e: nat :: IsEdge(g, e) && e < |g.eData| && End(g, e, sens) == n && End(g, e, !sens) == m ensures m in r {
      var e: nat :| IsEdge(g, e) && e < |g.eData| && End(g, e, sens) == n && End(g, e, !sens) == m;
      var k :| 0 <= k < |slots| && slots[k] == Slot(e, End(g, e, !sens), sens);
      assert r[k] == m;
    }
  }

  /**
   `getOutEdges(n)` (`sens` true, `outdeg(n)` slots) and `getInEdges(n)`
   (`sens` false, `indeg(n)` slots): exactly the edges leaving `n`, or
   entering it, each once per slot, in adjacency order.
   */
  method OutInEdges(g: VGraph, n: nat, sens: bool) returns (r: seq<nat>)
    requires VValid(g) && IsNode(g, n) && n < |g.nData|
    ensures |r| == (if sens then g.nData[n].outdeg else InDeg(g, n))
    ensures forall e: nat :: e in r <==> IsEdge(g, e) && e < |g.eData| && End(g, e, sens) == n
  {
    var slots := InOutSlots(g.nData[n].adj, sens, Elem(g, n, sens));
    assert slots == Sens(g.nData[n].adj, sens);
    r := EdgeOrder(slots);
    SensEdges(g, n, sens);
  }

  /**
   `getOutNodes(n)` and `getInNodes(n)`: the other end of each slot the
   edge iterator would visit; exactly the targets of the edges leaving
   `n`, or the sources of those entering it.
   */
  method OutInNodes(g: VGraph, n: nat, sens: bool) returns (r: seq<nat>)
    requires VValid(g) && IsNode(g, n) && n < |g.nData|
    ensures |r| == (if sens then g.nData[n].outdeg else InDeg(g, n))
    ensures forall m :: m in r <==> exists e: nat :: IsEdge(g, e) && e < |g.eData| && End(g, e, sens) == n && End(g, e, !sens) == m
  {
    var slots := InOutSlots(g.nData[n].adj, sens, Elem(g, n, sens));
    assert slots == Sens(g.nData[n].adj, sens);
    r := OppOrder(slots);
    SensNodes(g, n, sens);
  }

  // ---------------------------------------------------------------------------
  // delAllEdges, delAllNodes
  // ---------------------------------------------------------------------------

  /**
   `delAllEdges`: the edge container and data are cleared and every node
   in use is cleared (no slot, out-degree 0); the data of free node ids
   is left as it was.
   */
  function DelAllEdges(g: VGraph): (r: VGraph)
    requires VValid(g)
    ensures VValid(r) && r.nodes == g.nodes && |r.nData| == |g.nData|
    ensures forall e: nat :: !IsEdge(r, e)
    ensures forall n: nat :: IsNode(g, n) ==> n < |r.nData| && Deg(r, n) == 0 && r.nData[n].outdeg == 0
  {
    var nData := seq(|g.nData|, i requires 0 <= i < |g.nData| => if IsNode(g, i) then VNode([], 0) else g.nData[i]);
    var r := VGraph(g.nodes, EmptyContainer, nData, []);
    assert forall n: nat :: IsNode(r, n) ==> DegOk(r, n);
    r
  }

  /** Deleting all edges twice is deleting them once. */
  lemma DelAllEdgesTwice(g: VGraph)
    requires VValid(g)
    ensures DelAllEdges(DelAllEdges(g)) == DelAllEdges(g)
  {
  }

  /** `delAllNodes`: every container and all data are cleared. */
  function DelAllNodes(g: VGraph): (r: VGraph)
    ensures VValid(r)
    ensures forall n: nat :: !IsNode(r, n)
    ensures forall e: nat :: !IsEdge(r, e)
  {
    EmptyValid();
    EmptyGraph
  }

  /** After `delAllNodes` the next node is id 0, with nothing attached. */
  lemma DelAllNodesRestarts(g: VGraph)
    ensures var a := AddNode(DelAllNodes(g));
            a.n == 0 && forall n: nat :: IsNode(a.g, n) <==> n == 0
  {
  }
}
