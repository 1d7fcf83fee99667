/**
 GraphStorage.cpp: the storage of the root graph. Each node has a
 `NodeData` (its incidence list, in which a loop appears twice, and an
 out-degree counter); each edge has its ends; node and edge ids come from
 two id containers (`IdContainer`). GraphStorage.h is not part of this
 model: `deg`, `outdeg` and `ends` are read directly from the fields.

 Node and edge ids are naturals; `node()`, the invalid node, is `NoPos`.
 */
module GraphStorages {
  import opened Wrappers
  import opened IdManager
  import opened IdContainers

  datatype NodeData = NodeData(edges: seq<nat>, outDegree: int)

  datatype Storage = Storage(nodeData: seq<NodeData>, nodeIds: IdContainer, edgeIds: IdContainer,
                             edgeEnds: seq<(nat, nat)>)

  const EmptyStorage := Storage([], EmptyContainer, EmptyContainer, [])

  /**
   The ids containers are valid, every id handed out has its slot, and
   every edge joins two nodes.
   */
  ghost predicate Shaped(st: Storage)
  {
    ValidContainer(st.nodeIds) && ValidContainer(st.edgeIds)
    && |st.nodeIds.pos| <= |st.nodeData| && |st.edgeIds.pos| <= |st.edgeEnds|
    && forall e: nat :: IsElement(st.edgeIds, e) ==> IsElement(st.nodeIds, st.edgeEnds[e].0) && IsElement(st.nodeIds, st.edgeEnds[e].1)
  }

  /** How many times edge `e` should appear in the incidence list of `n`: once per end. */
  function Inc(st: Storage, n: nat, e: nat): nat
  {
    if IsElement(st.edgeIds, e) && e < |st.edgeEnds| then
      (if st.edgeEnds[e].0 == n then 1 else 0) + (if st.edgeEnds[e].1 == n then 1 else 0)
    else 0
  }

  /** The edges whose source is `n`. */
  ghost function OutSet(st: Storage, n: nat): set<nat>
  {
    set e | 0 <= e < |st.edgeIds.pos| && e < |st.edgeEnds| && IsElement(st.edgeIds, e) && st.edgeEnds[e].0 == n
  }

  /**
   The incidence list of `n` holds each edge as many times as `n` is one
   of its ends, and the out-degree counts the edges leaving `n`.
   */
  ghost predicate NodeOk(st: Storage, n: nat)
    requires n < |st.nodeData|
  {
    IncOk(st, n) && DegOk(st, n)
  }

  ghost predicate IncOk(st: Storage, n: nat)
    requires n < |st.nodeData|
  {
    forall e: nat :: multiset(st.nodeData[n].edges)[e] == Inc(st, n, e)
  }

  ghost predicate DegOk(st: Storage, n: nat)
    requires n < |st.nodeData|
  {
    st.nodeData[n].outDegree == |OutSet(st, n)|
  }

  /** Every node but `x` is right; `x` may be half deleted. */
  ghost predicate ValidExcept(st: Storage, x: nat)
  {
    Shaped(st) && forall n: nat :: IsElement(st.nodeIds, n) && n != x ==> NodeOk(st, n)
  }

  ghost predicate Valid(st: Storage)
  {
    Shaped(st) && forall n: nat :: IsElement(st.nodeIds, n) ==> NodeOk(st, n)
  }

  lemma EmptyValid()
    ensures Valid(EmptyStorage)
  {
  }

  /** `deg(n)`: the length of the incidence list. */
  function Deg(st: Storage, n: nat): nat
    requires n < |st.nodeData|
  {
    |st.nodeData[n].edges|
  }

  /** `std::remove` of every occurrence of `e`, keeping the order of the rest. */
  function RemoveAll(s: seq<nat>, e: nat): (r: seq<nat>)
    ensures forall x :: multiset(r)[x] == if x == e then 0 else multiset(s)[x]
  {
    if |s| == 0 then []
    else
      var t := RemoveAll(s[..|s| - 1], e);
      assert s == s[..|s| - 1] + [s[|s| - 1]];
      if s[|s| - 1] == e then t else t + [s[|s| - 1]]
  }

  // ---------------------------------------------------------------------------
  // Adding nodes and edges
  // ---------------------------------------------------------------------------

  datatype NodeAdded = NodeAdded(st: Storage, n: nat)

  /**
   `addNode`: a new id, and `restoreNode`: the slot is created (the vector
   grows up to the id) or emptied.
   */
  function AddNode(st: Storage): (r: NodeAdded)
    requires Valid(st) && |st.nodeIds.pos| + 1 < NoPos
    ensures Valid(r.st)
    ensures !IsElement(st.nodeIds, r.n) && IsElement(r.st.nodeIds, r.n)
    ensures forall x: nat :: IsElement(r.st.nodeIds, x) <==> IsElement(st.nodeIds, x) || x == r.n
    ensures r.st.nodeData[r.n] == NodeData([], 0)
    ensures r.st.edgeIds == st.edgeIds && r.st.edgeEnds == st.edgeEnds
    ensures forall x: nat :: IsElement(st.nodeIds, x) ==> r.st.nodeData[x] == st.nodeData[x]
  {
    var a := Add(st.nodeIds);
    var n := a.elt;
    var data := if n >= |st.nodeData| then st.nodeData + seq(n + 1 - |st.nodeData|, _ => NodeData([], 0))
                else st.nodeData[n := NodeData([], 0)];
    var r := Storage(data, a.c, st.edgeIds, st.edgeEnds);
    AddNodeValid(st, r, n);
    NodeAdded(r, n)
  }

  lemma AddNodeValid(st: Storage, r: Storage, n: nat)
    requires Valid(st) && ValidContainer(r.nodeIds) && |r.nodeIds.pos| <= |r.nodeData|
    requires forall x: nat :: IsElement(r.nodeIds, x) <==> IsElement(st.nodeIds, x) || x == n
    requires !IsElement(st.nodeIds, n) && n < |r.nodeData| && r.nodeData[n] == NodeData([], 0)
    requires forall x: nat :: IsElement(st.nodeIds, x) ==> x < |r.nodeData| && r.nodeData[x] == st.nodeData[x]
    requires r.edgeIds == st.edgeIds && r.edgeEnds == st.edgeEnds
    ensures Valid(r)
  {
    assert Shaped(r);
    forall x: nat | IsElement(r.nodeIds, x) ensures NodeOk(r, x) {
      assert OutSet(r, x) == OutSet(st, x);
      if x == n {
        forall e: nat | e < |st.edgeIds.pos| && IsElement(st.edgeIds, e) ensures st.edgeEnds[e].0 != n {
          assert IsElement(st.nodeIds, st.edgeEnds[e].0);
        }
        assert OutSet(r, x) == {};
        forall e: nat ensures multiset(r.nodeData[x].edges)[e] == Inc(r, x, e) {
          if IsElement(st.edgeIds, e) {
            assert IsElement(st.nodeIds, st.edgeEnds[e].1);
          }
        }
      } else {
        assert NodeOk(st, x);
      }
    }
  }

  datatype EdgeAdded = EdgeAdded(st: Storage, e: nat)

  /**
   `addEdge(src, tgt)`: a new id with its ends recorded, one more out-edge
   for the source, and the edge appended to the incidence list of each
   end, twice to that of a loop's node.
   */
  function AddEdge(st: Storage, src: nat, tgt: nat): (r: EdgeAdded)
    requires Valid(st) && IsElement(st.nodeIds, src) && IsElement(st.nodeIds, tgt)
    requires |st.edgeIds.pos| + 1 < NoPos
    ensures Valid(r.st)
    ensures !IsElement(st.edgeIds, r.e) && IsElement(r.st.edgeIds, r.e) && r.st.edgeEnds[r.e] == (src, tgt)
    ensures forall x: nat :: IsElement(r.st.edgeIds, x) <==> IsElement(st.edgeIds, x) || x == r.e
    ensures r.st.nodeIds == st.nodeIds && |r.st.nodeData| == |st.nodeData|
    ensures forall x :: 0 <= x < |st.nodeData| ==>
              r.st.nodeData[x].edges == st.nodeData[x].edges + Pushes(r.e, src, tgt, x)
              && r.st.nodeData[x].outDegree == st.nodeData[x].outDegree + (if x == src then 1 else 0)
  {
    var a := Add(st.edgeIds);
    var e := a.elt;
    assert e <= |st.edgeEnds| by {
      if |st.edgeIds.freeIds| > 0 {
        assert st.edgeIds.freeIds[0] < |st.edgeIds.pos|;
      }
    }
    var r := Storage(PushEdge(st.nodeData, e, src, tgt), st.nodeIds, a.c, PutEnds(st.edgeEnds, e, src, tgt));
    AddEdgeValid(st, r, e, src, tgt);
    EdgeAdded(r, e)
  }

  /** The copies of `e` an added edge leaves in the incidence list of `x`. */
  function Pushes(e: nat, src: nat, tgt: nat, x: nat): seq<nat>
  {
    if src == x && tgt == x then [e, e] else if src == x || tgt == x then [e] else []
  }

  /** The node data after adding edge `e`: its ends' lists and the source's out-degree. */
  function PushEdge(data: seq<NodeData>, e: nat, src: nat, tgt: nat): (r: seq<NodeData>)
    requires src < |data| && tgt < |data|
    ensures |r| == |data|
    ensures forall x :: 0 <= x < |data| ==>
              r[x].edges == data[x].edges + Pushes(e, src, tgt, x)
              && r[x].outDegree == data[x].outDegree + (if src == x then 1 else 0)
  {
    var sd := data[src];
    var d1 := data[src := NodeData(sd.edges + [e], sd.outDegree + 1)];
    d1[tgt := NodeData(d1[tgt].edges + [e], d1[tgt].outDegree)]
  }

  /** The ends vector after recording `(src, tgt)` for `e`, growing it when `e` is a new id. */
  function PutEnds(ends: seq<(nat, nat)>, e: nat, src: nat, tgt: nat): (r: seq<(nat, nat)>)
    requires e <= |ends|
    ensures |r| == if e == |ends| then |ends| + 1 else |ends|
    ensures r[e] == (src, tgt) && forall x :: 0 <= x < |ends| && x != e ==> r[x] == ends[x]
  {
    if e == |ends| then ends + [(src, tgt)] else ends[e := (src, tgt)]
  }

  /** Node `x` after adding edge `e` from `src` to `tgt`. */
  ghost predicate Pushed(st: Storage, r: Storage, e: nat, src: nat, tgt: nat, x: nat)
    requires x < |st.nodeData| && x < |r.nodeData|
  {
    r.nodeData[x].edges == st.nodeData[x].edges + Pushes(e, src, tgt, x)
    && r.nodeData[x].outDegree == st.nodeData[x].outDegree + (if src == x then 1 else 0)
  }

  /** The edges after adding `e` from `src` to `tgt`. */
  ghost predicate EdgeJoined(st: Storage, r: Storage, e: nat, src: nat, tgt: nat)
  {
    |st.edgeIds.pos| <= |st.edgeEnds| && |r.edgeIds.pos| <= |r.edgeEnds| && r.nodeIds == st.nodeIds
    && !IsElement(st.edgeIds, e) && IsElement(r.edgeIds, e)
    && (forall x: nat :: IsElement(r.edgeIds, x) <==> IsElement(st.edgeIds, x) || x == e)
    && |st.edgeEnds| <= |r.edgeEnds| && e < |r.edgeEnds| && r.edgeEnds[e] == (src, tgt)
    && (forall x: nat :: x < |st.edgeEnds| && x != e ==> r.edgeEnds[x] == st.edgeEnds[x])
    && |r.nodeData| == |st.nodeData|
  }

  lemma AddEdgeShaped(st: Storage, r: Storage, e: nat, src: nat, tgt: nat)
    requires Shaped(st) && ValidContainer(r.edgeIds) && EdgeJoined(st, r, e, src, tgt) && IsElement(st.nodeIds, src) && IsElement(st.nodeIds, tgt)
    ensures Shaped(r)
  {
  }

  lemma AddEdgeIncidence(st: Storage, r: Storage, e: nat, src: nat, tgt: nat, n: nat)
    requires EdgeJoined(st, r, e, src, tgt)
    requires n < |st.nodeData| && IncOk(st, n) && Pushed(st, r, e, src, tgt, n)
    ensures IncOk(r, n)
  {
    forall x: nat ensures multiset(r.nodeData[n].edges)[x] == Inc(r, n, x) {
      if x != e {
        assert Inc(r, n, x) == Inc(st, n, x);
      }
    }
  }

  lemma AddEdgeDegree(st: Storage, r: Storage, e: nat, src: nat, tgt: nat, n: nat)
    requires EdgeJoined(st, r, e, src, tgt)
    requires n < |st.nodeData| && DegOk(st, n) && Pushed(st, r, e, src, tgt, n)
    ensures DegOk(r, n)
  {
    var extra: set<nat> := if src == n then {e} else {};
    assert OutSet(r, n) == OutSet(st, n) + extra;
    assert e !in OutSet(st, n);
  }

  lemma AddEdgeValid(st: Storage, r: Storage, e: nat, src: nat, tgt: nat)
    requires Valid(st) && IsElement(st.nodeIds, src) && IsElement(st.nodeIds, tgt)
    requires ValidContainer(r.edgeIds) && EdgeJoined(st, r, e, src, tgt)
    requires forall x: nat :: x < |st.nodeData| ==> Pushed(st, r, e, src, tgt, x)
    ensures Valid(r)
  {
    AddEdgeShaped(st, r, e, src, tgt);
    forall n: nat | IsElement(r.nodeIds, n) ensures NodeOk(r, n) {
      AddEdgeIncidence(st, r, e, src, tgt, n);
      AddEdgeDegree(st, r, e, src, tgt, n);
    }
  }

  // ---------------------------------------------------------------------------
  // Removing edges
  // ---------------------------------------------------------------------------

  /** Removing an id that is not in the list leaves it as it is. */
  lemma {:induction false} RemoveAllAbsent(s: seq<nat>, e: nat)
    requires e !in s
    ensures RemoveAll(s, e) == s
  {
    if |s| > 0 {
      assert e !in s[..|s| - 1];
      RemoveAllAbsent(s[..|s| - 1], e);
      assert s == s[..|s| - 1] + [s[|s| - 1]];
    }
  }

  /** Whether `removeFromEdges(e, end)` reaches the incidence list of `x`, an end of `e`. */
  predicate Touched(ends: (nat, nat), end: nat, x: nat)
  {
    (x == ends.0 && ends.0 != end) || (x == ends.1 && ends.1 != end)
  }

  /**
   The node data once edge `e`, with the given ends, is taken out: the
   out-degree of its source drops unless the source is `end`, and `e`
   leaves the incidence list of each end other than `end`.
   */
  function Pull(data: seq<NodeData>, e: nat, ends: (nat, nat), end: nat): (r: seq<NodeData>)
    requires ends.0 < |data| && ends.1 < |data|
    ensures |r| == |data|
    ensures forall x :: 0 <= x < |data| ==>
              r[x].edges == (if Touched(ends, end, x) then RemoveAll(data[x].edges, e) else data[x].edges)
              && r[x].outDegree == data[x].outDegree - (if x == ends.0 && ends.0 != end then 1 else 0)
  {
    var (s, t) := ends;
    var d1 := if s != end then data[s := NodeData(RemoveAll(data[s].edges, e), data[s].outDegree - 1)] else data;
    if t != end then
      assert s == t && s != end ==> RemoveAll(d1[t].edges, e) == d1[t].edges by {
        if s == t && s != end {
          assert multiset(d1[t].edges)[e] == 0;
          RemoveAllAbsent(d1[t].edges, e);
        }
      }
      d1[t := d1[t].(edges := RemoveAll(d1[t].edges, e))]
    else d1
  }

  /**
   `removeFromEdges(e, end)` preceded, when the source is not `end`, by the
   decrement of its out-degree: the common step of `delEdge` and
   `delNode`. `end` is `NoPos`, the invalid node, for `delEdge`.
   */
  function Detach(st: Storage, end: nat, e: nat): (r: Storage)
    requires Shaped(st) && IsElement(st.edgeIds, e)
    ensures Shaped(r)
    ensures r.nodeIds == st.nodeIds && r.edgeEnds == st.edgeEnds && |r.nodeData| == |st.nodeData|
    ensures !IsElement(r.edgeIds, e) && forall x: nat :: x != e ==> (IsElement(r.edgeIds, x) <==> IsElement(st.edgeIds, x))
  {
    var ends := st.edgeEnds[e];
    var r := Storage(Pull(st.nodeData, e, ends, end), st.nodeIds, IdContainers.Free(st.edgeIds, e), st.edgeEnds);
    DetachShaped(st, r, e);
    r
  }

  /** What `Detach` leaves of node `x`. */
  ghost predicate Pulled(st: Storage, r: Storage, e: nat, end: nat, x: nat)
    requires x < |st.nodeData| && x < |r.nodeData| && e < |st.edgeEnds|
  {
    var ends := st.edgeEnds[e];
    r.nodeData[x].edges == (if Touched(ends, end, x) then RemoveAll(st.nodeData[x].edges, e) else st.nodeData[x].edges)
    && r.nodeData[x].outDegree == st.nodeData[x].outDegree - (if x == ends.0 && ends.0 != end then 1 else 0)
  }

  lemma DetachPulled(st: Storage, end: nat, e: nat)
    requires Shaped(st) && IsElement(st.edgeIds, e)
    ensures var r := Detach(st, end, e);
            e < |st.edgeEnds| && forall x :: 0 <= x < |st.nodeData| ==> x < |r.nodeData| && Pulled(st, r, e, end, x)
  {
  }

  /** The edges after taking out `e`. */
  ghost predicate EdgeDropped(st: Storage, r: Storage, e: nat)
  {
    r.nodeIds == st.nodeIds && r.edgeEnds == st.edgeEnds && |r.nodeData| == |st.nodeData|
    && e < |st.edgeEnds| && IsElement(st.edgeIds, e) && !IsElement(r.edgeIds, e)
    && (forall x: nat :: x != e ==> (IsElement(r.edgeIds, x) <==> IsElement(st.edgeIds, x)))
  }

  lemma DetachIncidence(st: Storage, r: Storage, e: nat, end: nat, n: nat)
    requires EdgeDropped(st, r, e) && n != end
    requires n < |st.nodeData| && IncOk(st, n) && Pulled(st, r, e, end, n)
    ensures IncOk(r, n)
  {
    forall x: nat ensures multiset(r.nodeData[n].edges)[x] == Inc(r, n, x) {
      if x != e {
        assert Inc(r, n, x) == Inc(st, n, x);
      }
    }
  }

  lemma DetachDegree(st: Storage, r: Storage, e: nat, end: nat, n: nat)
    requires EdgeDropped(st, r, e) && n != end
    requires n < |st.nodeData| && DegOk(st, n) && Pulled(st, r, e, end, n)
    ensures DegOk(r, n)
  {
    assert OutSet(r, n) == OutSet(st, n) - {e};
  }

  lemma DetachShaped(st: Storage, r: Storage, e: nat)
    requires Shaped(st) && ValidContainer(r.edgeIds) && |r.edgeIds.pos| <= |st.edgeIds.pos| && EdgeDropped(st, r, e)
    ensures Shaped(r)
  {
  }

  /** Taking out an edge keeps every node but `end` right. */
  lemma DetachValid(st: Storage, end: nat, e: nat)
    requires ValidExcept(st, end) && IsElement(st.edgeIds, e)
    ensures ValidExcept(Detach(st, end, e), end)
  {
    var r := Detach(st, end, e);
    DetachShaped(st, r, e);
    forall n: nat | IsElement(r.nodeIds, n) && n != end ensures NodeOk(r, n) {
      assert Pulled(st, r, e, end, n);
      DetachIncidence(st, r, e, end, n);
      DetachDegree(st, r, e, end, n);
    }
  }

  /** A valid storage is right at every node but the invalid one. */
  lemma ValidAllBut(st: Storage)
    ensures Valid(st) <==> ValidExcept(st, NoPos)
  {
    if ValidExcept(st, NoPos) {
      forall n: nat | IsElement(st.nodeIds, n) ensures NodeOk(st, n) {
        assert n < NoPos;
      }
    }
  }

  /**
   `delEdge(e)`: one out-edge less for the source and `removeFromEdges(e)`
   with the invalid node as the end kept: the id is freed and `e` leaves
   the incidence lists of both ends.
   */
  function DelEdge(st: Storage, e: nat): (r: Storage)
    requires Valid(st) && IsElement(st.edgeIds, e)
    ensures Valid(r)
    ensures !IsElement(r.edgeIds, e) && forall x: nat :: x != e ==> (IsElement(r.edgeIds, x) <==> IsElement(st.edgeIds, x))
    ensures r.nodeIds == st.nodeIds && r.edgeEnds == st.edgeEnds
    ensures forall x: nat :: IsElement(st.nodeIds, x) ==>
              multiset(r.nodeData[x].edges)[e] == 0
              && forall y: nat :: y != e ==> multiset(r.nodeData[x].edges)[y] == multiset(st.nodeData[x].edges)[y]
  {
    ValidAllBut(st);
    DetachValid(st, NoPos, e);
    var r := Detach(st, NoPos, e);
    ValidAllBut(r);
    forall x: nat | IsElement(st.nodeIds, x)
      ensures multiset(r.nodeData[x].edges)[e] == 0
    {
      assert NodeOk(r, x);
    }
    r
  }

  /**
   Adding an edge and deleting it again gives every node back its
   incidence list and out-degree.
   */
  lemma AddEdgeThenDelEdge(st: Storage, src: nat, tgt: nat)
    requires Valid(st) && IsElement(st.nodeIds, src) && IsElement(st.nodeIds, tgt)
    requires |st.edgeIds.pos| + 1 < NoPos
    ensures var a := AddEdge(st, src, tgt);
            DelEdge(a.st, a.e).nodeData == st.nodeData
  {
    assert src < NoPos && tgt < NoPos by {
      assert ValidContainer(st.nodeIds);
    }
    var a := AddEdge(st, src, tgt);
    UnusedEdgeAbsent(st, a.e, src);
    UnusedEdgeAbsent(st, a.e, tgt);
    assert DelEdge(a.st, a.e) == Detach(a.st, NoPos, a.e);
    DetachRestores(st.nodeData, a.st, a.e, src, tgt);
  }

  /** An edge not in use appears in no node's incidence list. */
  lemma UnusedEdgeAbsent(st: Storage, e: nat, x: nat)
    requires Valid(st) && !IsElement(st.edgeIds, e) && IsElement(st.nodeIds, x)
    ensures x < |st.nodeData| && multiset(st.nodeData[x].edges)[e] == 0
  {
    assert NodeOk(st, x);
  }

  /** Taking out an edge just appended at its ends gives the nodes back. */
  lemma DetachRestores(d: seq<NodeData>, st: Storage, e: nat, src: nat, tgt: nat)
    requires Shaped(st) && IsElement(st.edgeIds, e) && st.edgeEnds[e] == (src, tgt)
    requires src < NoPos && tgt < NoPos && |st.nodeData| == |d|
    requires forall x :: 0 <= x < |d| ==>
               st.nodeData[x].edges == d[x].edges + Pushes(e, src, tgt, x)
               && st.nodeData[x].outDegree == d[x].outDegree + (if x == src then 1 else 0)
    requires src < |d| ==> multiset(d[src].edges)[e] == 0
    requires tgt < |d| ==> multiset(d[tgt].edges)[e] == 0
    ensures Detach(st, NoPos, e).nodeData == d
  {
    DetachPulled(st, NoPos, e);
    RestoredNodes(d, st.nodeData, Detach(st, NoPos, e).nodeData, e, src, tgt);
  }

  /** Every node through `addEdge` then `delEdge`. */
  lemma RestoredNodes(d: seq<NodeData>, a: seq<NodeData>, r: seq<NodeData>, e: nat, src: nat, tgt: nat)
    requires |a| == |d| && |r| == |d|
    requires forall x :: 0 <= x < |d| ==>
               a[x].edges == d[x].edges + Pushes(e, src, tgt, x) && a[x].outDegree == d[x].outDegree + (if x == src then 1 else 0)
    requires src < NoPos && tgt < NoPos
    requires forall x :: 0 <= x < |d| ==>
               r[x].edges == (if Touched((src, tgt), NoPos, x) then RemoveAll(a[x].edges, e) else a[x].edges)
               && r[x].outDegree == a[x].outDegree - (if x == src && src != NoPos then 1 else 0)
    requires forall x :: 0 <= x < |d| && (x == src || x == tgt) ==> multiset(d[x].edges)[e] == 0
    ensures r == d
  {
    forall x | 0 <= x < |d| ensures r[x] == d[x] {
      RestoredNode(d[x], a[x], r[x], e, src, tgt, x);
    }
  }

  /** One node through `addEdge` then `delEdge`. */
  lemma RestoredNode(d: NodeData, a: NodeData, r: NodeData, e: nat, src: nat, tgt: nat, x: nat)
    requires a.edges == d.edges + Pushes(e, src, tgt, x) && a.outDegree == d.outDegree + (if x == src then 1 else 0)
    requires r.edges == (if x == src || x == tgt then RemoveAll(a.edges, e) else a.edges)
    requires r.outDegree == a.outDegree - (if x == src then 1 else 0)
    requires (x == src || x == tgt) ==> multiset(d.edges)[e] == 0
    ensures r == d
  {
    if x == src || x == tgt {
      RemoveAllAbsent(d.edges, e);
      RemoveAppended(d.edges, e, Pushes(e, src, tgt, x));
    }
  }

  /** Removing `e` from a list to which only copies of `e` were appended. */
  lemma {:induction false} RemoveAppended(s: seq<nat>, e: nat, t: seq<nat>)
    requires forall i :: 0 <= i < |t| ==> t[i] == e
    ensures RemoveAll(s + t, e) == RemoveAll(s, e)
  {
    if |t| > 0 {
      var u := s + t;
      assert u[..|u| - 1] == s + t[..|t| - 1] && u[|u| - 1] == e;
      assert RemoveAll(u, e) == RemoveAll(u[..|u| - 1], e);
      RemoveAppended(s, e, t[..|t| - 1]);
    } else {
      assert s + t == s;
    }
  }

  // ---------------------------------------------------------------------------
  // Reconnecting edges
  // ---------------------------------------------------------------------------

  /** Only the ends of `e` change, to `ends`, and only within the node data. */
  ghost predicate ReEnded(st: Storage, r: Storage, e: nat, ends: (nat, nat))
  {
    r.nodeIds == st.nodeIds && r.edgeIds == st.edgeIds && |r.nodeData| == |st.nodeData|
    && e < |st.edgeEnds| && IsElement(st.edgeIds, e) && r.edgeEnds == st.edgeEnds[e := ends]
  }

  /**
   Node `n` after the ends of `e` moved: other edges keep their count, the
   count of `e` follows the change of its ends, and the out-degree follows
   the change of source.
   */
  ghost predicate Rewired(st: Storage, r: Storage, e: nat, n: nat)
    requires n < |st.nodeData| && n < |r.nodeData|
  {
    (forall y: nat :: y != e ==> multiset(r.nodeData[n].edges)[y] == multiset(st.nodeData[n].edges)[y])
    && multiset(r.nodeData[n].edges)[e] + Inc(st, n, e) == multiset(st.nodeData[n].edges)[e] + Inc(r, n, e)
    && r.nodeData[n].outDegree + (if OutSet(st, n) == OutSet(r, n) then 0 else if e in OutSet(st, n) then 1 else 0)
       == st.nodeData[n].outDegree + (if OutSet(st, n) == OutSet(r, n) then 0 else if e in OutSet(r, n) then 1 else 0)
  }

  lemma RewiredIncidence(st: Storage, r: Storage, e: nat, ends: (nat, nat), n: nat)
    requires ReEnded(st, r, e, ends) && n < |st.nodeData| && IncOk(st, n) && Rewired(st, r, e, n)
    ensures IncOk(r, n)
  {
    forall y: nat ensures multiset(r.nodeData[n].edges)[y] == Inc(r, n, y) {
      if y != e {
        assert Inc(r, n, y) == Inc(st, n, y);
      }
    }
  }

  lemma RewiredDegree(st: Storage, r: Storage, e: nat, ends: (nat, nat), n: nat)
    requires ReEnded(st, r, e, ends) && n < |st.nodeData| && DegOk(st, n) && Rewired(st, r, e, n)
    ensures DegOk(r, n)
  {
    if OutSet(st, n) != OutSet(r, n) {
      if e in OutSet(st, n) {
        assert OutSet(r, n) == OutSet(st, n) - {e};
      } else {
        assert OutSet(r, n) == OutSet(st, n) + {e};
      }
    }
  }

  lemma ReEndedValid(st: Storage, r: Storage, e: nat, ends: (nat, nat))
    requires Valid(st) && ReEnded(st, r, e, ends) && IsElement(st.nodeIds, ends.0) && IsElement(st.nodeIds, ends.1)
    requires forall n: nat :: IsElement(st.nodeIds, n) ==> Rewired(st, r, e, n)
    ensures Valid(r)
  {
    assert Shaped(r);
    forall n: nat | IsElement(r.nodeIds, n) ensures NodeOk(r, n) {
      RewiredIncidence(st, r, e, ends, n);
      RewiredDegree(st, r, e, ends, n);
    }
  }

  /** Where `e` leaves the out-edges of `n` or joins them when its ends become `ends`. */
  lemma OutSetMoved(st: Storage, r: Storage, e: nat, ends: (nat, nat), n: nat)
    requires ReEnded(st, r, e, ends)
    ensures OutSet(r, n) == if st.edgeEnds[e].0 == ends.0 || (n != st.edgeEnds[e].0 && n != ends.0) then OutSet(st, n)
                            else if n == ends.0 then OutSet(st, n) + {e} else OutSet(st, n) - {e}
    ensures e in OutSet(st, n) <==> st.edgeEnds[e].0 == n
    ensures e in OutSet(r, n) <==> ends.0 == n
  {
  }

  /**
   `reverse(e)`: the ends swap, the old source loses an out-edge and the
   old target gains one; the incidence lists do not change.
   */
  function Reverse(st: Storage, e: nat): (r: Storage)
    requires Valid(st) && IsElement(st.edgeIds, e)
    ensures Valid(r)
    ensures r.nodeIds == st.nodeIds && r.edgeIds == st.edgeIds && |r.edgeEnds| == |st.edgeEnds|
    ensures e < |st.edgeEnds| && r.edgeEnds[e] == (st.edgeEnds[e].1, st.edgeEnds[e].0)
    ensures forall x: nat :: x < |st.edgeEnds| && x != e ==> r.edgeEnds[x] == st.edgeEnds[x]
    ensures |r.nodeData| == |st.nodeData|
    ensures forall x :: 0 <= x < |st.nodeData| ==>
              r.nodeData[x].edges == st.nodeData[x].edges
              && r.nodeData[x].outDegree == st.nodeData[x].outDegree - (if x == st.edgeEnds[e].0 then 1 else 0)
                                                                   + (if x == st.edgeEnds[e].1 then 1 else 0)
  {
    var (s, t) := st.edgeEnds[e];
    assert s < |st.nodeData| && t < |st.nodeData|;
    var r := Storage(MoveDegree(st.nodeData, s, t), st.nodeIds, st.edgeIds, st.edgeEnds[e := (t, s)]);
    forall n: nat | IsElement(st.nodeIds, n) ensures Rewired(st, r, e, n) {
      ReverseRewired(st, r, e, n);
    }
    ReEndedValid(st, r, e, (t, s));
    r
  }

  /** One out-edge moved from `s` to `t`. */
  function MoveDegree(data: seq<NodeData>, s: nat, t: nat): (r: seq<NodeData>)
    requires s < |data| && t < |data|
    ensures |r| == |data|
    ensures forall x :: 0 <= x < |data| ==>
              r[x].edges == data[x].edges
              && r[x].outDegree == data[x].outDegree - (if x == s then 1 else 0) + (if x == t then 1 else 0)
  {
    var d1 := data[s := data[s].(outDegree := data[s].outDegree - 1)];
    d1[t := d1[t].(outDegree := d1[t].outDegree + 1)]
  }

  lemma ReverseRewired(st: Storage, r: Storage, e: nat, n: nat)
    requires e < |st.edgeEnds| && ReEnded(st, r, e, (st.edgeEnds[e].1, st.edgeEnds[e].0)) && n < |st.nodeData|
    requires r.nodeData[n].edges == st.nodeData[n].edges
    requires r.nodeData[n].outDegree == st.nodeData[n].outDegree - (if n == st.edgeEnds[e].0 then 1 else 0)
                                                                  + (if n == st.edgeEnds[e].1 then 1 else 0)
    ensures Rewired(st, r, e, n)
  {
    OutSetMoved(st, r, e, (st.edgeEnds[e].1, st.edgeEnds[e].0), n);
  }

  /** Reversing an edge twice gives the storage back. */
  lemma ReverseTwice(st: Storage, e: nat)
    requires Valid(st) && IsElement(st.edgeIds, e)
    ensures Reverse(Reverse(st, e), e) == st
  {
    var r := Reverse(Reverse(st, e), e);
    assert r.edgeEnds == st.edgeEnds;
    assert r.nodeData == st.nodeData;
  }

  /** Erasing the first occurrence of `e`. */
  function RemoveOne(s: seq<nat>, e: nat): (r: seq<nat>)
    ensures e in s ==> multiset(r) == multiset(s) - multiset{e}
    ensures e !in s ==> r == s
  {
    if |s| == 0 then s
    else if s[0] == e then
      assert s == [s[0]] + s[1..];
      s[1..]
    else
      assert s == [s[0]] + s[1..];
      [s[0]] + RemoveOne(s[1..], e)
  }

  /** How `setEnds` takes an edge out of the incidence list of the end it leaves. */
  datatype Removal = RemoveFirst | RemoveEvery | KeepAll

  function Removed(s: seq<nat>, e: nat, how: Removal): seq<nat>
  {
    match how
    case RemoveFirst => RemoveOne(s, e)
    case RemoveEvery => RemoveAll(s, e)
    case KeepAll => s
  }

  /**
   An end of `e` moves from node `from` to node `to`: `e` is appended to
   the list of `to` and taken out of that of `from` as `how` says, and,
   when the moving end is the source, one out-edge moves with it.
   */
  function Shift(data: seq<NodeData>, e: nat, from: nat, to: nat, source: bool, how: Removal): (r: seq<NodeData>)
    requires from < |data| && to < |data| && from != to
    ensures |r| == |data|
    ensures forall x :: 0 <= x < |data| ==>
              r[x].edges == (if x == from then Removed(data[x].edges, e, how)
                             else if x == to then data[x].edges + [e] else data[x].edges)
              && r[x].outDegree == data[x].outDegree + (if source && x == to then 1 else 0)
                                                     - (if source && x == from then 1 else 0)
  {
    var d1 := data[to := NodeData(data[to].edges + [e], data[to].outDegree + (if source then 1 else 0))];
    d1[from := NodeData(Removed(d1[from].edges, e, how), d1[from].outDegree - (if source then 1 else 0))]
  }

  /** The ends of `e` once its source (`source`) or target moves to `to`. */
  function MovedEnds(ends: (nat, nat), to: nat, source: bool): (nat, nat)
  {
    if source then (to, ends.1) else (ends.0, to)
  }

  /** One end of `e`, the source or the target, moved to node `to`; the list it leaves loses one copy of `e`. */
  function MoveEnd(st: Storage, e: nat, to: nat, source: bool): (r: Storage)
    requires Valid(st) && IsElement(st.edgeIds, e) && IsElement(st.nodeIds, to)
    requires (if source then st.edgeEnds[e].0 else st.edgeEnds[e].1) != to
    ensures Valid(r) && ReEnded(st, r, e, MovedEnds(st.edgeEnds[e], to, source))
  {
    var ends := st.edgeEnds[e];
    var from := if source then ends.0 else ends.1;
    var r := Storage(Shift(st.nodeData, e, from, to, source, RemoveFirst), st.nodeIds, st.edgeIds,
                     st.edgeEnds[e := MovedEnds(ends, to, source)]);
    assert NodeOk(st, from);
    assert multiset(st.nodeData[from].edges)[e] > 0;
    forall n: nat | IsElement(st.nodeIds, n) ensures Rewired(st, r, e, n) {
      ShiftRewired(st, r, e, from, to, source, n);
    }
    ReEndedValid(st, r, e, MovedEnds(ends, to, source));
    r
  }

  lemma ShiftRewired(st: Storage, r: Storage, e: nat, from: nat, to: nat, source: bool, n: nat)
    requires e < |st.edgeEnds| && ReEnded(st, r, e, MovedEnds(st.edgeEnds[e], to, source))
    requires from == (if source then st.edgeEnds[e].0 else st.edgeEnds[e].1) && from != to
    requires from < |st.nodeData| && multiset(st.nodeData[from].edges)[e] > 0 && n < |st.nodeData|
    requires r.nodeData[n].edges == (if n == from then RemoveOne(st.nodeData[n].edges, e)
                                     else if n == to then st.nodeData[n].edges + [e] else st.nodeData[n].edges)
    requires r.nodeData[n].outDegree == st.nodeData[n].outDegree + (if source && n == to then 1 else 0)
                                                                 - (if source && n == from then 1 else 0)
    ensures Rewired(st, r, e, n)
  {
    OutSetMoved(st, r, e, MovedEnds(st.edgeEnds[e], to, source), n);
  }

  /**
   `setEnds(e, newSrc, newTgt)` as intended: each end that is given (not
   the invalid node) and differs moves, and the list of the node it leaves
   loses one copy of `e`.
   */
  function SetEnds(st: Storage, e: nat, newSrc: nat, newTgt: nat): (r: Storage)
    requires Valid(st) && IsElement(st.edgeIds, e)
    requires newSrc == NoPos || IsElement(st.nodeIds, newSrc)
    requires newTgt == NoPos || IsElement(st.nodeIds, newTgt)
    ensures Valid(r)
    ensures r.nodeIds == st.nodeIds && r.edgeIds == st.edgeIds
    ensures e < |st.edgeEnds| && r.edgeEnds == st.edgeEnds[e := (if newSrc == NoPos then st.edgeEnds[e].0 else newSrc,
                                                                 if newTgt == NoPos then st.edgeEnds[e].1 else newTgt)]
    ensures OutDegreesAfter(st, r, e, newSrc)
  {
    var (s, t) := st.edgeEnds[e];
    if s == newSrc && t == newTgt then
      assert st.edgeEnds[e := (s, t)] == st.edgeEnds;
      st
    else
      var st1 := MoveIfGiven(st, e, newSrc, true);
      var r := MoveIfGiven(st1, e, newTgt, false);
      DegreesThenSame(st, st1, r, e, newSrc);
      UpdateTwice(st.edgeEnds, e, st1.edgeEnds[e], r.edgeEnds[e]);
      r
  }

  lemma UpdateTwice(ends: seq<(nat, nat)>, e: nat, a: (nat, nat), b: (nat, nat))
    requires e < |ends|
    ensures ends[e := a][e := b] == ends[e := b]
  {
  }

  lemma DegreesThenSame(st: Storage, st1: Storage, r: Storage, e: nat, newSrc: nat)
    requires e < |st.edgeEnds| && OutDegreesAfter(st, st1, e, newSrc) && SameOutDegrees(st1, r)
    ensures OutDegreesAfter(st, r, e, newSrc)
  {
  }

  /** The out-degrees once the source of `e` has moved to `newSrc`, when that is given and differs: the old source loses one, the new one gains one. */
  ghost predicate OutDegreesAfter(st: Storage, r: Storage, e: nat, newSrc: nat)
    requires e < |st.edgeEnds|
  {
    var moved := newSrc != NoPos && newSrc != st.edgeEnds[e].0;
    |r.nodeData| == |st.nodeData|
    && forall x :: 0 <= x < |st.nodeData| ==>
         r.nodeData[x].outDegree == st.nodeData[x].outDegree + (if moved && x == newSrc then 1 else 0)
                                                             - (if moved && x == st.edgeEnds[e].0 then 1 else 0)
  }

  /** No out-degree changes. */
  ghost predicate SameOutDegrees(st: Storage, r: Storage)
  {
    |r.nodeData| == |st.nodeData| && forall x :: 0 <= x < |st.nodeData| ==> r.nodeData[x].outDegree == st.nodeData[x].outDegree
  }

  /** One end of `e` moved to `to` unless `to` is the invalid node or the end already. */
  function MoveIfGiven(st: Storage, e: nat, to: nat, source: bool): (r: Storage)
    requires Valid(st) && IsElement(st.edgeIds, e)
    requires to == NoPos || IsElement(st.nodeIds, to)
    ensures Valid(r) && r.nodeIds == st.nodeIds && r.edgeIds == st.edgeIds && e < |st.edgeEnds|
    ensures r.edgeEnds == st.edgeEnds[e := if to == NoPos then st.edgeEnds[e] else MovedEnds(st.edgeEnds[e], to, source)]
    ensures source ==> OutDegreesAfter(st, r, e, to)
    ensures !source ==> SameOutDegrees(st, r)
  {
    var from := if source then st.edgeEnds[e].0 else st.edgeEnds[e].1;
    if to != NoPos && from != to then
      var r := MoveEnd(st, e, to, source);
      assert r.nodeData == Shift(st.nodeData, e, from, to, source, RemoveFirst);
      r
    else st
  }

  /**
   `setEnds` as written: the node left by the source loses every copy of
   `e`, and the node left by the target loses every copy too unless it is
   the new source, in which case it loses none.
   */
  function SetEndsAsWritten(st: Storage, e: nat, newSrc: nat, newTgt: nat): (r: Storage)
    requires Valid(st) && IsElement(st.edgeIds, e)
    requires newSrc == NoPos || IsElement(st.nodeIds, newSrc)
    requires newTgt == NoPos || IsElement(st.nodeIds, newTgt)
    ensures r.nodeIds == st.nodeIds && r.edgeIds == st.edgeIds && |r.nodeData| == |st.nodeData|
    ensures e < |st.edgeEnds| && r.edgeEnds == st.edgeEnds[e := (if newSrc == NoPos then st.edgeEnds[e].0 else newSrc,
                                                                 if newTgt == NoPos then st.edgeEnds[e].1 else newTgt)]
    ensures OutDegreesAfter(st, r, e, newSrc)
  {
    var (s, t) := st.edgeEnds[e];
    assert s < |st.nodeData| && t < |st.nodeData|;
    if s == newSrc && t == newTgt then st
    else
      var moveSrc := newSrc != NoPos && s != newSrc;
      var nSrc := if moveSrc then newSrc else s;
      var st1 := if moveSrc then Storage(Shift(st.nodeData, e, s, newSrc, true, RemoveEvery), st.nodeIds, st.edgeIds,
                                         st.edgeEnds[e := (newSrc, t)])
                 else st;
      if newTgt != NoPos && t != newTgt then
        Storage(Shift(st1.nodeData, e, t, newTgt, false, if t != nSrc then RemoveEvery else KeepAll), st.nodeIds, st.edgeIds,
                st1.edgeEnds[e := (nSrc, newTgt)])
      else st1
  }

  /** As written, `setEnds` records the same ends and out-degrees as intended; only the incidence lists differ. */
  lemma SetEndsAsWrittenAgrees(st: Storage, e: nat, newSrc: nat, newTgt: nat)
    requires Valid(st) && IsElement(st.edgeIds, e)
    requires newSrc == NoPos || IsElement(st.nodeIds, newSrc)
    requires newTgt == NoPos || IsElement(st.nodeIds, newTgt)
    ensures var r := SetEndsAsWritten(st, e, newSrc, newTgt);
            var c := SetEnds(st, e, newSrc, newTgt);
            r.edgeEnds == c.edgeEnds && forall x :: 0 <= x < |st.nodeData| ==> r.nodeData[x].outDegree == c.nodeData[x].outDegree
  {
  }

  /**
   Swapping the ends of a non-loop edge with `setEnds(e, tgt, src)` breaks
   the storage: the old target, now the source, holds `e` twice.
   */
  lemma SetEndsAsWrittenSwapBreaks(st: Storage, e: nat)
    requires Valid(st) && IsElement(st.edgeIds, e) && st.edgeEnds[e].0 != st.edgeEnds[e].1
    ensures !Valid(SetEndsAsWritten(st, e, st.edgeEnds[e].1, st.edgeEnds[e].0))
  {
    var (a, b) := st.edgeEnds[e];
    assert a < |st.nodeData| && b < |st.nodeData|;
    var st1 := Storage(Shift(st.nodeData, e, a, b, true, RemoveEvery), st.nodeIds, st.edgeIds, st.edgeEnds[e := (b, b)]);
    var r := Storage(Shift(st1.nodeData, e, b, a, false, KeepAll), st.nodeIds, st.edgeIds, st1.edgeEnds[e := (b, a)]);
    assert r == SetEndsAsWritten(st, e, b, a);
    assert NodeOk(st, b);
    assert r.nodeData[b].edges == st1.nodeData[b].edges == st.nodeData[b].edges + [e];
    assert multiset(r.nodeData[b].edges)[e] == 2;
    assert Inc(r, b, e) == 1;
    assert !NodeOk(r, b);
  }

  // ---------------------------------------------------------------------------
  // Edge order around a node
  // ---------------------------------------------------------------------------

  /** `setEdgeOrder(n, edges)`: the incidence list of `n` is replaced as given. */
  function SetEdgeOrder(st: Storage, n: nat, edges: seq<nat>): (r: Storage)
    requires n < |st.nodeData|
    ensures r.nodeIds == st.nodeIds && r.edgeIds == st.edgeIds && r.edgeEnds == st.edgeEnds
    ensures |r.nodeData| == |st.nodeData| && r.nodeData[n] == NodeData(edges, st.nodeData[n].outDegree)
    ensures forall x :: 0 <= x < |st.nodeData| && x != n ==> r.nodeData[x] == st.nodeData[x]
  {
    st.(nodeData := st.nodeData[n := st.nodeData[n].(edges := edges)])
  }

  /** A new order keeps the storage valid exactly when it is a permutation of the old list. */
  lemma SetEdgeOrderValid(st: Storage, n: nat, edges: seq<nat>)
    requires Valid(st) && IsElement(st.nodeIds, n)
    ensures Valid(SetEdgeOrder(st, n, edges)) <==> multiset(edges) == multiset(st.nodeData[n].edges)
  {
    var r := SetEdgeOrder(st, n, edges);
    assert forall x: nat :: Inc(r, n, x) == Inc(st, n, x);
    assert OutSet(r, n) == OutSet(st, n);
    if multiset(edges) == multiset(st.nodeData[n].edges) {
      forall x: nat | IsElement(r.nodeIds, x) ensures NodeOk(r, x) {
        assert OutSet(r, x) == OutSet(st, x);
        assert NodeOk(st, x);
      }
    }
    if Valid(r) {
      assert NodeOk(r, n) && NodeOk(st, n);
      assert forall x: nat :: multiset(edges)[x] == multiset(st.nodeData[n].edges)[x];
    }
  }

  /** The first index of `x` in `s`. */
  function First(s: seq<nat>, x: nat): (r: nat)
    requires x in s
    ensures r < |s| && s[r] == x && forall j :: 0 <= j < r ==> s[j] != x
  {
    if s[0] == x then 0 else 1 + First(s[1..], x)
  }

  /** The last index up to `k` holding `x`. */
  function LastUpTo(s: seq<nat>, x: nat, k: nat): (r: nat)
    requires k < |s| && exists j :: 0 <= j <= k && s[j] == x
    ensures r <= k && s[r] == x && forall j :: r < j <= k ==> s[j] != x
  {
    if s[k] == x then k else LastUpTo(s, x, k - 1)
  }

  /** The first index by which both edges have appeared. */
  function Stop(s: seq<nat>, e1: nat, e2: nat): (k: nat)
    requires e1 in s && e2 in s
    ensures k < |s| && s[First(s, e1)] == e1 && s[First(s, e2)] == e2 && First(s, e1) <= k && First(s, e2) <= k
  {
    if First(s, e1) < First(s, e2) then First(s, e2) else First(s, e1)
  }

  /** An index with the properties of `LastUpTo` is the one it returns. */
  lemma LastUpToUnique(s: seq<nat>, x: nat, k: nat, p: nat)
    requires p <= k < |s| && s[p] == x && forall j :: p < j <= k ==> s[j] != x
    ensures LastUpTo(s, x, k) == p
  {
    var q := LastUpTo(s, x, k);
    assert !(q < p) && !(p < q);
  }

  /**
   The scan of `swapEdgeOrder`: positions are recorded while walking the
   list and the walk stops once both edges have been seen, so each
   position is the last occurrence up to the first index by which both
   edges have appeared.
   */
  method ScanPositions(adj: seq<nat>, e1: nat, e2: nat) returns (p1: nat, p2: nat)
    requires e1 in adj && e2 in adj
    ensures p1 == LastUpTo(adj, e1, Stop(adj, e1, e2)) && p2 == LastUpTo(adj, e2, Stop(adj, e1, e2))
  {
    var f1, f2 := First(adj, e1), First(adj, e2);
    var k := Stop(adj, e1, e2);
    var found1, found2 := false, false;
    p1, p2 := 0, 0;
    var i := 0;
    while true
      invariant 0 <= i <= k
      invariant found1 <==> i > f1
      invariant found2 <==> i > f2
      invariant found1 ==> p1 < i && adj[p1] == e1 && forall j :: p1 < j < i ==> adj[j] != e1
      invariant found2 ==> p2 < i && adj[p2] == e2 && forall j :: p2 < j < i ==> adj[j] != e2
      decreases |adj| - i
    {
      if adj[i] == e1 {
        p1, found1 := i, true;
      }
      if adj[i] == e2 {
        p2, found2 := i, true;
      }
      if found1 && found2 {
        break;
      }
      i := i + 1;
    }
    LastUpToUnique(adj, e1, k, p1);
    LastUpToUnique(adj, e2, k, p2);
  }

  /** Two positions of a list exchanged. */
  function SwapAt(s: seq<nat>, p1: nat, p2: nat): (r: seq<nat>)
    requires p1 < |s| && p2 < |s|
    ensures |r| == |s| && r[p1] == s[p2] && r[p2] == s[p1]
    ensures forall j :: 0 <= j < |s| && j != p1 && j != p2 ==> r[j] == s[j]
    ensures multiset(r) == multiset(s)
  {
    var r := s[p1 := s[p2]][p2 := s[p1]];
    assert multiset(s[p1 := s[p2]]) == multiset(s) - multiset{s[p1]} + multiset{s[p2]};
    r
  }

  /**
   `swapEdgeOrder(n, e1, e2)`: nothing when the edges are equal, otherwise
   the positions found by the scan exchange their edges. Both edges must
   be in the list, as the source asserts.
   */
  method SwapEdgeOrder(st: Storage, n: nat, e1: nat, e2: nat) returns (r: Storage)
    requires n < |st.nodeData| && e1 in st.nodeData[n].edges && e2 in st.nodeData[n].edges
    ensures e1 == e2 ==> r == st
    ensures r.nodeIds == st.nodeIds && r.edgeIds == st.edgeIds && r.edgeEnds == st.edgeEnds && |r.nodeData| == |st.nodeData|
    ensures forall x :: 0 <= x < |st.nodeData| && x != n ==> r.nodeData[x] == st.nodeData[x]
    ensures multiset(r.nodeData[n].edges) == multiset(st.nodeData[n].edges)
    ensures e1 != e2 ==> var s := st.nodeData[n].edges;
                         var k := Stop(s, e1, e2);
                         r.nodeData[n].edges == SwapAt(s, LastUpTo(s, e1, k), LastUpTo(s, e2, k))
    ensures Valid(st) && IsElement(st.nodeIds, n) ==> Valid(r)
  {
    if e1 == e2 {
      return st;
    }
    var adj := st.nodeData[n].edges;
    var p1, p2 := ScanPositions(adj, e1, e2);
    r := SetEdgeOrder(st, n, SwapAt(adj, p1, p2));
    if Valid(st) && IsElement(st.nodeIds, n) {
      SetEdgeOrderValid(st, n, SwapAt(adj, p1, p2));
    }
  }

  // ---------------------------------------------------------------------------
  // Clearing
  // ---------------------------------------------------------------------------

  /** `delAllEdges` as written: the edge ids and ends and every incidence list are cleared; the out-degrees stay. */
  function DelAllEdgesAsWritten(st: Storage): (r: Storage)
    ensures r.nodeIds == st.nodeIds && r.edgeIds == EmptyContainer && r.edgeEnds == [] && |r.nodeData| == |st.nodeData|
    ensures forall x :: 0 <= x < |st.nodeData| ==> r.nodeData[x] == NodeData([], st.nodeData[x].outDegree)
  {
    Storage(seq(|st.nodeData|, x requires 0 <= x < |st.nodeData| => NodeData([], st.nodeData[x].outDegree)),
            st.nodeIds, EmptyContainer, [])
  }

  /** Once an edge exists, deleting all edges as written leaves its source with a stale out-degree. */
  lemma DelAllEdgesAsWrittenKeepsDegree(st: Storage, e: nat)
    requires Valid(st) && IsElement(st.edgeIds, e)
    ensures !Valid(DelAllEdgesAsWritten(st))
  {
    var s := st.edgeEnds[e].0;
    var r := DelAllEdgesAsWritten(st);
    assert NodeOk(st, s) && e in OutSet(st, s);
    assert OutSet(r, s) == {};
    assert !NodeOk(r, s);
  }

  /** `delAllEdges` as intended: the out-degrees are reset with the lists. */
  function DelAllEdges(st: Storage): (r: Storage)
    ensures r.nodeIds == st.nodeIds && r.edgeIds == EmptyContainer && r.edgeEnds == [] && |r.nodeData| == |st.nodeData|
    ensures forall x :: 0 <= x < |st.nodeData| ==> r.nodeData[x] == NodeData([], 0)
    ensures Valid(st) ==> Valid(r)
  {
    Storage(seq(|st.nodeData|, _ => NodeData([], 0)), st.nodeIds, EmptyContainer, [])
  }

  /** `delAllNodes`, that is `clear`: the empty storage, which is valid. */
  function DelAllNodes(st: Storage): (r: Storage)
    ensures Valid(r) && r.nodeIds == EmptyContainer && r.edgeIds == EmptyContainer
  {
    EmptyStorage
  }

  // ---------------------------------------------------------------------------
  // Id memento
  // ---------------------------------------------------------------------------

  datatype IdsMemento = IdsMemento(nodeIds: IdContainer, edgeIds: IdContainer)

  /** `getIdsMemento`: a copy of both id containers. */
  function GetIdsMemento(st: Storage): (m: IdsMemento)
    ensures m.nodeIds == st.nodeIds && m.edgeIds == st.edgeIds
  {
    IdsMemento(st.nodeIds, st.edgeIds)
  }

  /** `restoreIdsMemento`: both id containers put back. */
  function RestoreIdsMemento(st: Storage, m: IdsMemento): (r: Storage)
    ensures r.nodeIds == m.nodeIds && r.edgeIds == m.edgeIds && r.nodeData == st.nodeData && r.edgeEnds == st.edgeEnds
  {
    st.(nodeIds := m.nodeIds, edgeIds := m.edgeIds)
  }

  /** Restoring a memento taken from the same storage changes nothing. */
  lemma MementoRoundTrip(st: Storage)
    ensures RestoreIdsMemento(st, GetIdsMemento(st)) == st
  {
  }

  // ---------------------------------------------------------------------------
  // Queries
  // ---------------------------------------------------------------------------

  /** Whether edge ends `ends` join `src` to `tgt`, either way round when not `directed`. */
  predicate Joins(ends: (nat, nat), src: nat, tgt: nat, directed: bool)
  {
    ends == (src, tgt) || (!directed && ends == (tgt, src))
  }

  /** Whether `e` is an edge of the subgraph given, if any; the subgraph is its set of edge ids. */
  predicate InSub(sg: Option<set<nat>>, e: nat)
  {
    sg.None? || e in sg.value
  }

  /** The edges of `es` kept by `getEdges`, sorted and without duplicates. */
  function EdgesBetween(ends: seq<(nat, nat)>, es: seq<nat>, src: nat, tgt: nat, directed: bool, sg: Option<set<nat>>): (r: seq<nat>)
    requires forall i :: 0 <= i < |es| ==> es[i] < |ends|
    ensures Increasing(r)
    ensures forall x :: x in r <==> x in es && Joins(ends[x], src, tgt, directed) && InSub(sg, x)
  {
    if |es| == 0 then []
    else
      var last := es[|es| - 1];
      var r := EdgesBetween(ends, es[..|es| - 1], src, tgt, directed, sg);
      assert es == es[..|es| - 1] + [last];
      if Joins(ends[last], src, tgt, directed) && InSub(sg, last) then Insert(r, last) else r
  }

  /**
   `getEdges(src, tgt, directed, sg)`: the edges of the incidence list of
   `src` going to `tgt` (or coming from it, when not directed) that are in
   the subgraph, sorted, a loop listed once.
   */
  function GetEdges(st: Storage, src: nat, tgt: nat, directed: bool, sg: Option<set<nat>>): (r: seq<nat>)
    requires Valid(st) && IsElement(st.nodeIds, src)
    ensures Increasing(r)
  {
    ListedEdges(st, src);
    EdgesBetween(st.edgeEnds, st.nodeData[src].edges, src, tgt, directed, sg)
  }

  /** The incidence list of a node of a valid storage lists exactly the edges it is an end of. */
  lemma ListedEdges(st: Storage, n: nat)
    requires Valid(st) && IsElement(st.nodeIds, n)
    ensures forall i :: 0 <= i < |st.nodeData[n].edges| ==> st.nodeData[n].edges[i] < |st.edgeEnds|
    ensures forall x: nat :: x in st.nodeData[n].edges <==> IsElement(st.edgeIds, x) && (st.edgeEnds[x].0 == n || st.edgeEnds[x].1 == n)
  {
    assert NodeOk(st, n);
    forall i | 0 <= i < |st.nodeData[n].edges| ensures st.nodeData[n].edges[i] < |st.edgeEnds| {
      var x := st.nodeData[n].edges[i];
      assert multiset(st.nodeData[n].edges)[x] > 0;
    }
    forall x: nat ensures x in st.nodeData[n].edges <==> IsElement(st.edgeIds, x) && (st.edgeEnds[x].0 == n || st.edgeEnds[x].1 == n) {
      assert x in st.nodeData[n].edges <==> multiset(st.nodeData[n].edges)[x] > 0;
    }
  }

  /** The edges `getEdges` returns are exactly the existing edges joining the two nodes in the subgraph. */
  lemma GetEdgesExactly(st: Storage, src: nat, tgt: nat, directed: bool, sg: Option<set<nat>>, x: nat)
    requires Valid(st) && IsElement(st.nodeIds, src)
    ensures x in GetEdges(st, src, tgt, directed, sg) <==>
              IsElement(st.edgeIds, x) && x < |st.edgeEnds| && Joins(st.edgeEnds[x], src, tgt, directed) && InSub(sg, x)
  {
    ListedEdges(st, src);
  }

  /**
   The walk of `IOEdgeContainerIterator`: an edge is yielded when its
   source (`out`) or target is `n`; a loop, met twice, is yielded the
   first time only, `loops` holding those already yielded.
   */
  function IOEdges(ends: seq<(nat, nat)>, n: nat, out: bool, es: seq<nat>, loops: set<nat>): (r: seq<nat>)
    requires forall i :: 0 <= i < |es| ==> es[i] < |ends|
    ensures forall x: nat :: multiset(r)[x] ==
              if x !in es || (if out then ends[x].0 else ends[x].1) != n then 0
              else if ends[x] == (n, n) then (if x in loops then 0 else 1)
              else multiset(es)[x]
  {
    if |es| == 0 then []
    else
      var e := es[0];
      assert es == [e] + es[1..];
      var (s, t) := ends[e];
      var here := if out then s else t;
      var there := if out then t else s;
      if here != n then IOEdges(ends, n, out, es[1..], loops)
      else if there == n then
        if e in loops then IOEdges(ends, n, out, es[1..], loops)
        else [e] + IOEdges(ends, n, out, es[1..], loops + {e})
      else [e] + IOEdges(ends, n, out, es[1..], loops)
  }

  /** `getOutEdges(n)`. */
  function OutEdges(st: Storage, n: nat): (r: seq<nat>)
    requires Valid(st) && IsElement(st.nodeIds, n)
    ensures forall x: nat :: x in r <==> x in OutSet(st, n)
  {
    ListedEdges(st, n);
    var r := IOEdges(st.edgeEnds, n, true, st.nodeData[n].edges, {});
    forall x: nat ensures x in r <==> x in OutSet(st, n) {
      assert x in r <==> multiset(r)[x] > 0;
      assert x in st.nodeData[n].edges <==> multiset(st.nodeData[n].edges)[x] > 0;
    }
    r
  }

  /** `getInEdges(n)`. */
  function InEdges(st: Storage, n: nat): (r: seq<nat>)
    requires Valid(st) && IsElement(st.nodeIds, n)
    ensures forall x: nat :: x in r <==> IsElement(st.edgeIds, x) && x < |st.edgeEnds| && st.edgeEnds[x].1 == n
  {
    ListedEdges(st, n);
    var r := IOEdges(st.edgeEnds, n, false, st.nodeData[n].edges, {});
    forall x: nat ensures x in r <==> IsElement(st.edgeIds, x) && x < |st.edgeEnds| && st.edgeEnds[x].1 == n {
      assert x in r <==> multiset(r)[x] > 0;
      assert x in st.nodeData[n].edges <==> multiset(st.nodeData[n].edges)[x] > 0;
    }
    r
  }

  /** A multiset holding each element of a set once has the size of the set. */
  lemma {:induction false} IndicatorSize(m: multiset<nat>, s: set<nat>)
    requires forall x: nat :: m[x] == if x in s then 1 else 0
    ensures |m| == |s|
    decreases |s|
  {
    if s == {} {
      assert m == multiset{};
    } else {
      var y :| y in s;
      var m' := m - multiset{y};
      forall x: nat ensures m'[x] == if x in s - {y} then 1 else 0 {
      }
      IndicatorSize(m', s - {y});
      assert m == m' + multiset{y};
    }
  }

  /** The out-edge iterator yields each out-edge once: as many edges as the out-degree. */
  lemma OutEdgesCount(st: Storage, n: nat)
    requires Valid(st) && IsElement(st.nodeIds, n)
    ensures |OutEdges(st, n)| == st.nodeData[n].outDegree
  {
    ListedEdges(st, n);
    var es: seq<nat> := st.nodeData[n].edges;
    var r: seq<nat> := IOEdges(st.edgeEnds, n, true, es, {});
    var m: multiset<nat> := multiset(r);
    assert NodeOk(st, n);
    forall x: nat ensures m[x] == if x in OutSet(st, n) then 1 else 0 {
      assert x in es <==> multiset(es)[x] > 0;
      assert x in es ==> multiset(es)[x] == Inc(st, n, x);
    }
    IndicatorSize(m, OutSet(st, n));
  }

  /** `getOutNodes(n)`: the target of each out-edge. */
  function OutNodes(st: Storage, n: nat): (r: seq<nat>)
    requires Valid(st) && IsElement(st.nodeIds, n)
    ensures |r| == |OutEdges(st, n)|
    ensures forall i :: 0 <= i < |r| ==> OutEdges(st, n)[i] < |st.edgeEnds| && st.edgeEnds[OutEdges(st, n)[i]] == (n, r[i])
  {
    var es := OutEdges(st, n);
    assert forall i :: 0 <= i < |es| ==> es[i] in OutSet(st, n);
    seq(|es|, i requires 0 <= i < |es| => st.edgeEnds[es[i]].1)
  }

  /** `getInNodes(n)`: the source of each in-edge. */
  function InNodes(st: Storage, n: nat): (r: seq<nat>)
    requires Valid(st) && IsElement(st.nodeIds, n)
    ensures |r| == |InEdges(st, n)|
    ensures forall i :: 0 <= i < |r| ==> InEdges(st, n)[i] < |st.edgeEnds| && st.edgeEnds[InEdges(st, n)[i]] == (r[i], n)
  {
    var es := InEdges(st, n);
    assert forall i :: 0 <= i < |es| ==> es[i] in es;
    seq(|es|, i requires 0 <= i < |es| => st.edgeEnds[es[i]].0)
  }

  /** `getInOutNodes(n)`: for each entry of the incidence list, the other end (`n` itself for a loop, twice). */
  function InOutNodes(st: Storage, n: nat): (r: seq<nat>)
    requires Valid(st) && IsElement(st.nodeIds, n)
    ensures |r| == Deg(st, n)
    ensures forall i :: 0 <= i < |r| ==>
              var e := st.nodeData[n].edges[i];
              e < |st.edgeEnds| && (st.edgeEnds[e] == (n, r[i]) || st.edgeEnds[e] == (r[i], n))
  {
    ListedEdges(st, n);
    var es := st.nodeData[n].edges;
    assert forall i :: 0 <= i < |es| ==> es[i] in es;
    seq(|es|, i requires 0 <= i < |es| => if st.edgeEnds[es[i]].0 == n then st.edgeEnds[es[i]].1 else st.edgeEnds[es[i]].0)
  }

  // ---------------------------------------------------------------------------
  // Deleting a node
  // ---------------------------------------------------------------------------

  /** The entries of `es` that are loops (`loops`) or that are not. */
  function Split(ends: seq<(nat, nat)>, es: seq<nat>, loops: bool): (r: seq<nat>)
    requires forall i :: 0 <= i < |es| ==> es[i] < |ends|
    ensures forall i :: 0 <= i < |r| ==> r[i] < |ends|
    ensures forall x: nat :: multiset(r)[x] == if x < |ends| && (ends[x].0 == ends[x].1) == loops then multiset(es)[x] else 0
  {
    if |es| == 0 then []
    else
      var t := Split(ends, es[1..], loops);
      assert multiset(es) == multiset{es[0]} + multiset(es[1..]) by {
        assert es == [es[0]] + es[1..];
      }
      if (ends[es[0]].0 == ends[es[0]].1) == loops then
        assert multiset([es[0]] + t) == multiset{es[0]} + multiset(t);
        [es[0]] + t
      else t
  }

  /**
   `removeFromEdges(e, n)` for each entry in turn, as written: freeing an
   id that is no longer in use is undefined behaviour (the position read
   is `UINT_MAX`, or past the emptied position vector), `None` here.
   */
  function DetachEach(st: Storage, n: nat, es: seq<nat>): (r: Option<Storage>)
    requires Shaped(st)
    ensures r.Some? ==> Shaped(r.value) && r.value.nodeIds == st.nodeIds
    decreases |es|
  {
    if |es| == 0 then Some(st)
    else if !IsElement(st.edgeIds, es[0]) then None
    else DetachEach(Detach(st, n, es[0]), n, es[1..])
  }

  /** Freeing the same id twice, or one not in use, fails. */
  lemma {:induction false} DetachEachTwice(st: Storage, n: nat, es: seq<nat>, e: nat)
    requires Shaped(st)
    requires multiset(es)[e] >= 2 || (e in es && !IsElement(st.edgeIds, e))
    ensures DetachEach(st, n, es).None?
    decreases |es|
  {
    if |es| > 0 && IsElement(st.edgeIds, es[0]) {
      assert es == [es[0]] + es[1..];
      var st1 := Detach(st, n, es[0]);
      if es[0] == e {
        assert e in es[1..] by {
          assert multiset(es[1..])[e] >= 1;
        }
      }
      DetachEachTwice(st1, n, es[1..], e);
    }
  }

  /** `removeFromEdges(e, n)` for each entry still in use. */
  function DetachEachOnce(st: Storage, n: nat, es: seq<nat>): (r: Storage)
    requires Shaped(st)
    ensures Shaped(r) && r.nodeIds == st.nodeIds && r.edgeEnds == st.edgeEnds && |r.nodeData| == |st.nodeData|
    ensures forall x: nat :: IsElement(r.edgeIds, x) <==> IsElement(st.edgeIds, x) && x !in es
    decreases |es|
  {
    if |es| == 0 then st
    else
      var st1 := if IsElement(st.edgeIds, es[0]) then Detach(st, n, es[0]) else st;
      assert forall x :: x in es <==> x == es[0] || x in es[1..] by {
        assert es == [es[0]] + es[1..];
      }
      DetachEachOnce(st1, n, es[1..])
  }

  lemma {:induction false} DetachEachOnceValid(st: Storage, n: nat, es: seq<nat>)
    requires ValidExcept(st, n)
    ensures ValidExcept(DetachEachOnce(st, n, es), n)
    decreases |es|
  {
    if |es| > 0 {
      var st1 := if IsElement(st.edgeIds, es[0]) then Detach(st, n, es[0]) else st;
      if IsElement(st.edgeIds, es[0]) {
        DetachValid(st, n, es[0]);
      }
      DetachEachOnceValid(st1, n, es[1..]);
    }
  }

  /** `removeFromNodes(n)`: the slot emptied and the id freed; the data vector is dropped with the last node. */
  function RemoveFromNodes(st: Storage, n: nat): (r: Storage)
    requires ValidContainer(st.nodeIds) && IsElement(st.nodeIds, n) && n < |st.nodeData|
    ensures !IsElement(r.nodeIds, n) && forall x: nat :: x != n ==> (IsElement(r.nodeIds, x) <==> IsElement(st.nodeIds, x))
    ensures r.edgeIds == st.edgeIds && r.edgeEnds == st.edgeEnds
    ensures |r.nodeIds.elts| == 0 ==> r.nodeData == []
    ensures |r.nodeIds.elts| > 0 ==> r.nodeData == st.nodeData[n := NodeData([], 0)]
  {
    var ids := IdContainers.Free(st.nodeIds, n);
    Storage(if |ids.elts| == 0 then [] else st.nodeData[n := NodeData([], 0)], ids, st.edgeIds, st.edgeEnds)
  }

  /** Once no edge in use touches `n`, removing it leaves a valid storage. */
  lemma RemoveFromNodesValid(st: Storage, n: nat)
    requires ValidExcept(st, n) && IsElement(st.nodeIds, n)
    requires forall x: nat :: IsElement(st.edgeIds, x) ==> st.edgeEnds[x].0 != n && st.edgeEnds[x].1 != n
    ensures Valid(RemoveFromNodes(st, n))
  {
    var r := RemoveFromNodes(st, n);
    assert Shaped(r);
    forall x: nat | IsElement(r.nodeIds, x) ensures NodeOk(r, x) {
      assert NodeOk(st, x);
      assert forall y: nat :: Inc(r, x, y) == Inc(st, x, y);
      assert OutSet(r, x) == OutSet(st, x);
    }
  }

  /**
   `delNode(n)` as written: the non-loop edges are detached first, then
   the loops collected on the way; a loop is listed twice in the incidence
   list, so it is collected, and freed, twice.
   */
  function DelNodeAsWritten(st: Storage, n: nat): (r: Option<Storage>)
    requires Valid(st) && IsElement(st.nodeIds, n)
    ensures r.Some? ==> !IsElement(r.value.nodeIds, n)
  {
    ListedEdges(st, n);
    var es := st.nodeData[n].edges;
    match DetachEach(st, n, Split(st.edgeEnds, es, false))
    case None => None
    case Some(st1) =>
      match DetachEach(st1, n, Split(st.edgeEnds, es, true))
      case None => None
      case Some(st2) =>
        assert n < |st2.nodeData|;
        Some(RemoveFromNodes(st2, n))
  }

  /** As written, deleting a node that carries a loop frees the loop twice. */
  lemma DelNodeAsWrittenLoop(st: Storage, n: nat, e: nat)
    requires Valid(st) && IsElement(st.nodeIds, n) && IsElement(st.edgeIds, e) && st.edgeEnds[e] == (n, n)
    ensures DelNodeAsWritten(st, n).None?
  {
    ListedEdges(st, n);
    var es: seq<nat> := st.nodeData[n].edges;
    assert NodeOk(st, n) && multiset(es)[e] == 2;
    var loops: seq<nat> := Split(st.edgeEnds, es, true);
    assert multiset(loops)[e] == 2;
    match DetachEach(st, n, Split(st.edgeEnds, es, false))
    case None =>
    case Some(st1) =>
      DetachEachTwice(st1, n, loops, e);
  }

  /**
   `delNode(n)` as intended: every edge touching `n` is detached once,
   non-loops first, and `n` is removed. The other nodes and the edges
   not touching `n` stay.
   */
  function DelNode(st: Storage, n: nat): (r: Storage)
    requires Valid(st) && IsElement(st.nodeIds, n)
    ensures Valid(r)
    ensures !IsElement(r.nodeIds, n) && forall x: nat :: x != n ==> (IsElement(r.nodeIds, x) <==> IsElement(st.nodeIds, x))
    ensures r.edgeEnds == st.edgeEnds
    ensures forall x: nat :: IsElement(r.edgeIds, x) <==>
              IsElement(st.edgeIds, x) && x < |st.edgeEnds| && st.edgeEnds[x].0 != n && st.edgeEnds[x].1 != n
  {
    ListedEdges(st, n);
    var es := st.nodeData[n].edges;
    var out := Split(st.edgeEnds, es, false);
    var loops := Split(st.edgeEnds, es, true);
    var st1 := DetachEachOnce(st, n, out);
    var st2 := DetachEachOnce(st1, n, loops);
    assert ValidExcept(st, n);
    DetachEachOnceValid(st, n, out);
    DetachEachOnceValid(st1, n, loops);
    forall x: nat ensures IsElement(st2.edgeIds, x) <==>
                            IsElement(st.edgeIds, x) && x < |st.edgeEnds| && st.edgeEnds[x].0 != n && st.edgeEnds[x].1 != n {
      assert x in es <==> multiset(es)[x] > 0;
      assert x in out <==> multiset(out)[x] > 0;
      assert x in loops <==> multiset(loops)[x] > 0;
    }
    assert n < |st2.nodeData|;
    RemoveFromNodesValid(st2, n);
    RemoveFromNodes(st2, n)
  }
}
