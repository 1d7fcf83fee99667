/**
 A graph as a subgraph (`GraphView`) stores it, which is also the view the
 graph algorithms have of any graph: its nodes and edges in order, the
 ends of every edge (owned by the root graph), and for each node an
 `SGraphNodeData` — the incidence list in which an edge appears once per
 end it has at the node (a loop twice) and the number of out-edges.
 */
module Graphs {
  import opened Seqs
  import GraphStorages

  datatype NodeData = NodeData(outDegree: nat, incidence: seq<nat>)

  datatype Graph = Graph(nodes: seq<nat>, edges: seq<nat>, ends: map<nat, (nat, nat)>, data: map<nat, NodeData>)

  /** The number of ends `e` has at `n`, for an edge of the graph. */
  function Touches(g: Graph, n: nat, e: nat): nat
  {
    if e in g.edges && e in g.ends then
      (if g.ends[e].0 == n then 1 else 0) + (if g.ends[e].1 == n then 1 else 0)
    else 0
  }

  /** The edges of the graph whose source is `n`. */
  function OutSet(g: Graph, n: nat): set<nat>
  {
    set e | e in g.edges && e in g.ends && g.ends[e].0 == n
  }

  /**
   The invariants of a view: no node or edge listed twice, a node has data
   iff it is an element, the ends of an edge are elements, a node's
   incidence list holds each edge once per end at the node, and its
   out-degree counts the edges leaving it.
   */
  ghost predicate Valid(g: Graph)
  {
    Shaped(g) && IncidenceKept(g) && DegreeKept(g)
  }

  /** Elements listed once, a node has data iff it is an element, the ends of an edge are elements. */
  ghost predicate Shaped(g: Graph)
  {
    Distinct(g.nodes) && Distinct(g.edges)
    && (forall n :: n in g.data <==> n in g.nodes)
    && (forall e :: e in g.edges ==> e in g.ends && g.ends[e].0 in g.data && g.ends[e].1 in g.data)
  }

  /** Each incidence list holds an edge once per end it has at the node. */
  ghost predicate IncidenceKept(g: Graph)
  {
    forall n, e :: n in g.data ==> multiset(g.data[n].incidence)[e] == Touches(g, n, e)
  }

  /** Each out-degree counts the edges leaving the node. */
  ghost predicate DegreeKept(g: Graph)
  {
    forall n :: n in g.data ==> g.data[n].outDegree == |OutSet(g, n)|
  }

  /** `isElement(n)`. */
  predicate IsNode(g: Graph, n: nat)
  {
    n in g.data
  }

  /** In a valid graph, an edge is in a node's incidence list iff it is an edge of the graph with an end there. */
  lemma Incident(g: Graph, n: nat, e: nat)
    requires Valid(g) && n in g.data
    ensures e in g.data[n].incidence <==> e in g.edges && (g.ends[e].0 == n || g.ends[e].1 == n)
  {
    assert e in g.data[n].incidence <==> multiset(g.data[n].incidence)[e] > 0;
  }

  // ---------------------------------------------------------------------------
  // SGraphNodeData
  // ---------------------------------------------------------------------------

  /** `inEdgeAdd`: appended, the out-degree unchanged. */
  function InEdgeAdd(d: NodeData, e: nat): NodeData
  {
    NodeData(d.outDegree, d.incidence + [e])
  }

  /** `outEdgeAdd`: appended, one more out-edge. */
  function OutEdgeAdd(d: NodeData, e: nat): NodeData
  {
    NodeData(d.outDegree + 1, d.incidence + [e])
  }

  /** The first occurrence of `e` erased (`std::find` then `erase`). */
  function EraseFirst(s: seq<nat>, e: nat): seq<nat>
    requires e in s
  {
    GraphStorages.RemoveOne(s, e)
  }

  /** Erasing takes exactly one `e` out of the list. */
  lemma EraseFirstRemovesOne(s: seq<nat>, e: nat)
    requires e in s
    ensures multiset(EraseFirst(s, e)) == multiset(s) - multiset{e} && |EraseFirst(s, e)| == |s| - 1
  {
    assert |multiset(EraseFirst(s, e))| == |multiset(s)| - 1;
  }

  /** `inEdgeRemove`. */
  function InEdgeRemove(d: NodeData, e: nat): NodeData
    requires e in d.incidence
  {
    NodeData(d.outDegree, EraseFirst(d.incidence, e))
  }

  /** `outEdgeRemove`: one out-edge fewer, the unsigned counter wrapping below zero. */
  function OutEdgeRemove(d: NodeData, e: nat): (r: NodeData)
    requires e in d.incidence
    ensures d.outDegree > 0 ==> r.outDegree == d.outDegree - 1
    ensures d.outDegree == 0 ==> r.outDegree == 0xFFFF_FFFF
  {
    NodeData(if d.outDegree == 0 then 0xFFFF_FFFF else d.outDegree - 1, EraseFirst(d.incidence, e))
  }

  /** Two entries of a sequence trading places. */
  function SwapAt(s: seq<nat>, i: nat, j: nat): (r: seq<nat>)
    requires i < |s| && j < |s|
    ensures |r| == |s| && multiset(r) == multiset(s)
    ensures r[i] == s[j] && r[j] == s[i]
    ensures forall k :: 0 <= k < |s| && k != i && k != j ==> r[k] == s[k]
  {
    var r := s[i := s[j]][j := s[i]];
    assert multiset(r) == multiset(s) by {
      if i != j {
        assert multiset(s[i := s[j]]) == multiset(s) - multiset{s[i]} + multiset{s[j]};
      }
    }
    r
  }

  /** `swapEdgeOrder(e1, e2)`: the first occurrences of the two edges trade places. */
  function SwapEdgeOrder(d: NodeData, e1: nat, e2: nat): (r: NodeData)
    requires e1 in d.incidence && e2 in d.incidence
    ensures multiset(r.incidence) == multiset(d.incidence) && r.outDegree == d.outDegree
    ensures |r.incidence| == |d.incidence|
    ensures r.incidence[IndexOf(d.incidence, e1)] == e2 && r.incidence[IndexOf(d.incidence, e2)] == e1
    ensures e1 == e2 ==> r == d
  {
    NodeData(d.outDegree, SwapAt(d.incidence, IndexOf(d.incidence, e1), IndexOf(d.incidence, e2)))
  }

  /** `deg(n)`: the length of the incidence list. */
  function Deg(g: Graph, n: nat): nat
    requires n in g.data
  {
    |g.data[n].incidence|
  }

  /** `outdeg(n)`: the stored out-degree. */
  function OutDeg(g: Graph, n: nat): nat
    requires n in g.data
  {
    g.data[n].outDegree
  }

  /** `indeg(n)`: the length of the incidence list less the out-degree, in unsigned arithmetic. */
  function InDeg(g: Graph, n: nat): nat
    requires n in g.data
  {
    (|g.data[n].incidence| - g.data[n].outDegree) % 0x1_0000_0000
  }

  /** The edges of the graph whose target is `n`. */
  function InSet(g: Graph, n: nat): set<nat>
  {
    set e | e in g.edges && e in g.ends && g.ends[e].1 == n
  }

  /**
   In a valid graph, the degree is the number of out-edges plus the number
   of in-edges (a loop counting once as each); `outdeg` is the first and
   `indeg` the second, read as an unsigned 32-bit count.
   */
  lemma DegreeSplit(g: Graph, n: nat)
    requires Valid(g) && n in g.data
    ensures Deg(g, n) == |OutSet(g, n)| + |InSet(g, n)|
    ensures OutDeg(g, n) == |OutSet(g, n)| && InDeg(g, n) == |InSet(g, n)| % 0x1_0000_0000
  {
    var m := multiset(g.data[n].incidence);
    var o := MultisetOf(OutSet(g, n));
    var i := MultisetOf(InSet(g, n));
    assert m == o + i by {
      forall e ensures m[e] == o[e] + i[e] {
        assert m[e] == Touches(g, n, e);
        assert o[e] == if e in OutSet(g, n) then 1 else 0;
        assert i[e] == if e in InSet(g, n) then 1 else 0;
      }
    }
    assert |m| == |o| + |i|;
  }

  /** A set as a multiset. */
  function MultisetOf(s: set<nat>): (m: multiset<nat>)
    ensures forall x :: m[x] == if x in s then 1 else 0
    ensures |m| == |s|
    decreases |s|
  {
    if s == {} then multiset{}
    else
      var x :| x in s;
      MultisetOf(s - {x}) + multiset{x}
  }

  // ---------------------------------------------------------------------------
  // Incident edges and neighbours
  // ---------------------------------------------------------------------------

  /** The end of `e` an out-edge (`out`) or an in-edge has at the node. */
  function End(g: Graph, e: nat, out: bool): nat
    requires e in g.ends
  {
    if out then g.ends[e].0 else g.ends[e].1
  }

  predicate IsLoop(g: Graph, e: nat)
    requires e in g.ends
  {
    g.ends[e].0 == g.ends[e].1
  }

  /** `opposite(e, n)`: the target when `n` is the source, the source otherwise. */
  function Opposite(g: Graph, e: nat, n: nat): (m: nat)
    requires e in g.ends
    ensures g.ends[e].0 == n ==> m == g.ends[e].1
    ensures g.ends[e].1 == n ==> m == g.ends[e].0
  {
    if g.ends[e].0 == n then g.ends[e].1 else g.ends[e].0
  }

  /**
   The filter `EdgeDirectionFilter` puts on an incidence list: an edge
   passes when `n` is its source (`out`) or target and it is not a loop
   already seen, `loops` holding the loops seen so far.
   */
  function DirEdges(g: Graph, inc: seq<nat>, n: nat, out: bool, loops: set<nat>): (r: seq<nat>)
    requires forall e :: e in inc ==> e in g.ends
    ensures forall e :: e in r ==> e in inc && e !in loops && End(g, e, out) == n
    ensures forall e :: e in inc && e !in loops && End(g, e, out) == n ==> e in r
    decreases |inc|
  {
    if |inc| == 0 then []
    else
      var e := inc[0];
      var rest := DirEdges(g, inc[1..], n, out, if IsLoop(g, e) then loops + {e} else loops);
      assert inc == [e] + inc[1..];
      if e !in loops && End(g, e, out) == n then [e] + rest else rest
  }

  /** The filter yields no edge twice when each non-loop edge it passes occurs once in the list. */
  lemma {:induction false} DirEdgesDistinct(g: Graph, inc: seq<nat>, n: nat, out: bool, loops: set<nat>)
    requires forall e :: e in inc ==> e in g.ends
    requires forall e :: e in inc && !IsLoop(g, e) && End(g, e, out) == n ==> multiset(inc)[e] == 1
    ensures Distinct(DirEdges(g, inc, n, out, loops))
    decreases |inc|
  {
    if |inc| > 0 {
      var e := inc[0];
      var tl := inc[1..];
      assert inc == [e] + tl;
      forall x | x in tl && !IsLoop(g, x) && End(g, x, out) == n
        ensures multiset(tl)[x] == 1
      {
        assert multiset(inc)[x] == multiset(tl)[x] + (if x == e then 1 else 0);
      }
      var loops' := if IsLoop(g, e) then loops + {e} else loops;
      DirEdgesDistinct(g, tl, n, out, loops');
      var rest := DirEdges(g, tl, n, out, loops');
      if e !in loops && End(g, e, out) == n {
        assert e !in rest by {
          if !IsLoop(g, e) {
            assert multiset(inc)[e] == multiset(tl)[e] + 1;
          }
        }
        var r := [e] + rest;
        forall i, j | 0 <= i < j < |r| ensures r[i] != r[j] {
          assert r[j] == rest[j - 1];
          if i > 0 {
            assert r[i] == rest[i - 1];
          }
        }
      }
    }
  }

  /** `getOutEdges(n)`: the edges leaving `n`, a loop once, in incidence order. */
  function OutEdges(g: Graph, n: nat): (r: seq<nat>)
    requires Valid(g) && n in g.data
    ensures forall e :: e in r <==> e in OutSet(g, n)
    ensures Distinct(r)
  {
    EdgesAt(g, n, true)
  }

  /** `getInEdges(n)`: the edges entering `n`, a loop once, in incidence order. */
  function InEdges(g: Graph, n: nat): (r: seq<nat>)
    requires Valid(g) && n in g.data
    ensures forall e :: e in r <==> e in InSet(g, n)
    ensures Distinct(r)
  {
    EdgesAt(g, n, false)
  }

  function EdgesAt(g: Graph, n: nat, out: bool): (r: seq<nat>)
    requires Valid(g) && n in g.data
    ensures forall e :: e in r <==> e in g.edges && e in g.ends && End(g, e, out) == n
    ensures Distinct(r)
  {
    var inc := g.data[n].incidence;
    forall e | e in inc ensures e in g.ends && e in g.edges && (g.ends[e].0 == n || g.ends[e].1 == n) {
      Incident(g, n, e);
    }
    forall e | e in g.edges && End(g, e, out) == n ensures e in inc {
      Incident(g, n, e);
    }
    forall e | e in inc && !IsLoop(g, e) && End(g, e, out) == n ensures multiset(inc)[e] == 1 {
      assert multiset(inc)[e] == Touches(g, n, e);
    }
    DirEdgesDistinct(g, inc, n, out, {});
    DirEdges(g, inc, n, out, {})
  }

  /** `getInOutEdges(n)`: the incidence list itself. */
  function InOutEdges(g: Graph, n: nat): (r: seq<nat>)
    requires Valid(g) && n in g.data
    ensures forall e :: e in r <==> e in g.edges && (g.ends[e].0 == n || g.ends[e].1 == n)
  {
    forall e ensures e in g.data[n].incidence <==> e in g.edges && (g.ends[e].0 == n || g.ends[e].1 == n) {
      Incident(g, n, e);
    }
    g.data[n].incidence
  }

  /** `outdeg(n)` is the number of edges `getOutEdges(n)` yields, and `indeg(n)` that of `getInEdges(n)`. */
  lemma DegreesCountIterated(g: Graph, n: nat)
    requires Valid(g) && n in g.data
    ensures OutDeg(g, n) == |OutEdges(g, n)|
    ensures InDeg(g, n) == |InEdges(g, n)| % 0x1_0000_0000
  {
    DegreeSplit(g, n);
    DistinctSize(OutEdges(g, n), OutSet(g, n));
    DistinctSize(InEdges(g, n), InSet(g, n));
  }

  /** In a sequence without repeats every value occurs at most once. */
  lemma {:induction false} DistinctOnce(s: seq<nat>)
    requires Distinct(s)
    ensures forall x :: multiset(s)[x] == if x in s then 1 else 0
    decreases |s|
  {
    if |s| > 0 {
      var t := s[1..];
      assert Distinct(t) by {
        forall i, j | 0 <= i < j < |t| ensures t[i] != t[j] {
          assert t[i] == s[i + 1] && t[j] == s[j + 1];
        }
      }
      DistinctOnce(t);
      assert s[0] !in t by {
        forall k | 0 <= k < |t| ensures t[k] != s[0] {
          assert t[k] == s[k + 1];
        }
      }
      assert s == [s[0]] + t;
      assert multiset(s) == multiset{s[0]} + multiset(t);
    }
  }

  /** A sequence without repeats is as long as the set of its values. */
  lemma DistinctSize(s: seq<nat>, a: set<nat>)
    requires Distinct(s) && forall x :: x in s <==> x in a
    ensures |s| == |a|
  {
    DistinctOnce(s);
    assert multiset(s) == MultisetOf(a);
    assert |s| == |multiset(s)|;
  }
}
