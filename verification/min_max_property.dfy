/**
 The per-graph minimum/maximum cache of MinMaxProperty.cxx, for a numeric
 property. For each graph id it may hold the pair (min, max) of the
 values of that graph's nodes (and separately of its edges); value changes
 and graph events invalidate entries by the rules of `updateNodeValue`,
 `updateAllNodesValues` and `treatEvent`.

 The node and the edge halves are the same code; a `Cache` models either.
 Values are integers; `lo` and `hi` are the bounds the property was built
 with (`_nodeMin`, `_nodeMax`). The registration of the property as a
 listener of the graphs it has computed for is not part of this model.
 */
module MinMaxProperties {
  import opened AbstractProperties

  type Cache = map<nat, (int, int)>

  function Min(a: int, b: int): int { if b < a then b else a }
  function Max(a: int, b: int): int { if a < b then b else a }

  /** Some element of `es` holds a value other than the default. */
  predicate HasNonDefault(s: Side<int>, es: seq<nat>)
  {
    exists i :: i in es && Get(s, i) != s.dflt
  }

  /** Every value of `es` lies within the property's bounds. */
  predicate InRange(s: Side<int>, es: seq<nat>, lo: int, hi: int)
  {
    forall i :: i in es ==> lo <= Get(s, i) <= hi
  }

  /** `m` is the least value of `es`. */
  predicate IsMin(s: Side<int>, es: seq<nat>, m: int)
  {
    (exists i :: i in es && Get(s, i) == m) && forall i :: i in es ==> m <= Get(s, i)
  }

  /** `m` is the greatest value of `es`. */
  predicate IsMax(s: Side<int>, es: seq<nat>, m: int)
  {
    (exists i :: i in es && Get(s, i) == m) && forall i :: i in es ==> Get(s, i) <= m
  }

  /** The `std::min` / `std::max` loop over the elements, from the pair (mn, mx). */
  function Fold(s: Side<int>, es: seq<nat>, mn: int, mx: int): (r: (int, int))
    ensures r.0 <= mn && mx <= r.1
    ensures forall i :: i in es ==> r.0 <= Get(s, i) <= r.1
    ensures r.0 == mn || exists i :: i in es && Get(s, i) == r.0
    ensures r.1 == mx || exists i :: i in es && Get(s, i) == r.1
    decreases |es|
  {
    if |es| == 0 then (mn, mx)
    else
      var v := Get(s, es[0]);
      var r := Fold(s, es[1..], Min(mn, v), Max(mx, v));
      assert forall i :: i in es <==> i == es[0] || i in es[1..] by {
        assert es == [es[0]] + es[1..];
      }
      r
  }

  /**
   `computeMinMaxNode`: the loop runs only when some element holds a
   non-default value; a pair left inverted (max below min) becomes
   (default, default).
   */
  function ComputeMinMax(s: Side<int>, es: seq<nat>, lo: int, hi: int): (r: (int, int))
    ensures !HasNonDefault(s, es) && lo < hi ==> r == (s.dflt, s.dflt)
    ensures HasNonDefault(s, es) && InRange(s, es, lo, hi) ==> IsMin(s, es, r.0) && IsMax(s, es, r.1)
  {
    var p := if HasNonDefault(s, es) then Fold(s, es, hi, lo) else (hi, lo);
    var r := if p.1 < p.0 then (s.dflt, s.dflt) else p;
    assert HasNonDefault(s, es) && InRange(s, es, lo, hi) ==> r == p && IsMin(s, es, r.0) && IsMax(s, es, r.1) by {
      if HasNonDefault(s, es) && InRange(s, es, lo, hi) {
        var j :| j in es && Get(s, j) != s.dflt;
        assert p.0 <= Get(s, j) <= p.1;
      }
    }
    r
  }

  /** The cache and the value `getNodeMin` / `getNodeMax` return. */
  datatype Read = Read(cache: Cache, pair: (int, int))

  /** `getNodeMin`/`getNodeMax` for graph `g`: the cached pair, or a pair computed now and cached. */
  function GetMinMax(c: Cache, s: Side<int>, g: nat, es: seq<nat>, lo: int, hi: int): (r: Read)
    ensures g in c ==> r == Read(c, c[g])
    ensures g !in c ==> r == Read(c[g := ComputeMinMax(s, es, lo, hi)], ComputeMinMax(s, es, lo, hi))
  {
    if g in c then Read(c, c[g])
    else
      var p := ComputeMinMax(s, es, lo, hi);
      Read(c[g := p], p)
  }

  /** The pair is computed once: a second read returns it from the cache and changes nothing. */
  lemma ComputedOnce(c: Cache, s: Side<int>, g: nat, es: seq<nat>, lo: int, hi: int)
    ensures var r := GetMinMax(c, s, g, es, lo, hi);
            GetMinMax(r.cache, s, g, es, lo, hi) == r
  {
  }

  /** Each cached pair is what a computation now would give, for the graph's current elements. */
  predicate Sound(c: Cache, s: Side<int>, graphs: map<nat, seq<nat>>, lo: int, hi: int)
  {
    forall g :: g in c ==> g in graphs && c[g] == ComputeMinMax(s, graphs[g], lo, hi)
  }

  /** Some cached pair is affected by `i` changing from `prev` to `v`. */
  predicate Stale(c: Cache, prev: int, v: int)
  {
    exists g :: g in c && (v < c[g].0 || v > c[g].1 || prev == c[g].0 || prev == c[g].1)
  }

  /**
   `updateNodeValue(n, v)`, called before the value of `n` changes: the
   whole cache is cleared iff the value really changes and some cached pair
   has `v` outside it or the old value at one of its ends.
   */
  function UpdateValue(c: Cache, s: Side<int>, i: nat, v: int): (r: Cache)
    ensures r == map[] <==> c == map[] || (v != Get(s, i) && Stale(c, Get(s, i), v))
    ensures r != map[] ==> r == c
  {
    if c == map[] then c
    else if v != Get(s, i) && Stale(c, Get(s, i), v) then map[]
    else c
  }

  /** `updateAllNodesValues(v)`: every cached pair becomes (v, v). */
  function UpdateAllValues(c: Cache, v: int): (r: Cache)
    ensures r.Keys == c.Keys && forall g :: g in r ==> r[g] == (v, v)
  {
    map g | g in c :: (v, v)
  }

  /** Two least (or two greatest) values of the same elements are equal. */
  lemma MinUnique(s: Side<int>, es: seq<nat>, a: int, b: int)
    ensures IsMin(s, es, a) && IsMin(s, es, b) ==> a == b
    ensures IsMax(s, es, a) && IsMax(s, es, b) ==> a == b
  {
  }

  /** One cached pair that `updateNodeValue` kept is still right after the value changed. */
  lemma {:induction false} UpdateKeepsPair(s: Side<int>, es: seq<nat>, lo: int, hi: int, i: nat, v: int, p: (int, int))
    requires lo < hi && InRange(s, es, lo, hi) && lo <= v <= hi
    requires p == ComputeMinMax(s, es, lo, hi)
    requires p.0 <= v <= p.1 && Get(s, i) != p.0 && Get(s, i) != p.1
    ensures ComputeMinMax(SetValue(s, i, v), es, lo, hi) == p
  {
    var s' := SetValue(s, i, v);
    assert InRange(s', es, lo, hi);
    if HasNonDefault(s, es) {
      var mn :| mn in es && Get(s, mn) == p.0;
      var mx :| mx in es && Get(s, mx) == p.1;
      assert mn != i && mx != i;
      assert HasNonDefault(s', es) by {
        if p.0 != s.dflt {
          assert Get(s', mn) != s'.dflt;
        } else {
          assert p.1 != s.dflt by {
            var j :| j in es && Get(s, j) != s.dflt;
          }
          assert Get(s', mx) != s'.dflt;
        }
      }
      assert IsMin(s', es, p.0) by {
        assert Get(s', mn) == p.0;
      }
      assert IsMax(s', es, p.1) by {
        assert Get(s', mx) == p.1;
      }
      MinUnique(s', es, p.0, ComputeMinMax(s', es, lo, hi).0);
      MinUnique(s', es, p.1, ComputeMinMax(s', es, lo, hi).1);
    } else {
      assert i !in es;
      assert !HasNonDefault(s', es);
    }
  }

  /** `updateNodeValue` keeps the cache sound across the change of the value it is told of. */
  lemma UpdateKeepsSound(c: Cache, s: Side<int>, graphs: map<nat, seq<nat>>, lo: int, hi: int, i: nat, v: int)
    requires lo < hi && lo <= v <= hi && Sound(c, s, graphs, lo, hi)
    requires forall g :: g in graphs ==> InRange(s, graphs[g], lo, hi)
    ensures Sound(UpdateValue(c, s, i, v), SetValue(s, i, v), graphs, lo, hi)
  {
    var r := UpdateValue(c, s, i, v);
    if r != map[] && v != Get(s, i) {
      forall g | g in r
        ensures ComputeMinMax(SetValue(s, i, v), graphs[g], lo, hi) == r[g]
      {
        assert !(v < c[g].0 || v > c[g].1 || Get(s, i) == c[g].0 || Get(s, i) == c[g].1);
        UpdateKeepsPair(s, graphs[g], lo, hi, i, v, c[g]);
      }
    } else if r != map[] {
      assert SetValue(s, i, v) == s || forall j :: Get(SetValue(s, i, v), j) == Get(s, j);
      forall g | g in r
        ensures ComputeMinMax(SetValue(s, i, v), graphs[g], lo, hi) == r[g]
      {
        ComputeSameValues(s, SetValue(s, i, v), graphs[g], lo, hi);
      }
    }
  }

  /** The computation only reads the values and the default. */
  lemma ComputeSameValues(s: Side<int>, t: Side<int>, es: seq<nat>, lo: int, hi: int)
    requires s.dflt == t.dflt && forall j :: Get(s, j) == Get(t, j)
    ensures ComputeMinMax(s, es, lo, hi) == ComputeMinMax(t, es, lo, hi)
  {
    FoldSameValues(s, t, es, hi, lo);
  }

  lemma {:induction false} FoldSameValues(s: Side<int>, t: Side<int>, es: seq<nat>, mn: int, mx: int)
    requires forall j :: Get(s, j) == Get(t, j)
    ensures Fold(s, es, mn, mx) == Fold(t, es, mn, mx)
    decreases |es|
  {
    if |es| > 0 {
      FoldSameValues(s, t, es[1..], Min(mn, Get(s, es[0])), Max(mx, Get(s, es[0])));
    }
  }

  // ---------------------------------------------------------------------------
  // Graph events
  // ---------------------------------------------------------------------------

  /** The node and the edge caches. */
  datatype Caches = Caches(nodes: Cache, edges: Cache)

  /** The graph events `treatEvent` looks at; any other event is ignored. */
  datatype GraphEvent = AddNode | DelNode(g: nat, n: nat) | AddEdge | DelEdge(g: nat, e: nat) | OtherEvent

  /**
   A deleted element drops its graph's pair only when its value is at one
   end of the pair.
   */
  function DropIfEnd(c: Cache, s: Side<int>, g: nat, i: nat): (r: Cache)
    ensures g in c && (Get(s, i) == c[g].0 || Get(s, i) == c[g].1) ==> r == c - {g}
    ensures !(g in c && (Get(s, i) == c[g].0 || Get(s, i) == c[g].1)) ==> r == c
  {
    if g in c && (Get(s, i) == c[g].0 || Get(s, i) == c[g].1) then c - {g} else c
  }

  /**
   `treatEvent`: adding a node clears the node cache, deleting one drops
   the graph's pair when the node's value is at one of its ends; edges
   behave the same on the edge cache.
   */
  function TreatEvent(c: Caches, nodes: Side<int>, edges: Side<int>, ev: GraphEvent): (r: Caches)
    ensures ev.AddNode? ==> r == Caches(map[], c.edges)
    ensures ev.AddEdge? ==> r == Caches(c.nodes, map[])
    ensures ev.DelNode? ==> r.edges == c.edges && r.nodes == DropIfEnd(c.nodes, nodes, ev.g, ev.n)
    ensures ev.DelEdge? ==> r.nodes == c.nodes && r.edges == DropIfEnd(c.edges, edges, ev.g, ev.e)
    ensures ev.OtherEvent? ==> r == c
  {
    match ev
    case AddNode => c.(nodes := map[])
    case DelNode(g, n) => c.(nodes := DropIfEnd(c.nodes, nodes, g, n))
    case AddEdge => c.(edges := map[])
    case DelEdge(g, e) => c.(edges := DropIfEnd(c.edges, edges, g, e))
    case OtherEvent => c
  }

  /** A kept pair stays right when the element leaves the graph, since its value was inside the pair. */
  lemma {:induction false} DeleteKeepsPair(s: Side<int>, es: seq<nat>, lo: int, hi: int, i: nat, p: (int, int))
    requires lo < hi && InRange(s, es, lo, hi) && i in es
    requires p == ComputeMinMax(s, es, lo, hi)
    requires Get(s, i) != p.0 && Get(s, i) != p.1
    ensures ComputeMinMax(s, RemoveAll(es, i), lo, hi) == p
  {
    var es' := RemoveAll(es, i);
    assert HasNonDefault(s, es);
    var mn :| mn in es && Get(s, mn) == p.0;
    var mx :| mx in es && Get(s, mx) == p.1;
    assert mn in es' && mx in es';
    assert InRange(s, es', lo, hi);
    assert HasNonDefault(s, es') by {
      if p.0 != s.dflt {
        assert Get(s, mn) != s.dflt;
      } else {
        assert p.1 != s.dflt by {
          var j :| j in es && Get(s, j) != s.dflt;
        }
        assert Get(s, mx) != s.dflt;
      }
    }
    assert IsMin(s, es', p.0);
    assert IsMax(s, es', p.1);
    MinUnique(s, es', p.0, ComputeMinMax(s, es', lo, hi).0);
    MinUnique(s, es', p.1, ComputeMinMax(s, es', lo, hi).1);
  }

  /** `es` without `x`. */
  function RemoveAll(es: seq<nat>, x: nat): (r: seq<nat>)
    ensures forall y :: y in r <==> y in es && y != x
    decreases |es|
  {
    if |es| == 0 then []
    else
      assert es == [es[0]] + es[1..];
      if es[0] == x then RemoveAll(es[1..], x) else [es[0]] + RemoveAll(es[1..], x)
  }

  /** Deleting node `n` of graph `g` keeps the node cache sound for the graph without `n`. */
  lemma DeleteKeepsSound(c: Caches, nodes: Side<int>, edges: Side<int>, graphs: map<nat, seq<nat>>, lo: int, hi: int, g: nat, n: nat)
    requires lo < hi && Sound(c.nodes, nodes, graphs, lo, hi) && g in graphs && n in graphs[g]
    requires InRange(nodes, graphs[g], lo, hi)
    ensures var r := TreatEvent(c, nodes, edges, DelNode(g, n));
            Sound(r.nodes, nodes, graphs[g := RemoveAll(graphs[g], n)], lo, hi)
  {
    var r := TreatEvent(c, nodes, edges, DelNode(g, n));
    var graphs' := graphs[g := RemoveAll(graphs[g], n)];
    forall h | h in r.nodes
      ensures h in graphs' && r.nodes[h] == ComputeMinMax(nodes, graphs'[h], lo, hi)
    {
      if h == g {
        DeleteKeepsPair(nodes, graphs[g], lo, hi, n, c.nodes[g]);
      }
    }
  }
}
