/**
 The value layer of AbstractProperty.cxx. A property keeps, for its nodes
 and separately for its edges, a default value and a container of values;
 the source writes the node and the edge code twice, identically, so one
 `Side` models either half.

 The container is seen through what MutableContainer.cxx promises of it:
 an id reads the value held for it, or the default when none is held.
 Setting an id to the default drops it from `held`, as the hash state
 does; the vector state keeps its slot, holding the default of that time,
 which only shows once the default changes.
 Notifications to observers are not part of this model.
 */
module AbstractProperties {
  import opened Wrappers

  /** The default value (`nodeDefaultValue`, also the container's default) and the values held by id. */
  datatype Side<V> = Side(dflt: V, held: map<nat, V>)

  /** `getNodeValue` / `getEdgeValue`. */
  function Get<V>(s: Side<V>, i: nat): V
  {
    if i in s.held then s.held[i] else s.dflt
  }

  /** A fresh property: every id reads the default. */
  function Fresh<V>(d: V): (s: Side<V>)
    ensures forall i :: Get(s, i) == d
  {
    Side(d, map[])
  }

  /** `setNodeValue`: `i` reads `v` and no other id changes. */
  function SetValue<V(==)>(s: Side<V>, i: nat, v: V): (r: Side<V>)
    ensures Get(r, i) == v && r.dflt == s.dflt
    ensures forall j :: j != i ==> Get(r, j) == Get(s, j)
  {
    if v == s.dflt then Side(s.dflt, s.held - {i}) else Side(s.dflt, s.held[i := v])
  }

  /** Setting every id of `es` to `v`, one after the other. */
  function SetEach<V(==)>(s: Side<V>, es: seq<nat>, v: V): (r: Side<V>)
    ensures r.dflt == s.dflt
    ensures forall j :: Get(r, j) == if j in es then v else Get(s, j)
    decreases |es|
  {
    if |es| == 0 then s else SetEach(SetValue(s, es[0], v), es[1..], v)
  }

  /** The ids of `es` whose value is `v` (or, with `equal` false, is not), in order. */
  function Select<V(==)>(s: Side<V>, es: seq<nat>, v: V, equal: bool): (r: seq<nat>)
    ensures forall j :: j in r <==> j in es && ((Get(s, j) == v) == equal)
    decreases |es|
  {
    if |es| == 0 then []
    else if (Get(s, es[0]) == v) == equal then [es[0]] + Select(s, es[1..], v, equal)
    else Select(s, es[1..], v, equal)
  }

  /**
   `setNodeDefaultValue(v)` over the graph's elements `es`: nothing when
   `v` is the default already; otherwise the elements reading the old
   default are re-set to it, those reading `v` are re-set to `v`, and the
   default becomes `v`.
   */
  function SetDefaultValue<V(==)>(s: Side<V>, es: seq<nat>, v: V): (r: Side<V>)
    ensures r.dflt == v
    ensures forall j :: j in es ==> Get(r, j) == Get(s, j)
    ensures s.dflt == v ==> r == s
  {
    if s.dflt == v then s
    else
      var prev := s.dflt;
      var olds := Select(s, es, prev, true);
      var news := Select(s, es, v, true);
      var r := SetEach(SetEach(s.(dflt := v), olds, prev), news, v);
      assert forall j :: j in es ==> Get(r, j) == Get(s, j) by {
        forall j | j in es ensures Get(r, j) == Get(s, j) {
          if Get(s, j) != prev && Get(s, j) != v {
            assert j in s.held;
          }
        }
      }
      r
  }

  /**
   Elements that are not in the graph read the new default afterwards
   unless a value is held for them: the hash state, or an id outside the
   vector's index range.
   */
  lemma DefaultReachesOutsiders<V>(s: Side<V>, es: seq<nat>, v: V, i: nat)
    requires i !in es && i !in s.held
    ensures Get(SetDefaultValue(s, es, v), i) == v
  {
  }

  /**
   `setAllNodeValue(v, graph)`: for a descendant graph, each of its
   elements is set to `v` and the default is kept; otherwise the default
   and every value become `v`.
   */
  function SetAllValue<V(==)>(s: Side<V>, v: V, descendant: Option<seq<nat>>): (r: Side<V>)
    ensures descendant.None? ==> r.dflt == v && forall j :: Get(r, j) == v
    ensures descendant.Some? ==> r.dflt == s.dflt
    ensures descendant.Some? ==> forall j :: Get(r, j) == if j in descendant.value then v else Get(s, j)
  {
    match descendant
    case None => Fresh(v)
    case Some(es) => SetEach(s, es, v)
  }

  /** `erase(n)`: `n` reads the default again. */
  function Erase<V(==)>(s: Side<V>, i: nat): (r: Side<V>)
    ensures Get(r, i) == s.dflt && r.dflt == s.dflt
    ensures forall j :: j != i ==> Get(r, j) == Get(s, j)
  {
    SetValue(s, i, s.dflt)
  }

  /** After an erase the element no longer holds a non-default value. */
  lemma EraseClears<V>(s: Side<V>, i: nat, owned: set<nat>)
    ensures i !in NonDefaultValuated(Erase(s, i), false, owned, Whole)
  {
  }

  /** `compare`: -1, 0 or 1 after `<` and `==` on the two values. */
  function Compare<V(==)>(s: Side<V>, less: (V, V) -> bool, a: nat, b: nat): (r: int)
    ensures r == -1 <==> less(Get(s, a), Get(s, b))
    ensures r == 0 <==> !less(Get(s, a), Get(s, b)) && Get(s, a) == Get(s, b)
    ensures r == 1 <==> !less(Get(s, a), Get(s, b)) && Get(s, a) != Get(s, b)
  {
    var x := Get(s, a);
    var y := Get(s, b);
    if less(x, y) then -1 else if x == y then 0 else 1
  }

  /** `less` is a strict total order. */
  ghost predicate StrictTotal<V(!new)>(less: (V, V) -> bool)
  {
    (forall x :: !less(x, x))
    && (forall x, y :: less(x, y) ==> !less(y, x))
    && (forall x, y :: x != y ==> less(x, y) || less(y, x))
  }

  /** For a strict total order, swapping the two elements negates the comparison. */
  lemma CompareAntisymmetric<V(!new)>(s: Side<V>, less: (V, V) -> bool, a: nat, b: nat)
    requires StrictTotal(less)
    ensures Compare(s, less, a, b) == -Compare(s, less, b, a)
  {
  }

  /** The graph a query is restricted to: none, or a graph's elements, noting whether it is the property's own graph. */
  datatype Scope = Whole | Sub(elems: set<nat>, own: bool)

  /**
   The filter of `getNonDefaultValuatedNodes`: an unnamed property always
   checks membership (its own graph's elements `owned` by default); a named
   one only for a graph other than its own.
   */
  predicate Admitted(named: bool, owned: set<nat>, scope: Scope, i: nat)
  {
    if !named then (match scope case Whole => i in owned case Sub(es, _) => i in es)
    else (match scope case Whole => true case Sub(es, own) => own || i in es)
  }

  /** `getNonDefaultValuatedNodes`: the admitted ids holding a value other than the default. */
  function NonDefaultValuated<V(==)>(s: Side<V>, named: bool, owned: set<nat>, scope: Scope): (r: set<nat>)
    ensures forall i :: i in r <==> Get(s, i) != s.dflt && Admitted(named, owned, scope, i)
  {
    set i | i in s.held && s.held[i] != s.dflt && Admitted(named, owned, scope, i)
  }

  /** Changing the default keeps the graph's non-default elements, apart from those that now read the new default. */
  lemma DefaultChangeNonDefault<V>(s: Side<V>, es: seq<nat>, v: V, i: nat)
    requires i in es
    ensures var r := SetDefaultValue(s, es, v);
            i in NonDefaultValuated(r, true, {}, Whole) <==> Get(s, i) != v
  {
  }

  /**
   `copy(destination, source, property, ifNotDefault)`: false and no change
   without a property, or when only non-default values are copied and the
   source reads the default; otherwise the destination reads the source's
   value.
   */
  function Copy<V(==)>(dst: Side<V>, d: nat, src: Option<Side<V>>, i: nat, ifNotDefault: bool): (r: (bool, Side<V>))
    ensures !r.0 <==> src.None? || (ifNotDefault && Get(src.value, i) == src.value.dflt)
    ensures !r.0 ==> r.1 == dst
    ensures r.0 ==> r.1 == SetValue(dst, d, Get(src.value, i))
  {
    match src
    case None => (false, dst)
    case Some(p) =>
      var notDefault := Get(p, i) != p.dflt;
      if ifNotDefault && !notDefault then (false, dst) else (true, SetValue(dst, d, Get(p, i)))
  }

  /** A successful copy makes the destination read the source's value. */
  lemma CopyReads<V>(dst: Side<V>, d: nat, src: Side<V>, i: nat, ifNotDefault: bool)
    ensures var r := Copy(dst, d, Some(src), i, ifNotDefault);
            r.0 ==> Get(r.1, d) == Get(src, i)
  {
  }

  /**
   `*this = prop`, for a named property: on the same graph the defaults and
   the non-default values are taken over; on another graph each element of
   this graph that the other graph has takes the other's value.
   */
  function Assign<V(==)>(me: Side<V>, mine: seq<nat>, p: Side<V>, theirs: set<nat>, sameGraph: bool): (r: Side<V>)
    ensures sameGraph ==> r.dflt == p.dflt && forall j :: Get(r, j) == Get(p, j)
    ensures !sameGraph ==> r.dflt == me.dflt
    ensures !sameGraph ==> forall j :: Get(r, j) == if j in mine && j in theirs then Get(p, j) else Get(me, j)
  {
    if sameGraph then
      Side(p.dflt, map i | i in p.held && p.held[i] != p.dflt :: p.held[i])
    else
      AssignEach(me, mine, p, theirs)
  }

  function AssignEach<V(==)>(me: Side<V>, mine: seq<nat>, p: Side<V>, theirs: set<nat>): (r: Side<V>)
    ensures r.dflt == me.dflt
    ensures forall j :: Get(r, j) == if j in mine && j in theirs then Get(p, j) else Get(me, j)
    decreases |mine|
  {
    if |mine| == 0 then me
    else
      var next := if mine[0] in theirs then SetValue(me, mine[0], Get(p, mine[0])) else me;
      var r := AssignEach(next, mine[1..], p, theirs);
      assert forall j :: j in mine <==> j == mine[0] || j in mine[1..] by {
        assert mine == [mine[0]] + mine[1..];
      }
      r
  }

  // ---------------------------------------------------------------------------
  // Values given as text
  // ---------------------------------------------------------------------------

  /** `setNodeStringValue`: false and no change when the text does not parse; otherwise the parsed value is set. */
  function SetStringValue<V(==)>(s: Side<V>, i: nat, text: string, parse: string -> Option<V>): (r: (bool, Side<V>))
    ensures !r.0 <==> parse(text).None?
    ensures !r.0 ==> r.1 == s
    ensures r.0 ==> Get(r.1, i) == parse(text).value && forall j :: j != i ==> Get(r.1, j) == Get(s, j)
  {
    match parse(text)
    case None => (false, s)
    case Some(v) => (true, SetValue(s, i, v))
  }

  /** `setNodeDefaultStringValue`. */
  function SetDefaultStringValue<V(==)>(s: Side<V>, es: seq<nat>, text: string, parse: string -> Option<V>): (r: (bool, Side<V>))
    ensures !r.0 <==> parse(text).None?
    ensures !r.0 ==> r.1 == s
    ensures r.0 ==> r.1.dflt == parse(text).value && forall j :: j in es ==> Get(r.1, j) == Get(s, j)
  {
    match parse(text)
    case None => (false, s)
    case Some(v) => (true, SetDefaultValue(s, es, v))
  }

  /** `setAllNodeStringValue`. */
  function SetAllStringValue<V(==)>(s: Side<V>, text: string, parse: string -> Option<V>, descendant: Option<seq<nat>>): (r: (bool, Side<V>))
    ensures !r.0 <==> parse(text).None?
    ensures !r.0 ==> r.1 == s
    ensures r.0 ==> r.1 == SetAllValue(s, parse(text).value, descendant)
  {
    match parse(text)
    case None => (false, s)
    case Some(v) => (true, SetAllValue(s, v, descendant))
  }
}
