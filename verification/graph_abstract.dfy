/**
 The subgraph hierarchy of GraphAbstract.cpp. Every graph keeps the
 ordered list of its direct subgraphs; the model keeps, for each graph of
 the hierarchy, its id, its name, its node list and that list. The source
 identifies a graph by its pointer; the root hands out ids that are unique
 within one hierarchy, so the model identifies a graph by its id.
 */
module GraphAbstracts {
  import opened Wrappers

  datatype Hierarchy = Hierarchy(id: nat, name: string, nodes: seq<nat>, subs: seq<Hierarchy>)

  /** How a subgraph is looked up: `getSubGraph(id)` / `getSubGraph(name)` and their descendant versions. */
  datatype Key = ById(id: nat) | ByName(name: string)

  predicate Matches(g: Hierarchy, k: Key)
  {
    match k
    case ById(i) => g.id == i
    case ByName(s) => g.name == s
  }

  // ---------------------------------------------------------------------------
  // The reference: every proper descendant, in pre-order
  // ---------------------------------------------------------------------------

  /** The proper descendants of `g`: each subgraph followed by its own descendants. */
  function Descendants(g: Hierarchy): seq<Hierarchy>
    decreases g
  {
    Forest(g.subs)
  }

  /** The graphs of a list of sibling subtrees, their descendants included. */
  function Forest(ts: seq<Hierarchy>): seq<Hierarchy>
    decreases ts
  {
    if |ts| == 0 then [] else [ts[0]] + Descendants(ts[0]) + Forest(ts[1..])
  }

  /** The ids of a list of graphs. */
  function Ids(ts: seq<Hierarchy>): (r: seq<nat>)
    ensures |r| == |ts| && forall i :: 0 <= i < |ts| ==> r[i] == ts[i].id
    decreases |ts|
  {
    if |ts| == 0 then [] else [ts[0].id] + Ids(ts[1..])
  }

  /** No id occurs twice among `g` and its descendants. */
  ghost predicate UniqueIds(g: Hierarchy)
  {
    forall x :: multiset(Ids(Descendants(g)))[x] + (if x == g.id then 1 else 0) <= 1
  }

  lemma {:induction false} ForestAppend(a: seq<Hierarchy>, b: seq<Hierarchy>)
    ensures Forest(a + b) == Forest(a) + Forest(b)
    decreases |a|
  {
    if |a| == 0 {
      assert a + b == b;
    } else {
      assert (a + b)[1..] == a[1..] + b;
      ForestAppend(a[1..], b);
    }
  }

  lemma {:induction false} IdsAppend(a: seq<Hierarchy>, b: seq<Hierarchy>)
    ensures Ids(a + b) == Ids(a) + Ids(b)
  {
  }

  /** A subgraph lies in the forest of its siblings, and so does each of its descendants. */
  lemma {:induction false} ForestHolds(ts: seq<Hierarchy>, j: nat)
    requires j < |ts|
    ensures ts[j] in Forest(ts) && forall d :: d in Descendants(ts[j]) ==> d in Forest(ts)
    decreases |ts|
  {
    if j > 0 {
      ForestHolds(ts[1..], j - 1);
    }
  }

  // ---------------------------------------------------------------------------
  // Direct subgraphs
  // ---------------------------------------------------------------------------

  /** `getNthSubGraph`: nothing for `n` at or past the number of subgraphs. */
  function NthSubGraph(g: Hierarchy, n: nat): (r: Option<Hierarchy>)
    ensures r.None? <==> n >= |g.subs|
    ensures r.Some? ==> r.value in g.subs && r.value == g.subs[n]
  {
    if n >= |g.subs| then None else Some(g.subs[n])
  }

  /** The scan of `std::find` and of `getSubGraph`: the position of the first subgraph at or after `i` matching `k`. */
  function FindFrom(subs: seq<Hierarchy>, k: Key, i: nat): (r: Option<nat>)
    requires i <= |subs|
    ensures r.Some? ==> i <= r.value < |subs| && Matches(subs[r.value], k)
    ensures r.Some? ==> forall j :: i <= j < r.value ==> !Matches(subs[j], k)
    ensures r.None? ==> forall j :: i <= j < |subs| ==> !Matches(subs[j], k)
    decreases |subs| - i
  {
    if i == |subs| then None
    else if Matches(subs[i], k) then Some(i)
    else FindFrom(subs, k, i + 1)
  }

  /** `getSubGraph(id)` / `getSubGraph(name)`: the first direct subgraph that matches, if any. */
  function GetSubGraph(g: Hierarchy, k: Key): (r: Option<Hierarchy>)
    ensures r.Some? <==> exists j :: 0 <= j < |g.subs| && Matches(g.subs[j], k)
    ensures r.Some? ==> r.value in g.subs && Matches(r.value, k)
    ensures r.Some? ==> exists j :: 0 <= j < |g.subs| && r.value == g.subs[j]
                                    && forall i :: 0 <= i < j ==> !Matches(g.subs[i], k)
  {
    match FindFrom(g.subs, k, 0)
    case None => None
    case Some(j) => Some(g.subs[j])
  }

  /** `isSubGraph`: `id` is a direct subgraph. */
  predicate IsSubGraph(g: Hierarchy, id: nat)
  {
    FindFrom(g.subs, ById(id), 0).Some?
  }

  /** A direct subgraph is exactly a graph of the list of subgraphs. */
  lemma IsSubGraphIff(g: Hierarchy, id: nat)
    ensures IsSubGraph(g, id) <==> id in Ids(g.subs)
  {
    if id in Ids(g.subs) {
      var j :| 0 <= j < |g.subs| && Ids(g.subs)[j] == id;
      assert Matches(g.subs[j], ById(id));
    }
  }

  // ---------------------------------------------------------------------------
  // Descendants
  // ---------------------------------------------------------------------------

  /** `isDescendantGraph`: a direct subgraph, or a descendant of one of them, tried in order. */
  predicate IsDescendantGraph(g: Hierarchy, id: nat)
    decreases g
  {
    IsSubGraph(g, id) || AnyDescendant(g.subs, id)
  }

  predicate AnyDescendant(ts: seq<Hierarchy>, id: nat)
    decreases ts
  {
    |ts| > 0 && (IsDescendantGraph(ts[0], id) || AnyDescendant(ts[1..], id))
  }

  /** `isDescendantGraph` holds exactly for the ids of the proper descendants. */
  lemma {:induction false} IsDescendantIff(g: Hierarchy, id: nat)
    ensures IsDescendantGraph(g, id) <==> id in Ids(Descendants(g))
    decreases g
  {
    IsSubGraphIff(g, id);
    AnyDescendantIff(g.subs, id);
    ChildrenInForest(g.subs, id);
  }

  lemma {:induction false} AnyDescendantIff(ts: seq<Hierarchy>, id: nat)
    ensures AnyDescendant(ts, id) <==> exists j :: 0 <= j < |ts| && id in Ids(Descendants(ts[j]))
    decreases ts
  {
    if |ts| > 0 {
      IsDescendantIff(ts[0], id);
      AnyDescendantIff(ts[1..], id);
      if exists j :: 0 <= j < |ts| && id in Ids(Descendants(ts[j])) {
        var j :| 0 <= j < |ts| && id in Ids(Descendants(ts[j]));
        if j > 0 {
          assert ts[1..][j - 1] == ts[j];
        }
      }
    }
  }

  /** An id is in a forest exactly when it is one of the roots or in the descendants of one of them. */
  lemma {:induction false} ChildrenInForest(ts: seq<Hierarchy>, id: nat)
    ensures id in Ids(Forest(ts)) <==>
              id in Ids(ts) || exists j :: 0 <= j < |ts| && id in Ids(Descendants(ts[j]))
    decreases |ts|
  {
    if |ts| > 0 {
      var head := [ts[0]] + Descendants(ts[0]);
      IdsAppend(head, Forest(ts[1..]));
      IdsAppend([ts[0]], Descendants(ts[0]));
      ChildrenInForest(ts[1..], id);
      assert Ids(ts) == [ts[0].id] + Ids(ts[1..]);
      if exists j :: 0 <= j < |ts| && id in Ids(Descendants(ts[j])) {
        var j :| 0 <= j < |ts| && id in Ids(Descendants(ts[j]));
        if j > 0 {
          assert ts[1..][j - 1] == ts[j];
        }
      }
    }
  }

  /** A descendant of a descendant is a descendant. */
  lemma DescendantTransitive(g: Hierarchy, c: Hierarchy, id: nat)
    requires c in g.subs && IsDescendantGraph(c, id)
    ensures IsDescendantGraph(g, id)
  {
    var j :| 0 <= j < |g.subs| && g.subs[j] == c;
    IsDescendantIff(c, id);
    IsDescendantIff(g, id);
    ForestHolds(g.subs, j);
    var i :| 0 <= i < |Descendants(c)| && Descendants(c)[i].id == id;
    assert Descendants(c)[i] in Forest(g.subs);
  }

  /** `getDescendantGraph(id)` / `(name)`: a matching direct subgraph first, then each subgraph's descendants in order. */
  function GetDescendant(g: Hierarchy, k: Key): (r: Option<Hierarchy>)
    ensures r.Some? ==> Matches(r.value, k) && r.value in Descendants(g)
    ensures r.None? ==> forall d :: d in Descendants(g) ==> !Matches(d, k)
    ensures GetSubGraph(g, k).Some? ==> r == GetSubGraph(g, k)
    ensures GetSubGraph(g, k).None? && r.Some? ==>
              exists j :: 0 <= j < |g.subs| && r.value in Descendants(g.subs[j])
                          && forall i, d :: 0 <= i < j && d in Descendants(g.subs[i]) ==> !Matches(d, k)
    decreases g
  {
    match GetSubGraph(g, k)
    case Some(s) =>
      assert s in Descendants(g) by {
        var j :| 0 <= j < |g.subs| && g.subs[j] == s;
        ForestHolds(g.subs, j);
      }
      Some(s)
    case None =>
      var r := DescendantIn(g.subs, k);
      assert r.None? ==> forall d :: d in Descendants(g) ==> !Matches(d, k) by {
        if r.None? {
          forall d | d in Descendants(g) ensures !Matches(d, k) {
            ForestMember(g.subs, d);
          }
        }
      }
      r
  }

  /** The loop of `getDescendantGraph` over the subgraphs. */
  function DescendantIn(ts: seq<Hierarchy>, k: Key): (r: Option<Hierarchy>)
    ensures r.Some? ==> Matches(r.value, k) && r.value in Forest(ts)
    ensures r.None? ==> forall j, d :: 0 <= j < |ts| && d in Descendants(ts[j]) ==> !Matches(d, k)
    ensures r.Some? ==> exists j :: 0 <= j < |ts| && r.value in Descendants(ts[j]) && r == GetDescendant(ts[j], k)
                                    && forall i, d :: 0 <= i < j && d in Descendants(ts[i]) ==> !Matches(d, k)
    decreases ts
  {
    if |ts| == 0 then None
    else
      match GetDescendant(ts[0], k)
      case Some(s) => Some(s)
      case None =>
        var r := DescendantIn(ts[1..], k);
        DescendantInStep(ts, k, r);
        r
  }

  /** What the loop finds after the first subgraph, when that one has no match, is what it finds from the start. */
  lemma DescendantInStep(ts: seq<Hierarchy>, k: Key, r: Option<Hierarchy>)
    requires |ts| > 0
    requires forall d :: d in Descendants(ts[0]) ==> !Matches(d, k)
    requires r.None? ==> forall j, d :: 0 <= j < |ts[1..]| && d in Descendants(ts[1..][j]) ==> !Matches(d, k)
    requires r.Some? ==> exists j :: 0 <= j < |ts[1..]| && r.value in Descendants(ts[1..][j]) && r == GetDescendant(ts[1..][j], k)
                                     && forall i, d :: 0 <= i < j && d in Descendants(ts[1..][i]) ==> !Matches(d, k)
    ensures r.None? ==> forall j, d :: 0 <= j < |ts| && d in Descendants(ts[j]) ==> !Matches(d, k)
    ensures r.Some? ==> exists j :: 0 <= j < |ts| && r.value in Descendants(ts[j]) && r == GetDescendant(ts[j], k)
                                    && forall i, d :: 0 <= i < j && d in Descendants(ts[i]) ==> !Matches(d, k)
  {
    if r.None? {
      forall j, d | 0 <= j < |ts| && d in Descendants(ts[j]) ensures !Matches(d, k) {
        if j > 0 {
          assert ts[1..][j - 1] == ts[j];
        }
      }
    } else {
      var j' :| 0 <= j' < |ts| - 1 && r.value in Descendants(ts[1..][j']) && r == GetDescendant(ts[1..][j'], k)
                && forall i, d :: 0 <= i < j' && d in Descendants(ts[1..][i]) ==> !Matches(d, k);
      assert ts[1..][j'] == ts[j' + 1];
      forall i, d | 0 <= i < j' + 1 && d in Descendants(ts[i]) ensures !Matches(d, k) {
        if i > 0 {
          assert ts[1..][i - 1] == ts[i];
        }
      }
    }
  }

  /** A member of a forest is one of its roots or a descendant of one. */
  lemma {:induction false} ForestMember(ts: seq<Hierarchy>, d: Hierarchy)
    requires d in Forest(ts)
    ensures d in ts || exists j :: 0 <= j < |ts| && d in Descendants(ts[j])
    decreases |ts|
  {
    if d != ts[0] && d !in Descendants(ts[0]) {
      ForestMember(ts[1..], d);
      if d !in ts[1..] {
        var j :| 0 <= j < |ts[1..]| && d in Descendants(ts[1..][j]);
        assert ts[j + 1] == ts[1..][j];
      }
    }
  }

  // ---------------------------------------------------------------------------
  // Counting
  // ---------------------------------------------------------------------------

  /** `numberOfDescendantGraphs`: the subgraphs, plus the descendants of each. */
  function NumberOfDescendants(g: Hierarchy): nat
    decreases g
  {
    |g.subs| + SumDescendants(g.subs)
  }

  function SumDescendants(ts: seq<Hierarchy>): nat
    decreases ts
  {
    if |ts| == 0 then 0 else NumberOfDescendants(ts[0]) + SumDescendants(ts[1..])
  }

  /** `numberOfDescendantGraphs` counts every proper descendant once. */
  lemma {:induction false} NumberOfDescendantsCounts(g: Hierarchy)
    ensures NumberOfDescendants(g) == |Descendants(g)|
    decreases g
  {
    SumCounts(g.subs);
  }

  lemma {:induction false} SumCounts(ts: seq<Hierarchy>)
    ensures |ts| + SumDescendants(ts) == |Forest(ts)|
    decreases ts
  {
    if |ts| > 0 {
      NumberOfDescendantsCounts(ts[0]);
      SumCounts(ts[1..]);
    }
  }

  // ---------------------------------------------------------------------------
  // Deleting subgraphs
  // ---------------------------------------------------------------------------

  /**
   `delSubGraph(toRemove)`: the first subgraph with that id leaves the list
   and its own subgraphs are appended to it (`restoreSubGraph`); nothing
   happens when no subgraph has that id.
   */
  function DelSubGraph(g: Hierarchy, id: nat): (r: Hierarchy)
    ensures r.id == g.id && r.name == g.name && r.nodes == g.nodes
    ensures !IsSubGraph(g, id) ==> r == g
  {
    match FindFrom(g.subs, ById(id), 0)
    case None => g
    case Some(j) => g.(subs := g.subs[..j] + g.subs[j + 1..] + g.subs[j].subs)
  }

  /** The forest of a list whose first tree is `c`. */
  lemma ForestCons(c: Hierarchy, q: seq<Hierarchy>)
    ensures Forest([c] + q) == ([c] + Descendants(c)) + Forest(q)
  {
    assert ([c] + q)[1..] == q;
  }

  /** A list is what comes before its `j`-th element, that element, and what follows. */
  lemma CutAt<T>(s: seq<T>, j: nat)
    requires j < |s|
    ensures s == s[..j] + ([s[j]] + s[j + 1..])
  {
  }

  /** The forest of a list, cut around its `j`-th tree. */
  lemma ForestSplit(ts: seq<Hierarchy>, j: nat)
    requires j < |ts|
    ensures Forest(ts) == Forest(ts[..j]) + (([ts[j]] + Descendants(ts[j])) + Forest(ts[j + 1..]))
  {
    var p, c, q := ts[..j], ts[j], ts[j + 1..];
    CutAt(ts, j);
    ForestAppend(p, [c] + q);
    ForestCons(c, q);
  }

  /** The forest of three lists laid end to end. */
  lemma ForestAppend3(a: seq<Hierarchy>, b: seq<Hierarchy>, c: seq<Hierarchy>)
    ensures Forest(a + b + c) == Forest(a) + Forest(b) + Forest(c)
  {
    ForestAppend(a + b, c);
    ForestAppend(a, b);
  }

  /** The descendants before and after a deletion, laid out as the pieces of the list of subgraphs. */
  lemma DelSubGraphSplit(g: Hierarchy, id: nat)
    requires IsSubGraph(g, id)
    ensures var j := FindFrom(g.subs, ById(id), 0).value;
            var c, a, b := g.subs[j], Forest(g.subs[..j]), Forest(g.subs[j + 1..]);
            Descendants(g) == a + (([c] + Descendants(c)) + b)
            && Descendants(DelSubGraph(g, id)) == a + b + Descendants(c)
  {
    var j := FindFrom(g.subs, ById(id), 0).value;
    var c := g.subs[j];
    assert DelSubGraph(g, id).subs == g.subs[..j] + g.subs[j + 1..] + c.subs;
    ForestSplit(g.subs, j);
    ForestAppend3(g.subs[..j], g.subs[j + 1..], c.subs);
  }

  /** Deleting a subgraph takes exactly that graph, and its id, out of the descendants: its own descendants stay. */
  lemma DelSubGraphDescendants(g: Hierarchy, id: nat)
    requires IsSubGraph(g, id)
    ensures var j := FindFrom(g.subs, ById(id), 0).value;
            multiset(Descendants(DelSubGraph(g, id))) == multiset(Descendants(g)) - multiset{g.subs[j]}
            && multiset(Ids(Descendants(DelSubGraph(g, id)))) == multiset(Ids(Descendants(g))) - multiset{id}
  {
    var j := FindFrom(g.subs, ById(id), 0).value;
    var c, a, b := g.subs[j], Forest(g.subs[..j]), Forest(g.subs[j + 1..]);
    var d := Descendants(c);
    DelSubGraphSplit(g, id);
    MultisetMove(a, b, d, c);
    IdsAppend(a, ([c] + d) + b);
    IdsAppend([c] + d, b);
    IdsAppend([c], d);
    IdsAppend(a + b, d);
    IdsAppend(a, b);
    MultisetMove(Ids(a), Ids(b), Ids(d), c.id);
  }

  /** Moving one element out of the middle of a list takes exactly it out of the multiset. */
  lemma MultisetMove<T>(a: seq<T>, b: seq<T>, d: seq<T>, c: T)
    ensures multiset(a + b + d) == multiset(a + (([c] + d) + b)) - multiset{c}
  {
  }

  /** Deleting a subgraph lowers `numberOfDescendantGraphs` by one. */
  lemma DelSubGraphCount(g: Hierarchy, id: nat)
    requires IsSubGraph(g, id)
    ensures NumberOfDescendants(DelSubGraph(g, id)) == NumberOfDescendants(g) - 1
  {
    DelSubGraphSplit(g, id);
    NumberOfDescendantsCounts(g);
    NumberOfDescendantsCounts(DelSubGraph(g, id));
  }

  /** Deleting a subgraph keeps ids unique, and the deleted id is no longer a descendant. */
  lemma DelSubGraphUnique(g: Hierarchy, id: nat)
    requires UniqueIds(g) && IsSubGraph(g, id)
    ensures UniqueIds(DelSubGraph(g, id)) && !IsDescendantGraph(DelSubGraph(g, id), id)
  {
    var r := DelSubGraph(g, id);
    var mg, mr := multiset(Ids(Descendants(g))), multiset(Ids(Descendants(r)));
    DelSubGraphDescendants(g, id);
    assert mr == mg - multiset{id};
    assert IsDescendantGraph(g, id);
    IsDescendantIff(g, id);
    assert mg[id] == 1 && mr[id] == 0;
    assert UniqueIds(r) by {
      forall x ensures mr[x] + (if x == r.id then 1 else 0) <= 1 {
        assert mg[x] + (if x == g.id then 1 else 0) <= 1;
      }
    }
    IsDescendantIff(r, id);
  }

  /** The ids of a list whose first element is `c`, followed by `d` and then `f`, as a multiset. */
  lemma IdsCons(c: Hierarchy, d: seq<Hierarchy>, f: seq<Hierarchy>)
    ensures multiset(Ids([c] + d + f)) == multiset{c.id} + multiset(Ids(d)) + multiset(Ids(f))
  {
    IdsAppend([c] + d, f);
    IdsAppend([c], d);
  }

  /**
   `delAllSubGraphs()`: while a subgraph is left, the first one has all its
   own subgraphs deleted and is then deleted. Every proper descendant is
   deleted exactly once (`deleted` lists the ids in the order of deletion)
   and the graph is left without subgraphs.
   */
  method DelAllSubGraphs(g: Hierarchy) returns (r: Hierarchy, deleted: seq<nat>)
    ensures r == g.(subs := [])
    ensures multiset(deleted) == multiset(Ids(Descendants(g)))
    decreases g
  {
    r := g;
    deleted := [];
    while |r.subs| > 0
      invariant r == g.(subs := r.subs)
      invariant forall x :: x in r.subs ==> x in g.subs
      invariant multiset(deleted) + multiset(Ids(Forest(r.subs))) == multiset(Ids(Descendants(g)))
      decreases |r.subs|
    {
      var c := r.subs[0];
      var rest := r.subs[1..];
      assert c in g.subs;
      var c2, d := DelAllSubGraphs(c);
      IdsCons(c, Descendants(c), Forest(rest));
      DelLeaf(r, c2, rest);
      r := DelSubGraph(r.(subs := [c2] + rest), c2.id);
      deleted := deleted + d + [c.id];
    }
  }

  /**
   `delAllSubGraphs(toRemove)`: nothing unless `toRemove` is a direct
   subgraph (the root, its own supergraph, is never one); otherwise it and
   all its descendants are deleted, and no other subgraph is touched.
   */
  method DelAllSubGraphsOf(g: Hierarchy, id: nat) returns (r: Hierarchy, deleted: seq<nat>)
    ensures !IsSubGraph(g, id) ==> r == g && deleted == []
    ensures IsSubGraph(g, id) ==>
              var j := FindFrom(g.subs, ById(id), 0).value;
              r == g.(subs := g.subs[..j] + g.subs[j + 1..])
              && multiset(deleted) == multiset{id} + multiset(Ids(Descendants(g.subs[j])))
  {
    var found := FindFrom(g.subs, ById(id), 0);
    if found.None? {
      r, deleted := g, [];
    } else {
      var j := found.value;
      var c2, d := DelAllSubGraphs(g.subs[j]);
      var before := g.(subs := g.subs[j := c2]);
      assert FindFrom(before.subs, ById(id), 0) == Some(j) by {
        FindSame(g.subs, before.subs, id, j);
      }
      r := DelSubGraph(before, id);
      assert before.subs[..j] == g.subs[..j] && before.subs[j + 1..] == g.subs[j + 1..];
      deleted := [id] + d;
    }
  }

  /** Deleting a first subgraph that has no subgraphs of its own just drops it. */
  lemma DelLeaf(g: Hierarchy, c: Hierarchy, rest: seq<Hierarchy>)
    requires c.subs == []
    ensures DelSubGraph(g.(subs := [c] + rest), c.id) == g.(subs := rest)
  {
    var h := g.(subs := [c] + rest);
    assert FindFrom(h.subs, ById(c.id), 0) == Some(0);
    assert h.subs[..0] + h.subs[1..] + c.subs == rest;
  }

  /** Replacing the first match by another graph with the same id keeps it the first match. */
  lemma FindSame(a: seq<Hierarchy>, b: seq<Hierarchy>, id: nat, j: nat)
    requires FindFrom(a, ById(id), 0) == Some(j)
    requires |b| == |a| && b[j].id == id && forall i :: 0 <= i < j ==> b[i] == a[i]
    ensures FindFrom(b, ById(id), 0) == Some(j)
  {
    assert Matches(b[j], ById(id));
    forall i | 0 <= i < j ensures !Matches(b[i], ById(id)) {
      assert b[i] == a[i];
    }
  }

  /** Deleting a subgraph with all of its descendants lowers `numberOfDescendantGraphs` by the size of that subtree. */
  lemma DelAllSubGraphsOfCount(g: Hierarchy, j: nat)
    requires j < |g.subs|
    ensures NumberOfDescendants(g.(subs := g.subs[..j] + g.subs[j + 1..]))
            == NumberOfDescendants(g) - 1 - NumberOfDescendants(g.subs[j])
  {
    var c := g.subs[j];
    ForestSplit(g.subs, j);
    ForestAppend(g.subs[..j], g.subs[j + 1..]);
    NumberOfDescendantsCounts(g);
    NumberOfDescendantsCounts(c);
    NumberOfDescendantsCounts(g.(subs := g.subs[..j] + g.subs[j + 1..]));
  }

  // ---------------------------------------------------------------------------
  // Nodes
  // ---------------------------------------------------------------------------

  /** `getOneNode`: the first node, or the invalid node (none) for a graph without nodes. */
  function GetOneNode(g: Hierarchy): (r: Option<nat>)
    ensures r.None? <==> |g.nodes| == 0
    ensures r.Some? ==> r.value in g.nodes && r.value == g.nodes[0]
  {
    if |g.nodes| > 0 then Some(g.nodes[0]) else None
  }
}
