/**
 The part of GraphUpdatesRecorder that follows the hierarchy itself:
 subgraphs added and deleted, local properties added, deleted and
 renamed, and graph attributes about to change. As for nodes and edges,
 something added and then deleted within one recording leaves nothing
 behind, and only the first old value of anything is kept.
 */
module RecorderHierarchy {
  import opened Wrappers
  import opened UpdatesRecorder

  // ---------------------------------------------------------------------------
  // Subgraphs
  // ---------------------------------------------------------------------------

  /**
   `addSubGraph(g, sg)`: `(g, sg)` pushed at the front of the added
   subgraphs, so that the last one added is the first one undone; a
   subgraph created with nodes (a clone) has each of its nodes, then each
   of its edges, noted as added to it.
   */
  function AddSubGraph(r: Recorder, ctx: Ctx, g: nat, sg: nat): (r': Recorder)
    ensures r'.addedSubGraphs == [(g, sg)] + r.addedSubGraphs
    ensures |ctx.nodesOf(sg)| == 0 ==> r' == r.(addedSubGraphs := [(g, sg)] + r.addedSubGraphs)
    ensures r' == r.(addedSubGraphs := r'.addedSubGraphs, graphAddedNodes := r'.graphAddedNodes, addedNodes := r'.addedNodes,
                     graphAddedEdges := r'.graphAddedEdges, addedEdgesEnds := r'.addedEdgesEnds, oldContainers := r'.oldContainers,
                     oldValues := r'.oldValues, updatedPropsAddedNodes := r'.updatedPropsAddedNodes,
                     updatedPropsAddedEdges := r'.updatedPropsAddedEdges)
    ensures Extends(r.oldContainers, r'.oldContainers) && ValuesKept(r.oldValues, r'.oldValues)
  {
    var r1 := r.(addedSubGraphs := [(g, sg)] + r.addedSubGraphs);
    if |ctx.nodesOf(sg)| > 0 then
      var r2 := AddNodeSeq(r1, ctx, sg, ctx.nodesOf(sg));
      var r' := AddEdgeSeq(r2, ctx, sg, ctx.edgesOf(sg));
      ValuesKeptTrans(r.oldValues, r2.oldValues, r'.oldValues);
      r'
    else r1
  }

  /** A subgraph created with nodes has every node and every edge it has noted as added to it. */
  lemma AddSubGraphAddsElements(r: Recorder, ctx: Ctx, g: nat, sg: nat)
    ensures forall n :: n in ctx.nodesOf(sg) ==> n in Entry(AddSubGraph(r, ctx, g, sg).graphAddedNodes, sg)
    ensures |ctx.nodesOf(sg)| > 0 ==> forall e :: e in ctx.edgesOf(sg) ==> e in Entry(AddSubGraph(r, ctx, g, sg).graphAddedEdges, sg)
  {
    var r1 := r.(addedSubGraphs := [(g, sg)] + r.addedSubGraphs);
    if |ctx.nodesOf(sg)| > 0 {
      var r2 := AddNodeSeq(r1, ctx, sg, ctx.nodesOf(sg));
      AddEdgeSeqAdds(r2, ctx, sg, ctx.edgesOf(sg));
      assert forall n :: n in ctx.nodesOf(sg) ==> n in Entry(r2.graphAddedNodes, sg);
    }
  }

  /** The pairs `(g, x)` for `x` in `xs`, the last one first: what pushing each at the front leaves in front. */
  function Pushed(g: nat, xs: seq<nat>): (ps: seq<(nat, nat)>)
    ensures |ps| == |xs|
    decreases |xs|
  {
    if |xs| == 0 then [] else Pushed(g, xs[1..]) + [(g, xs[0])]
  }

  /** Every `x` of `xs` is paired with `g` in `Pushed(g, xs)`. */
  lemma {:induction false} PushedHas(g: nat, xs: seq<nat>, x: nat)
    requires x in xs
    ensures (g, x) in Pushed(g, xs)
    decreases |xs|
  {
    if xs[0] != x {
      assert x in xs[1..];
      PushedHas(g, xs[1..], x);
    }
  }

  /** `addSubGraph(g, ssg)` for each `ssg` of `sgs`, in order: the last one ends up first. */
  function AddSubGraphs(r: Recorder, ctx: Ctx, g: nat, sgs: seq<nat>): (r': Recorder)
    ensures r'.addedSubGraphs == Pushed(g, sgs) + r.addedSubGraphs
    ensures r' == r.(addedSubGraphs := r'.addedSubGraphs, graphAddedNodes := r'.graphAddedNodes, addedNodes := r'.addedNodes,
                     graphAddedEdges := r'.graphAddedEdges, addedEdgesEnds := r'.addedEdgesEnds, oldContainers := r'.oldContainers,
                     oldValues := r'.oldValues, updatedPropsAddedNodes := r'.updatedPropsAddedNodes,
                     updatedPropsAddedEdges := r'.updatedPropsAddedEdges)
    decreases |sgs|
  {
    if |sgs| == 0 then r
    else
      var r1 := AddSubGraph(r, ctx, g, sgs[0]);
      var r' := AddSubGraphs(r1, ctx, g, sgs[1..]);
      PushedStep(g, sgs, r.addedSubGraphs);
      r'
  }

  /** One more pair pushed in front, as `Pushed` lays them out. */
  lemma PushedStep(g: nat, xs: seq<nat>, s: seq<(nat, nat)>)
    requires |xs| > 0
    ensures Pushed(g, xs[1..]) + ([(g, xs[0])] + s) == Pushed(g, xs) + s
  {
  }

  /** Adding subgraphs keeps every adjacency and every old value saved before. */
  lemma {:induction false} AddSubGraphsKeeps(r: Recorder, ctx: Ctx, g: nat, sgs: seq<nat>)
    ensures Extends(r.oldContainers, AddSubGraphs(r, ctx, g, sgs).oldContainers)
    ensures ValuesKept(r.oldValues, AddSubGraphs(r, ctx, g, sgs).oldValues)
    decreases |sgs|
  {
    if |sgs| > 0 {
      var r1 := AddSubGraph(r, ctx, g, sgs[0]);
      var r' := AddSubGraphs(r1, ctx, g, sgs[1..]);
      AddSubGraphsKeeps(r1, ctx, g, sgs[1..]);
      ValuesKeptTrans(r.oldValues, r1.oldValues, r'.oldValues);
      ExtendsTrans(r.oldContainers, r1.oldContainers, r'.oldContainers);
    }
  }

  /**
   The pairs `(g, x)` for `x` in `xs` taken out of `s`, the first
   occurrence of each.
   */
  function EraseAll(s: seq<(nat, nat)>, g: nat, xs: seq<nat>): (r: seq<(nat, nat)>)
    ensures multiset(r) <= multiset(s)
    decreases |xs|
  {
    if |xs| == 0 then s
    else EraseAll(EraseFirst(s, (g, xs[0])), g, xs[1..])
  }

  /** A pair whose subgraph is not one of `xs` keeps its count. */
  lemma {:induction false} EraseAllKeeps(s: seq<(nat, nat)>, g: nat, xs: seq<nat>, p: (nat, nat))
    requires p.0 != g || p.1 !in xs
    ensures multiset(EraseAll(s, g, xs))[p] == multiset(s)[p]
    decreases |xs|
  {
    if |xs| > 0 {
      assert p != (g, xs[0]);
      assert p.1 in xs[1..] ==> p.1 in xs;
      EraseAllKeeps(EraseFirst(s, (g, xs[0])), g, xs[1..], p);
    }
  }

  /** A pair `(g, x)` with `x` in `xs`, there at most once, is gone. */
  lemma {:induction false} EraseAllRemoves(s: seq<(nat, nat)>, g: nat, xs: seq<nat>, x: nat)
    requires x in xs && multiset(s)[(g, x)] <= 1
    ensures (g, x) !in EraseAll(s, g, xs)
    decreases |xs|
  {
    var s1 := EraseFirst(s, (g, xs[0]));
    assert multiset(s1)[(g, x)] <= multiset(s)[(g, x)];
    if xs[0] == x {
      assert (g, x) !in s1;
      assert multiset(EraseAll(s1, g, xs[1..]))[(g, x)] == 0;
    } else {
      assert x in xs[1..];
      EraseAllRemoves(s1, g, xs[1..], x);
    }
  }

  /** The graph `g` is named nowhere in the per-graph collections. */
  predicate NoDataFor(r: Recorder, g: nat)
  {
    g !in r.graphAddedNodes && g !in r.graphDeletedNodes && g !in r.graphAddedEdges && g !in r.graphDeletedEdges
    && g !in r.addedProperties && g !in r.deletedProperties && g !in r.oldAttributeValues && g !in r.newAttributeValues
  }

  /**
   `removeGraphData(g)`, for a subgraph added and deleted within the
   recording: the subgraphs it has are no longer noted as added to it,
   and nothing is kept per graph for it any more.
   */
  function RemoveGraphData(r: Recorder, ctx: Ctx, g: nat): (r': Recorder)
    ensures NoDataFor(r', g)
    ensures r'.addedSubGraphs == EraseAll(r.addedSubGraphs, g, ctx.subGraphs(g))
    ensures r' == r.(addedSubGraphs := r'.addedSubGraphs, graphAddedNodes := r'.graphAddedNodes, graphDeletedNodes := r'.graphDeletedNodes,
                     graphAddedEdges := r'.graphAddedEdges, graphDeletedEdges := r'.graphDeletedEdges,
                     addedProperties := r'.addedProperties, deletedProperties := r'.deletedProperties,
                     oldAttributeValues := r'.oldAttributeValues, newAttributeValues := r'.newAttributeValues)
  {
    r.(addedSubGraphs := EraseAll(r.addedSubGraphs, g, ctx.subGraphs(g)),
       graphAddedNodes := r.graphAddedNodes - {g}, graphDeletedNodes := r.graphDeletedNodes - {g},
       graphAddedEdges := r.graphAddedEdges - {g}, graphDeletedEdges := r.graphDeletedEdges - {g},
       addedProperties := r.addedProperties - {g}, deletedProperties := r.deletedProperties - {g},
       oldAttributeValues := r.oldAttributeValues - {g}, newAttributeValues := r.newAttributeValues - {g})
  }

  /** Everything kept for another graph is left alone. */
  lemma RemoveGraphDataKeeps(r: Recorder, ctx: Ctx, g: nat, h: nat)
    requires h != g
    ensures var r' := RemoveGraphData(r, ctx, g);
            Entry(r'.graphAddedNodes, h) == Entry(r.graphAddedNodes, h) && Entry(r'.graphDeletedNodes, h) == Entry(r.graphDeletedNodes, h)
            && Entry(r'.graphAddedEdges, h) == Entry(r.graphAddedEdges, h) && Entry(r'.graphDeletedEdges, h) == Entry(r.graphDeletedEdges, h)
            && Entry(r'.addedProperties, h) == Entry(r.addedProperties, h) && Entry(r'.deletedProperties, h) == Entry(r.deletedProperties, h)
            && (h in r'.oldAttributeValues <==> h in r.oldAttributeValues)
            && (h in r.oldAttributeValues ==> r'.oldAttributeValues[h] == r.oldAttributeValues[h])
  {
    EntryWithout(r.graphAddedNodes, g, h);
    EntryWithout(r.graphDeletedNodes, g, h);
    EntryWithout(r.graphAddedEdges, g, h);
    EntryWithout(r.graphDeletedEdges, g, h);
    EntryWithout(r.addedProperties, g, h);
    EntryWithout(r.deletedProperties, g, h);
  }

  /** Removing the entry of `g` leaves the entry of any other graph. */
  lemma EntryWithout(m: map<nat, set<nat>>, g: nat, h: nat)
    requires h != g
    ensures Entry(m - {g}, h) == Entry(m, h)
  {
  }

  /**
   `delSubGraph(g, sg)`: a subgraph added during the recording is
   forgotten with everything kept for it, and its own subgraphs, which
   now hang under `g`, are noted as added to `g`; any other subgraph is
   appended to the deleted ones.
   */
  function DelSubGraph(r: Recorder, ctx: Ctx, g: nat, sg: nat): (r': Recorder)
    ensures (g, sg) !in r.addedSubGraphs ==> r' == r.(deletedSubGraphs := r.deletedSubGraphs + [(g, sg)])
    ensures (g, sg) in r.addedSubGraphs ==> r'.deletedSubGraphs == r.deletedSubGraphs
    ensures Extends(r.oldContainers, r'.oldContainers) && ValuesKept(r.oldValues, r'.oldValues)
    ensures r'.restartAllowed == r.restartAllowed && r'.deletedEdgesEnds == r.deletedEdgesEnds
            && r'.oldNodeDefaultValues == r.oldNodeDefaultValues && r'.oldEdgeDefaultValues == r.oldEdgeDefaultValues
  {
    if (g, sg) in r.addedSubGraphs then
      var r1 := r.(addedSubGraphs := EraseFirst(r.addedSubGraphs, (g, sg)));
      var r2 := RemoveGraphData(r1, ctx, sg);
      AddSubGraphsKeeps(r2, ctx, g, ctx.subGraphs(sg));
      AddSubGraphs(r2, ctx, g, ctx.subGraphs(sg))
    else r.(deletedSubGraphs := r.deletedSubGraphs + [(g, sg)])
  }

  /**
   Deleting a subgraph added during the recording, and noted once as
   added, leaves it no longer noted as added, nor any of its own
   subgraphs as added to it, while each of those is noted as added to
   `g`.
   */
  lemma DelAddedSubGraph(r: Recorder, ctx: Ctx, g: nat, sg: nat)
    requires multiset(r.addedSubGraphs)[(g, sg)] == 1 && g != sg && sg !in ctx.subGraphs(sg)
    ensures var r' := DelSubGraph(r, ctx, g, sg);
            (g, sg) !in r'.addedSubGraphs
            && (forall x :: x in ctx.subGraphs(sg) ==> (g, x) in r'.addedSubGraphs)
            && (forall x :: x in ctx.subGraphs(sg) && multiset(r.addedSubGraphs)[(sg, x)] <= 1 ==> (sg, x) !in r'.addedSubGraphs)
  {
    var xs := ctx.subGraphs(sg);
    var r' := DelSubGraph(r, ctx, g, sg);
    assert r'.addedSubGraphs == Pushed(g, xs) + EraseAll(EraseFirst(r.addedSubGraphs, (g, sg)), sg, xs);
    AddedAfterDel(r.addedSubGraphs, g, sg, xs, r'.addedSubGraphs);
  }

  /**
   The list of subgraphs added once the pair `(g, sg)` is erased, the pairs
   of `sg` with its own subgraphs `xs` erased, and `xs` pushed under `g`.
   */
  lemma AddedAfterDel(s: seq<(nat, nat)>, g: nat, sg: nat, xs: seq<nat>, a: seq<(nat, nat)>)
    requires multiset(s)[(g, sg)] == 1 && g != sg && sg !in xs
    requires a == Pushed(g, xs) + EraseAll(EraseFirst(s, (g, sg)), sg, xs)
    ensures (g, sg) !in a
    ensures forall x :: x in xs ==> (g, x) in a
    ensures forall x :: x in xs && multiset(s)[(sg, x)] <= 1 ==> (sg, x) !in a
  {
    var s1 := EraseFirst(s, (g, sg));
    EraseAllKeeps(s1, sg, xs, (g, sg));
    assert (g, sg) !in Pushed(g, xs) by {
      if (g, sg) in Pushed(g, xs) {
        PushedOnly(g, xs, (g, sg));
      }
    }
    forall x | x in xs
      ensures (g, x) in a
    {
      PushedHas(g, xs, x);
    }
    forall x | x in xs && multiset(s)[(sg, x)] <= 1
      ensures (sg, x) !in a
    {
      assert multiset(s1)[(sg, x)] <= multiset(s)[(sg, x)];
      EraseAllRemoves(s1, sg, xs, x);
      if (sg, x) in Pushed(g, xs) {
        PushedOnly(g, xs, (sg, x));
      }
    }
  }

  /** `Pushed(g, xs)` holds only pairs `(g, x)` with `x` in `xs`. */
  lemma {:induction false} PushedOnly(g: nat, xs: seq<nat>, p: (nat, nat))
    requires p in Pushed(g, xs)
    ensures p.0 == g && p.1 in xs
    decreases |xs|
  {
    if p != (g, xs[0]) {
      PushedOnly(g, xs[1..], p);
    }
  }

  /**
   A subgraph added and deleted again within one recording, with no
   subgraph of its own and nothing kept for it before, leaves the
   recorder as it was when it was created empty.
   */
  lemma AddThenDelSubGraph(r: Recorder, ctx1: Ctx, ctx2: Ctx, g: nat, sg: nat)
    requires NoDataFor(r, sg) && ctx1.nodesOf(sg) == [] && ctx2.subGraphs(sg) == []
    ensures DelSubGraph(AddSubGraph(r, ctx1, g, sg), ctx2, g, sg) == r
  {
    var r1 := AddSubGraph(r, ctx1, g, sg);
    assert (g, sg) in r1.addedSubGraphs;
    var r2 := r1.(addedSubGraphs := EraseFirst(r1.addedSubGraphs, (g, sg)));
    assert r2 == r by {
      EraseFirstFront(r.addedSubGraphs, (g, sg));
    }
    RemoveGraphDataNone(r, ctx2, sg);
  }

  /** Taking out the pair just pushed in front gives back the sequence. */
  lemma EraseFirstFront<T>(s: seq<T>, x: T)
    ensures EraseFirst([x] + s, x) == s
  {
    assert ([x] + s)[1..] == s;
  }

  /** With nothing kept for `g` and no subgraph under it, forgetting it changes nothing. */
  lemma RemoveGraphDataNone(r: Recorder, ctx: Ctx, g: nat)
    requires NoDataFor(r, g) && ctx.subGraphs(g) == []
    ensures RemoveGraphData(r, ctx, g) == r
  {
    assert r.graphAddedNodes - {g} == r.graphAddedNodes && r.graphDeletedNodes - {g} == r.graphDeletedNodes;
    assert r.graphAddedEdges - {g} == r.graphAddedEdges && r.graphDeletedEdges - {g} == r.graphDeletedEdges;
    assert r.addedProperties - {g} == r.addedProperties && r.deletedProperties - {g} == r.deletedProperties;
    assert r.oldAttributeValues - {g} == r.oldAttributeValues && r.newAttributeValues - {g} == r.newAttributeValues;
  }

  // ---------------------------------------------------------------------------
  // Local properties
  // ---------------------------------------------------------------------------

  /** `addLocalProperty(g, name)`, `p` being the property `name` now names in `g`. */
  function AddLocalProperty(r: Recorder, g: nat, p: nat): (r': Recorder)
    ensures r' == r.(addedProperties := r'.addedProperties)
    ensures Entry(r'.addedProperties, g) == Entry(r.addedProperties, g) + {p}
    ensures forall h :: h != g ==> Entry(r'.addedProperties, h) == Entry(r.addedProperties, h)
  {
    r.(addedProperties := Insert(r.addedProperties, g, p))
  }

  /**
   `delLocalProperty(g, name)`: a property added during the recording is
   forgotten, with its renaming and the notes about its values at added
   elements; any other is noted as deleted from `g`.
   */
  function DelLocalProperty(r: Recorder, g: nat, p: nat): (r': Recorder)
    ensures p in Entry(r.addedProperties, g) ==>
              r' == r.(addedProperties := r'.addedProperties, renamedProperties := r.renamedProperties - {p},
                       updatedPropsAddedNodes := r.updatedPropsAddedNodes - {p}, updatedPropsAddedEdges := r.updatedPropsAddedEdges - {p})
              && r'.addedProperties.Keys == r.addedProperties.Keys
              && Entry(r'.addedProperties, g) == Entry(r.addedProperties, g) - {p}
              && (forall h :: h != g ==> Entry(r'.addedProperties, h) == Entry(r.addedProperties, h))
    ensures p !in Entry(r.addedProperties, g) ==>
              r' == r.(deletedProperties := r'.deletedProperties)
              && Entry(r'.deletedProperties, g) == Entry(r.deletedProperties, g) + {p}
              && (forall h :: h != g ==> Entry(r'.deletedProperties, h) == Entry(r.deletedProperties, h))
  {
    if p in Entry(r.addedProperties, g) then
      r.(addedProperties := r.addedProperties[g := r.addedProperties[g] - {p}],
         renamedProperties := r.renamedProperties - {p},
         updatedPropsAddedNodes := r.updatedPropsAddedNodes - {p},
         updatedPropsAddedEdges := r.updatedPropsAddedEdges - {p})
    else r.(deletedProperties := Insert(r.deletedProperties, g, p))
  }

  /**
   A property added and deleted again within one recording is neither
   added nor deleted any more, and nothing about its renaming or its
   values at added elements is kept; everything else is as it was, but
   for the (possibly empty) set of added properties `g` now has.
   */
  lemma AddThenDelProperty(r: Recorder, g: nat, p: nat)
    requires p !in Entry(r.addedProperties, g)
    ensures var r2 := DelLocalProperty(AddLocalProperty(r, g, p), g, p);
            r2 == r.(addedProperties := r.addedProperties[g := Entry(r.addedProperties, g)],
                     renamedProperties := r.renamedProperties - {p},
                     updatedPropsAddedNodes := r.updatedPropsAddedNodes - {p},
                     updatedPropsAddedEdges := r.updatedPropsAddedEdges - {p})
            && (!IsAddedOrDeletedProperty(r2, g, p) <==> p !in Entry(r.deletedProperties, g))
  {
    var r1 := AddLocalProperty(r, g, p);
    var added := r.addedProperties[g := Entry(r.addedProperties, g)];
    assert r1.addedProperties[g := r1.addedProperties[g] - {p}] == added;
    var r2 := DelLocalProperty(r1, g, p);
    assert r2.addedProperties == added;
    assert r1.renamedProperties == r.renamedProperties && r1.updatedPropsAddedNodes == r.updatedPropsAddedNodes
           && r1.updatedPropsAddedEdges == r.updatedPropsAddedEdges;
  }

  /**
   `propertyRenamed(p)`: unless `p` was added during the recording, the
   name it has before its first renaming is kept.
   */
  function PropertyRenamed(r: Recorder, ctx: Ctx, p: nat): (r': Recorder)
    ensures r' == r.(renamedProperties := r'.renamedProperties)
    ensures p in Entry(r.addedProperties, ctx.propGraph(p)) || p in r.renamedProperties ==> r' == r
    ensures p !in Entry(r.addedProperties, ctx.propGraph(p)) ==>
              p in r'.renamedProperties
              && r'.renamedProperties[p] == (if p in r.renamedProperties then r.renamedProperties[p] else ctx.propName(p))
  {
    if p in Entry(r.addedProperties, ctx.propGraph(p)) then r
    else if p in r.renamedProperties then r
    else r.(renamedProperties := r.renamedProperties[p := ctx.propName(p)])
  }

  /** Renaming a property twice keeps the name it had before the first renaming. */
  lemma RenamedKeepsFirst(r: Recorder, ctx1: Ctx, ctx2: Ctx, p: nat)
    requires ctx1.propGraph(p) == ctx2.propGraph(p)
    ensures PropertyRenamed(PropertyRenamed(r, ctx1, p), ctx2, p) == PropertyRenamed(r, ctx1, p)
  {
  }

  /** `isAddedOrDeletedProperty(g, p)`. */
  predicate IsAddedOrDeletedProperty(r: Recorder, g: nat, p: nat)
  {
    p in Entry(r.addedProperties, g) || p in Entry(r.deletedProperties, g)
  }

  /** A property added, or deleted after being there before the recording, is added or deleted. */
  lemma PropertyStatus(r: Recorder, g: nat, p: nat)
    ensures IsAddedOrDeletedProperty(AddLocalProperty(r, g, p), g, p)
    ensures p !in Entry(r.addedProperties, g) ==> IsAddedOrDeletedProperty(DelLocalProperty(r, g, p), g, p)
    ensures forall h :: h != g ==> (IsAddedOrDeletedProperty(DelLocalProperty(r, g, p), h, p) <==> IsAddedOrDeletedProperty(r, h, p))
  {
  }

  /**
   `dontObserveProperty(p)`: the recorder may stop listening to `p` only
   when recording cannot restart and nothing is kept about the values of
   `p`; it then forgets `p` as added to its graph. The flag says whether
   it stopped.
   */
  function DontObserveProperty(r: Recorder, ctx: Ctx, p: nat): (res: (Recorder, bool))
    ensures res.1 <==> !r.restartAllowed && Untouched(r, p)
    ensures res.1 ==> res.0 == r.(addedProperties := res.0.addedProperties)
                      && res.0.addedProperties.Keys == r.addedProperties.Keys
                      && Entry(res.0.addedProperties, ctx.propGraph(p)) == Entry(r.addedProperties, ctx.propGraph(p)) - {p}
                      && (forall h :: h != ctx.propGraph(p) ==> Entry(res.0.addedProperties, h) == Entry(r.addedProperties, h))
    ensures !res.1 ==> res.0 == r
  {
    if !r.restartAllowed && Untouched(r, p) then
      var g := ctx.propGraph(p);
      var added := if p in Entry(r.addedProperties, g) then r.addedProperties[g := r.addedProperties[g] - {p}] else r.addedProperties;
      (r.(addedProperties := added), true)
    else (r, false)
  }

  /** Nothing is kept about the values of `p`. */
  predicate Untouched(r: Recorder, p: nat)
  {
    p !in r.oldNodeDefaultValues && p !in r.oldEdgeDefaultValues && p !in r.oldValues
    && p !in r.updatedPropsAddedNodes && p !in r.updatedPropsAddedEdges
  }

  /** Once the value of `p` at an existing node has been saved, the recorder keeps listening to `p`. */
  lemma ObservedOnceSaved(r: Recorder, ctx: Ctx, p: nat, n: nat)
    requires p !in r.oldNodeDefaultValues && n !in r.addedNodes
    ensures !DontObserveProperty(BeforeSetNodeValue(r, ctx, p, n), ctx, p).1
  {
  }

  // ---------------------------------------------------------------------------
  // Graph attributes
  // ---------------------------------------------------------------------------

  /** The old attribute values kept for `g`, empty when none is. */
  function AttributesOf(r: Recorder, g: nat): map<string, Option<Value>>
  {
    if g in r.oldAttributeValues then r.oldAttributeValues[g] else map[]
  }

  /**
   `beforeSetAttribute(g, name)` (and `removeAttribute`): the value the
   attribute has now, `None` when unset, kept the first time only.
   */
  function BeforeSetAttribute(r: Recorder, ctx: Ctx, g: nat, name: string): (r': Recorder)
    ensures r' == r.(oldAttributeValues := r'.oldAttributeValues)
    ensures g in r'.oldAttributeValues && name in r'.oldAttributeValues[g]
    ensures r'.oldAttributeValues[g][name] == (if name in AttributesOf(r, g) then AttributesOf(r, g)[name] else ctx.attribute(g, name))
    ensures forall k :: k in AttributesOf(r, g) ==> k in r'.oldAttributeValues[g] && r'.oldAttributeValues[g][k] == AttributesOf(r, g)[k]
    ensures forall h :: h != g ==> (h in r'.oldAttributeValues <==> h in r.oldAttributeValues)
    ensures forall h :: h != g && h in r.oldAttributeValues ==> r'.oldAttributeValues[h] == r.oldAttributeValues[h]
  {
    if name in AttributesOf(r, g) then r
    else r.(oldAttributeValues := r.oldAttributeValues[g := AttributesOf(r, g)[name := ctx.attribute(g, name)]])
  }

  /** Only the first old value of an attribute is kept: a second change of it records nothing. */
  lemma AttributeFirstOnly(r: Recorder, ctx1: Ctx, ctx2: Ctx, g: nat, name: string)
    ensures var r1 := BeforeSetAttribute(r, ctx1, g, name); BeforeSetAttribute(r1, ctx2, g, name) == r1
  {
  }
}
