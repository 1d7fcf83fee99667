/**
 How GraphUpdatesRecorder dispatches the events it hears, and whether it
 has recorded anything worth undoing (`hasUpdates`). Also the bulk
 addition of edges and the deletion of an edge added to a subgraph as
 the source handles them, next to the corrected handlings the rest of
 the model uses.
 */
module RecorderEvents {
  import opened Wrappers
  import opened UpdatesRecorder
  import opened RecorderHierarchy

  // ---------------------------------------------------------------------------
  // Events
  // ---------------------------------------------------------------------------

  /**
   The events the recorder listens to: the graph events (with the graph
   they come from) and the property events. A local property is named by
   the property its name designates in the graph at that time.
   */
  datatype Event =
    | NodeAdded(g: nat, n: nat)
    | NodeDeleted(g: nat, n: nat)
    | EdgeAdded(g: nat, e: nat)
    | EdgeDeleted(g: nat, e: nat)
    | EdgeReversed(g: nat, e: nat)
    | EndsToSet(g: nat, e: nat)
    | EndsSet(g: nat, e: nat)
    | NodesAdded(g: nat, nb: nat)
    | EdgesAdded(g: nat, nb: nat)
    | SubGraphAdded(g: nat, sg: nat)
    | SubGraphDeleted(g: nat, sg: nat)
    | PropertyAdded(g: nat, p: nat)
    | PropertyToDelete(g: nat, p: nat)
    | PropertyToRename(p: nat)
    | AttributeToSet(g: nat, name: string)
    | AttributeRemoved(g: nat, name: string)
    | NodeValueToSet(p: nat, n: nat)
    | AllNodeValueToSet(p: nat)
    | AllEdgeValueToSet(p: nat)
    | EdgeValueToSet(p: nat, e: nat)
    | Unrelated

  /** `treatEvent` as the source writes it: the bulk edge addition and the edge deletion as written. */
  function TreatEventAsWritten(r: Recorder, ctx: Ctx, ev: Event): (r': Recorder)
    ensures !ev.EdgesAdded? && !ev.EdgeDeleted? ==> r' == TreatEvent(r, ctx, ev)
  {
    match ev
    case EdgesAdded(g, nb) => AddEdgesAsWritten(r, ctx, g, nb)
    case EdgeDeleted(g, e) => DelEdgeAsWritten(r, ctx, g, e)
    case _ => TreatEvent(r, ctx, ev)
  }

  /**
   `b` keeps all `a` kept of the first old values: property values,
   default values, adjacencies and the ends of deleted edges; and whether
   the recording may restart.
   */
  predicate Keeps(a: Recorder, b: Recorder)
  {
    b.restartAllowed == a.restartAllowed && ValuesKept(a.oldValues, b.oldValues) && Extends(a.oldContainers, b.oldContainers)
    && Extends(a.oldNodeDefaultValues, b.oldNodeDefaultValues) && Extends(a.oldEdgeDefaultValues, b.oldEdgeDefaultValues)
    && Extends(a.deletedEdgesEnds, b.deletedEdgesEnds)
  }

  lemma KeepsTrans(a: Recorder, b: Recorder, c: Recorder)
    requires Keeps(a, b) && Keeps(b, c)
    ensures Keeps(a, c)
  {
    ValuesKeptTrans(a.oldValues, b.oldValues, c.oldValues);
  }

  /**
   `treatEvent`: each event handed to its handler, the others ignored.
   Whatever event comes, nothing kept first is lost or changed.
   */
  function TreatEvent(r: Recorder, ctx: Ctx, ev: Event): (r': Recorder)
    ensures Keeps(r, r')
  {
    match ev
    case NodeAdded(g, n) => NodeAddedKeeps(r, ctx, g, n); AddNode(r, ctx, g, n)
    case NodeDeleted(g, n) => NodeDeletedKeeps(r, ctx, g, n); DelNode(r, ctx, g, n)
    case EdgeAdded(g, e) => EdgeAddedKeeps(r, ctx, g, e); AddEdge(r, ctx, g, e)
    case EdgeDeleted(g, e) => EdgeDeletedKeeps(r, ctx, g, e); DelEdge(r, ctx, g, e)
    case EdgeReversed(g, e) => EdgeReversedKeeps(r, ctx, g, e); ReverseEdge(r, ctx, g, e)
    case EndsToSet(g, e) => EndsToSetKeeps(r, ctx, g, e); BeforeSetEnds(r, ctx, g, e)
    case EndsSet(g, e) => EndsSetKeeps(r, ctx, g, e); AfterSetEnds(r, ctx, g, e)
    case NodesAdded(g, nb) => NodesAddedKeeps(r, ctx, g, nb); AddNodes(r, ctx, g, nb)
    case EdgesAdded(g, nb) => EdgesAddedKeeps(r, ctx, g, nb); AddEdges(r, ctx, g, nb)
    case SubGraphAdded(g, sg) => SubGraphAddedKeeps(r, ctx, g, sg); AddSubGraph(r, ctx, g, sg)
    case SubGraphDeleted(g, sg) => SubGraphDeletedKeeps(r, ctx, g, sg); DelSubGraph(r, ctx, g, sg)
    case PropertyAdded(g, p) => PropertyKeeps(r, ctx, g, p); AddLocalProperty(r, g, p)
    case PropertyToDelete(g, p) => PropertyKeeps(r, ctx, g, p); DelLocalProperty(r, g, p)
    case PropertyToRename(p) => PropertyKeeps(r, ctx, 0, p); PropertyRenamed(r, ctx, p)
    case AttributeToSet(g, name) => AttributeKeeps(r, ctx, g, name); BeforeSetAttribute(r, ctx, g, name)
    case AttributeRemoved(g, name) => AttributeKeeps(r, ctx, g, name); BeforeSetAttribute(r, ctx, g, name)
    case NodeValueToSet(p, n) => NodeValueKeeps(r, ctx, p, n); BeforeSetNodeValue(r, ctx, p, n)
    case AllNodeValueToSet(p) => AllNodeValueKeeps(r, ctx, p); BeforeSetAllNodeValue(r, ctx, p)
    case AllEdgeValueToSet(p) => AllEdgeValueKeeps(r, ctx, p); BeforeSetAllEdgeValue(r, ctx, p)
    case EdgeValueToSet(p, e) => EdgeValueKeeps(r, ctx, p, e); BeforeSetEdgeValue(r, ctx, p, e)
    case Unrelated => assert ValuesKept(r.oldValues, r.oldValues); r
  }

  lemma NodeAddedKeeps(r: Recorder, ctx: Ctx, g: nat, n: nat)
    ensures Keeps(r, AddNode(r, ctx, g, n))
  {
  }

  lemma NodeDeletedKeeps(r: Recorder, ctx: Ctx, g: nat, n: nat)
    ensures Keeps(r, DelNode(r, ctx, g, n))
  {
  }

  lemma EdgeAddedKeeps(r: Recorder, ctx: Ctx, g: nat, e: nat)
    ensures Keeps(r, AddEdge(r, ctx, g, e))
  {
  }

  lemma EdgeDeletedKeeps(r: Recorder, ctx: Ctx, g: nat, e: nat)
    ensures Keeps(r, DelEdge(r, ctx, g, e))
  {
    if e in Entry(r.graphAddedEdges, g) {
      assert DelEdge(r, ctx, g, e) == ForgetAddedEdge(r, g, e);
      AddedEdgeForgottenKeeps(r, g, e);
    } else {
      assert DelEdge(r, ctx, g, e) == DelPresentEdge(r, ctx, g, e);
      PresentEdgeDeletedKeeps(r, ctx, g, e);
    }
  }

  lemma AddedEdgeForgottenKeeps(r: Recorder, g: nat, e: nat)
    ensures Keeps(r, ForgetAddedEdge(r, g, e))
  {
  }

  lemma PresentEdgeDeletedKeeps(r: Recorder, ctx: Ctx, g: nat, e: nat)
    ensures Keeps(r, DelPresentEdge(r, ctx, g, e))
  {
    var r1 := DeleteEnds(r, ctx, g, e);
    assert r1.oldContainers == r.oldContainers && r1.oldValues == r.oldValues;
  }

  lemma EdgeReversedKeeps(r: Recorder, ctx: Ctx, g: nat, e: nat)
    ensures Keeps(r, ReverseEdge(r, ctx, g, e))
  {
  }

  lemma EndsToSetKeeps(r: Recorder, ctx: Ctx, g: nat, e: nat)
    ensures Keeps(r, BeforeSetEnds(r, ctx, g, e))
  {
  }

  lemma EndsSetKeeps(r: Recorder, ctx: Ctx, g: nat, e: nat)
    ensures Keeps(r, AfterSetEnds(r, ctx, g, e))
  {
  }

  lemma NodesAddedKeeps(r: Recorder, ctx: Ctx, g: nat, nb: nat)
    ensures Keeps(r, AddNodes(r, ctx, g, nb))
  {
  }

  lemma EdgesAddedKeeps(r: Recorder, ctx: Ctx, g: nat, nb: nat)
    ensures Keeps(r, AddEdges(r, ctx, g, nb))
  {
  }

  lemma SubGraphAddedKeeps(r: Recorder, ctx: Ctx, g: nat, sg: nat)
    ensures Keeps(r, AddSubGraph(r, ctx, g, sg))
  {
  }

  lemma SubGraphDeletedKeeps(r: Recorder, ctx: Ctx, g: nat, sg: nat)
    ensures Keeps(r, DelSubGraph(r, ctx, g, sg))
  {
  }

  lemma PropertyKeeps(r: Recorder, ctx: Ctx, g: nat, p: nat)
    ensures Keeps(r, AddLocalProperty(r, g, p)) && Keeps(r, DelLocalProperty(r, g, p)) && Keeps(r, PropertyRenamed(r, ctx, p))
  {
  }

  lemma AttributeKeeps(r: Recorder, ctx: Ctx, g: nat, name: string)
    ensures Keeps(r, BeforeSetAttribute(r, ctx, g, name))
  {
  }

  lemma NodeValueKeeps(r: Recorder, ctx: Ctx, p: nat, n: nat)
    ensures Keeps(r, BeforeSetNodeValue(r, ctx, p, n))
  {
  }

  lemma AllNodeValueKeeps(r: Recorder, ctx: Ctx, p: nat)
    ensures Keeps(r, BeforeSetAllNodeValue(r, ctx, p))
  {
  }

  lemma AllEdgeValueKeeps(r: Recorder, ctx: Ctx, p: nat)
    ensures Keeps(r, BeforeSetAllEdgeValue(r, ctx, p))
  {
  }

  lemma EdgeValueKeeps(r: Recorder, ctx: Ctx, p: nat, e: nat)
    ensures Keeps(r, BeforeSetEdgeValue(r, ctx, p, e))
  {
  }

  /** A sequence of events handled one after the other. */
  function TreatEvents(r: Recorder, ctx: seq<Ctx>, evs: seq<Event>): (r': Recorder)
    requires |ctx| == |evs|
    decreases |evs|
  {
    if |evs| == 0 then r else TreatEvents(TreatEvent(r, ctx[0], evs[0]), ctx[1..], evs[1..])
  }

  /** However many events come, nothing kept first is lost or changed. */
  lemma {:induction false} TreatEventsKeeps(r: Recorder, ctx: seq<Ctx>, evs: seq<Event>)
    requires |ctx| == |evs|
    ensures Keeps(r, TreatEvents(r, ctx, evs))
    decreases |evs|
  {
    if |evs| == 0 {
      assert ValuesKept(r.oldValues, r.oldValues);
    } else {
      var r1 := TreatEvent(r, ctx[0], evs[0]);
      TreatEventsKeeps(r1, ctx[1..], evs[1..]);
      KeepsTrans(r, r1, TreatEvents(r1, ctx[1..], evs[1..]));
    }
  }

  // ---------------------------------------------------------------------------
  // hasUpdates
  // ---------------------------------------------------------------------------

  /** Some graph has a non-empty set in `m`. */
  predicate SomeSet(m: map<nat, set<nat>>)
  {
    exists g :: g in m && m[g] != {}
  }

  /**
   `hasUpdates` as the source writes it: the per-graph sets of added
   properties and added edges count as soon as the map has an entry, even
   an empty one, whereas added nodes count only through a non-empty set.
   */
  predicate HasUpdatesAsWritten(r: Recorder)
  {
    r.addedProperties != map[] || r.addedSubGraphs != [] || r.graphAddedEdges != map[] || SomeSet(r.graphAddedNodes)
    || r.deletedSubGraphs != [] || r.graphDeletedNodes != map[] || r.revertedEdges != {} || r.oldEdgesEnds != map[]
    || r.oldContainers != map[] || r.graphDeletedEdges != map[] || r.deletedProperties != map[]
    || r.renamedProperties != map[] || r.oldNodeDefaultValues != map[] || r.oldEdgeDefaultValues != map[]
    || r.oldValues != map[] || r.oldAttributeValues != map[]
  }

  /** `hasUpdates` with every per-graph set of added elements counting only when non-empty. */
  predicate HasUpdates(r: Recorder)
  {
    SomeSet(r.addedProperties) || r.addedSubGraphs != [] || SomeSet(r.graphAddedEdges) || SomeSet(r.graphAddedNodes)
    || r.deletedSubGraphs != [] || r.graphDeletedNodes != map[] || r.revertedEdges != {} || r.oldEdgesEnds != map[]
    || r.oldContainers != map[] || r.graphDeletedEdges != map[] || r.deletedProperties != map[]
    || r.renamedProperties != map[] || r.oldNodeDefaultValues != map[] || r.oldEdgeDefaultValues != map[]
    || r.oldValues != map[] || r.oldAttributeValues != map[]
  }

  /** The entries of `m` with a non-empty set. */
  function Pruned(m: map<nat, set<nat>>): (p: map<nat, set<nat>>)
    ensures forall g :: Entry(p, g) == Entry(m, g)
    ensures forall g :: g in p ==> p[g] != {}
  {
    map g | g in m && m[g] != {} :: m[g]
  }

  /**
   What undoing the recording replays: the recorder with its empty
   per-graph sets of added elements dropped, and without what only
   accompanies other notes (the nodes added to the hierarchy, the kept
   ends of added and deleted edges, the new ends and adjacencies, the
   notes about values at added elements, the new attribute values).
   */
  function Replayed(r: Recorder): Recorder
  {
    r.(addedProperties := Pruned(r.addedProperties), graphAddedEdges := Pruned(r.graphAddedEdges),
       graphAddedNodes := Pruned(r.graphAddedNodes), addedNodes := {}, addedEdgesEnds := map[], deletedEdgesEnds := map[],
       newEdgesEnds := map[], newContainers := map[], updatedPropsAddedNodes := map[], updatedPropsAddedEdges := map[],
       newAttributeValues := map[])
  }

  /** An empty `Pruned` is a map without a non-empty set. */
  lemma PrunedEmpty(m: map<nat, set<nat>>)
    ensures Pruned(m) == map[] <==> !SomeSet(m)
  {
    if !SomeSet(m) {
      assert forall g :: g !in Pruned(m);
    } else {
      var g :| g in m && m[g] != {};
      assert g in Pruned(m);
    }
  }

  /** There are updates exactly when undoing would replay something a fresh recorder has not. */
  lemma HasUpdatesIff(r: Recorder)
    ensures HasUpdates(r) <==> Replayed(r) != Replayed(Start(r.restartAllowed))
  {
    PrunedEmpty(r.addedProperties);
    PrunedEmpty(r.graphAddedEdges);
    PrunedEmpty(r.graphAddedNodes);
    assert Pruned(map[]) == map[];
  }

  /** A fresh recorder has no updates, either way of counting. */
  lemma StartHasNoUpdates(allowRestart: bool)
    ensures !HasUpdates(Start(allowRestart)) && !HasUpdatesAsWritten(Start(allowRestart))
  {
  }

  /** A node added to any graph is an update. */
  lemma NodeAddedIsUpdate(r: Recorder, ctx: Ctx, g: nat, n: nat)
    ensures HasUpdates(AddNode(r, ctx, g, n))
  {
    assert n in Entry(AddNode(r, ctx, g, n).graphAddedNodes, g);
  }

  /** An edge added to any graph is an update. */
  lemma EdgeAddedIsUpdate(r: Recorder, ctx: Ctx, g: nat, e: nat)
    ensures HasUpdates(AddEdge(r, ctx, g, e))
  {
    assert e in Entry(AddEdge(r, ctx, g, e).graphAddedEdges, g);
  }

  /**
   The source counts an edge added to a subgraph and deleted again: from
   a fresh recorder, with no local property in the subgraph, the only
   trace left is an empty set of added edges, which the source's
   `hasUpdates` reports and the corrected one does not.
   */
  lemma EmptyEdgeSetCounts(allowRestart: bool, ctx: Ctx, sg: nat, e: nat)
    requires !IsRoot(ctx, sg) && ctx.localProps(sg) == []
    ensures var r := DelEdge(AddEdge(Start(allowRestart), ctx, sg, e), ctx, sg, e);
            HasUpdatesAsWritten(r) && !HasUpdates(r)
  {
    var r0 := Start(allowRestart);
    var r1 := AddEdge(r0, ctx, sg, e);
    assert Entry(r0.graphAddedEdges, sg) + {e} == {e};
    assert r1.graphAddedEdges == map[sg := {e}];
    var r2 := DelEdge(r1, ctx, sg, e);
    assert e in Entry(r1.graphAddedEdges, sg);
    assert r2.graphAddedEdges == map[sg := {}];
    assert r2 == r1.(graphAddedEdges := map[sg := {}]);
    assert r1 == r0.(graphAddedEdges := r1.graphAddedEdges, oldValues := r1.oldValues,
                     updatedPropsAddedEdges := r1.updatedPropsAddedEdges);
    assert r1.oldValues == map[] && r1.updatedPropsAddedEdges == map[];
    assert !SomeSet(r2.graphAddedEdges);
  }

  /** The same for a local property added and deleted again. */
  lemma EmptyPropertySetCounts(allowRestart: bool, g: nat, p: nat)
    ensures var r := DelLocalProperty(AddLocalProperty(Start(allowRestart), g, p), g, p);
            HasUpdatesAsWritten(r) && !HasUpdates(r)
  {
    var r0 := Start(allowRestart);
    var r2 := DelLocalProperty(AddLocalProperty(r0, g, p), g, p);
    assert r2 == r0.(addedProperties := map[g := {}]);
    assert !SomeSet(r2.addedProperties);
  }

  // ---------------------------------------------------------------------------
  // The adjacencies saved by a bulk edge addition
  // ---------------------------------------------------------------------------

  /** Edges of the searched ones appended to an adjacency do not change what the scan keeps. */
  lemma {:induction false} StripAppended(before: seq<nat>, added: seq<nat>, searched: seq<nat>)
    requires forall i :: 0 <= i < |added| ==> added[i] in searched
    ensures StripTrailing(before + added, searched) == StripTrailing(before, searched)
    decreases |added|
  {
    var s := before + added;
    if |added| > 0 {
      assert s[|s| - 1] == added[|added| - 1] && s[|s| - 1] in searched;
      assert s[..|s| - 1] == before + added[..|added| - 1];
      assert StripTrailing(s, searched) == StripTrailing(s[..|s| - 1], searched);
      StripAppended(before, added[..|added| - 1], searched);
    } else {
      assert s == before;
    }
  }

  /**
   At the root, `AddEdges` saves for a node first met in the batch the
   adjacency it had before the batch: the node's adjacency is what it was
   with edges of the batch appended.
   */
  lemma AddEdgesSavesBefore(r: Recorder, ctx: Ctx, g: nat, nb: nat, m: nat, before: seq<nat>, added: seq<nat>)
    requires IsRoot(ctx, g)
    requires m in AddEdges(r, ctx, g, nb).oldContainers && m !in r.oldContainers
    requires ctx.adj(m) == before + added
    requires forall i :: 0 <= i < |added| ==> added[i] in Batch(ctx, g, nb)
    requires |before| == 0 || before[|before| - 1] !in Batch(ctx, g, nb)
    ensures AddEdges(r, ctx, g, nb).oldContainers[m] == before
  {
    var r1 := r.(graphAddedEdges := r.graphAddedEdges[g := Entry(r.graphAddedEdges, g)]);
    AddBatchStrips(r1, ctx, g, Batch(ctx, g, nb), Batch(ctx, g, nb), m);
    StripRestores(before, added, Batch(ctx, g, nb));
  }

  /**
   The source's scan also takes off the edge just before the batch: a
   node whose last edge before the batch is that edge has its saved
   adjacency come out shorter than the adjacency it had.
   */
  lemma AddEdgesAsWrittenDropsOne(r: Recorder, ctx: Ctx, g: nat, nb: nat, m: nat, before: seq<nat>, added: seq<nat>)
    requires IsRoot(ctx, g) && 0 < nb < |ctx.edgesOf(g)|
    requires m in AddEdgesAsWritten(r, ctx, g, nb).oldContainers && m !in r.oldContainers
    requires ctx.adj(m) == before + added
    requires forall i :: 0 <= i < |added| ==> added[i] in Batch(ctx, g, nb)
    requires |before| > 0 && before[|before| - 1] == ctx.edgesOf(g)[|ctx.edgesOf(g)| - nb - 1]
    ensures |AddEdgesAsWritten(r, ctx, g, nb).oldContainers[m]| < |before|
  {
    var searched := SearchedAsWritten(ctx, g, nb);
    var r1 := r.(graphAddedEdges := r.graphAddedEdges[g := Entry(r.graphAddedEdges, g)]);
    AddBatchStrips(r1, ctx, g, Batch(ctx, g, nb), searched, m);
    assert forall i :: 0 <= i < |added| ==> added[i] in searched;
    StripAppended(before, added, searched);
    assert before[|before| - 1] in searched;
  }
}
