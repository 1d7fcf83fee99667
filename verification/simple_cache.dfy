/**
 The cache behind `SimpleTest::isSimple`, SimpleTest.cpp. A listener (one
 for directed tests, one for undirected ones) keeps a result per graph and
 listens to every graph it holds a result for; an edge event that may have
 changed the answer drops the result and stops listening. The graphs are
 reduced here to what simplicity depends on: their edges and the ends of
 each edge.
 */
module SimpleCache {
  import opened Seqs
  import opened SimpleTests

  /** What a graph's simplicity depends on: the ends of its edges. */
  datatype Edges = Edges(ends: map<nat, (nat, nat)>, edges: set<nat>)

  /** A change to one graph, with the event it sends. */
  datatype Change =
    | AddEdge(e: nat, p: (nat, nat))        // TLP_ADD_EDGE
    | AddEdges(add: map<nat, (nat, nat)>)   // TLP_ADD_EDGES
    | DelEdge(e: nat)                       // TLP_DEL_EDGE
    | ReverseEdge(e: nat)                   // TLP_REVERSE_EDGE
    | SetEnds(e: nat, p: (nat, nat))        // TLP_AFTER_SET_ENDS
    | Deleted                               // TLP_DELETE, the graph itself goes away
    | Other                                 // any event that leaves the edges alone

  /** A change that can happen: added edges are new ones. */
  predicate Applicable(w: Edges, ch: Change)
  {
    match ch
    case AddEdge(e, _) => e !in w.edges
    case AddEdges(add) => forall e :: e in add ==> e !in w.edges
    case _ => true
  }

  /** The graph after a change (a deleted graph is dropped from the world, see `Update`). */
  function Apply(w: Edges, ch: Change): Edges
  {
    match ch
    case AddEdge(e, p) => Edges(w.ends[e := p], w.edges + {e})
    case AddEdges(add) => Edges(w.ends + add, w.edges + add.Keys)
    case DelEdge(e) => Edges(w.ends, w.edges - {e})
    case ReverseEdge(e) => Edges(w.ends[e := (At(w.ends, e).1, At(w.ends, e).0)], w.edges)
    case SetEnds(e, p) => Edges(w.ends[e := p], w.edges)
    case Deleted => w
    case Other => w
  }

  /** All graphs after a change to graph `gid`. */
  function Update(world: map<nat, Edges>, gid: nat, ch: Change): map<nat, Edges>
    requires gid in world
  {
    if ch.Deleted? then world - {gid} else world[gid := Apply(world[gid], ch)]
  }

  /** A listener: `resultsBuffer`, and the graphs it is registered on. */
  datatype Cache = Cache(results: map<nat, bool>, listening: set<nat>)

  /** `resultsBuffer[graph]` read through `operator[]`: false for a graph with no entry. */
  function Value(c: Cache, gid: nat): bool
  {
    if gid in c.results then c.results[gid] else false
  }

  /** `deleteResult`: the entry erased and the listener removed from the graph. */
  function DeleteResult(c: Cache, gid: nat): (r: Cache)
    ensures gid !in r.results && gid !in r.listening
    ensures forall x :: x != gid ==> (x in r.results <==> x in c.results) && (x in r.listening <==> x in c.listening)
    ensures forall x :: x in r.results ==> r.results[x] == c.results[x]
  {
    Cache(c.results - {gid}, c.listening - {gid})
  }

  /** The cache kept on an event that needs no action, with the entry `operator[]` may have inserted. */
  function Keep(c: Cache, gid: nat): Cache
  {
    Cache(c.results[gid := Value(c, gid)], c.listening)
  }

  /**
   `treatEvent` as written: adding an edge to a graph cached simple, or
   deleting one from a graph cached not simple, drops the result, as do a
   reversal and the graph's deletion; every other event is ignored,
   among them a bulk edge addition and a change of an edge's ends.
   */
  function TreatEventAsWritten(c: Cache, gid: nat, ch: Change): Cache
  {
    match ch
    case AddEdge(_, _) => if Value(c, gid) then DeleteResult(c, gid) else Keep(c, gid)
    case DelEdge(_) => if !Value(c, gid) then DeleteResult(c, gid) else Keep(c, gid)
    case ReverseEdge(_) => DeleteResult(c, gid)
    case Deleted => DeleteResult(c, gid)
    case _ => c
  }

  /**
   `treatEvent` with the bulk addition handled as an addition and a change
   of ends as a reversal: the events that can turn a simple graph into one
   that is not all drop a result of true.
   */
  function TreatEvent(c: Cache, gid: nat, ch: Change): Cache
  {
    match ch
    case AddEdge(_, _) => if Value(c, gid) then DeleteResult(c, gid) else Keep(c, gid)
    case AddEdges(_) => if Value(c, gid) then DeleteResult(c, gid) else Keep(c, gid)
    case DelEdge(_) => if !Value(c, gid) then DeleteResult(c, gid) else Keep(c, gid)
    case ReverseEdge(_) => DeleteResult(c, gid)
    case SetEnds(_, _) => DeleteResult(c, gid)
    case Deleted => DeleteResult(c, gid)
    case Other => c
  }

  /** An event reaches the listener only from a graph it listens to. */
  function Deliver(c: Cache, gid: nat, ch: Change): Cache
  {
    if gid in c.listening then TreatEvent(c, gid, ch) else c
  }

  /** `Deliver`, with `treatEvent` as written. */
  function DeliverAsWritten(c: Cache, gid: nat, ch: Change): Cache
  {
    if gid in c.listening then TreatEventAsWritten(c, gid, ch) else c
  }

  /**
   The cache is sound: it listens to exactly the graphs it holds a result
   for, and each result is the graph's present simplicity.
   */
  ghost predicate Sound(c: Cache, world: map<nat, Edges>, directed: bool)
  {
    c.results.Keys == c.listening
    && forall gid :: gid in c.results ==> gid in world && (c.results[gid] <==> Simple(world[gid].ends, world[gid].edges, directed))
  }

  // ---------------------------------------------------------------------------
  // How changes move simplicity
  // ---------------------------------------------------------------------------

  /** Adding new edges keeps a graph that is not simple so: the old edges keep their ends. */
  lemma AddKeepsNotSimple(w: Edges, ch: Change, directed: bool)
    requires (ch.AddEdge? || ch.AddEdges?) && Applicable(w, ch)
    ensures Simple(Apply(w, ch).ends, Apply(w, ch).edges, directed) ==> Simple(w.ends, w.edges, directed)
  {
    var w' := Apply(w, ch);
    assert forall e :: e in w.edges ==> e in w'.edges && At(w'.ends, e) == At(w.ends, e) by {
      forall e | e in w.edges ensures At(w'.ends, e) == At(w.ends, e) {
        if ch.AddEdges? {
          assert e !in ch.add;
        }
      }
    }
  }

  /** Deleting an edge keeps a simple graph simple. */
  lemma DelKeepsSimple(w: Edges, e: nat, directed: bool)
    ensures Simple(w.ends, w.edges, directed) ==> Simple(Apply(w, DelEdge(e)).ends, Apply(w, DelEdge(e)).edges, directed)
  {
  }

  /** A graph other than the one changed is left as it was. */
  lemma UpdateOthers(world: map<nat, Edges>, gid: nat, ch: Change, x: nat)
    requires gid in world && x != gid
    ensures x in Update(world, gid, ch) <==> x in world
    ensures x in world ==> Update(world, gid, ch)[x] == world[x]
  {
  }

  /**
   Every applicable change keeps the cache sound, the listener seeing the
   event when it listens to the graph.
   */
  lemma StepSound(c: Cache, world: map<nat, Edges>, gid: nat, ch: Change, directed: bool)
    requires Sound(c, world, directed) && gid in world && Applicable(world[gid], ch)
    ensures Sound(Deliver(c, gid, ch), Update(world, gid, ch), directed)
  {
    var c' := Deliver(c, gid, ch);
    var world' := Update(world, gid, ch);
    forall x | x in c'.results
      ensures x in world' && (c'.results[x] <==> Simple(world'[x].ends, world'[x].edges, directed))
    {
      if x == gid {
        assert gid in c.results;
        if ch.AddEdge? || ch.AddEdges? {
          AddKeepsNotSimple(world[gid], ch, directed);
        } else if ch.DelEdge? {
          DelKeepsSimple(world[gid], ch.e, directed);
        }
      } else {
        UpdateOthers(world, gid, ch, x);
      }
    }
  }

  // ---------------------------------------------------------------------------
  // isSimple and makeSimple
  // ---------------------------------------------------------------------------

  /**
   `isSimple(graph, directed)` against the cache: the cached result when
   there is one, otherwise `computed` (the result of the scan, `IsSimple`)
   is stored and the listener registered on the graph.
   */
  function IsSimpleCached(c: Cache, gid: nat, computed: bool): (r: (bool, Cache))
    ensures gid in r.1.results && r.1.results[gid] == r.0
    ensures gid in c.results ==> r == (c.results[gid], c)
    ensures gid !in c.results ==> r.0 == computed && gid in r.1.listening
  {
    if gid in c.results then (c.results[gid], c)
    else (computed, Cache(c.results[gid := computed], c.listening + {gid}))
  }

  /** A sound cache answers `isSimple` truly, and stays sound. */
  lemma IsSimpleCachedSound(c: Cache, world: map<nat, Edges>, gid: nat, computed: bool, directed: bool)
    requires Sound(c, world, directed) && gid in world
    requires computed <==> Simple(world[gid].ends, world[gid].edges, directed)
    ensures IsSimpleCached(c, gid, computed).0 <==> Simple(world[gid].ends, world[gid].edges, directed)
    ensures Sound(IsSimpleCached(c, gid, computed).1, world, directed)
  {
  }

  /** The edges of `removed` deleted from graph `gid` one by one, each deletion sending its event. */
  function DeleteAll(c: Cache, world: map<nat, Edges>, gid: nat, removed: seq<nat>): (r: (Cache, map<nat, Edges>))
    requires gid in world
    ensures gid in r.1 && r.1[gid].ends == world[gid].ends
    ensures r.1[gid].edges == world[gid].edges - (set e | e in removed)
    decreases |removed|
  {
    if |removed| == 0 then (c, world)
    else
      var world' := Update(world, gid, DelEdge(removed[0]));
      DeleteAll(Deliver(c, gid, DelEdge(removed[0])), world', gid, removed[1..])
  }

  /** Deleting edges one by one keeps the cache sound. */
  lemma {:induction false} DeleteAllSound(c: Cache, world: map<nat, Edges>, gid: nat, removed: seq<nat>, directed: bool)
    requires Sound(c, world, directed) && gid in world
    ensures Sound(DeleteAll(c, world, gid, removed).0, DeleteAll(c, world, gid, removed).1, directed)
    decreases |removed|
  {
    if |removed| > 0 {
      StepSound(c, world, gid, DelEdge(removed[0]), directed);
      DeleteAllSound(Deliver(c, gid, DelEdge(removed[0])), Update(world, gid, DelEdge(removed[0])), gid, removed[1..], directed);
    }
  }

  /**
   `makeSimple` as written, in a build without assertions: when the graph
   is not simple the deletions send their events, the first of which
   drops the cached false and unregisters the listener; the final
   `resultsBuffer[graph] = true` then stores a result nobody keeps up to
   date.
   */
  function MakeSimpleCachedAsWritten(c: Cache, world: map<nat, Edges>, gid: nat, computed: bool, removed: seq<nat>)
    : (r: (Cache, map<nat, Edges>))
    requires gid in world
  {
    var first := IsSimpleCached(c, gid, computed);
    if first.0 then (Cache(first.1.results[gid := true], first.1.listening), world)
    else
      var deleted := DeleteAll(first.1, world, gid, removed);
      (Cache(deleted.0.results[gid := true], deleted.0.listening), deleted.1)
  }

  /**
   `makeSimple` with the listener registered again along with the stored
   result (what the assertion's own call to `isSimple` does in a build
   with assertions).
   */
  function MakeSimpleCached(c: Cache, world: map<nat, Edges>, gid: nat, computed: bool, removed: seq<nat>)
    : (r: (Cache, map<nat, Edges>))
    requires gid in world
    ensures gid in r.0.results && r.0.results[gid]
  {
    var first := IsSimpleCached(c, gid, computed);
    if first.0 then (Cache(first.1.results[gid := true], first.1.listening), world)
    else
      var deleted := DeleteAll(first.1, world, gid, removed);
      (Cache(deleted.0.results[gid := true], deleted.0.listening + {gid}), deleted.1)
  }

  /**
   When `removed` is what `MakeSimple` deletes (so that what is left is
   simple), `makeSimple` leaves a sound cache holding true for the graph.
   */
  lemma MakeSimpleCachedSound(c: Cache, world: map<nat, Edges>, gid: nat, computed: bool, removed: seq<nat>, directed: bool)
    requires Sound(c, world, directed) && gid in world
    requires computed <==> Simple(world[gid].ends, world[gid].edges, directed)
    requires Simple(world[gid].ends, world[gid].edges - (set e | e in removed), directed)
    ensures Sound(MakeSimpleCached(c, world, gid, computed, removed).0, MakeSimpleCached(c, world, gid, computed, removed).1, directed)
  {
    IsSimpleCachedSound(c, world, gid, computed, directed);
    var first := IsSimpleCached(c, gid, computed);
    if !first.0 {
      DeleteAllSound(first.1, world, gid, removed, directed);
    }
  }

  // ---------------------------------------------------------------------------
  // The stale answers of the code as written
  // ---------------------------------------------------------------------------

  /** Two edges from 1 to 2. */
  function TwinEdges(): map<nat, Edges>
  {
    map[0 := Edges(map[0 := (1, 2), 1 := (1, 2)], {0, 1})]
  }

  /**
   After `makeSimple` as written removes the second of two parallel edges,
   a third edge from 1 to 2 goes unnoticed and `isSimple` still answers
   true for a graph that is not simple.
   */
  lemma MakeSimpleLeavesStale()
    ensures var made := MakeSimpleCachedAsWritten(Cache(map[], {}), TwinEdges(), 0, false, [1]);
            var world2 := Update(made.1, 0, AddEdge(2, (1, 2)));
            && Applicable(made.1[0], AddEdge(2, (1, 2)))
            && IsSimpleCached(DeliverAsWritten(made.0, 0, AddEdge(2, (1, 2))), 0, false).0
            && !Simple(world2[0].ends, world2[0].edges, true)
  {
    var made := MakeSimpleCachedAsWritten(Cache(map[], {}), TwinEdges(), 0, false, [1]);
    assert made.0.listening == {};
    var world2 := Update(made.1, 0, AddEdge(2, (1, 2)));
    assert 0 in world2[0].edges && 2 in world2[0].edges;
  }

  /** The corrected `makeSimple` on the same graph: the third edge drops the result. */
  lemma MakeSimpleTracksAddition()
    ensures 0 !in Deliver(MakeSimpleCached(Cache(map[], {}), TwinEdges(), 0, false, [1]).0, 0, AddEdge(2, (1, 2))).results
  {
  }

  /**
   A bulk addition of a parallel edge to a graph cached simple is ignored
   by `treatEvent` as written: the cache was sound and no longer is.
   */
  lemma BulkAdditionMissed()
    ensures var c := Cache(map[0 := true], {0});
            var world := map[0 := Edges(map[0 := (1, 2)], {0})];
            var ch := AddEdges(map[1 := (1, 2)]);
            && Sound(c, world, true) && Applicable(world[0], ch)
            && !Sound(DeliverAsWritten(c, 0, ch), Update(world, 0, ch), true)
  {
    var world := map[0 := Edges(map[0 := (1, 2)], {0})];
    var ch := AddEdges(map[1 := (1, 2)]);
    var w' := Update(world, 0, ch)[0];
    assert 0 in w'.edges && 1 in w'.edges;
  }

  /** Moving the end of an edge of a graph cached simple is ignored in the same way. */
  lemma SetEndsMissed()
    ensures var c := Cache(map[0 := true], {0});
            var world := map[0 := Edges(map[0 := (1, 2), 1 := (3, 2)], {0, 1})];
            var ch := SetEnds(1, (1, 2));
            && Sound(c, world, true)
            && !Sound(DeliverAsWritten(c, 0, ch), Update(world, 0, ch), true)
  {
    var world := map[0 := Edges(map[0 := (1, 2), 1 := (3, 2)], {0, 1})];
    var ch := SetEnds(1, (1, 2));
    var w' := Update(world, 0, ch)[0];
    assert 0 in w'.edges && 1 in w'.edges;
  }
}
