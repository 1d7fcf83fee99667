/**
 Loops and parallel edges, SimpleTest.cpp. Every node is scanned in graph
 order over its edges in the direction (out-edges when directed, all
 incident edges otherwise); an edge is looked at once, from the first node
 that meets it. It is a loop when its other end is the node itself, and
 parallel when an earlier edge met at the same node had the same other end.
 A graph is simple when neither list has anything in it; the answer is
 cached per graph and dropped on the edge events that can change it.
 */
module SimpleTests {
  import opened Seqs
  import opened Graphs
  import opened GraphTools

  // ---------------------------------------------------------------------------
  // Ends
  // ---------------------------------------------------------------------------

  /** The ends of edge `e`, `(0, 0)` for an edge the map does not know. */
  function At(ends: map<nat, (nat, nat)>, e: nat): (nat, nat)
  {
    if e in ends then ends[e] else (0, 0)
  }

  /** An edge with ends `p` joins `n` to `m`: from `n` to `m` when directed, either way otherwise. */
  predicate Joins(p: (nat, nat), n: nat, m: nat, directed: bool)
  {
    p == (n, m) || (!directed && p == (m, n))
  }

  /** Edges with ends `p` and `q` are parallel: the same ends, or, undirected, the same ends swapped. */
  predicate SameEnds(p: (nat, nat), q: (nat, nat), directed: bool)
  {
    p == q || (!directed && p == (q.1, q.0))
  }

  /** An edge with ends `p` is met from one of `d`: its source is there, or, undirected, either end. */
  predicate Touches(p: (nat, nat), d: set<nat>, directed: bool)
  {
    p.0 in d || (!directed && p.1 in d)
  }

  /** Two edges joining `n` to the same node are parallel. */
  lemma JoinsSame(p: (nat, nat), q: (nat, nat), n: nat, m: nat, directed: bool)
    requires Joins(p, n, m, directed) && Joins(q, n, m, directed)
    ensures SameEnds(p, q, directed)
  {
  }

  /** An edge joins `n` to one node only. */
  lemma JoinsOne(p: (nat, nat), n: nat, m: nat, m2: nat, directed: bool)
    requires Joins(p, n, m, directed) && Joins(p, n, m2, directed)
    ensures m == m2
  {
  }

  /** Edges joining `n` to different nodes are not parallel. */
  lemma JoinsDiffer(p: (nat, nat), q: (nat, nat), n: nat, m: nat, m2: nat, directed: bool)
    requires Joins(p, n, m, directed) && Joins(q, n, m2, directed) && m != m2
    ensures !SameEnds(p, q, directed)
  {
  }

  /** An edge from `n`, not met from `d`, is not parallel to one met from `d`, when `n` is not in `d`. */
  lemma TouchDiffer(p: (nat, nat), q: (nat, nat), n: nat, m: nat, d: set<nat>, directed: bool)
    requires Joins(p, n, m, directed) && n !in d && !Touches(p, d, directed) && Touches(q, d, directed)
    ensures !SameEnds(p, q, directed)
  {
  }

  // ---------------------------------------------------------------------------
  // The scan
  // ---------------------------------------------------------------------------

  /** `(e, m)` is one of the pairs read at `n`. */
  ghost predicate Pair(nav: Nav, n: nat, e: nat, m: nat)
  {
    n in nav.adj && (e, m) in nav.adj[n]
  }

  /**
   The pairs read at each node are its edges in the direction, each with
   its other end; every edge is met from some node.
   */
  ghost predicate ScanOk(nav: Nav, nodes: seq<nat>, ends: map<nat, (nat, nat)>, edges: set<nat>, directed: bool)
  {
    (forall n :: n in nodes ==> n in nav.adj)
    && (forall n, e, m :: n in nodes ==> (Pair(nav, n, e, m) <==> e in edges && Joins(At(ends, e), n, m, directed)))
    && (forall e :: e in edges ==> At(ends, e).0 in nodes)
  }

  /** Edge `e` is met from one of the nodes `d` scanned before. */
  ghost predicate Before(ends: map<nat, (nat, nat)>, edges: set<nat>, d: set<nat>, e: nat, directed: bool)
  {
    e in edges && Touches(At(ends, e), d, directed)
  }

  /** The loops found are the loops among the edges looked at, each once. */
  ghost predicate LoopsOk(ends: map<nat, (nat, nat)>, looked: set<nat>, loops: seq<nat>)
  {
    Distinct(loops) && forall e :: e in loops <==> e in looked && At(ends, e).0 == At(ends, e).1
  }

  /** Some edge looked at, not reported, is parallel to `e`. */
  ghost predicate Partnered(ends: map<nat, (nat, nat)>, looked: set<nat>, par: seq<nat>, e: nat, directed: bool)
  {
    exists f :: f in looked && f !in par && f != e && SameEnds(At(ends, e), At(ends, f), directed)
  }

  /**
   The parallel edges reported: each once, each looked at; of two parallel
   edges looked at, one is reported; and each one reported is parallel to
   one that is not.
   */
  ghost predicate ParOk(ends: map<nat, (nat, nat)>, looked: set<nat>, par: seq<nat>, directed: bool)
  {
    Distinct(par) && (forall e :: e in par ==> e in looked)
    && (forall e, f :: e in looked && f in looked && e != f && SameEnds(At(ends, e), At(ends, f), directed) ==> e in par || f in par)
    && (forall e :: e in par ==> Partnered(ends, looked, par, e, directed))
  }

  /** Some edge looked at, not reported, joins `n` to `m`. */
  ghost predicate Backed(ends: map<nat, (nat, nat)>, looked: set<nat>, par: seq<nat>, n: nat, m: nat, directed: bool)
  {
    exists f :: f in looked && f !in par && Joins(At(ends, f), n, m, directed)
  }

  /**
   Within the scan of `n`, after `k` pairs: the edges looked at are those
   met from earlier nodes and those of the pairs read; the other ends seen
   are those of the pairs read whose edge was not met before, each backed
   by an edge not reported.
   */
  ghost predicate Scanning(nav: Nav, ends: map<nat, (nat, nat)>, edges: set<nat>, d: set<nat>, n: nat, k: nat,
                           looked: set<nat>, opposites: set<nat>, par: seq<nat>, directed: bool)
  {
    n in nav.adj && k <= |nav.adj[n]|
    && (forall e :: e in looked <==> Before(ends, edges, d, e, directed) || exists j :: 0 <= j < k && nav.adj[n][j].0 == e)
    && (forall m :: m in opposites <==>
          exists j :: 0 <= j < k && !Before(ends, edges, d, nav.adj[n][j].0, directed) && nav.adj[n][j].1 == m)
    && (forall m :: m in opposites ==> Backed(ends, looked, par, n, m, directed))
  }

  /**
   An edge read at `n` that was not looked at yet, whose other end was not
   seen in this scan, has no parallel edge among those looked at.
   */
  lemma NoTwin(nav: Nav, nodes: seq<nat>, ends: map<nat, (nat, nat)>, edges: set<nat>, d: set<nat>, n: nat, k: nat,
               looked: set<nat>, opposites: set<nat>, par: seq<nat>, directed: bool)
    requires ScanOk(nav, nodes, ends, edges, directed) && n in nodes && n !in d
    requires Scanning(nav, ends, edges, d, n, k, looked, opposites, par, directed) && k < |nav.adj[n]|
    requires nav.adj[n][k].0 !in looked && nav.adj[n][k].1 !in opposites
    ensures forall f :: f in looked ==> !SameEnds(At(ends, nav.adj[n][k].0), At(ends, f), directed)
  {
    var e, m := nav.adj[n][k].0, nav.adj[n][k].1;
    assert Pair(nav, n, e, m);
    assert !Before(ends, edges, d, e, directed);
    forall f | f in looked ensures !SameEnds(At(ends, e), At(ends, f), directed) {
      if Before(ends, edges, d, f, directed) {
        TouchDiffer(At(ends, e), At(ends, f), n, m, d, directed);
      } else {
        var j :| 0 <= j < k && nav.adj[n][j].0 == f;
        var m2 := nav.adj[n][j].1;
        assert m2 in opposites;
        assert Pair(nav, n, f, m2);
        JoinsDiffer(At(ends, e), At(ends, f), n, m, m2, directed);
      }
    }
  }

  /** The edges looked at after `k` pairs of the scan of `n`. */
  ghost predicate LookedAfter(nav: Nav, ends: map<nat, (nat, nat)>, edges: set<nat>, d: set<nat>, n: nat, k: nat,
                              looked: set<nat>, directed: bool)
    requires n in nav.adj && k <= |nav.adj[n]|
  {
    forall e :: e in looked <==> Before(ends, edges, d, e, directed) || exists j :: 0 <= j < k && nav.adj[n][j].0 == e
  }

  /** The other ends seen after `k` pairs of the scan of `n`. */
  ghost predicate SeenAfter(nav: Nav, ends: map<nat, (nat, nat)>, edges: set<nat>, d: set<nat>, n: nat, k: nat,
                            opposites: set<nat>, directed: bool)
    requires n in nav.adj && k <= |nav.adj[n]|
  {
    forall m :: m in opposites <==>
      exists j :: 0 <= j < k && !Before(ends, edges, d, nav.adj[n][j].0, directed) && nav.adj[n][j].1 == m
  }

  /** Reading pair `k` adds its edge to those looked at. */
  lemma LookedStep(nav: Nav, ends: map<nat, (nat, nat)>, edges: set<nat>, d: set<nat>, n: nat, k: nat,
                   looked: set<nat>, directed: bool)
    requires n in nav.adj && k < |nav.adj[n]| && LookedAfter(nav, ends, edges, d, n, k, looked, directed)
    ensures LookedAfter(nav, ends, edges, d, n, k + 1, looked + {nav.adj[n][k].0}, directed)
  {
    var e := nav.adj[n][k].0;
    forall x ensures x in looked + {e} <==> Before(ends, edges, d, x, directed) || exists j :: 0 <= j < k + 1 && nav.adj[n][j].0 == x {
      if x != e && exists j :: 0 <= j < k + 1 && nav.adj[n][j].0 == x {
        var j :| 0 <= j < k + 1 && nav.adj[n][j].0 == x;
        assert j < k;
      }
    }
  }

  /** Reading pair `k`, whose edge was not met from an earlier node, adds its other end to those seen. */
  lemma SeenStep(nav: Nav, ends: map<nat, (nat, nat)>, edges: set<nat>, d: set<nat>, n: nat, k: nat,
                 opposites: set<nat>, directed: bool)
    requires n in nav.adj && k < |nav.adj[n]| && SeenAfter(nav, ends, edges, d, n, k, opposites, directed)
    requires !Before(ends, edges, d, nav.adj[n][k].0, directed)
    ensures SeenAfter(nav, ends, edges, d, n, k + 1, opposites + {nav.adj[n][k].1}, directed)
  {
    var m := nav.adj[n][k].1;
    forall x ensures x in opposites + {m} <==>
        exists j :: 0 <= j < k + 1 && !Before(ends, edges, d, nav.adj[n][j].0, directed) && nav.adj[n][j].1 == x {
      if x != m && exists j :: 0 <= j < k + 1 && !Before(ends, edges, d, nav.adj[n][j].0, directed) && nav.adj[n][j].1 == x {
        var j :| 0 <= j < k + 1 && !Before(ends, edges, d, nav.adj[n][j].0, directed) && nav.adj[n][j].1 == x;
        assert j < k;
      }
    }
  }

  /** Reading a pair whose other end is already seen, or whose edge was met from an earlier node, sees nothing new. */
  lemma SeenSame(nav: Nav, ends: map<nat, (nat, nat)>, edges: set<nat>, d: set<nat>, n: nat, k: nat,
                 opposites: set<nat>, directed: bool)
    requires n in nav.adj && k < |nav.adj[n]| && SeenAfter(nav, ends, edges, d, n, k, opposites, directed)
    requires Before(ends, edges, d, nav.adj[n][k].0, directed) || nav.adj[n][k].1 in opposites
    ensures SeenAfter(nav, ends, edges, d, n, k + 1, opposites, directed)
  {
    forall x ensures x in opposites <==>
        exists j :: 0 <= j < k + 1 && !Before(ends, edges, d, nav.adj[n][j].0, directed) && nav.adj[n][j].1 == x {
      if exists j :: 0 <= j < k + 1 && !Before(ends, edges, d, nav.adj[n][j].0, directed) && nav.adj[n][j].1 == x {
        var j :| 0 <= j < k + 1 && !Before(ends, edges, d, nav.adj[n][j].0, directed) && nav.adj[n][j].1 == x;
        if j == k {
          assert x == nav.adj[n][k].1;
        }
      }
    }
  }

  /** `Scanning` is the two characterisations above, with every end seen backed. */
  lemma ScanningParts(nav: Nav, ends: map<nat, (nat, nat)>, edges: set<nat>, d: set<nat>, n: nat, k: nat,
                      looked: set<nat>, opposites: set<nat>, par: seq<nat>, directed: bool)
    requires n in nav.adj && k <= |nav.adj[n]|
    ensures Scanning(nav, ends, edges, d, n, k, looked, opposites, par, directed) <==>
      LookedAfter(nav, ends, edges, d, n, k, looked, directed) && SeenAfter(nav, ends, edges, d, n, k, opposites, directed)
      && forall m :: m in opposites ==> Backed(ends, looked, par, n, m, directed)
  {
  }

  /** A pair whose edge was looked at already is skipped. */
  lemma SkipStep(nav: Nav, nodes: seq<nat>, ends: map<nat, (nat, nat)>, edges: set<nat>, d: set<nat>, n: nat, k: nat,
                 looked: set<nat>, opposites: set<nat>, par: seq<nat>, directed: bool)
    requires ScanOk(nav, nodes, ends, edges, directed) && n in nodes
    requires Scanning(nav, ends, edges, d, n, k, looked, opposites, par, directed) && k < |nav.adj[n]|
    requires nav.adj[n][k].0 in looked
    ensures Scanning(nav, ends, edges, d, n, k + 1, looked, opposites, par, directed)
  {
    var e, m := nav.adj[n][k].0, nav.adj[n][k].1;
    ScanningParts(nav, ends, edges, d, n, k, looked, opposites, par, directed);
    ScanningParts(nav, ends, edges, d, n, k + 1, looked, opposites, par, directed);
    LookedStep(nav, ends, edges, d, n, k, looked, directed);
    assert looked + {e} == looked;
    if !Before(ends, edges, d, e, directed) {
      var j :| 0 <= j < k && nav.adj[n][j].0 == e;
      var m2 := nav.adj[n][j].1;
      assert Pair(nav, n, e, m) && Pair(nav, n, e, m2);
      JoinsOne(At(ends, e), n, m, m2, directed);
      assert m in opposites;
    }
    SeenSame(nav, ends, edges, d, n, k, opposites, directed);
  }

  /** Every end seen stays backed once one more edge is looked at and, if its end was seen, reported. */
  lemma BackedStep(ends: map<nat, (nat, nat)>, looked: set<nat>, opposites: set<nat>, par: seq<nat>, par2: seq<nat>,
                   e: nat, n: nat, m: nat, directed: bool)
    requires forall m2 :: m2 in opposites ==> Backed(ends, looked, par, n, m2, directed)
    requires e !in looked && Joins(At(ends, e), n, m, directed) && (forall f :: f in par ==> f in looked)
    requires par2 == if m in opposites then par + [e] else par
    ensures forall m2 :: m2 in opposites + {m} ==> Backed(ends, looked + {e}, par2, n, m2, directed)
  {
    var looked2 := looked + {e};
    forall m2 | m2 in opposites + {m} ensures Backed(ends, looked2, par2, n, m2, directed) {
      if m2 in opposites {
        var f :| f in looked && f !in par && Joins(At(ends, f), n, m2, directed);
        assert f != e && f in looked2 && f !in par2;
      } else {
        assert e in looked2 && e !in par2 && Joins(At(ends, e), n, m2, directed);
      }
    }
  }

  /** A pair whose edge was not looked at: the edge is looked at and its other end seen. */
  lemma LookStep(nav: Nav, nodes: seq<nat>, ends: map<nat, (nat, nat)>, edges: set<nat>, d: set<nat>, n: nat, k: nat,
                 looked: set<nat>, opposites: set<nat>, par: seq<nat>, par2: seq<nat>, directed: bool)
    requires ScanOk(nav, nodes, ends, edges, directed) && n in nodes
    requires Scanning(nav, ends, edges, d, n, k, looked, opposites, par, directed) && k < |nav.adj[n]|
    requires nav.adj[n][k].0 !in looked && (forall e :: e in par ==> e in looked)
    requires par2 == if nav.adj[n][k].1 in opposites then par + [nav.adj[n][k].0] else par
    ensures Scanning(nav, ends, edges, d, n, k + 1, looked + {nav.adj[n][k].0}, opposites + {nav.adj[n][k].1}, par2, directed)
  {
    var e, m := nav.adj[n][k].0, nav.adj[n][k].1;
    ScanningParts(nav, ends, edges, d, n, k, looked, opposites, par, directed);
    ScanningParts(nav, ends, edges, d, n, k + 1, looked + {e}, opposites + {m}, par2, directed);
    assert !Before(ends, edges, d, e, directed);
    assert Pair(nav, n, e, m);
    LookedStep(nav, ends, edges, d, n, k, looked, directed);
    SeenStep(nav, ends, edges, d, n, k, opposites, directed);
    BackedStep(ends, looked, opposites, par, par2, e, n, m, directed);
  }

  /** The loops after looking at one more edge. */
  lemma LoopsStep(ends: map<nat, (nat, nat)>, looked: set<nat>, loops: seq<nat>, e: nat, n: nat, m: nat, directed: bool)
    requires LoopsOk(ends, looked, loops) && e !in looked && Joins(At(ends, e), n, m, directed)
    ensures LoopsOk(ends, looked + {e}, if m == n then loops + [e] else loops)
  {
    if m == n {
      DistinctSnoc(loops, e);
    }
  }

  /** An edge whose other end was seen in this scan is reported parallel. */
  lemma ParSeen(ends: map<nat, (nat, nat)>, looked: set<nat>, par: seq<nat>, e: nat, n: nat, m: nat, directed: bool)
    requires ParOk(ends, looked, par, directed) && e !in looked && Joins(At(ends, e), n, m, directed)
    requires Backed(ends, looked, par, n, m, directed)
    ensures ParOk(ends, looked + {e}, par + [e], directed)
  {
    var looked2, par2 := looked + {e}, par + [e];
    DistinctSnoc(par, e);
    var g :| g in looked && g !in par && Joins(At(ends, g), n, m, directed);
    JoinsSame(At(ends, e), At(ends, g), n, m, directed);
    forall x | x in par2 ensures Partnered(ends, looked2, par2, x, directed) {
      if x == e {
        assert g in looked2 && g !in par2 && g != e;
      } else {
        var f :| f in looked && f !in par && f != x && SameEnds(At(ends, x), At(ends, f), directed);
        assert f in looked2 && f !in par2;
      }
    }
  }

  /** An edge whose other end was not seen in this scan is not reported, and has no parallel edge to report. */
  lemma ParNew(ends: map<nat, (nat, nat)>, looked: set<nat>, par: seq<nat>, e: nat, directed: bool)
    requires ParOk(ends, looked, par, directed) && e !in looked
    requires forall f :: f in looked ==> !SameEnds(At(ends, e), At(ends, f), directed)
    ensures ParOk(ends, looked + {e}, par, directed)
  {
    var looked2 := looked + {e};
    assert forall f :: f in looked ==> !SameEnds(At(ends, f), At(ends, e), directed);
    assert forall x, f :: x in looked2 && f in looked2 && x != f && SameEnds(At(ends, x), At(ends, f), directed) ==> x in par || f in par;
    forall x | x in par ensures Partnered(ends, looked2, par, x, directed) {
      var f :| f in looked && f !in par && f != x && SameEnds(At(ends, x), At(ends, f), directed);
      assert f in looked2;
    }
  }

  /** One pair of the scan of `n`: the edge, if not looked at yet, is checked for a loop and for a parallel one. */
  method ScanPair(nav: Nav, nodes: seq<nat>, ends: map<nat, (nat, nat)>, edges: set<nat>, d: set<nat>, n: nat, k: nat,
                  looked: set<nat>, opposites: set<nat>, loops: seq<nat>, par: seq<nat>, directed: bool)
    returns (looked2: set<nat>, opposites2: set<nat>, loops2: seq<nat>, par2: seq<nat>)
    requires ScanOk(nav, nodes, ends, edges, directed) && n in nodes && n !in d
    requires Scanning(nav, ends, edges, d, n, k, looked, opposites, par, directed) && k < |nav.adj[n]|
    requires LoopsOk(ends, looked, loops) && ParOk(ends, looked, par, directed)
    ensures Scanning(nav, ends, edges, d, n, k + 1, looked2, opposites2, par2, directed)
    ensures LoopsOk(ends, looked2, loops2) && ParOk(ends, looked2, par2, directed)
  {
    var e, m := nav.adj[n][k].0, nav.adj[n][k].1;
    if e in looked {
      SkipStep(nav, nodes, ends, edges, d, n, k, looked, opposites, par, directed);
      return looked, opposites, loops, par;
    }
    assert Pair(nav, n, e, m);
    looked2 := looked + {e};
    loops2 := if m == n then loops + [e] else loops;
    LoopsStep(ends, looked, loops, e, n, m, directed);
    if m in opposites {
      par2 := par + [e];
      ParSeen(ends, looked, par, e, n, m, directed);
    } else {
      par2 := par;
      NoTwin(nav, nodes, ends, edges, d, n, k, looked, opposites, par, directed);
      ParNew(ends, looked, par, e, directed);
    }
    LookStep(nav, nodes, ends, edges, d, n, k, looked, opposites, par, par2, directed);
    opposites2 := opposites + {m};
  }

  /** Once its pairs are read, the edges looked at are those met from the nodes scanned so far and `n`. */
  lemma NodeDone(nav: Nav, nodes: seq<nat>, ends: map<nat, (nat, nat)>, edges: set<nat>, d: set<nat>, n: nat,
                 looked: set<nat>, opposites: set<nat>, par: seq<nat>, directed: bool)
    requires ScanOk(nav, nodes, ends, edges, directed) && n in nodes
    requires Scanning(nav, ends, edges, d, n, |nav.adj[n]|, looked, opposites, par, directed)
    ensures forall e :: e in looked <==> Before(ends, edges, d + {n}, e, directed)
  {
    var scan := nav.adj[n];
    forall e ensures e in looked <==> Before(ends, edges, d + {n}, e, directed) {
      if e in looked && !Before(ends, edges, d, e, directed) {
        var j :| 0 <= j < |scan| && scan[j].0 == e;
        assert Pair(nav, n, e, scan[j].1);
      }
      if Before(ends, edges, d + {n}, e, directed) && !Before(ends, edges, d, e, directed) {
        var p := At(ends, e);
        var m := if p.0 == n then p.1 else p.0;
        assert Joins(p, n, m, directed);
        assert Pair(nav, n, e, m);
        var j :| 0 <= j < |scan| && scan[j] == (e, m);
      }
    }
  }

  /** The scan of one node: its pairs read in order, with a fresh set of other ends seen. */
  method ScanNode(nav: Nav, nodes: seq<nat>, ends: map<nat, (nat, nat)>, edges: set<nat>, d: set<nat>, n: nat,
                  looked0: set<nat>, loops0: seq<nat>, par0: seq<nat>, directed: bool)
    returns (looked: set<nat>, loops: seq<nat>, par: seq<nat>)
    requires ScanOk(nav, nodes, ends, edges, directed) && n in nodes && n !in d
    requires forall e :: e in looked0 <==> Before(ends, edges, d, e, directed)
    requires LoopsOk(ends, looked0, loops0) && ParOk(ends, looked0, par0, directed)
    ensures forall e :: e in looked <==> Before(ends, edges, d + {n}, e, directed)
    ensures LoopsOk(ends, looked, loops) && ParOk(ends, looked, par, directed)
  {
    var opposites: set<nat> := {};
    looked, loops, par := looked0, loops0, par0;
    var k := 0;
    while k < |nav.adj[n]|
      invariant Scanning(nav, ends, edges, d, n, k, looked, opposites, par, directed)
      invariant LoopsOk(ends, looked, loops) && ParOk(ends, looked, par, directed)
    {
      looked, opposites, loops, par := ScanPair(nav, nodes, ends, edges, d, n, k, looked, opposites, loops, par, directed);
      k := k + 1;
    }
    NodeDone(nav, nodes, ends, edges, d, n, looked, opposites, par, directed);
  }

  /**
   `getLoopsAndParallelEdges` over the pairs of each node, nodes in order:
   the loops are exactly the loops, each once; of two parallel edges at
   least one is reported parallel, each once, and each reported edge is
   parallel to one that is not.
   */
  method ScanAll(nav: Nav, nodes: seq<nat>, ends: map<nat, (nat, nat)>, edges: set<nat>, directed: bool)
    returns (loops: seq<nat>, par: seq<nat>)
    requires ScanOk(nav, nodes, ends, edges, directed) && Distinct(nodes)
    ensures LoopsOk(ends, edges, loops) && ParOk(ends, edges, par, directed)
  {
    var looked: set<nat> := {};
    loops, par := [], [];
    var i := 0;
    while i < |nodes|
      invariant i <= |nodes|
      invariant forall e :: e in looked <==> Before(ends, edges, (set x | x in nodes[..i]), e, directed)
      invariant LoopsOk(ends, looked, loops) && ParOk(ends, looked, par, directed)
    {
      var d := set x | x in nodes[..i];
      assert nodes[i] !in d by {
        forall j | 0 <= j < i ensures nodes[j] != nodes[i] {
        }
      }
      var next := nodes[..i + 1];
      assert next == nodes[..i] + [nodes[i]];
      assert (set x | x in next) == d + {nodes[i]};
      looked, loops, par := ScanNode(nav, nodes, ends, edges, d, nodes[i], looked, loops, par, directed);
      i := i + 1;
    }
    assert nodes[..i] == nodes;
    assert looked == edges;
  }

  // ---------------------------------------------------------------------------
  // On a graph
  // ---------------------------------------------------------------------------

  /** The edges of a graph, as a set. */
  function EdgeSet(g: Graph): (r: set<nat>)
    ensures forall e :: e in r <==> e in g.edges
  {
    set e | e in g.edges
  }

  /** One pair of a valid graph, read in the direction a simplicity test reads. */
  lemma PairOfGraph(g: Graph, directed: bool, n: nat, e: nat, m: nat)
    requires Valid(g) && n in g.data
    ensures Pair(NavOf(g, SearchDirection(directed)), n, e, m) <==> e in EdgeSet(g) && Joins(At(g.ends, e), n, m, directed)
  {
    NavOfPairs(g, SearchDirection(directed), n, e, m);
    if e in g.edges {
      assert e in g.ends;
    }
  }

  /** The pairs of a valid graph in the direction a simplicity test reads. */
  lemma ScanOfGraph(g: Graph, directed: bool)
    requires Valid(g)
    ensures ScanOk(NavOf(g, SearchDirection(directed)), g.nodes, g.ends, EdgeSet(g), directed)
  {
    var nav := NavOf(g, SearchDirection(directed));
    NavOfOk(g, SearchDirection(directed));
    forall n, e, m | n in g.nodes
      ensures Pair(nav, n, e, m) <==> e in EdgeSet(g) && Joins(At(g.ends, e), n, m, directed)
    {
      PairOfGraph(g, directed, n, e, m);
    }
    assert forall n :: n in g.nodes ==> n in nav.adj;
    assert forall e :: e in EdgeSet(g) ==> At(g.ends, e).0 in g.nodes by {
      assert Shaped(g);
    }
  }

  /**
   `getLoopsAndParallelEdges(graph, directed)`: the loops of the graph,
   each once; and parallel edges (same source and target, or, undirected,
   the same two ends either way) such that of any two parallel edges at
   least one is reported, each once, and each reported edge is parallel to
   one left unreported.
   */
  method LoopsAndParallelEdges(g: Graph, directed: bool) returns (loops: seq<nat>, par: seq<nat>)
    requires Valid(g)
    ensures LoopsOk(g.ends, EdgeSet(g), loops) && ParOk(g.ends, EdgeSet(g), par, directed)
  {
    ScanOfGraph(g, directed);
    loops, par := ScanAll(NavOf(g, SearchDirection(directed)), g.nodes, g.ends, EdgeSet(g), directed);
  }

  /** No loop, and no two parallel edges. */
  ghost predicate Simple(ends: map<nat, (nat, nat)>, edges: set<nat>, directed: bool)
  {
    (forall e :: e in edges ==> At(ends, e).0 != At(ends, e).1)
    && forall e, f :: e in edges && f in edges && e != f ==> !SameEnds(At(ends, e), At(ends, f), directed)
  }

  /** Both lists are empty exactly when the edges are simple. */
  lemma EmptyIffSimple(ends: map<nat, (nat, nat)>, edges: set<nat>, loops: seq<nat>, par: seq<nat>, directed: bool)
    requires LoopsOk(ends, edges, loops) && ParOk(ends, edges, par, directed)
    ensures |loops| == 0 && |par| == 0 <==> Simple(ends, edges, directed)
  {
    if |par| > 0 {
      assert Partnered(ends, edges, par, par[0], directed);
    }
    if |loops| > 0 {
      assert loops[0] in loops;
    }
  }

  /** `isSimple` computed afresh: both lists empty, exactly when the graph has no loop and no parallel edges. */
  method IsSimple(g: Graph, directed: bool) returns (r: bool)
    requires Valid(g)
    ensures r <==> Simple(g.ends, EdgeSet(g), directed)
  {
    var loops, par := LoopsAndParallelEdges(g, directed);
    EmptyIffSimple(g.ends, EdgeSet(g), loops, par, directed);
    r := |loops| == 0 && |par| == 0;
  }

  /** `uniqueIterator`: the elements of `s` at their first occurrence. */
  method Unique(s: seq<nat>) returns (r: seq<nat>)
    ensures Distinct(r) && forall x :: x in r <==> x in s
  {
    r := [];
    var seen: set<nat> := {};
    var i := 0;
    while i < |s|
      invariant i <= |s| && Distinct(r)
      invariant forall x :: x in seen <==> x in r
      invariant forall x :: x in r <==> x in s[..i]
    {
      assert s[..i + 1] == s[..i] + [s[i]];
      if s[i] !in seen {
        DistinctSnoc(r, s[i]);
        r := r + [s[i]];
        seen := seen + {s[i]};
      }
      i := i + 1;
    }
    assert s[..i] == s;
  }

  /**
   `makeSimple(graph, directed)`: nothing when the graph is simple;
   otherwise the loops and parallel edges, each once, are the edges
   deleted. What is left is simple, and every edge that is not a loop
   keeps a parallel edge (itself, or the one left unreported) in it.
   */
  method MakeSimple(g: Graph, directed: bool) returns (removed: seq<nat>, left: set<nat>)
    requires Valid(g)
    ensures Distinct(removed) && (forall e :: e in removed ==> e in g.edges)
    ensures left == EdgeSet(g) - (set e | e in removed)
    ensures Simple(g.ends, EdgeSet(g), directed) ==> removed == []
    ensures Simple(g.ends, left, directed)
    ensures forall e :: e in g.edges && At(g.ends, e).0 != At(g.ends, e).1 ==>
                          exists f :: f in left && SameEnds(At(g.ends, e), At(g.ends, f), directed)
  {
    var simple := IsSimple(g, directed);
    if simple {
      return [], EdgeSet(g);
    }
    var loops, par := LoopsAndParallelEdges(g, directed);
    removed := Unique(loops + par);
    left := EdgeSet(g) - (set e | e in removed);
    SimpleLeft(g.ends, EdgeSet(g), loops, par, removed, left, directed);
  }

  /** Removing the loops and the parallel edges reported leaves a simple set that keeps every class of non-loop edges. */
  lemma SimpleLeft(ends: map<nat, (nat, nat)>, edges: set<nat>, loops: seq<nat>, par: seq<nat>, removed: seq<nat>,
                   left: set<nat>, directed: bool)
    requires LoopsOk(ends, edges, loops) && ParOk(ends, edges, par, directed)
    requires (forall x :: x in removed <==> x in loops + par) && left == edges - (set e | e in removed)
    ensures Simple(ends, left, directed)
    ensures forall e :: e in edges && At(ends, e).0 != At(ends, e).1 ==> exists f :: f in left && SameEnds(At(ends, e), At(ends, f), directed)
  {
    forall e | e in edges && At(ends, e).0 != At(ends, e).1 ensures exists f :: f in left && SameEnds(At(ends, e), At(ends, f), directed) {
      if e in par {
        var f :| f in edges && f !in par && f != e && SameEnds(At(ends, e), At(ends, f), directed);
        assert f !in loops;
        assert f in left;
      } else {
        assert e !in loops;
        assert e in left;
      }
    }
  }
}
