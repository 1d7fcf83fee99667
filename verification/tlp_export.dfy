/**
 The TLP text export of TLPExport.cpp: string escaping, the id lists of the
 graph hierarchy, the edge lines of the root graph, the symbolic bitmap
 directory, the reindexing of node/edge attributes and the temporary
 re-rooting of the exported graph.

 Ids are natural numbers; the decimal printing of a number is left abstract:
 an id list is modelled by the tokens ` a` and `..b` it prints.
 */
module TlpExport {
  import opened Wrappers
  import opened Strs

  // ---------------------------------------------------------------------------
  // String escaping
  // ---------------------------------------------------------------------------

  /** How one character is written inside a quoted TLP string. */
  function Escape(c: char): (r: string)
    ensures |r| == 1 || |r| == 2
    ensures '\n' !in r
    ensures |r| == 2 <==> c == '"' || c == '\n' || c == '\\'
  {
    if c == '"' then "\\\""
    else if c == '\n' then "\\n"
    else if c == '\\' then "\\\\"
    else [c]
  }

  /** `convert`: a quote, a newline and a backslash are written with a backslash before them. */
  function Convert(s: string): (r: string)
    ensures '\n' !in r
    ensures |s| <= |r| <= 2 * |s|
  {
    if |s| == 0 then "" else Escape(s[0]) + Convert(s[1..])
  }

  /** The reading rule of a TLP string: a backslash takes the next character, `\n` being a newline. */
  function Unescape(r: string): string
  {
    if |r| == 0 then ""
    else if r[0] == '\\' && |r| >= 2 then [if r[1] == 'n' then '\n' else r[1]] + Unescape(r[2..])
    else [r[0]] + Unescape(r[1..])
  }

  /** Reading back an escaped string gives the original string. */
  lemma {:induction false} UnescapeConvert(s: string)
    ensures Unescape(Convert(s)) == s
  {
    if |s| > 0 {
      var e := Escape(s[0]);
      var rest := Convert(s[1..]);
      UnescapeConvert(s[1..]);
      assert Convert(s) == e + rest;
      if |e| == 2 {
        assert (e + rest)[2..] == rest;
      } else {
        assert (e + rest)[1..] == rest;
      }
    }
  }

  /** Escaping loses nothing: different strings are written differently. */
  lemma ConvertInjective(s: string, t: string)
    requires Convert(s) == Convert(t)
    ensures s == t
  {
    UnescapeConvert(s);
    UnescapeConvert(t);
  }

  // ---------------------------------------------------------------------------
  // Id lists
  // ---------------------------------------------------------------------------

  /** One printed item of an id list: ` a` (an id) or `..b` (the run up to `b`). */
  datatype Tok = Single(id: nat) | Upto(id: nat)

  /** The ids from `lo` up to but excluding `hi`. */
  function Range(lo: nat, hi: nat): (r: seq<nat>)
    ensures |r| == if hi <= lo then 0 else hi - lo
    decreases hi
  {
    if hi <= lo then [] else Range(lo, hi - 1) + [hi - 1]
  }

  /** The ids an item appends to those before it: `..b` continues the last id up to `b`. */
  function Extend(pre: seq<nat>, t: Tok): seq<nat>
  {
    match t
    case Single(a) => pre + [a]
    case Upto(b) => if |pre| == 0 then pre else pre + Range(pre[|pre| - 1] + 1, b + 1)
  }

  /** The ids an item list stands for. */
  function Expand(toks: seq<Tok>): seq<nat>
  {
    if |toks| == 0 then [] else Extend(Expand(toks[..|toks| - 1]), toks[|toks| - 1])
  }

  /**
   The canonical shape of a printed list: it opens with an id, `..b` closes
   a run of at least two ids, and a single id never continues the run before
   it (each item follows the one before it as `Follows` allows).
   */
  ghost predicate Canonical(toks: seq<Tok>)
  {
    if |toks| <= 1 then |toks| == 1 ==> toks[0].Single?
    else Canonical(toks[..|toks| - 1]) && Follows(toks[|toks| - 2], toks[|toks| - 1])
  }

  /** What may come right after item `a`. */
  predicate Follows(a: Tok, b: Tok)
  {
    (b.Upto? ==> a.Single? && a.id < b.id) && (b.Single? ==> b.id != a.id + 1)
  }

  lemma {:induction false} RangeCons(lo: nat, hi: nat)
    requires lo < hi
    ensures [lo] + Range(lo + 1, hi) == Range(lo, hi)
    decreases hi
  {
    if lo + 1 < hi {
      RangeCons(lo, hi - 1);
      assert [lo] + (Range(lo + 1, hi - 1) + [hi - 1]) == ([lo] + Range(lo + 1, hi - 1)) + [hi - 1];
    }
  }

  lemma RangeSnoc(lo: nat, hi: nat)
    requires lo <= hi
    ensures Range(lo, hi) + [hi] == Range(lo, hi + 1)
  {
  }

  lemma ExpandSnoc(toks: seq<Tok>, t: Tok)
    ensures Expand(toks + [t]) == Extend(Expand(toks), t)
  {
    assert (toks + [t])[..|toks|] == toks;
  }

  lemma CanonicalSnoc(toks: seq<Tok>, t: Tok)
    requires Canonical(toks)
    requires |toks| == 0 ==> t.Single?
    requires |toks| > 0 ==> Follows(toks[|toks| - 1], t)
    ensures Canonical(toks + [t])
  {
    assert (toks + [t])[..|toks|] == toks;
  }

  /**
   The state of the scan after `i > 0` ids: the list printed so far, the
   first id `begin` of the current run and the last id `prev` seen. A run
   still open is owed `begin+1..prev`; a closing `..b` only ends the list.
   */
  ghost predicate Scanned(ids: seq<nat>, i: nat, toks: seq<Tok>, begin: nat, prev: nat)
  {
    0 < i <= |ids| && |toks| > 0 && prev == ids[i - 1] && begin <= prev
    && (toks[|toks| - 1].Single? ==>
          toks[|toks| - 1].id == begin && Expand(toks) + Range(begin + 1, prev + 1) == ids[..i]
          && (prev != begin ==> i < |ids|))
    && (toks[|toks| - 1].Upto? ==> i == |ids| && Expand(toks) == ids)
  }

  /** A list that ends with a single id stands for ids ending with that id. */
  lemma ExpandLast(toks: seq<Tok>)
    requires |toks| > 0 && toks[|toks| - 1].Single?
    ensures |Expand(toks)| > 0 && Expand(toks)[|Expand(toks)| - 1] == toks[|toks| - 1].id
  {
    ExpandSnoc(toks[..|toks| - 1], toks[|toks| - 1]);
    assert toks[..|toks| - 1] + [toks[|toks| - 1]] == toks;
  }

  /** The next id continues the run and is not the last one: nothing is printed. */
  lemma ScannedRun(ids: seq<nat>, i: nat, toks: seq<Tok>, begin: nat, prev: nat)
    requires Scanned(ids, i, toks, begin, prev) && i < |ids| - 1 && ids[i] == prev + 1
    ensures Scanned(ids, i + 1, toks, begin, ids[i])
  {
    RangeSnoc(begin + 1, ids[i]);
    assert ids[..i + 1] == ids[..i] + [ids[i]];
    assert Expand(toks) + Range(begin + 1, ids[i] + 1) == ids[..i + 1];
  }

  /** The last id continues the run: `..last` closes the list. */
  lemma ScannedRunEnd(ids: seq<nat>, i: nat, toks: seq<Tok>, begin: nat, prev: nat)
    requires Scanned(ids, i, toks, begin, prev) && i == |ids| - 1 && ids[i] == prev + 1
    ensures Scanned(ids, i + 1, toks + [Upto(ids[i])], begin, ids[i])
  {
    var x := ids[i];
    var pre := Expand(toks);
    var t := toks + [Upto(x)];
    assert Expand(t) == pre + Range(begin + 1, x + 1) by {
      ExpandLast(toks);
      ExpandSnoc(toks, Upto(x));
    }
    assert Range(begin + 1, x + 1) == Range(begin + 1, prev + 1) + [x] by {
      RangeSnoc(begin + 1, prev + 1);
    }
    assert ids == ids[..i] + [x];
  }

  /** Closing the open run, if any, with `..prev` accounts for every id seen. */
  lemma CloseRun(ids: seq<nat>, i: nat, toks: seq<Tok>, begin: nat, prev: nat)
    requires Scanned(ids, i, toks, begin, prev) && i < |ids|
    ensures var closed := if prev != begin then toks + [Upto(prev)] else toks;
            Expand(closed) == ids[..i]
  {
    if prev != begin {
      ExpandLast(toks);
      ExpandSnoc(toks, Upto(prev));
    } else {
      assert Range(begin + 1, prev + 1) == [];
      assert Expand(toks) + [] == Expand(toks);
    }
  }

  /** Printing the next id singly, once everything before it is accounted for, opens a new run. */
  lemma ScannedOpen(ids: seq<nat>, i: nat, closed: seq<Tok>)
    requires i < |ids| && Expand(closed) == ids[..i]
    ensures Scanned(ids, i + 1, closed + [Single(ids[i])], ids[i], ids[i])
  {
    var x := ids[i];
    var t := closed + [Single(x)];
    var out := Expand(t);
    assert out == ids[..i + 1] by {
      ExpandSnoc(closed, Single(x));
      assert ids[..i + 1] == ids[..i] + [x];
    }
    assert Range(x + 1, x + 1) == [];
    assert out + [] == out;
  }

  lemma ScannedDone(ids: seq<nat>, toks: seq<Tok>, begin: nat, prev: nat)
    requires Scanned(ids, |ids|, toks, begin, prev)
    ensures Expand(toks) == ids
  {
    assert ids[..|ids|] == ids;
    if toks[|toks| - 1].Single? {
      assert Range(begin + 1, prev + 1) == [];
      assert Expand(toks) + [] == Expand(toks);
    }
  }

  /** The variables of the scan: the items printed, whether an id was seen, the run's first and last ids. */
  datatype ScanState = ScanState(toks: seq<Tok>, started: bool, begin: nat, prev: nat)

  /**
   One iteration of the id loop of `saveGraphElements` on id `cur`; `last`
   tells whether `cur` is the last id of the list.
   */
  function Step(st: ScanState, cur: nat, last: bool): ScanState
  {
    if !st.started then ScanState(st.toks + [Single(cur)], true, cur, cur)
    else if cur == st.prev + 1 then
      ScanState(if last then st.toks + [Upto(cur)] else st.toks, true, st.begin, cur)
    else
      var closed := if st.prev != st.begin then st.toks + [Upto(st.prev)] else st.toks;
      ScanState(closed + [Single(cur)], true, cur, cur)
  }

  ghost predicate ScanInv(ids: seq<nat>, i: nat, st: ScanState)
  {
    i <= |ids| && (st.started <==> i > 0) && (i == 0 ==> st.toks == [])
    && (i > 0 ==> Scanned(ids, i, st.toks, st.begin, st.prev))
  }

  /** Each iteration keeps every id seen accounted for. */
  lemma StepScanned(ids: seq<nat>, i: nat, st: ScanState)
    requires ScanInv(ids, i, st) && i < |ids|
    ensures ScanInv(ids, i + 1, Step(st, ids[i], i == |ids| - 1))
  {
    var cur := ids[i];
    var next := Step(st, cur, i == |ids| - 1);
    if !st.started {
      assert next == ScanState([Single(cur)], true, cur, cur);
      assert st.toks + [Single(cur)] == [Single(cur)];
      ScannedOpen(ids, 0, st.toks);
    } else if cur == st.prev + 1 {
      if i == |ids| - 1 {
        assert next == ScanState(st.toks + [Upto(cur)], true, st.begin, cur);
        ScannedRunEnd(ids, i, st.toks, st.begin, st.prev);
      } else {
        assert next == ScanState(st.toks, true, st.begin, cur);
        ScannedRun(ids, i, st.toks, st.begin, st.prev);
      }
    } else {
      var closed := if st.prev != st.begin then st.toks + [Upto(st.prev)] else st.toks;
      assert next == ScanState(closed + [Single(cur)], true, cur, cur);
      CloseRun(ids, i, st.toks, st.begin, st.prev);
      ScannedOpen(ids, i, closed);
    }
  }

  /** Before the last id, the printed list ends with the single first id of the open run. */
  lemma ScanOpenRun(ids: seq<nat>, i: nat, st: ScanState)
    requires ScanInv(ids, i, st) && 0 < i < |ids|
    ensures |st.toks| > 0 && st.toks[|st.toks| - 1] == Single(st.begin) && st.begin <= st.prev
  {
    assert Scanned(ids, i, st.toks, st.begin, st.prev);
  }

  /** Each iteration keeps the printed list canonical. */
  lemma StepCanonical(ids: seq<nat>, i: nat, st: ScanState)
    requires ScanInv(ids, i, st) && i < |ids| && Canonical(st.toks)
    ensures Canonical(Step(st, ids[i], i == |ids| - 1).toks)
  {
    var cur := ids[i];
    var toks := st.toks;
    if !st.started {
      assert toks == [];
      CanonicalSnoc(toks, Single(cur));
      return;
    }
    ScanOpenRun(ids, i, st);
    var open := Single(st.begin);
    assert toks[|toks| - 1] == open;
    if cur == st.prev + 1 {
      if i == |ids| - 1 {
        assert Follows(open, Upto(cur));
        CanonicalSnoc(toks, Upto(cur));
      }
    } else if st.prev != st.begin {
      assert Follows(open, Upto(st.prev));
      CanonicalSnoc(toks, Upto(st.prev));
      var closed := toks + [Upto(st.prev)];
      assert closed[|closed| - 1] == Upto(st.prev);
      CanonicalSnoc(closed, Single(cur));
    } else {
      CanonicalSnoc(toks, Single(cur));
    }
  }

  /**
   The id list of a subgraph (`saveGraphElements`): the ids are scanned in
   order; a run of consecutive ids is printed as its first id and `..last`,
   other ids singly.
   */
  method SaveIds(ids: seq<nat>) returns (toks: seq<Tok>)
    ensures Expand(toks) == ids
    ensures Canonical(toks)
  {
    var st := ScanState([], false, 0, 0);
    var i := 0;
    while i < |ids|
      invariant ScanInv(ids, i, st) && Canonical(st.toks)
    {
      StepScanned(ids, i, st);
      StepCanonical(ids, i, st);
      st := Step(st, ids[i], i == |ids| - 1);
      i := i + 1;
    }
    toks := st.toks;
    if i > 0 {
      ScannedDone(ids, toks, st.begin, st.prev);
    }
  }

  /** The node list of the root graph, by node count: `(nodes)`, `(nodes 0)`, `(nodes 0 1)`, `(nodes 0..n-1)`. */
  function RootNodes(n: nat): (r: seq<Tok>)
    ensures n != 2 ==> Canonical(r)
  {
    if n == 0 then []
    else if n == 1 then [Single(0)]
    else if n == 2 then [Single(0), Single(1)]
    else [Single(0), Upto(n - 1)]
  }

  /** The root list names every node position exactly once, in order. */
  lemma RootNodesExpand(n: nat)
    ensures Expand(RootNodes(n)) == Range(0, n)
  {
    if n > 0 {
      var one := [Single(0)];
      assert Expand(one) == [0] by {
        ExpandSnoc([], Single(0));
        assert [] + [Single(0)] == one;
      }
      if n == 2 {
        ExpandSnoc(one, Single(1));
        assert one + [Single(1)] == RootNodes(n);
        assert [0, 1] == Range(0, 2);
      } else if n > 2 {
        ExpandSnoc(one, Upto(n - 1));
        assert one + [Upto(n - 1)] == RootNodes(n);
        RangeCons(0, n);
      }
    }
  }

  // ---------------------------------------------------------------------------
  // Root edges
  // ---------------------------------------------------------------------------

  /** The position of `x` in `xs` (`nodePos`). */
  function IndexOf(xs: seq<nat>, x: nat): (r: nat)
    requires x in xs
    ensures r < |xs| && xs[r] == x
    ensures forall k :: 0 <= k < r ==> xs[k] != x
  {
    if xs[0] == x then 0 else 1 + IndexOf(xs[1..], x)
  }

  /** `(edge i src tgt)`. */
  datatype EdgeLine = EdgeLine(index: nat, src: nat, tgt: nat)

  /**
   The edges of the root graph: edge `i` of the edge list with its ends
   replaced by their positions in the node list, so that the node list read
   at those positions gives back the ends.
   */
  function RootEdges(nodes: seq<nat>, ends: seq<(nat, nat)>): (r: seq<EdgeLine>)
    requires forall i :: 0 <= i < |ends| ==> ends[i].0 in nodes && ends[i].1 in nodes
    ensures |r| == |ends|
    ensures forall i :: 0 <= i < |r| ==>
              r[i].index == i && r[i].src < |nodes| && r[i].tgt < |nodes|
              && nodes[r[i].src] == ends[i].0 && nodes[r[i].tgt] == ends[i].1
  {
    seq(|ends|, i requires 0 <= i < |ends| => EdgeLine(i, IndexOf(nodes, ends[i].0), IndexOf(nodes, ends[i].1)))
  }

  // ---------------------------------------------------------------------------
  // Symbolic bitmap directory
  // ---------------------------------------------------------------------------

  const SymbolicDir: string := "TalipotBitmapDir/"

  predicate IsPathViewProp(propName: string)
  {
    propName == "viewFont" || propName == "viewTexture"
  }

  /**
   A value of `viewFont` or `viewTexture` has the first occurrence of the
   bitmap directory `dir` (when `dir` is set) replaced by the symbolic name;
   any other value is written as it is.
   */
  function SymbolicPath(propName: string, value: string, dir: string): (r: string)
    ensures !IsPathViewProp(propName) || dir == "" || !Contains(value, dir) ==> r == value
    ensures IsPathViewProp(propName) && dir != "" && Contains(value, dir) ==>
              var p := Find(value, dir);
              r == value[..p] + SymbolicDir + value[p + |dir|..]
  {
    if IsPathViewProp(propName) && dir != "" then ReplaceFirst(value, dir, SymbolicDir) else value
  }

  /** Only the first occurrence is replaced: a later one is still there, shifted. */
  lemma SymbolicPathKeepsLater(propName: string, value: string, dir: string, q: nat)
    requires IsPathViewProp(propName) && dir != "" && Contains(value, dir)
    requires OccursAt(value, dir, q) && q >= Find(value, dir) + |dir|
    ensures OccursAt(SymbolicPath(propName, value, dir), dir, q - |dir| + |SymbolicDir|)
  {
    assert SymbolicPath(propName, value, dir) == ReplaceFirst(value, dir, SymbolicDir);
    ReplaceFirstKeepsLater(value, dir, SymbolicDir, q);
  }

  // ---------------------------------------------------------------------------
  // Node and edge attributes
  // ---------------------------------------------------------------------------

  /** A graph attribute value as far as the export reindexes it. */
  datatype AttrValue =
    | NodeVal(n: nat)
    | EdgeVal(e: nat)
    | NodeVec(ns: seq<nat>)
    | EdgeVec(es: seq<nat>)
    | Other(text: string)

  /**
   `saveAttributes` as written: single nodes and edges get their positions,
   but the vector loops iterate over copies, so vectors keep their old ids.
   */
  function ReindexAsWritten(v: AttrValue, nodePos: nat -> nat, edgePos: nat -> nat): AttrValue
  {
    match v
    case NodeVal(n) => NodeVal(nodePos(n))
    case EdgeVal(e) => EdgeVal(edgePos(e))
    case NodeVec(ns) => NodeVec(ns)
    case EdgeVec(es) => EdgeVec(es)
    case Other(t) => Other(t)
  }

  /** A vector holding node 5, with node 5 at position 0, is written with the stale id 5. */
  lemma ReindexAsWrittenStale()
    ensures var nodePos := (n: nat) => if n == 5 then 0 else n;
            ReindexAsWritten(NodeVec([5]), nodePos, x => x) == NodeVec([5])
            && ReindexAsWritten(NodeVal(5), nodePos, x => x) == NodeVal(0)
  {
  }

  /** The reindexing the comment in `saveAttributes` describes: every node or edge id becomes its position. */
  function Reindex(v: AttrValue, nodePos: nat -> nat, edgePos: nat -> nat): (r: AttrValue)
    ensures v.NodeVec? ==> r.NodeVec? && |r.ns| == |v.ns|
    ensures v.EdgeVec? ==> r.EdgeVec? && |r.es| == |v.es|
  {
    match v
    case NodeVal(n) => NodeVal(nodePos(n))
    case EdgeVal(e) => EdgeVal(edgePos(e))
    case NodeVec(ns) => NodeVec(seq(|ns|, i requires 0 <= i < |ns| => nodePos(ns[i])))
    case EdgeVec(es) => EdgeVec(seq(|es|, i requires 0 <= i < |es| => edgePos(es[i])))
    case Other(t) => Other(t)
  }

  /** A node in a vector is reindexed exactly as the same node on its own. */
  lemma ReindexVectorAgrees(ns: seq<nat>, es: seq<nat>, nodePos: nat -> nat, edgePos: nat -> nat)
    ensures forall i :: 0 <= i < |ns| ==>
              Reindex(NodeVec(ns), nodePos, edgePos).ns[i] == Reindex(NodeVal(ns[i]), nodePos, edgePos).n
    ensures forall i :: 0 <= i < |es| ==>
              Reindex(EdgeVec(es), nodePos, edgePos).es[i] == Reindex(EdgeVal(es[i]), nodePos, edgePos).e
  {
  }

  // ---------------------------------------------------------------------------
  // exportGraph
  // ---------------------------------------------------------------------------

  const TlpFileVersion: string := "2.3"
  const DefaultComments: string := "This file was generated by Talipot."

  /** The opening lines of a TLP file. */
  datatype HeaderLine = Tlp(version: string) | Date(date: string) | Author(author: string) | Comments(comments: string)

  /** How a graph's elements are introduced: `(nb_nodes …)` for the root, `(cluster id` for a subgraph. */
  datatype ElementsFormat = RootFormat | ClusterFormat(id: nat)

  datatype Export = Export(header: seq<HeaderLine>, format: ElementsFormat, nameAttr: Option<string>,
                           parents: map<nat, nat>)

  function ElementsFormatOf(parents: map<nat, nat>, g: nat): ElementsFormat
    requires g in parents
  {
    if parents[g] == g then RootFormat else ClusterFormat(g)
  }

  /**
   `exportGraph`: the graph is made its own parent while it is written, so
   it is written as a root; the header carries the version, the date (a
   parameter: the clock is outside the model), the author when one is given
   and the comments (a default text when none is given); a non-empty name
   becomes the `name` attribute; the original parent is restored afterwards.
   */
  function ExportGraph(parents: map<nat, nat>, g: nat, params: Option<map<string, string>>, date: string): (r: Export)
    requires g in parents
    ensures r.parents == parents
    ensures r.format == RootFormat
    ensures |r.header| >= 3
    ensures r.header[0] == Tlp(TlpFileVersion) && r.header[1] == Date(date)
    ensures r.header[|r.header| - 1].Comments?
    ensures (params.None? || "text::comments" !in params.value) ==> r.header[|r.header| - 1] == Comments(DefaultComments)
    ensures (exists a :: a != "" && Author(a) in r.header) <==>
              params.Some? && "author" in params.value && params.value["author"] != ""
    ensures r.nameAttr.Some? <==> params.Some? && "name" in params.value && params.value["name"] != ""
  {
    var rooted := parents[g := g];
    var get := (k: string, d: string) => if params.Some? && k in params.value then params.value[k] else d;
    var name := get("name", "");
    var author := get("author", "");
    var comments := get("text::comments", DefaultComments);
    var header := [Tlp(TlpFileVersion), Date(date)]
                  + (if |author| > 0 then [Author(author)] else [])
                  + [Comments(comments)];
    Export(header, ElementsFormatOf(rooted, g), if |name| > 0 then Some(name) else None, rooted[g := parents[g]])
  }
}
