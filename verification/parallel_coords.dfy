/**
 The selection bookkeeping of ParallelCoordinatesGraphProxy.cpp: the
 ordered list of selected property names and the set of highlighted
 element ids. Which properties exist is a parameter (the graph's
 `existProperty`).
 */
module ParallelCoords {
  import opened Seqs

  datatype Proxy = Proxy(selected: seq<string>, highlighted: set<nat>)

  datatype Selection = Selection(p: Proxy, names: seq<string>)

  /**
   `getSelectedProperties`: the selected names whose property still
   exists, in order; the filtered list is also stored.
   */
  function GetSelectedProperties(p: Proxy, existing: set<string>): (r: Selection)
    ensures r.names == r.p.selected && r.p.highlighted == p.highlighted
    ensures forall x :: x in r.names <==> x in p.selected && x in existing
    ensures SubseqOf(r.names, p.selected)
    ensures forall x :: multiset(r.names)[x] == if x in existing then multiset(p.selected)[x] else 0
  {
    var names := KeepIn(p.selected, existing);
    KeepInCounts(p.selected, existing);
    Selection(p.(selected := names), names)
  }

  /** Asking twice gives the same list and leaves the proxy as the first call left it. */
  lemma GetSelectedPropertiesTwice(p: Proxy, existing: set<string>)
    ensures var a := GetSelectedProperties(p, existing);
            GetSelectedProperties(a.p, existing) == a
  {
  }

  /** `setSelectedProperties`. */
  function SetSelectedProperties(p: Proxy, properties: seq<string>): (r: Proxy)
    ensures r.selected == properties && r.highlighted == p.highlighted
  {
    p.(selected := properties)
  }

  /** `removePropertyFromSelection`: every occurrence of the name goes, the others stay in order. */
  function RemovePropertyFromSelection(p: Proxy, name: string): (r: Proxy)
    ensures name !in r.selected && forall x :: x != name ==> (x in r.selected <==> x in p.selected)
    ensures SubseqOf(r.selected, p.selected) && r.highlighted == p.highlighted
    ensures |r.selected| == |p.selected| - multiset(p.selected)[name]
  {
    p.(selected := Without(p.selected, name))
  }

  /** `isDataHighlighted`. */
  predicate IsDataHighlighted(p: Proxy, id: nat)
  {
    id in p.highlighted
  }

  /** `addOrRemoveEltToHighlight`: the id leaves the set if it is in it, and joins it otherwise. */
  function AddOrRemoveEltToHighlight(p: Proxy, id: nat): (r: Proxy)
    ensures IsDataHighlighted(r, id) <==> !IsDataHighlighted(p, id)
    ensures forall x :: x != id ==> (IsDataHighlighted(r, x) <==> IsDataHighlighted(p, x))
    ensures r.selected == p.selected
  {
    if IsDataHighlighted(p, id) then p.(highlighted := p.highlighted - {id})
    else p.(highlighted := p.highlighted + {id})
  }

  /** Toggling twice restores the set. */
  lemma ToggleTwice(p: Proxy, id: nat)
    ensures AddOrRemoveEltToHighlight(AddOrRemoveEltToHighlight(p, id), id) == p
  {
    var r := AddOrRemoveEltToHighlight(AddOrRemoveEltToHighlight(p, id), id);
    assert r.highlighted == p.highlighted;
  }

  /** `unsetHighlightedElts`. */
  function UnsetHighlightedElts(p: Proxy): (r: Proxy)
    ensures !HighlightedEltsSet(r) && r.selected == p.selected
  {
    p.(highlighted := {})
  }

  /** `highlightedEltsSet`: some element is highlighted. */
  predicate HighlightedEltsSet(p: Proxy)
  {
    p.highlighted != {}
  }

  lemma HighlightedEltsSetMeans(p: Proxy)
    ensures HighlightedEltsSet(p) <==> exists id :: IsDataHighlighted(p, id)
  {
    if HighlightedEltsSet(p) {
      var id :| id in p.highlighted;
      assert IsDataHighlighted(p, id);
    }
  }

  /** A `std::set` iterates in increasing order, each element once. */
  predicate Increasing(s: seq<nat>)
  {
    forall i, j :: 0 <= i < j < |s| ==> s[i] < s[j]
  }

  /**
   `resetHighlightedElts(data)`: the set is cleared and every element of
   `data` is toggled in turn; as each comes once, the set ends up equal to
   `data`.
   */
  method ResetHighlightedElts(p: Proxy, data: seq<nat>) returns (r: Proxy)
    requires Increasing(data)
    ensures r.highlighted == set x | x in data && r.selected == p.selected
  {
    r := UnsetHighlightedElts(p);
    var i := 0;
    while i < |data|
      invariant 0 <= i <= |data| && r.selected == p.selected
      invariant r.highlighted == set x | x in data[..i]
    {
      assert data[i] !in data[..i];
      r := AddOrRemoveEltToHighlight(r, data[i]);
      assert data[..i + 1] == data[..i] + [data[i]];
      i := i + 1;
    }
    assert data[..i] == data;
  }
}
