/**
 The id containers of IdManager.h: `IdContainer`, the dense storage of the
 nodes or edges of the root graph, reusing freed ids in the order they were
 freed, and `SGraphIdContainer`, the storage of a subgraph's elements.
 */
module IdContainers {
  import opened Wrappers
  import opened IdManager
  import opened Seqs

  /**
   `IdContainer`: the elements in storage order, the queue of freed ids
   (a `std::deque`, used first in first out) and `pos`, indexed by id,
   holding each element's position and `NoPos` for a freed id.
   */
  datatype IdContainer = IdContainer(elts: seq<nat>, freeIds: seq<nat>, pos: seq<nat>)

  const EmptyContainer := IdContainer([], [], [])

  /**
   `pos` and the elements index each other, the freed ids are distinct ids
   without a position, and every id below `|pos|` is either an element or
   freed. The ids fit below `UINT_MAX`.
   */
  ghost predicate ValidContainer(c: IdContainer)
  {
    |c.pos| < NoPos
    && (forall i :: 0 <= i < |c.elts| ==> c.elts[i] < |c.pos| && c.pos[c.elts[i]] == i)
    && (forall id :: 0 <= id < |c.pos| && c.pos[id] != NoPos ==> c.pos[id] < |c.elts| && c.elts[c.pos[id]] == id)
    && (forall k :: 0 <= k < |c.freeIds| ==> c.freeIds[k] < |c.pos| && c.pos[c.freeIds[k]] == NoPos)
    && Distinct(c.freeIds)
    && |c.elts| + |c.freeIds| == |c.pos|
  }

  /** `isElement`. */
  predicate IsElement(c: IdContainer, id: nat)
  {
    id < |c.pos| && c.pos[id] != NoPos
  }

  /** The elements of a valid container are exactly the ids `isElement` accepts. */
  lemma ElementsIndexed(c: IdContainer, id: nat)
    requires ValidContainer(c)
    ensures IsElement(c, id) <==> id in c.elts
  {
    if id in c.elts {
      var i :| 0 <= i < |c.elts| && c.elts[i] == id;
    }
  }

  /** `getPos`. */
  function GetPos(c: IdContainer, id: nat): (r: nat)
    requires ValidContainer(c) && IsElement(c, id)
    ensures r < |c.elts| && c.elts[r] == id
  {
    c.pos[id]
  }

  /** `std::vector::resize`: cut, or padded with zeros. */
  function Resize(s: seq<nat>, n: nat): (r: seq<nat>)
    ensures |r| == n
    ensures forall i :: 0 <= i < n ==> r[i] == if i < |s| then s[i] else 0
  {
    if n <= |s| then s[..n] else s + seq(n - |s|, _ => 0)
  }

  datatype AddResult = AddResult(c: IdContainer, elt: nat)

  /**
   `add`: the oldest freed id is used again, else a new id, the current
   size; it is appended and its position recorded.
   */
  function Add(c: IdContainer): (r: AddResult)
    requires ValidContainer(c) && |c.pos| + 1 < NoPos
    ensures ValidContainer(r.c)
    ensures !IsElement(c, r.elt) && IsElement(r.c, r.elt)
    ensures |c.freeIds| > 0 ==> r.elt == c.freeIds[0] && r.c.freeIds == c.freeIds[1..]
    ensures |c.freeIds| == 0 ==> r.elt == |c.elts|
    ensures r.c.elts == c.elts + [r.elt] && GetPos(r.c, r.elt) == |c.elts|
    ensures forall x :: IsElement(r.c, x) <==> IsElement(c, x) || x == r.elt
    ensures |r.c.pos| == if |c.freeIds| > 0 then |c.pos| else |c.pos| + 1
  {
    var curSize := |c.elts|;
    var hasFree := |c.freeIds| > 0;
    var elt := if hasFree then c.freeIds[0] else curSize;
    var free := if hasFree then c.freeIds[1..] else c.freeIds;
    var pos := if hasFree then c.pos else Resize(c.pos, curSize + 1);
    var r := AddResult(IdContainer(c.elts + [elt], free, pos[elt := curSize]), elt);
    assert ValidContainer(r.c) && !IsElement(c, elt) by {
      var m := if hasFree then 1 else 0;
      assert curSize + |c.freeIds| == |c.pos|;
      if hasFree {
        assert c.pos[c.freeIds[0]] == NoPos;
      }
      assert Placed(c, [elt], r.c.pos);
      AddNbValid(c, [elt], m, r.c);
    }
    r
  }

  /**
   `free`: the element changes place with the last one, as `swap` would,
   which keeps the positions right; it is then cut off, its id queued as
   free and its position cleared. Freeing the only element forgets every id.
   */
  function Free(c: IdContainer, elt: nat): (r: IdContainer)
    requires ValidContainer(c) && IsElement(c, elt)
    ensures ValidContainer(r)
    ensures !IsElement(r, elt) && |r.elts| == |c.elts| - 1
    ensures forall x :: x != elt ==> (IsElement(r, x) <==> IsElement(c, x))
    ensures |r.elts| > 0 ==> r.freeIds == c.freeIds + [elt]
    ensures |r.elts| == 0 ==> r == EmptyContainer
    ensures |r.pos| <= |c.pos|
    ensures c.pos[elt] < |r.elts| ==> r.elts[c.pos[elt]] == c.elts[|c.elts| - 1]
    ensures forall k :: 0 <= k < |r.elts| && k != c.pos[elt] ==> r.elts[k] == c.elts[k]
  {
    var lastPos := |c.elts| - 1;
    var s := Swap(c, elt, c.elts[lastPos]);
    SwapWithLast(c, elt);
    if lastPos == 0 then EmptyContainer else Pop(s, elt)
  }

  /** Swapping an element with the last one moves the last into its place and leaves every other place alone. */
  lemma SwapWithLast(c: IdContainer, elt: nat)
    requires ValidContainer(c) && IsElement(c, elt)
    ensures var lastPos := |c.elts| - 1;
            var s := Swap(c, elt, c.elts[lastPos]);
            |s.elts| == |c.elts| && s.pos[elt] == lastPos
            && (c.pos[elt] < lastPos ==> s.elts[c.pos[elt]] == c.elts[lastPos])
            && forall k :: 0 <= k < lastPos && k != c.pos[elt] ==> s.elts[k] == c.elts[k]
  {
    var lastPos := |c.elts| - 1;
    var s := Swap(c, elt, c.elts[lastPos]);
    forall k | 0 <= k < lastPos && k != c.pos[elt] ensures s.elts[k] == c.elts[k] {
      var x := c.elts[k];
      assert GetPos(s, x) == k;
    }
    assert GetPos(s, c.elts[lastPos]) == c.pos[elt];
  }

  /** The last element, `elt`, cut off, its id queued as free and its position cleared. */
  function Pop(s: IdContainer, elt: nat): (r: IdContainer)
    requires ValidContainer(s) && IsElement(s, elt) && s.pos[elt] == |s.elts| - 1
    ensures ValidContainer(r)
    ensures !IsElement(r, elt) && forall x :: x != elt ==> (IsElement(r, x) <==> IsElement(s, x))
    ensures r.elts == s.elts[..|s.elts| - 1] && r.freeIds == s.freeIds + [elt] && |r.pos| == |s.pos|
  {
    PopValid(s, elt);
    IdContainer(s.elts[..|s.elts| - 1], s.freeIds + [elt], s.pos[elt := NoPos])
  }

  /** Cutting off the last element, queueing its id as free, keeps the container valid. */
  lemma PopValid(s: IdContainer, elt: nat)
    requires ValidContainer(s) && IsElement(s, elt) && s.pos[elt] == |s.elts| - 1
    ensures var lastPos := |s.elts| - 1;
            ValidContainer(IdContainer(s.elts[..lastPos], s.freeIds + [elt], s.pos[elt := NoPos]))
  {
    var lastPos := |s.elts| - 1;
    var r := IdContainer(s.elts[..lastPos], s.freeIds + [elt], s.pos[elt := NoPos]);
    forall i | 0 <= i < |r.elts| ensures r.elts[i] < |r.pos| && r.pos[r.elts[i]] == i {
      assert r.elts[i] == s.elts[i] && s.elts[i] != elt;
    }
    forall k | 0 <= k < |s.freeIds| ensures s.freeIds[k] != elt {
      assert s.pos[s.freeIds[k]] == NoPos;
    }
  }

  /** An id freed when others remain is the next one `add` hands out, once the older free ids are used. */
  lemma FreeThenAdd(c: IdContainer, elt: nat)
    requires ValidContainer(c) && IsElement(c, elt) && |c.elts| > 1 && |c.freeIds| == 0 && |c.pos| + 1 < NoPos
    ensures Add(Free(c, elt)).elt == elt
  {
  }

  /** Freeing the last element resets the container: the next id is 0. */
  lemma FreeLastThenAdd(c: IdContainer, elt: nat)
    requires ValidContainer(c) && IsElement(c, elt) && |c.elts| == 1
    ensures Add(Free(c, elt)).elt == 0
  {
  }

  /** Adding then freeing the new element leaves the same elements. */
  lemma AddThenFree(c: IdContainer)
    requires ValidContainer(c) && |c.pos| + 1 < NoPos
    ensures var a := Add(c);
            forall x :: IsElement(Free(a.c, a.elt), x) <==> IsElement(c, x)
  {
  }

  /**
   `swap`: two elements exchange their places, and their positions follow.
   */
  function Swap(c: IdContainer, a: nat, b: nat): (r: IdContainer)
    requires ValidContainer(c) && IsElement(c, a) && IsElement(c, b)
    ensures ValidContainer(r)
    ensures forall x :: IsElement(r, x) <==> IsElement(c, x)
    ensures GetPos(r, a) == GetPos(c, b) && GetPos(r, b) == GetPos(c, a)
    ensures forall x :: IsElement(c, x) && x != a && x != b ==> GetPos(r, x) == GetPos(c, x)
    ensures r.freeIds == c.freeIds
  {
    var pa := c.pos[a];
    var pb := c.pos[b];
    var r := IdContainer(c.elts[pa := b][pb := a], c.freeIds, c.pos[a := pb][b := pa]);
    assert ValidContainer(r) by {
      forall i | 0 <= i < |r.elts| ensures r.elts[i] < |r.pos| && r.pos[r.elts[i]] == i {
        if i != pa && i != pb {
          assert r.elts[i] == c.elts[i];
        }
      }
      forall k | 0 <= k < |r.freeIds| ensures r.pos[r.freeIds[k]] == NoPos {
        assert c.freeIds[k] != a && c.freeIds[k] != b;
      }
    }
    r
  }

  /**
   The ids the push loop of `addNb` appends to storage of size `size`:
   freed ids first, oldest first, then each time the current size, a new id.
   */
  function PushIds(free: seq<nat>, size: nat, n: nat): (r: seq<nat>)
    ensures |r| == n
    ensures forall k :: 0 <= k < n ==> r[k] == if k < |free| then free[k] else size + k
    decreases n
  {
    if n == 0 then []
    else if |free| > 0 then [free[0]] + PushIds(free[1..], size + 1, n - 1)
    else [size] + PushIds([], size + 1, n - 1)
  }

  /**
   The position loop of `addNb`: the `j`-th appended id is placed at
   `base + j`; no other position moves.
   */
  function Place(pos: seq<nat>, added: seq<nat>, base: nat): (r: seq<nat>)
    requires forall k :: 0 <= k < |added| ==> added[k] < |pos|
    requires Distinct(added)
    ensures |r| == |pos|
    ensures forall j :: 0 <= j < |added| ==> r[added[j]] == base + j
    ensures forall id :: 0 <= id < |pos| && id !in added ==> r[id] == pos[id]
    decreases |added|
  {
    if |added| == 0 then pos
    else
      var r := Place(pos[added[0] := base], added[1..], base + 1);
      assert added[0] !in added[1..] by {
        forall k | 0 <= k < |added| - 1 ensures added[1..][k] != added[0] {
          assert added[k + 1] != added[0];
        }
      }
      assert forall j :: 1 <= j < |added| ==> added[j] == added[1..][j - 1];
      r
  }

  /**
   `addNb` as written: after the push loop `pos` is resized to
   `lastPos + nb`, which is SHORTER than before whenever fewer ids are
   asked for than are free, since `lastPos + numberOfFree() == pos.size()`.
   A position write past the end is undefined behaviour, modelled as None.
   */
  function AddNbAsWritten(c: IdContainer, nb: nat): (r: Option<IdContainer>)
    requires ValidContainer(c)
    ensures r.Some? ==> r.value.elts == c.elts + PushIds(c.freeIds, |c.elts|, nb)
  {
    var lastPos := |c.elts|;
    var added := PushIds(c.freeIds, lastPos, nb);
    var pos := Resize(c.pos, lastPos + nb);
    var m := if nb < |c.freeIds| then nb else |c.freeIds|;
    if (forall k :: 0 <= k < |added| ==> added[k] < |pos|) && Distinct(added) then
      Some(IdContainer(c.elts + added, c.freeIds[m..], Place(pos, added, lastPos)))
    else None
  }

  /**
   Three ids added, then 0 and 1 freed: 2 is the one element, at position 0.
   Adding ONE element reuses 0, and the resize drops the position of 2,
   which is still stored but no longer an element.
   */
  lemma AddNbAsWrittenLosesElement()
    ensures var c := IdContainer([2], [0, 1], [NoPos, NoPos, 0]);
            ValidContainer(c) && IsElement(c, 2)
            && var r := AddNbAsWritten(c, 1);
               r.Some? && 2 in r.value.elts && !IsElement(r.value, 2) && !ValidContainer(r.value)
  {
    var c := IdContainer([2], [0, 1], [NoPos, NoPos, 0]);
    var added := PushIds(c.freeIds, 1, 1);
    assert added == [0];
    assert Resize(c.pos, 2) == [NoPos, NoPos];
    var r := AddNbAsWritten(c, 1);
    assert r.Some? && r.value.pos == [1, NoPos];
    assert r.value.elts == [2, 0];
  }

  /**
   `addNb` with the resize never shrinking `pos`: `nb` elements are
   appended, the freed ids first in the order they were freed, then new
   ids; the result lists exactly them.
   */
  function AddNb(c: IdContainer, nb: nat): (r: (IdContainer, seq<nat>))
    requires ValidContainer(c) && |c.pos| + nb < NoPos
    ensures ValidContainer(r.0)
    ensures |r.1| == nb && r.0.elts == c.elts + r.1
    ensures forall k :: 0 <= k < nb ==>
              !IsElement(c, r.1[k]) && IsElement(r.0, r.1[k]) && r.0.pos[r.1[k]] == |c.elts| + k
    ensures forall x :: IsElement(r.0, x) <==> IsElement(c, x) || x in r.1
    ensures r.1 == PushIds(c.freeIds, |c.elts|, nb)
    ensures nb < |c.freeIds| ==> r.0.freeIds == c.freeIds[nb..]
    ensures nb >= |c.freeIds| ==> r.0.freeIds == []
  {
    var added := PushIds(c.freeIds, |c.elts|, nb);
    var m := if nb < |c.freeIds| then nb else |c.freeIds|;
    var r := IdContainer(c.elts + added, c.freeIds[m..], GrownPositions(c, nb));
    AddNbFacts(c, nb);
    AddNbValid(c, added, m, r);
    (r, added)
  }

  /**
   `addNb` asking for no more ids than are free uses the oldest ones and
   leaves the rest queued in order.
   */
  lemma AddNbReusesOldest(c: IdContainer, nb: nat)
    requires ValidContainer(c) && |c.pos| + nb < NoPos && nb <= |c.freeIds|
    ensures AddNb(c, nb).1 == c.freeIds[..nb]
    ensures AddNb(c, nb).0.freeIds == c.freeIds[nb..]
  {
    assert AddNb(c, nb).1 == c.freeIds[..nb];
  }

  /**
   `addNb` asking for more ids than are free uses them all, then new ids
   counting up from the old `pos.size()`.
   */
  lemma AddNbThenNew(c: IdContainer, nb: nat)
    requires ValidContainer(c) && |c.pos| + nb < NoPos && nb >= |c.freeIds|
    ensures AddNb(c, nb).1[..|c.freeIds|] == c.freeIds
    ensures forall k :: |c.freeIds| <= k < nb ==> AddNb(c, nb).1[k] == |c.pos| + (k - |c.freeIds|)
    ensures AddNb(c, nb).0.freeIds == []
  {
    assert |c.elts| + |c.freeIds| == |c.pos|;
  }


  /**
   The positions once `addNb` has appended its ids: `pos` grown, never cut,
   to cover the new ids, then the position loop.
   */
  function GrownPositions(c: IdContainer, nb: nat): (r: seq<nat>)
    requires ValidContainer(c)
    ensures Placed(c, PushIds(c.freeIds, |c.elts|, nb), r)
    ensures |r| == |c.pos| + nb - (if nb < |c.freeIds| then nb else |c.freeIds|)
  {
    var added := PushIds(c.freeIds, |c.elts|, nb);
    var size := if |c.pos| < |c.elts| + nb then |c.elts| + nb else |c.pos|;
    var m := if nb < |c.freeIds| then nb else |c.freeIds|;
    AddNbFacts(c, nb);
    AddNbPlaced(c, nb, added, size, m);
    Place(Resize(c.pos, size), added, |c.elts|)
  }

  /**
   The appended ids are distinct and were not elements; the freed ones are
   below `pos.size()` and the new ones are exactly the slots the resize adds.
   */
  lemma AddNbFacts(c: IdContainer, nb: nat)
    requires ValidContainer(c)
    ensures var added := PushIds(c.freeIds, |c.elts|, nb);
            && Distinct(added)
            && (forall k :: 0 <= k < nb ==> !IsElement(c, added[k]))
            && (forall k :: 0 <= k < nb ==> (added[k] < |c.pos| <==> k < |c.freeIds|))
            && (forall k :: 0 <= k < nb ==> added[k] < |c.pos| + nb - (if nb < |c.freeIds| then nb else |c.freeIds|))
  {
    var added := PushIds(c.freeIds, |c.elts|, nb);
    assert |c.elts| + |c.freeIds| == |c.pos|;
    forall k | 0 <= k < nb ensures !IsElement(c, added[k]) {
      if k < |c.freeIds| {
        assert c.pos[c.freeIds[k]] == NoPos;
      }
    }
    forall i, j | 0 <= i < j < nb ensures added[i] != added[j] {
      if j < |c.freeIds| {
        assert c.freeIds[i] != c.freeIds[j];
      } else if i < |c.freeIds| {
        assert added[i] < |c.pos|;
      }
    }
  }

  /**
   The positions after appending `added` to `c`: each appended id sits at
   its place after the old elements, every other id keeps its old position.
   */
  ghost predicate Placed(c: IdContainer, added: seq<nat>, pos: seq<nat>)
  {
    |c.pos| <= |pos|
    && (forall j :: 0 <= j < |added| ==> added[j] < |pos| && pos[added[j]] == |c.elts| + j)
    && (forall id :: 0 <= id < |pos| && id !in added ==> id < |c.pos| && pos[id] == c.pos[id])
  }

  lemma AddNbPlaced(c: IdContainer, nb: nat, added: seq<nat>, size: nat, m: nat)
    requires ValidContainer(c)
    requires added == PushIds(c.freeIds, |c.elts|, nb)
    requires size == if |c.pos| < |c.elts| + nb then |c.elts| + nb else |c.pos|
    requires m == if nb < |c.freeIds| then nb else |c.freeIds|
    requires Distinct(added)
    requires forall k :: 0 <= k < nb ==> added[k] < size
    ensures Placed(c, added, Place(Resize(c.pos, size), added, |c.elts|))
    ensures size == |c.pos| + nb - m
  {
    assert |c.elts| + |c.freeIds| == |c.pos|;
    assert size == |c.pos| + nb - m;
    assert forall id :: |c.pos| <= id < size ==> id in added by {
      forall id | |c.pos| <= id < size ensures id in added {
        var k := m + (id - |c.pos|);
        assert added[k] == id;
      }
    }
  }

  lemma AddNbValid(c: IdContainer, added: seq<nat>, m: nat, r: IdContainer)
    requires ValidContainer(c) && |r.pos| < NoPos
    requires m <= |c.freeIds| && m <= |added| && |r.pos| == |c.pos| + |added| - m
    requires forall k :: 0 <= k < |added| ==> !IsElement(c, added[k])
    requires forall k :: 0 <= k < m ==> added[k] == c.freeIds[k]
    requires forall k :: m <= k < |added| ==> |c.pos| <= added[k]
    requires r.elts == c.elts + added && r.freeIds == c.freeIds[m..]
    requires Placed(c, added, r.pos)
    ensures ValidContainer(r)
    ensures forall x :: IsElement(r, x) <==> IsElement(c, x) || x in added
  {
    AppendedIndexed(c, added, r);
    AppendedPositions(c, added, r);
    AppendedFree(c, added, m, r);
    forall x ensures IsElement(r, x) <==> IsElement(c, x) || x in added {
      if x in added {
        var j :| 0 <= j < |added| && added[j] == x;
      }
    }
  }

  lemma AppendedIndexed(c: IdContainer, added: seq<nat>, r: IdContainer)
    requires ValidContainer(c)
    requires forall k :: 0 <= k < |added| ==> !IsElement(c, added[k])
    requires r.elts == c.elts + added && Placed(c, added, r.pos)
    ensures forall i :: 0 <= i < |r.elts| ==> r.elts[i] < |r.pos| && r.pos[r.elts[i]] == i
  {
    forall i | 0 <= i < |r.elts| ensures r.elts[i] < |r.pos| && r.pos[r.elts[i]] == i {
      if i < |c.elts| {
        var id := c.elts[i];
        assert r.elts[i] == id && IsElement(c, id);
        assert id !in added;
      } else {
        assert r.elts[i] == added[i - |c.elts|];
      }
    }
  }

  lemma AppendedPositions(c: IdContainer, added: seq<nat>, r: IdContainer)
    requires ValidContainer(c)
    requires r.elts == c.elts + added && Placed(c, added, r.pos)
    ensures forall id :: 0 <= id < |r.pos| && r.pos[id] != NoPos ==> r.pos[id] < |r.elts| && r.elts[r.pos[id]] == id
  {
    forall id | 0 <= id < |r.pos| && r.pos[id] != NoPos ensures r.pos[id] < |r.elts| && r.elts[r.pos[id]] == id {
      if id in added {
        var j :| 0 <= j < |added| && added[j] == id;
        assert r.elts[|c.elts| + j] == id;
      }
    }
  }

  lemma AppendedFree(c: IdContainer, added: seq<nat>, m: nat, r: IdContainer)
    requires ValidContainer(c)
    requires m <= |c.freeIds| && m <= |added| && r.freeIds == c.freeIds[m..] && Placed(c, added, r.pos)
    requires forall k :: 0 <= k < m ==> added[k] == c.freeIds[k]
    requires forall k :: m <= k < |added| ==> |c.pos| <= added[k]
    ensures forall k :: 0 <= k < |r.freeIds| ==> r.freeIds[k] < |r.pos| && r.pos[r.freeIds[k]] == NoPos
    ensures Distinct(r.freeIds)
  {
    forall k | 0 <= k < |r.freeIds| ensures r.freeIds[k] < |r.pos| && r.pos[r.freeIds[k]] == NoPos {
      var id := c.freeIds[m + k];
      assert r.freeIds[k] == id && c.pos[id] == NoPos;
      forall j | 0 <= j < |added| ensures added[j] != id {
        if j < m {
          assert c.freeIds[j] != c.freeIds[m + k];
        }
      }
    }
    forall i, j | 0 <= i < j < |r.freeIds| ensures r.freeIds[i] != r.freeIds[j] {
      assert c.freeIds[m + i] != c.freeIds[m + j];
    }
  }

  // The subgraph container: no id allocation, only membership and positions.

  /**
   `SGraphIdContainer`: the elements in storage order and their positions,
   a map whose absent keys read `NoPos`, the default the container sets.
   */
  datatype SubContainer = SubContainer(elts: seq<nat>, pos: map<nat, nat>)

  const EmptySub := SubContainer([], map[])

  /** `getPos`: `NoPos` for an id that is not an element. */
  function SubPos(s: SubContainer, id: nat): nat
  {
    if id in s.pos then s.pos[id] else NoPos
  }

  /** `isElement`. */
  predicate SubIsElement(s: SubContainer, id: nat)
  {
    SubPos(s, id) != NoPos
  }

  ghost predicate ValidSub(s: SubContainer)
  {
    |s.elts| < NoPos
    && (forall i :: 0 <= i < |s.elts| ==> SubPos(s, s.elts[i]) == i)
    && (forall id :: id in s.pos && s.pos[id] != NoPos ==> s.pos[id] < |s.elts| && s.elts[s.pos[id]] == id)
  }

  /** Valid storage holds no id twice, and the elements are exactly its ids. */
  lemma SubElements(s: SubContainer, id: nat)
    requires ValidSub(s)
    ensures SubIsElement(s, id) <==> id in s.elts
    ensures forall i, j :: 0 <= i < j < |s.elts| ==> s.elts[i] != s.elts[j]
  {
    if id in s.elts {
      var i :| 0 <= i < |s.elts| && s.elts[i] == id;
    }
  }

  /** `add`: an id that is not an element goes at the end. */
  function SubAdd(s: SubContainer, elt: nat): (r: SubContainer)
    requires ValidSub(s) && !SubIsElement(s, elt) && |s.elts| + 1 < NoPos
    ensures ValidSub(r)
    ensures r.elts == s.elts + [elt] && SubPos(r, elt) == |s.elts|
    ensures forall x :: x != elt ==> SubPos(r, x) == SubPos(s, x)
  {
    var r := SubContainer(s.elts + [elt], s.pos[elt := |s.elts|]);
    assert ValidSub(r) by {
      forall i | 0 <= i < |r.elts| ensures SubPos(r, r.elts[i]) == i {
        if i < |s.elts| {
          assert r.elts[i] == s.elts[i] && s.elts[i] != elt;
        }
      }
    }
    r
  }

  /**
   `remove`: the last element moves into the hole the removed one leaves,
   and the removed id's position becomes `NoPos`.
   */
  function SubRemove(s: SubContainer, elt: nat): (r: SubContainer)
    requires ValidSub(s) && SubIsElement(s, elt)
    ensures ValidSub(r)
    ensures !SubIsElement(r, elt) && |r.elts| == |s.elts| - 1
    ensures forall x :: x != elt ==> (SubIsElement(r, x) <==> SubIsElement(s, x))
    ensures var i := SubPos(s, elt);
            i < |r.elts| ==> r.elts[i] == s.elts[|s.elts| - 1] && SubPos(r, r.elts[i]) == i
    ensures forall j :: 0 <= j < |r.elts| && j != SubPos(s, elt) ==> r.elts[j] == s.elts[j]
  {
    var i := s.pos[elt];
    var last := |s.elts| - 1;
    var moved := s.elts[last];
    var elts := if i < last then s.elts[i := moved] else s.elts;
    var pos := if i < last then s.pos[moved := i] else s.pos;
    var r := SubContainer(elts[..last], pos[elt := NoPos]);
    assert ValidSub(r) && forall x :: x != elt ==> (SubIsElement(r, x) <==> SubIsElement(s, x)) by {
      SubRemoveValid(s, elt, r);
    }
    r
  }

  /** Adding an id then removing it gives back the same storage order and membership. */
  lemma SubAddThenRemove(s: SubContainer, elt: nat)
    requires ValidSub(s) && !SubIsElement(s, elt) && |s.elts| + 1 < NoPos
    ensures SubRemove(SubAdd(s, elt), elt).elts == s.elts
    ensures forall x :: SubIsElement(SubRemove(SubAdd(s, elt), elt), x) <==> SubIsElement(s, x)
  {
  }

  lemma SubRemoveValid(s: SubContainer, elt: nat, r: SubContainer)
    requires ValidSub(s) && SubIsElement(s, elt)
    requires var i := s.pos[elt];
             var last := |s.elts| - 1;
             var moved := s.elts[last];
             r == SubContainer((if i < last then s.elts[i := moved] else s.elts)[..last],
                               (if i < last then s.pos[moved := i] else s.pos)[elt := NoPos])
    ensures ValidSub(r)
    ensures forall x :: x != elt ==> (SubIsElement(r, x) <==> SubIsElement(s, x))
  {
    var i := s.pos[elt];
    var last := |s.elts| - 1;
    var moved := s.elts[last];
    assert s.elts[i] == elt;
    forall j | 0 <= j < |r.elts| ensures SubPos(r, r.elts[j]) == j {
      if j != i {
        assert r.elts[j] == s.elts[j] && s.elts[j] != elt && s.elts[j] != moved;
      }
    }
    forall x | x != elt ensures SubIsElement(r, x) <==> SubIsElement(s, x) {
      if x == moved {
        assert SubIsElement(s, x);
      } else if x in s.pos && s.pos[x] != NoPos {
        assert s.pos[x] != last;
      }
    }
  }
}
