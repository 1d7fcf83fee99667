/**
 The identifier managers of IdManager.h (and the out-of-line members of
 IdManager.cpp): `IdManager`, which hands out ids of a graph as a range
 [firstId, nextId) with holes, `IdContainer`, the id vector of the root
 graph storage with a FIFO queue of freed ids and a position index, and
 `SGraphIdContainer`, the element vector of a subgraph with its position
 index.

 A `std::set<unsigned int>` is modelled by a strictly increasing sequence
 (its iteration order); ids are unbounded naturals.
 */
module IdManager {

  /** `UINT_MAX`, the position of an id that is not an element. */
  const NoPos: nat := 0xFFFF_FFFF

  // ---------------------------------------------------------------------------
  // Ordered id sets
  // ---------------------------------------------------------------------------

  predicate Increasing(s: seq<nat>)
  {
    forall i, j :: 0 <= i < j < |s| ==> s[i] < s[j]
  }

  lemma IncreasingTail(s: seq<nat>)
    requires Increasing(s) && |s| > 0
    ensures Increasing(s[1..]) && forall y :: y in s[1..] ==> s[0] < y
  {
    forall y | y in s[1..] ensures s[0] < y {
      var k :| 0 <= k < |s[1..]| && s[1..][k] == y;
      assert s[k + 1] == y;
    }
  }

  lemma IncreasingCons(a: nat, t: seq<nat>)
    requires Increasing(t) && forall y :: y in t ==> a < y
    ensures Increasing([a] + t)
  {
    var r := [a] + t;
    forall i, j | 0 <= i < j < |r| ensures r[i] < r[j] {
      assert r[j] == t[j - 1];
      if i > 0 {
        assert r[i] == t[i - 1];
      } else {
        assert t[j - 1] in t;
      }
    }
  }

  /** `std::set::insert`. */
  function Insert(s: seq<nat>, x: nat): (r: seq<nat>)
    requires Increasing(s)
    ensures Increasing(r)
    ensures forall y :: y in r <==> y in s || y == x
    ensures |s| > 0 && |r| > 0 ==> r[0] == (if x < s[0] then x else s[0])
    ensures |s| == 0 ==> r == [x]
  {
    if |s| == 0 then [x]
    else if x < s[0] then [x] + s
    else if x == s[0] then s
    else
      var t := Insert(s[1..], x);
      IncreasingTail(s);
      IncreasingCons(s[0], t);
      assert forall y :: y in s <==> y == s[0] || y in s[1..] by {
        assert s == [s[0]] + s[1..];
      }
      [s[0]] + t
  }

  /** `std::set::erase`. */
  function Erase(s: seq<nat>, x: nat): (r: seq<nat>)
    requires Increasing(s)
    ensures Increasing(r)
    ensures forall y :: y in r <==> y in s && y != x
    ensures x in s ==> |r| < |s|
  {
    if |s| == 0 then s
    else if s[0] == x then s[1..]
    else
      var t := Erase(s[1..], x);
      IncreasingTail(s);
      IncreasingCons(s[0], t);
      assert forall y :: y in s <==> y == s[0] || y in s[1..] by {
        assert s == [s[0]] + s[1..];
      }
      [s[0]] + t
  }

  // ---------------------------------------------------------------------------
  // IdManager
  // ---------------------------------------------------------------------------

  /** `IdManagerState`: the ids in use are those of [firstId, nextId) not in `freeIds`. */
  datatype IdManagerState = IdManagerState(firstId: nat, nextId: nat, freeIds: seq<nat>)

  const EmptyState := IdManagerState(0, 0, [])

  /** The free ids lie strictly inside the range: `firstId` itself is always in use. */
  ghost predicate Valid(st: IdManagerState)
  {
    st.firstId <= st.nextId && (st.firstId == st.nextId ==> st.firstId == 0)
    && Increasing(st.freeIds)
    && forall x :: x in st.freeIds ==> st.firstId < x < st.nextId
  }

  /** The ids in use. */
  ghost function Used(st: IdManagerState): set<nat>
  {
    set i: nat | st.firstId <= i < st.nextId && i !in st.freeIds
  }

  /** A valid state has no id in use exactly when it is the initial state. */
  lemma NoneUsed(st: IdManagerState)
    requires Valid(st)
    ensures Used(st) == {} <==> st == EmptyState
  {
    if |st.freeIds| > 0 {
      assert st.freeIds[0] in st.freeIds;
    }
    if st.firstId < st.nextId {
      assert st.firstId in Used(st);
    }
  }

  /** `is_free`. */
  function IsFree(st: IdManagerState, id: nat): (r: bool)
    ensures r <==> id !in Used(st)
  {
    id < st.firstId || id >= st.nextId || id in st.freeIds
  }

  datatype Got = Got(st: IdManagerState, id: nat)

  /**
   `get`: the id below `firstId` when there is one, else a new id at the
   end when nothing is free, else the smallest free id.
   */
  function Get(st: IdManagerState): (r: Got)
    requires Valid(st)
    ensures Valid(r.st)
    ensures r.id !in Used(st) && Used(r.st) == Used(st) + {r.id}
    ensures st.firstId > 0 ==> r.id == st.firstId - 1
    ensures st.firstId == 0 && |st.freeIds| == 0 ==> r.id == st.nextId
    ensures st.firstId == 0 && |st.freeIds| > 0 ==> r.id == st.freeIds[0]
                                                    && forall x :: x in st.freeIds ==> r.id <= x
  {
    if st.firstId > 0 then
      var r := Got(st.(firstId := st.firstId - 1), st.firstId - 1);
      assert Used(r.st) == Used(st) + {r.id};
      r
    else if |st.freeIds| == 0 then
      var r := Got(st.(nextId := st.nextId + 1), st.nextId);
      assert Used(r.st) == Used(st) + {r.id};
      r
    else
      var f := st.freeIds;
      var r := Got(st.(freeIds := f[1..]), f[0]);
      assert forall x :: x in f[1..] <==> x in f && x != f[0] by {
        forall x | x in f && x != f[0] ensures x in f[1..] {
          var k :| 0 <= k < |f| && f[k] == x;
          assert f[1..][k - 1] == x;
        }
      }
      assert f[0] in f;
      forall i: nat ensures i in Used(r.st) <==> i in Used(st) || i == r.id {
      }
      assert Used(r.st) == Used(st) + {r.id};
      r
  }

  /** The loop of `free` for `firstId`: move past every free id that follows it, erasing each. */
  function Advance(k: nat, free: seq<nat>): (r: (nat, seq<nat>))
    requires Increasing(free)
    ensures k <= r.0 && r.0 !in free
    ensures Increasing(r.1)
    ensures forall x :: x in r.1 <==> x in free && !(k <= x < r.0)
    ensures forall x :: k <= x < r.0 ==> x in free
    decreases |free|
  {
    if k in free then Advance(k + 1, Erase(free, k)) else (k, free)
  }

  /**
   `free`: an id outside the range, already free, or of an empty range is
   left alone; freeing `firstId` moves the range start past the free ids
   that follow it, and resets the range to 0 when nothing is left;
   otherwise the id joins the free ids.
   */
  function Free(st: IdManagerState, id: nat): (r: IdManagerState)
    requires Valid(st)
    ensures Valid(r)
    ensures Used(r) == Used(st) - {id}
    ensures id !in Used(st) ==> r == st
    ensures Used(r) == {} ==> r == EmptyState
  {
    if id < st.firstId || id >= st.nextId || id in st.freeIds || st.firstId == st.nextId then
      NoneUsed(st);
      st
    else if id == st.firstId then
      var (first, free) := Advance(st.firstId + 1, st.freeIds);
      assert st.nextId !in st.freeIds;
      assert first <= st.nextId;
      if first == st.nextId then
        assert forall k :: 0 <= k < |free| ==> free[k] in free;
        assert free == [];
        IdManagerState(0, 0, free)
      else
        var r := IdManagerState(first, st.nextId, free);
        assert Used(r) == Used(st) - {id};
        assert first in Used(r);
        r
    else
      var r := st.(freeIds := Insert(st.freeIds, id));
      assert Used(r) == Used(st) - {id};
      assert st.firstId in Used(r);
      r
  }

  /**
   `getFreeId(id)`, used to give an element back the id it had when a
   graph is loaded: an id past the range extends it (the ids skipped
   becoming free, or the range restarting at `id` when empty), an id
   inside it leaves the free ids. The two assertions of the source are the
   precondition.
   */
  function GetFreeId(st: IdManagerState, id: nat): (r: IdManagerState)
    requires Valid(st)
    requires id > st.firstId
    requires id < st.nextId ==> id in st.freeIds
    ensures Valid(r)
    ensures Used(r) == Used(st) + {id} && id !in Used(st)
  {
    if id >= st.nextId then
      if st.firstId == st.nextId then
        var r := IdManagerState(id, id + 1, st.freeIds);
        NoneUsed(st);
        assert Used(st) == {};
        assert Used(r) == {id};
        r
      else
        var free := FreeUpTo(st.freeIds, st.nextId, id);
        var r := IdManagerState(st.firstId, id + 1, free);
        assert Used(r) == Used(st) + {id};
        r
    else
      var r := st.(freeIds := Erase(st.freeIds, id));
      assert Used(r) == Used(st) + {id};
      r
  }

  /** The loop `for (; nextId < id; ++nextId) freeIds.insert(nextId)`. */
  function FreeUpTo(free: seq<nat>, from: nat, to: nat): (r: seq<nat>)
    requires Increasing(free)
    requires forall x :: x in free ==> x < from
    ensures Increasing(r)
    ensures forall x :: x in r <==> x in free || from <= x < to
    decreases if from < to then to - from else 0
  {
    if from < to then FreeUpTo(Insert(free, from), from + 1, to) else free
  }

  /**
   `IdManagerIterator`: `next` returns the current id and moves past the
   free ids that follow it, walking the free ids in step. The ids yielded
   are exactly the ids in use, in increasing order.
   */
  method Ids(st: IdManagerState) returns (r: seq<nat>)
    requires Valid(st)
    ensures Increasing(r)
    ensures forall x :: x in r <==> x in Used(st)
  {
    var current := st.firstId;
    var last := st.nextId;
    var free := st.freeIds;
    var it := 0;
    r := [];
    assert forall k :: 0 <= k < |free| ==> free[k] in st.freeIds;
    while current < last
      invariant st.firstId <= current <= last && 0 <= it <= |free|
      invariant forall k :: 0 <= k < it ==> free[k] < current
      invariant forall k :: it <= k < |free| ==> current < free[k]
      invariant forall k :: 0 <= k < |r| ==> r[k] < current
      invariant Increasing(r)
      invariant forall x :: x in r <==> st.firstId <= x < current && x !in free
      decreases last - current
    {
      var tmp := current;
      assert tmp !in free;
      current := current + 1;
      while it < |free| && !(current < free[it])
        invariant tmp < current <= last && 0 <= it <= |free|
        invariant forall k :: 0 <= k < it ==> free[k] < current
        invariant forall k :: it <= k < |free| ==> current <= free[k]
        invariant forall x :: tmp < x < current ==> x in free
        decreases |free| - it
      {
        assert free[it] in st.freeIds;
        assert free[it] == current;
        current := current + 1;
        it := it + 1;
      }
      r := r + [tmp];
    }
  }
}
