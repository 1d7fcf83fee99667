/**
 The keyed entity collection of GlComposite.cpp: a `std::map` from keys
 to entities, iterated in key order, and the list of entities in the
 order they were added. Entities are ids (the pointers); the scene
 notifications, parent links and layer bookkeeping are left out.
 */
module GlComposites {
  import opened Wrappers
  import opened Seqs

  /** `std::string` ordering: lexicographic on characters. */
  predicate StrLess(a: string, b: string)
    decreases |a|
  {
    if |a| == 0 then |b| > 0
    else if |b| == 0 then false
    else a[0] < b[0] || (a[0] == b[0] && StrLess(a[1..], b[1..]))
  }

  lemma {:induction false} StrLessTrans(a: string, b: string, c: string)
    requires StrLess(a, b) && StrLess(b, c)
    ensures StrLess(a, c)
    decreases |a|
  {
    if |a| > 0 && a[0] == b[0] && b[0] == c[0] {
      StrLessTrans(a[1..], b[1..], c[1..]);
    }
  }

  lemma {:induction false} StrLessTotal(a: string, b: string)
    ensures a == b || StrLess(a, b) || StrLess(b, a)
    decreases |a|
  {
    if |a| > 0 && |b| > 0 && a[0] == b[0] {
      StrLessTotal(a[1..], b[1..]);
      if a[1..] == b[1..] {
        assert a == [a[0]] + a[1..] && b == [b[0]] + b[1..];
      }
    }
  }

  lemma {:induction false} StrLessIrrefl(a: string)
    ensures !StrLess(a, a)
    decreases |a|
  {
    if |a| > 0 {
      StrLessIrrefl(a[1..]);
    }
  }

  /** The map's entries in iteration order. */
  predicate Ordered(m: seq<(string, nat)>)
  {
    forall i, j :: 0 <= i < j < |m| ==> StrLess(m[i].0, m[j].0)
  }

  lemma OrderedTail(m: seq<(string, nat)>)
    requires Ordered(m) && |m| > 0
    ensures Ordered(m[1..])
  {
    forall i, j | 0 <= i < j < |m[1..]| ensures StrLess(m[1..][i].0, m[1..][j].0) {
      assert m[1..][i] == m[i + 1] && m[1..][j] == m[j + 1];
    }
  }

  /** `std::map::find`. */
  function Find(m: seq<(string, nat)>, key: string): (r: Option<nat>)
    ensures r.Some? <==> exists i :: 0 <= i < |m| && m[i].0 == key
    ensures r.Some? ==> exists i :: 0 <= i < |m| && m[i] == (key, r.value)
  {
    if |m| == 0 then None
    else if m[0].0 == key then
      assert m[0] == (key, m[0].1);
      Some(m[0].1)
    else
      var r := Find(m[1..], key);
      assert forall i :: 0 < i < |m| ==> m[i] == m[1..][i - 1];
      assert r.Some? ==> exists i :: 0 <= i < |m| && m[i] == (key, r.value) by {
        if r.Some? {
          var i :| 0 <= i < |m[1..]| && m[1..][i] == (key, r.value);
          assert m[i + 1] == (key, r.value);
        }
      }
      r
  }

  /** In a map with increasing keys, `find` gives the entity of the one entry with the key. */
  lemma {:induction false} FindOrdered(m: seq<(string, nat)>, key: string, i: nat)
    requires Ordered(m) && i < |m| && m[i].0 == key
    ensures Find(m, key) == Some(m[i].1)
  {
    if i > 0 {
      assert m[0].0 != key by {
        StrLessIrrefl(key);
        assert StrLess(m[0].0, m[i].0);
      }
      OrderedTail(m);
      assert m[1..][i - 1] == m[i];
      FindOrdered(m[1..], key, i - 1);
    }
  }

  /** `m[key] = value`: the entry is replaced, or inserted at its place in key order. */
  function Put(m: seq<(string, nat)>, key: string, value: nat): (r: seq<(string, nat)>)
    requires Ordered(m)
    ensures Ordered(r)
    ensures forall k :: Find(r, k) == if k == key then Some(value) else Find(m, k)
    decreases |m|
  {
    if |m| == 0 then [(key, value)]
    else if m[0].0 == key then
      var r := [(key, value)] + m[1..];
      assert forall i :: 0 < i < |m| ==> r[i] == m[i];
      assert r[1..] == m[1..];
      r
    else if StrLess(key, m[0].0) then
      var r := [(key, value)] + m;
      assert forall i :: 0 < i < |r| ==> r[i] == m[i - 1];
      assert Ordered(r) by {
        forall i, j | 0 <= i < j < |r| ensures StrLess(r[i].0, r[j].0) {
          if i == 0 && j > 1 {
            StrLessTrans(key, m[0].0, m[j - 1].0);
          }
        }
      }
      assert r[1..] == m;
      r
    else
      StrLessTotal(key, m[0].0);
      OrderedTail(m);
      var t := Put(m[1..], key, value);
      var r := [m[0]] + t;
      assert r[1..] == t;
      assert Ordered(r) by {
        forall i, j | 0 <= i < j < |r| ensures StrLess(r[i].0, r[j].0) {
          assert r[j] == t[j - 1];
          if i == 0 {
            var k := r[j].0;
            assert Find(t, k).Some?;
            if k != key {
              var q :| 0 <= q < |m[1..]| && m[1..][q].0 == k;
              assert m[q + 1].0 == k;
            }
          } else {
            assert r[i] == t[i - 1];
          }
        }
      }
      r
  }

  /** `m.erase(key)`. */
  function Erase(m: seq<(string, nat)>, key: string): (r: seq<(string, nat)>)
    requires Ordered(m)
    ensures Ordered(r)
    ensures forall k :: Find(r, k) == if k == key then None else Find(m, k)
  {
    if |m| == 0 then m
    else if m[0].0 == key then
      OrderedTail(m);
      assert Find(m[1..], key) == None by {
        forall i | 0 <= i < |m[1..]| ensures m[1..][i].0 != key {
          StrLessIrrefl(key);
          assert m[1..][i] == m[i + 1];
        }
      }
      m[1..]
    else
      OrderedTail(m);
      var t := Erase(m[1..], key);
      var r := [m[0]] + t;
      assert r[1..] == t;
      assert Ordered(r) by {
        forall i, j | 0 <= i < j < |r| ensures StrLess(r[i].0, r[j].0) {
          assert r[j] == t[j - 1];
          if i == 0 {
            var k := r[j].0;
            assert Find(t, k).Some?;
            var q :| 0 <= q < |m[1..]| && m[1..][q].0 == k;
            assert m[q + 1].0 == k;
          } else {
            assert r[i] == t[i - 1];
          }
        }
      }
      r
  }

  /** A map with increasing keys holds one entry per key. */
  lemma KeyUnique(m: seq<(string, nat)>, p: (string, nat), q: (string, nat))
    requires Ordered(m) && p in m && q in m
    ensures p.0 == q.0 ==> p == q
  {
    var i :| 0 <= i < |m| && m[i] == p;
    var j :| 0 <= j < |m| && m[j] == q;
    FindOrdered(m, p.0, i);
    FindOrdered(m, q.0, j);
  }

  /** Which entries a map holds after `Put`: the new one and those under other keys. */
  lemma PutEntries(m: seq<(string, nat)>, key: string, value: nat)
    requires Ordered(m)
    ensures forall p :: p in Put(m, key, value) <==> p == (key, value) || (p in m && p.0 != key)
  {
    var r := Put(m, key, value);
    forall p ensures p in r <==> p == (key, value) || (p in m && p.0 != key) {
      if p in r {
        var i :| 0 <= i < |r| && r[i] == p;
        FindOrdered(r, p.0, i);
        if p.0 != key {
          var q :| 0 <= q < |m| && m[q] == (p.0, p.1);
          assert m[q] == p;
        }
      }
      if p == (key, value) {
        assert Find(r, key) == Some(value);
        var q :| 0 <= q < |r| && r[q] == (key, value);
      }
      if p in m && p.0 != key {
        var i :| 0 <= i < |m| && m[i] == p;
        FindOrdered(m, p.0, i);
        var q :| 0 <= q < |r| && r[q] == (p.0, p.1);
        assert r[q] == p;
      }
    }
  }

  /** Which entries a map holds after `Erase`: those under other keys. */
  lemma EraseEntries(m: seq<(string, nat)>, key: string)
    requires Ordered(m)
    ensures forall p :: p in Erase(m, key) <==> p in m && p.0 != key
  {
    var r := Erase(m, key);
    forall p ensures p in r <==> p in m && p.0 != key {
      if p in r {
        var i :| 0 <= i < |r| && r[i] == p;
        FindOrdered(r, p.0, i);
        var q :| 0 <= q < |m| && m[q] == (p.0, p.1);
        assert m[q] == p;
      }
      if p in m && p.0 != key {
        var i :| 0 <= i < |m| && m[i] == p;
        FindOrdered(m, p.0, i);
        var q :| 0 <= q < |r| && r[q] == (p.0, p.1);
        assert r[q] == p;
      }
    }
  }

  /** Two maps with increasing keys that find the same entity under every key are the same map. */
  lemma {:induction false} OrderedUnique(a: seq<(string, nat)>, b: seq<(string, nat)>)
    requires Ordered(a) && Ordered(b)
    requires forall k :: Find(a, k) == Find(b, k)
    ensures a == b
    decreases |a|
  {
    assert |a| > 0 ==> |b| > 0 by {
      if |a| > 0 {
        assert Find(a, a[0].0).Some?;
      }
    }
    assert |b| > 0 ==> |a| > 0 by {
      if |b| > 0 {
        assert Find(b, b[0].0).Some?;
      }
    }
    if |a| > 0 {
      assert a[0] == b[0] by {
        FindOrdered(a, a[0].0, 0);
        FindOrdered(b, b[0].0, 0);
        var j :| 0 <= j < |b| && b[j] == (a[0].0, a[0].1);
        var i :| 0 <= i < |a| && a[i] == (b[0].0, b[0].1);
        if j > 0 && i > 0 {
          assert StrLess(b[0].0, b[j].0) && StrLess(a[0].0, a[i].0);
          StrLessTrans(a[0].0, b[0].0, a[0].0);
          StrLessIrrefl(a[0].0);
        }
      }
      OrderedTail(a);
      OrderedTail(b);
      forall k ensures Find(a[1..], k) == Find(b[1..], k) {
        if k == a[0].0 {
          forall i | 0 <= i < |a[1..]| ensures a[1..][i].0 != k {
            assert a[1..][i] == a[i + 1];
            StrLessIrrefl(k);
          }
          forall i | 0 <= i < |b[1..]| ensures b[1..][i].0 != k {
            assert b[1..][i] == b[i + 1];
            StrLessIrrefl(k);
          }
          assert Find(a[1..], k) == None && Find(b[1..], k) == None;
        } else {
          assert Find(a, k) == Find(a[1..], k) && Find(b, k) == Find(b[1..], k);
        }
      }
      OrderedUnique(a[1..], b[1..]);
      assert a == [a[0]] + a[1..] && b == [b[0]] + b[1..];
    }
  }

  /** The first key, in key order, whose entity is `e`. */
  function FirstKeyOf(m: seq<(string, nat)>, e: nat): (r: Option<string>)
    ensures r.None? <==> forall i :: 0 <= i < |m| ==> m[i].1 != e
    ensures r.Some? ==> exists i :: 0 <= i < |m| && m[i] == (r.value, e) && forall j :: 0 <= j < i ==> m[j].1 != e
  {
    if |m| == 0 then None
    else if m[0].1 == e then
      assert m[0] == (m[0].0, e);
      Some(m[0].0)
    else
      var r := FirstKeyOf(m[1..], e);
      assert forall i :: 0 < i < |m| ==> m[i] == m[1..][i - 1];
      assert r.Some? ==> exists i :: 0 <= i < |m| && m[i] == (r.value, e) && forall j :: 0 <= j < i ==> m[j].1 != e by {
        if r.Some? {
          var i :| 0 <= i < |m[1..]| && m[1..][i] == (r.value, e) && forall j :: 0 <= j < i ==> m[1..][j].1 != e;
          assert m[i + 1] == (r.value, e);
        }
      }
      r
  }

  /** The entity `x` is stored under some key. */
  predicate Stores(m: seq<(string, nat)>, x: nat)
  {
    exists p :: p in m && p.1 == x
  }

  datatype Composite = Composite(elements: seq<(string, nat)>, sorted: seq<nat>)

  const EmptyComposite := Composite([], [])

  /** The map is a `std::map`: keys strictly increasing. */
  predicate WellFormed(c: Composite)
  {
    Ordered(c.elements)
  }

  /**
   Each entity is stored under one key and listed once, and the list holds
   exactly the stored entities: what the composite keeps as long as no
   entity is added under a second key.
   */
  ghost predicate Consistent(c: Composite)
  {
    Ordered(c.elements)
    && (forall p, q :: p in c.elements && q in c.elements && p.1 == q.1 ==> p == q)
    && Distinct(c.sorted)
    && forall x :: x in c.sorted <==> Stores(c.elements, x)
  }

  /** `findGlEntity(key)`: the entity stored under the key, or none (`nullptr`). */
  function FindGlEntity(c: Composite, key: string): (r: Option<nat>)
    requires WellFormed(c)
    ensures r.Some? <==> exists i :: 0 <= i < |c.elements| && c.elements[i].0 == key
    ensures forall i :: 0 <= i < |c.elements| && c.elements[i].0 == key ==> r == Some(c.elements[i].1)
  {
    assert forall i :: 0 <= i < |c.elements| && c.elements[i].0 == key ==> Find(c.elements, key) == Some(c.elements[i].1) by {
      forall i | 0 <= i < |c.elements| && c.elements[i].0 == key {
        FindOrdered(c.elements, key, i);
      }
    }
    Find(c.elements, key)
  }

  /** `findKey(entity)`: the first key, in key order, storing the entity, or "" when none does. */
  function FindKey(c: Composite, e: nat): (r: string)
    requires WellFormed(c)
    ensures Stores(c.elements, e) ==> FindGlEntity(c, r) == Some(e)
    ensures !Stores(c.elements, e) ==> r == ""
  {
    match FirstKeyOf(c.elements, e)
    case Some(k) =>
      assert FindGlEntity(c, k) == Some(e) by {
        var i :| 0 <= i < |c.elements| && c.elements[i] == (k, e) && forall j :: 0 <= j < i ==> c.elements[j].1 != e;
        FindOrdered(c.elements, k, i);
      }
      k
    case None =>
      assert !Stores(c.elements, e) by {
        forall p | p in c.elements ensures p.1 != e {
          var i :| 0 <= i < |c.elements| && c.elements[i] == p;
          assert c.elements[i].1 != e;
        }
      }
      ""
  }

  /**
   `addGlEntity(entity, key)`: a new key maps to the entity, which is
   appended to the list; a key holding another entity drops that entity
   from the list (every occurrence), appends the new one and remaps the
   key; the same entity again changes nothing.
   */
  function AddGlEntity(c: Composite, e: nat, key: string): (r: Composite)
    requires WellFormed(c)
    ensures WellFormed(r) && FindGlEntity(r, key) == Some(e)
    ensures forall k :: k != key ==> FindGlEntity(r, k) == FindGlEntity(c, k)
    ensures FindGlEntity(c, key) == None ==> r.sorted == c.sorted + [e]
    ensures FindGlEntity(c, key) == Some(e) ==> r == c
    ensures FindGlEntity(c, key).Some? && FindGlEntity(c, key) != Some(e) ==>
              r.sorted == Without(c.sorted, FindGlEntity(c, key).value) + [e]
  {
    match Find(c.elements, key)
    case None => Composite(Put(c.elements, key, e), c.sorted + [e])
    case Some(prev) =>
      if prev != e then Composite(Put(c.elements, key, e), Without(c.sorted, prev) + [e])
      else c
  }

  /** `deleteGlEntity(key)`: nothing for an absent key; otherwise the key goes, and its entity leaves the list. */
  function DeleteGlEntity(c: Composite, key: string): (r: Composite)
    requires WellFormed(c)
    ensures WellFormed(r) && FindGlEntity(r, key) == None
    ensures forall k :: k != key ==> FindGlEntity(r, k) == FindGlEntity(c, k)
    ensures FindGlEntity(c, key) == None ==> r == c
    ensures FindGlEntity(c, key).Some? ==> r.sorted == Without(c.sorted, FindGlEntity(c, key).value)
  {
    match Find(c.elements, key)
    case None => c
    case Some(prev) => Composite(Erase(c.elements, key), Without(c.sorted, prev))
  }

  /** `deleteGlEntity(entity)`: the first key storing the entity is deleted; nothing when none does. */
  function DeleteGlEntityByValue(c: Composite, e: nat): (r: Composite)
    requires WellFormed(c)
    ensures WellFormed(r)
    ensures !Stores(c.elements, e) ==> r == c
    ensures Stores(c.elements, e) ==> r == DeleteGlEntity(c, FindKey(c, e))
  {
    match FirstKeyOf(c.elements, e)
    case None => c
    case Some(k) => DeleteGlEntity(c, k)
  }

  /** `reset`: both the map and the list are emptied. */
  function Reset(c: Composite): (r: Composite)
    ensures Consistent(r) && forall k :: FindGlEntity(r, k) == None
    ensures |r.sorted| == 0
  {
    EmptyComposite
  }

  /** Adding an entity stored under no other key keeps the composite consistent. */
  lemma AddKeepsConsistent(c: Composite, e: nat, key: string)
    requires Consistent(c) && forall p :: p in c.elements && p.0 != key ==> p.1 != e
    ensures Consistent(AddGlEntity(c, e, key))
  {
    match Find(c.elements, key)
    case None => AddNewKeepsConsistent(c, e, key);
    case Some(prev) =>
      if prev != e {
        AddOverKeepsConsistent(c, e, key, prev);
      }
  }

  lemma AddNewKeepsConsistent(c: Composite, e: nat, key: string)
    requires Consistent(c) && forall p :: p in c.elements && p.0 != key ==> p.1 != e
    requires Find(c.elements, key) == None
    ensures Consistent(AddGlEntity(c, e, key))
  {
    var r := AddGlEntity(c, e, key);
    var m := c.elements;
    PutEntries(m, key, e);
    assert e !in c.sorted;
    assert forall x :: x in r.sorted <==> Stores(r.elements, x) by {
      forall x ensures x in r.sorted <==> Stores(r.elements, x) {
        if Stores(m, x) {
          var p :| p in m && p.1 == x;
          assert p in r.elements;
        }
        assert (key, e) in r.elements;
      }
    }
    DistinctSnoc(c.sorted, e);
  }

  lemma AddOverKeepsConsistent(c: Composite, e: nat, key: string, prev: nat)
    requires Consistent(c) && forall p :: p in c.elements && p.0 != key ==> p.1 != e
    requires Find(c.elements, key) == Some(prev) && prev != e
    ensures Consistent(AddGlEntity(c, e, key))
  {
    var r := AddGlEntity(c, e, key);
    var m := c.elements;
    PutEntries(m, key, e);
    var q :| 0 <= q < |m| && m[q] == (key, prev);
    assert (key, prev) in m;
    var w := Without(c.sorted, prev);
    WithoutDistinct(c.sorted, prev);
    assert e !in w;
    assert r.sorted == w + [e];
    forall p | p in m && p.0 == key ensures p.1 == prev {
      KeyUnique(m, p, (key, prev));
    }
    OverMembers(m, r.elements, c.sorted, w, key, prev, e);
    DistinctSnoc(w, e);
  }

  /** The list-versus-map bookkeeping of replacing the entity stored under a key. */
  lemma OverMembers(m: seq<(string, nat)>, m': seq<(string, nat)>, l: seq<nat>, w: seq<nat>,
                    key: string, prev: nat, e: nat)
    requires forall p :: p in m' <==> p == (key, e) || (p in m && p.0 != key)
    requires forall x :: x in l <==> Stores(m, x)
    requires forall x :: x in w <==> x in l && x != prev
    requires (key, prev) in m && forall p :: p in m && p.0 == key ==> p.1 == prev
    requires forall p, q :: p in m && q in m && p.1 == q.1 ==> p == q
    ensures forall x :: x in w + [e] <==> Stores(m', x)
  {
    forall x ensures x in w + [e] <==> Stores(m', x) {
      if x in w {
        var p :| p in m && p.1 == x;
        assert p in m';
      }
      if Stores(m', x) && x != e {
        var p :| p in m' && p.1 == x;
        assert p in m && p.0 != key;
        assert Stores(m, x);
      }
      assert (key, e) in m';
    }
  }

  /** Deleting a key keeps a consistent composite consistent. */
  lemma DeleteKeepsConsistent(c: Composite, key: string)
    requires Consistent(c)
    ensures Consistent(DeleteGlEntity(c, key))
  {
    var m := c.elements;
    match Find(m, key)
    case None =>
    case Some(prev) =>
      var r := DeleteGlEntity(c, key);
      EraseEntries(m, key);
      WithoutDistinct(c.sorted, prev);
      var q :| 0 <= q < |m| && m[q] == (key, prev);
      assert (key, prev) in m;
      forall x ensures x in r.sorted <==> Stores(r.elements, x) {
        if x in r.sorted {
          var p :| p in m && p.1 == x;
          assert p in r.elements;
        }
        if Stores(r.elements, x) {
          var p :| p in r.elements && p.1 == x;
          assert p in m && p.0 != key;
        }
      }
  }

  /** Adding under a new key and deleting that key again gives back the composite. */
  lemma AddThenDelete(c: Composite, e: nat, key: string)
    requires Consistent(c) && FindGlEntity(c, key) == None && e !in c.sorted
    ensures DeleteGlEntity(AddGlEntity(c, e, key), key) == c
  {
    var a := AddGlEntity(c, e, key);
    var r := DeleteGlEntity(a, key);
    WithoutSnoc(c.sorted, e);
    OrderedUnique(r.elements, c.elements);
  }

  /** In a consistent composite, `findKey` of an added entity gives back the key it was added under. */
  lemma FindKeyAfterAdd(c: Composite, e: nat, key: string)
    requires Consistent(c) && forall p :: p in c.elements && p.0 != key ==> p.1 != e
    ensures FindKey(AddGlEntity(c, e, key), e) == key
  {
    var r := AddGlEntity(c, e, key);
    AddKeepsConsistent(c, e, key);
    var q :| 0 <= q < |r.elements| && r.elements[q] == (key, e);
    assert r.elements[q] in r.elements;
    var k := FindKey(r, e);
    var p :| 0 <= p < |r.elements| && r.elements[p] == (k, e);
    assert r.elements[p] in r.elements;
  }
}
