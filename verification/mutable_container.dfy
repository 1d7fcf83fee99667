/**
 MutableContainer.cxx: a map from unsigned indices to values where every
 index not set reads a default value. Two representations are used: a
 vector (a `std::deque`) covering the indices `minIndex..maxIndex`, and a
 hash map holding only the non-default values; `compress` switches between
 them from the density of the non-default values. `elementInserted` counts
 the non-default values.

 The hash map is modelled as a list of (index, value) pairs with distinct
 indices, in the order the map happens to iterate them. Indices are below
 `UINT_MAX`, which the container reserves as "no index". The ratio used by
 `compress` is a parameter, a real number instead of a double.
 */
module MutableContainers {
  import opened Wrappers
  import opened IdManager
  import Seqs

  // ---------------------------------------------------------------------------
  // Counting and the hash map as a list of pairs
  // ---------------------------------------------------------------------------

  /** How many elements of `s` differ from `d`. */
  function CountNot<V(==)>(s: seq<V>, d: V): (r: nat)
    ensures r <= |s|
  {
    if |s| == 0 then 0 else CountNot(s[..|s| - 1], d) + (if s[|s| - 1] != d then 1 else 0)
  }

  lemma {:induction false} CountNotAppend<V>(s: seq<V>, t: seq<V>, d: V)
    ensures CountNot(s + t, d) == CountNot(s, d) + CountNot(t, d)
    decreases |t|
  {
    if |t| > 0 {
      assert (s + t)[..|s + t| - 1] == s + t[..|t| - 1];
      CountNotAppend(s, t[..|t| - 1], d);
    } else {
      assert s + t == s;
    }
  }

  lemma {:induction false} CountNotPad<V>(n: nat, d: V)
    ensures CountNot(seq(n, _ => d), d) == 0
  {
    if n > 0 {
      assert seq(n, _ => d)[..n - 1] == seq(n - 1, _ => d);
      CountNotPad(n - 1, d);
    }
  }

  /** Overwriting one element moves the count by what left and what came. */
  lemma {:induction false} CountNotUpdate<V>(s: seq<V>, k: nat, v: V, d: V)
    requires k < |s|
    ensures CountNot(s[k := v], d)
            == CountNot(s, d) - (if s[k] != d then 1 else 0) + (if v != d then 1 else 0)
  {
    var n := |s| - 1;
    if k == n {
      assert s[k := v][..n] == s[..n];
    } else {
      assert s[k := v][..n] == s[..n][k := v];
      CountNotUpdate(s[..n], k, v, d);
    }
  }

  type Entries<V> = seq<(nat, V)>

  predicate DistinctKeys<V>(es: Entries<V>)
  {
    forall a, b :: 0 <= a < b < |es| ==> es[a].0 != es[b].0
  }

  /** `find`: the value paired with `k`, if any. */
  function Lookup<V>(es: Entries<V>, k: nat): Option<V>
  {
    if |es| == 0 then None
    else if es[0].0 == k then Some(es[0].1)
    else Lookup(es[1..], k)
  }

  /** An index is found exactly when some pair carries it, and then with that pair's value. */
  lemma {:induction false} LookupSpec<V>(es: Entries<V>, k: nat)
    ensures Lookup(es, k).None? <==> forall j :: 0 <= j < |es| ==> es[j].0 != k
    ensures Lookup(es, k).Some? ==> exists j :: 0 <= j < |es| && es[j] == (k, Lookup(es, k).value)
  {
    if |es| > 0 && es[0].0 != k {
      LookupSpec(es[1..], k);
      assert forall j :: 1 <= j < |es| ==> es[j] == es[1..][j - 1];
      if Lookup(es, k).Some? {
        var j :| 0 <= j < |es| - 1 && es[1..][j] == (k, Lookup(es, k).value);
        assert es[j + 1] == es[1..][j];
      }
    }
  }

  /** `erase`. */
  function Erase<V>(es: Entries<V>, k: nat): (r: Entries<V>)
    requires DistinctKeys(es)
    ensures DistinctKeys(r)
    ensures forall j :: Lookup(r, j) == if j == k then None else Lookup(es, j)
    ensures |r| == if Lookup(es, k).Some? then |es| - 1 else |es|
    ensures forall j :: 0 <= j < |r| ==> r[j] in es
  {
    if |es| == 0 then es
    else
      assert DistinctKeys(es[1..]) by {
        forall a, b | 0 <= a < b < |es| - 1 ensures es[1..][a].0 != es[1..][b].0 {
          assert es[a + 1].0 != es[b + 1].0;
        }
      }
      if es[0].0 == k then
        assert Lookup(es[1..], k).None? by {
          forall j | 0 <= j < |es| - 1 ensures es[1..][j].0 != k {
            assert es[j + 1].0 != es[0].0;
          }
          LookupSpec(es[1..], k);
        }
        es[1..]
      else
        var t := Erase(es[1..], k);
        var r := [es[0]] + t;
        assert Lookup(t, es[0].0).None? by {
          forall j | 0 <= j < |es| - 1 ensures es[1..][j].0 != es[0].0 {
            assert es[j + 1].0 != es[0].0;
          }
          LookupSpec(es[1..], es[0].0);
        }
        assert forall j :: 1 <= j < |r| ==> r[j] == t[j - 1];
        r
  }

  /** `(*hData)[k] = v`: replaced in place, or appended. */
  function Store<V>(es: Entries<V>, k: nat, v: V): (r: Entries<V>)
    requires DistinctKeys(es)
    ensures DistinctKeys(r)
    ensures forall j :: Lookup(r, j) == if j == k then Some(v) else Lookup(es, j)
    ensures |r| == if Lookup(es, k).Some? then |es| else |es| + 1
    ensures forall j :: 0 <= j < |r| ==> r[j] in es || r[j] == (k, v)
  {
    if |es| == 0 then [(k, v)]
    else if es[0].0 == k then
      var r := [(k, v)] + es[1..];
      assert forall j :: 1 <= j < |r| ==> r[j] == es[j];
      r
    else
      assert DistinctKeys(es[1..]) by {
        forall a, b | 0 <= a < b < |es| - 1 ensures es[1..][a].0 != es[1..][b].0 {
          assert es[a + 1].0 != es[b + 1].0;
        }
      }
      var t := Store(es[1..], k, v);
      var r := [es[0]] + t;
      assert Lookup(t, es[0].0).None? by {
        assert Lookup(es[1..], es[0].0).None? by {
          forall j | 0 <= j < |es| - 1 ensures es[1..][j].0 != es[0].0 {
            assert es[j + 1].0 != es[0].0;
          }
          LookupSpec(es[1..], es[0].0);
        }
      }
      assert forall j :: 1 <= j < |r| ==> r[j] == t[j - 1];
      r
  }

  // ---------------------------------------------------------------------------
  // The container
  // ---------------------------------------------------------------------------

  datatype Rep<V> = Vect(data: seq<V>) | Hash(entries: Entries<V>)

  /**
   `elementInserted` is `count`. `minIndex == maxIndex == UINT_MAX` marks
   an empty vector.
   */
  datatype Container<V> = Container(rep: Rep<V>, dflt: V, minIndex: nat, maxIndex: nat, count: int)

  /** A new container, or one after `setAll(d)`. */
  function Fresh<V>(d: V): Container<V>
  {
    Container(Vect([]), d, NoPos, NoPos, 0)
  }

  /**
   The shape each representation keeps: the vector covers exactly
   `minIndex..maxIndex`, a hash map has distinct indices and a bound.
   */
  ghost predicate Shaped<V>(c: Container<V>)
  {
    match c.rep
    case Vect(data) =>
      (c.minIndex == NoPos <==> c.maxIndex == NoPos)
      && (c.minIndex == NoPos ==> data == [])
      && (c.minIndex != NoPos ==> c.minIndex <= c.maxIndex < NoPos && |data| == c.maxIndex - c.minIndex + 1)
    case Hash(es) =>
      c.maxIndex < NoPos && DistinctKeys(es) && forall j :: 0 <= j < |es| ==> es[j].0 < NoPos
  }

  /** The shape, and a hash map that holds no default value. */
  ghost predicate Clean<V>(c: Container<V>)
  {
    Shaped(c)
    && match c.rep
       case Vect(_) => true
       case Hash(es) => forall j :: 0 <= j < |es| ==> es[j].1 != c.dflt
  }

  /** A clean container whose count is the number of non-default values. */
  ghost predicate Valid<V>(c: Container<V>)
  {
    Clean(c)
    && match c.rep
       case Vect(data) => c.count == CountNot(data, c.dflt)
       case Hash(es) => c.count == |es|
  }

  /** `get(i)`. */
  function Get<V>(c: Container<V>, i: nat): V
    requires Shaped(c)
  {
    if c.maxIndex == NoPos then c.dflt
    else match c.rep
      case Vect(data) => if i > c.maxIndex || i < c.minIndex then c.dflt else data[i - c.minIndex]
      case Hash(es) => Lookup(es, i).GetOr(c.dflt)
  }

  /** `hasNonDefaultValue(i)`. */
  function HasNonDefaultValue<V(==)>(c: Container<V>, i: nat): bool
    requires Shaped(c)
  {
    if c.maxIndex == NoPos then false
    else match c.rep
      case Vect(data) => i <= c.maxIndex && i >= c.minIndex && data[i - c.minIndex] != c.dflt
      case Hash(es) => Lookup(es, i).Some?
  }

  /** `get(i, notDefault)`: the value and whether it is not the default one. */
  function GetFlagged<V(==)>(c: Container<V>, i: nat): (r: (V, bool))
    requires Shaped(c)
  {
    if c.maxIndex == NoPos then (c.dflt, false)
    else match c.rep
      case Vect(data) =>
        if i > c.maxIndex || i < c.minIndex then (c.dflt, false)
        else (data[i - c.minIndex], data[i - c.minIndex] != c.dflt)
      case Hash(es) =>
        match Lookup(es, i)
        case Some(v) => (v, true)
        case None => (c.dflt, false)
  }

  /**
   Both readers agree with `get`, and the flag says exactly that the value
   is not the default one.
   */
  lemma GetFlaggedAgrees<V>(c: Container<V>, i: nat)
    requires Clean(c)
    ensures GetFlagged(c, i).0 == Get(c, i)
    ensures GetFlagged(c, i).1 <==> Get(c, i) != c.dflt
    ensures HasNonDefaultValue(c, i) <==> GetFlagged(c, i).1
  {
    if c.maxIndex != NoPos && c.rep.Hash? {
      var es := c.rep.entries;
      LookupSpec(es, i);
      match Lookup(es, i)
      case Some(v) =>
        var j :| 0 <= j < |es| && es[j] == (i, v);
      case None =>
    }
  }

  /** `setAll(v)`: every index reads `v`, no value is counted, the vector is back. */
  function SetAll<V>(c: Container<V>, v: V): (r: Container<V>)
    ensures Valid(r) && r.rep.Vect? && r.count == 0
    ensures forall i :: Get(r, i) == v
  {
    Fresh(v)
  }

  /**
   `setDefault(v)`: only the default changes, so the stored values stay as
   they are and every index not stored reads `v`.
   */
  function SetDefault<V>(c: Container<V>, v: V): (r: Container<V>)
    requires Shaped(c)
    ensures Shaped(r) && r.dflt == v && r.count == c.count
    ensures forall i :: HasStored(c, i) ==> Get(r, i) == Get(c, i)
    ensures forall i :: !HasStored(c, i) ==> Get(r, i) == v
    ensures Empty(c) ==> Valid(r)
  {
    c.(dflt := v)
  }

  /** An index whose value the representation holds. */
  predicate HasStored<V>(c: Container<V>, i: nat)
    requires Shaped(c)
  {
    c.maxIndex != NoPos
    && match c.rep
       case Vect(_) => c.minIndex <= i <= c.maxIndex
       case Hash(es) => Lookup(es, i).Some?
  }

  predicate Empty<V>(c: Container<V>)
  {
    match c.rep
    case Vect(data) => data == [] && c.count == 0
    case Hash(es) => es == [] && c.count == 0
  }

  /**
   `findAll(value, equal)`: null when asked for the indices holding the
   default value; otherwise the indices the representation holds whose
   value equals `value` or, with `equal` false, differs from it.
   */
  function FindAll<V(==)>(c: Container<V>, value: V, equal: bool): (r: Option<seq<nat>>)
    requires Shaped(c)
    ensures equal && value == c.dflt <==> r.None?
    ensures r.Some? ==> forall i :: i in r.value <==> HasStored(c, i) && ((Get(c, i) == value) == equal)
  {
    if equal && c.dflt == value then None
    else match c.rep
      case Vect(data) =>
        var r := Matching(data, c.minIndex, value, equal);
        assert c.maxIndex == NoPos ==> r == [];
        Some(r)
      case Hash(es) =>
        var r := MatchingKeys(es, value, equal);
        assert forall i :: i in r <==> HasStored(c, i) && ((Get(c, i) == value) == equal) by {
          forall i: nat ensures i in r <==> HasStored(c, i) && ((Get(c, i) == value) == equal) {
            LookupSpec(es, i);
            if i in r {
              var j :| 0 <= j < |es| && es[j].0 == i && ((es[j].1 == value) == equal);
              LookupAt(es, j);
            } else if Lookup(es, i).Some? {
              var j :| 0 <= j < |es| && es[j] == (i, Lookup(es, i).value);
            }
          }
        }
        Some(r)
  }

  /** With distinct indices, each pair is what `find` returns for its index. */
  lemma {:induction false} LookupAt<V>(es: Entries<V>, j: nat)
    requires DistinctKeys(es) && j < |es|
    ensures Lookup(es, es[j].0) == Some(es[j].1)
  {
    if j > 0 {
      assert es[0].0 != es[j].0;
      assert DistinctKeys(es[1..]) by {
        forall a, b | 0 <= a < b < |es| - 1 ensures es[1..][a].0 != es[1..][b].0 {
          assert es[a + 1].0 != es[b + 1].0;
        }
      }
      LookupAt(es[1..], j - 1);
    }
  }

  /** The indices `base + j`, ascending, whose value matches. */
  function Matching<V(==)>(data: seq<V>, base: nat, value: V, equal: bool): (r: seq<nat>)
    ensures forall i :: i in r <==> base <= i < base + |data| && ((data[i - base] == value) == equal)
  {
    if |data| == 0 then []
    else
      var n := |data| - 1;
      var t := Matching(data[..n], base, value, equal);
      if (data[n] == value) == equal then t + [base + n] else t
  }

  /** The indices of the pairs whose value matches, in iteration order. */
  function MatchingKeys<V(==)>(es: Entries<V>, value: V, equal: bool): (r: seq<nat>)
    ensures forall i :: i in r <==> exists j :: 0 <= j < |es| && es[j].0 == i && ((es[j].1 == value) == equal)
  {
    if |es| == 0 then []
    else
      var t := MatchingKeys(es[1..], value, equal);
      assert forall j :: 1 <= j < |es| ==> es[j] == es[1..][j - 1];
      if (es[0].1 == value) == equal then [es[0].0] + t else t
  }

  // ---------------------------------------------------------------------------
  // Writing into the vector
  // ---------------------------------------------------------------------------

  /** The first loop of `vectset`: `n` default values pushed at the back. */
  function PushBack<V>(c: Container<V>, n: nat): (r: Container<V>)
    requires Shaped(c) && c.rep.Vect? && c.minIndex != NoPos && c.maxIndex + n < NoPos
    ensures Shaped(r) && r.rep.Vect? && r.dflt == c.dflt && r.count == c.count
    ensures r.minIndex == c.minIndex && r.maxIndex == c.maxIndex + n
    ensures forall j :: Get(r, j) == Get(c, j)
    ensures CountNot(r.rep.data, r.dflt) == CountNot(c.rep.data, c.dflt)
  {
    var data := c.rep.data + seq(n, _ => c.dflt);
    var r := c.(rep := Vect(data), maxIndex := c.maxIndex + n);
    forall j: nat ensures Get(r, j) == Get(c, j) {
      if c.minIndex <= j <= c.maxIndex {
        assert data[j - c.minIndex] == c.rep.data[j - c.minIndex];
      } else if c.maxIndex < j <= r.maxIndex {
        assert data[j - c.minIndex] == c.dflt;
      }
    }
    CountNotAppend(c.rep.data, seq(n, _ => c.dflt), c.dflt);
    CountNotPad(n, c.dflt);
    r
  }

  /** The second loop of `vectset`: `n` default values pushed at the front. */
  function PushFront<V>(c: Container<V>, n: nat): (r: Container<V>)
    requires Shaped(c) && c.rep.Vect? && c.minIndex != NoPos && n <= c.minIndex
    ensures Shaped(r) && r.rep.Vect? && r.dflt == c.dflt && r.count == c.count
    ensures r.minIndex == c.minIndex - n && r.maxIndex == c.maxIndex
    ensures forall j :: Get(r, j) == Get(c, j)
    ensures CountNot(r.rep.data, r.dflt) == CountNot(c.rep.data, c.dflt)
  {
    var data := seq(n, _ => c.dflt) + c.rep.data;
    var r := c.(rep := Vect(data), minIndex := c.minIndex - n);
    forall j: nat ensures Get(r, j) == Get(c, j) {
      if c.minIndex <= j <= c.maxIndex {
        assert data[j - r.minIndex] == c.rep.data[j - c.minIndex];
      } else if r.minIndex <= j < c.minIndex {
        assert data[j - r.minIndex] == c.dflt;
      }
    }
    CountNotAppend(seq(n, _ => c.dflt), c.rep.data, c.dflt);
    CountNotPad(n, c.dflt);
    r
  }

  /** Both loops: the vector grows, with default values, until it covers `i`. */
  function Widen<V>(c: Container<V>, i: nat): (r: Container<V>)
    requires Shaped(c) && c.rep.Vect? && c.minIndex != NoPos && i < NoPos
    ensures Shaped(r) && r.rep.Vect? && r.minIndex <= i <= r.maxIndex
    ensures r.dflt == c.dflt && r.count == c.count
    ensures forall j :: Get(r, j) == Get(c, j)
    ensures CountNot(r.rep.data, r.dflt) == CountNot(c.rep.data, c.dflt)
  {
    var c1 := PushBack(c, if i > c.maxIndex then i - c.maxIndex else 0);
    PushFront(c1, if i < c1.minIndex then c1.minIndex - i else 0)
  }

  /**
   `vectset(i, v)`: the first value of an empty vector, or a write after
   widening; the count grows unless a non-default value is replaced.
   */
  function VectSet<V(==)>(c: Container<V>, i: nat, v: V): (r: Container<V>)
    requires Shaped(c) && c.rep.Vect? && i < NoPos
    ensures Shaped(r) && r.rep.Vect? && r.dflt == c.dflt
    ensures Get(r, i) == v
    ensures forall j :: j != i ==> Get(r, j) == Get(c, j)
    ensures r.count == c.count + (if Get(c, i) != c.dflt then 0 else 1)
    ensures Valid(c) && v != c.dflt ==> Valid(r)
  {
    if c.minIndex == NoPos then Container(Vect([v]), c.dflt, i, i, c.count + 1)
    else Put(Widen(c, i), i, v)
  }

  /** The write at the end of `vectset`, inside the vector. */
  function Put<V(==)>(c: Container<V>, i: nat, v: V): (r: Container<V>)
    requires Shaped(c) && c.rep.Vect? && c.minIndex <= i <= c.maxIndex && c.maxIndex != NoPos
    ensures Shaped(r) && r.rep.Vect? && r.dflt == c.dflt
    ensures Get(r, i) == v
    ensures forall j :: j != i ==> Get(r, j) == Get(c, j)
    ensures r.count == c.count + (if Get(c, i) != c.dflt then 0 else 1)
    ensures CountNot(r.rep.data, r.dflt)
            == CountNot(c.rep.data, c.dflt) - (if Get(c, i) != c.dflt then 1 else 0) + (if v != c.dflt then 1 else 0)
  {
    var k := i - c.minIndex;
    var prev := c.rep.data[k];
    CountNotUpdate(c.rep.data, k, v, c.dflt);
    c.(rep := Vect(c.rep.data[k := v]), count := if prev != c.dflt then c.count else c.count + 1)
  }

  // ---------------------------------------------------------------------------
  // Changing representation
  // ---------------------------------------------------------------------------

  /**
   The loop of `vecttohash` over `minIndex..maxIndex`: the non-default
   values, by ascending index.
   */
  function Collect<V(==)>(data: seq<V>, base: nat, d: V): (r: Entries<V>)
    ensures |r| == CountNot(data, d)
    ensures forall j :: 0 <= j < |r| ==> base <= r[j].0 < base + |data| && r[j].1 != d
  {
    if |data| == 0 then []
    else
      var n := |data| - 1;
      var t := Collect(data[..n], base, d);
      if data[n] != d then t + [(base + n, data[n])] else t
  }

  /** What the vector holds at `i`, when it is not the default value. */
  function Held<V(==)>(data: seq<V>, base: nat, d: V, i: nat): Option<V>
  {
    if base <= i < base + |data| && data[i - base] != d then Some(data[i - base]) else None
  }

  /** The pairs collected hold exactly the non-default values. */
  lemma {:induction false} CollectRead<V>(data: seq<V>, base: nat, d: V, i: nat)
    ensures Lookup(Collect(data, base, d), i) == Held(data, base, d, i)
  {
    if |data| > 0 {
      var n := |data| - 1;
      var t := Collect(data[..n], base, d);
      if i != base + n {
        CollectRead(data[..n], base, d, i);
        if base <= i < base + n {
          assert data[..n][i - base] == data[i - base];
        }
        assert Held(data[..n], base, d, i) == Held(data, base, d, i);
      }
      if data[n] != d {
        CollectRead(data[..n], base, d, base + n);
        assert Held(data[..n], base, d, base + n).None?;
        LookupSnoc(t, base + n, data[n], i);
      } else if i == base + n {
        CollectRead(data[..n], base, d, i);
      }
    }
  }

  lemma {:induction false} CollectDistinct<V>(data: seq<V>, base: nat, d: V)
    ensures DistinctKeys(Collect(data, base, d))
  {
    if |data| > 0 {
      var n := |data| - 1;
      CollectDistinct(data[..n], base, d);
    }
  }

  lemma {:induction false} LookupSnoc<V>(es: Entries<V>, k: nat, v: V, i: nat)
    requires Lookup(es, k).None?
    ensures Lookup(es + [(k, v)], i) == if i == k then Some(v) else Lookup(es, i)
    decreases |es|
  {
    if |es| > 0 {
      assert (es + [(k, v)])[1..] == es[1..] + [(k, v)];
      if es[0].0 != i {
        LookupSnoc(es[1..], k, v, i);
      }
    }
  }

  /** The smallest and largest index of the pairs, 0 and `UINT_MAX` when there is none. */
  function Bounds<V>(es: Entries<V>): (r: (nat, nat))
    ensures (|es| == 0) == (r == (NoPos, 0))
    ensures forall j :: 0 <= j < |es| ==> r.0 <= es[j].0 <= r.1
    ensures |es| > 0 ==> exists j :: 0 <= j < |es| && es[j].0 == r.1
  {
    if |es| == 0 then (NoPos, 0)
    else
      var t := Bounds(es[1..]);
      var k := es[0].0;
      assert forall j :: 1 <= j < |es| ==> es[j] == es[1..][j - 1];
      (if k < t.0 then k else t.0, if k > t.1 then k else t.1)
  }

  /**
   `vecttohash`: the non-default values move to a hash map; the bounds
   become those of the indices kept and the count is recomputed.
   */
  function VectToHash<V(==)>(c: Container<V>): (r: Container<V>)
    requires Shaped(c) && c.rep.Vect? && c.minIndex != NoPos
    ensures Valid(r) && r.rep.Hash? && r.dflt == c.dflt
    ensures forall i :: Get(r, i) == Get(c, i)
    ensures r.count == CountNot(c.rep.data, c.dflt)
  {
    var es := Collect(c.rep.data, c.minIndex, c.dflt);
    var b := Bounds(es);
    CollectDistinct(c.rep.data, c.minIndex, c.dflt);
    var r := Container(Hash(es), c.dflt, b.0, b.1, |es|);
    forall i: nat ensures Get(r, i) == Get(c, i) {
      CollectRead(c.rep.data, c.minIndex, c.dflt, i);
    }
    r
  }

  /**
   The loop of `hashtovect`: every non-default value of the map is written
   with `vectset`, in the order the map yields them.
   */
  function SetEach<V(==)>(c: Container<V>, es: Entries<V>): (r: Container<V>)
    requires Shaped(c) && c.rep.Vect?
    requires forall j :: 0 <= j < |es| ==> es[j].0 < NoPos
    ensures Shaped(r) && r.rep.Vect? && r.dflt == c.dflt
    decreases |es|
  {
    if |es| == 0 then c
    else
      var n := |es| - 1;
      var c1 := SetEach(c, es[..n]);
      if es[n].1 != c.dflt then VectSet(c1, es[n].0, es[n].1) else c1
  }

  /** Writing distinct pairs into a vector gives every index its pair's value. */
  lemma SetEachReads<V>(c: Container<V>, es: Entries<V>)
    requires Shaped(c) && c.rep.Vect? && DistinctKeys(es)
    requires forall j :: 0 <= j < |es| ==> es[j].0 < NoPos && es[j].1 != c.dflt
    requires forall j :: 0 <= j < |es| ==> Get(c, es[j].0) == c.dflt
    ensures forall i :: Get(SetEach(c, es), i) == Lookup(es, i).GetOr(Get(c, i))
  {
    FreshWritesOf(es, c.dflt);
    forall i: nat ensures Get(SetEach(c, es), i) == Lookup(es, i).GetOr(Get(c, i)) {
      SetEachReadsAt(c, es, i);
    }
  }

  /** Each pair, in order, writes a non-default value at an index no earlier pair wrote. */
  ghost predicate FreshWrites<V>(es: Entries<V>, dflt: V)
    decreases |es|
  {
    |es| == 0
    || (var n := |es| - 1;
        FreshWrites(es[..n], dflt) && es[n].1 != dflt && Lookup(es[..n], es[n].0).None?)
  }

  /** Distinct indices with non-default values make fresh writes. */
  lemma {:induction false} FreshWritesOf<V>(es: Entries<V>, dflt: V)
    requires DistinctKeys(es) && forall j :: 0 <= j < |es| ==> es[j].1 != dflt
    ensures FreshWrites(es, dflt)
    decreases |es|
  {
    if |es| > 0 {
      var n := |es| - 1;
      LastKeyNew(es);
      FreshWritesOf(es[..n], dflt);
    }
  }

  /** `SetEachReads` at one index, by induction on the pairs written. */
  lemma {:induction false} SetEachReadsAt<V>(c: Container<V>, es: Entries<V>, i: nat)
    requires Shaped(c) && c.rep.Vect? && FreshWrites(es, c.dflt)
    requires forall j :: 0 <= j < |es| ==> es[j].0 < NoPos
    ensures Get(SetEach(c, es), i) == Lookup(es, i).GetOr(Get(c, i))
    decreases |es|
  {
    if |es| > 0 {
      var n := |es| - 1;
      var t := es[..n];
      assert FreshWrites(t, c.dflt) && es[n].1 != c.dflt && Lookup(t, es[n].0).None?;
      SetEachReadsAt(c, t, i);
      ReadsOneMore(c, SetEach(c, t), es, i);
    }
  }

  /** Writing the last pair into a vector that reads the earlier pairs' values makes it read all of them. */
  lemma ReadsOneMore<V>(c: Container<V>, c1: Container<V>, es: Entries<V>, i: nat)
    requires Shaped(c) && Shaped(c1) && c1.rep.Vect? && |es| > 0 && es[|es| - 1].0 < NoPos
    requires Lookup(es[..|es| - 1], es[|es| - 1].0).None?
    requires Get(c1, i) == Lookup(es[..|es| - 1], i).GetOr(Get(c, i))
    ensures Get(VectSet(c1, es[|es| - 1].0, es[|es| - 1].1), i) == Lookup(es, i).GetOr(Get(c, i))
  {
    LookupLast(es, i);
  }

  /** The last pair, with an index no earlier pair has, decides the lookup of that index only. */
  lemma LookupLast<V>(es: Entries<V>, i: nat)
    requires |es| > 0 && Lookup(es[..|es| - 1], es[|es| - 1].0).None?
    ensures Lookup(es, i) == if i == es[|es| - 1].0 then Some(es[|es| - 1].1) else Lookup(es[..|es| - 1], i)
  {
    var n := |es| - 1;
    Seqs.ButLastSnoc(es);
    LookupSnoc(es[..n], es[n].0, es[n].1, i);
  }

  /** The last pair of a list with distinct indices carries an index the rest does not. */
  lemma LastKeyNew<V>(es: Entries<V>)
    requires DistinctKeys(es) && |es| > 0
    ensures DistinctKeys(es[..|es| - 1])
    ensures Lookup(es[..|es| - 1], es[|es| - 1].0).None?
  {
    var n := |es| - 1;
    var t := es[..n];
    forall j | 0 <= j < n ensures t[j].0 != es[n].0 {
      assert es[j].0 != es[n].0;
    }
    LookupSpec(t, es[n].0);
  }

  /** Each pair written is a new non-default value: the count grows by one each, and stays right. */
  lemma {:induction false} SetEachCounts<V>(c: Container<V>, es: Entries<V>)
    requires Valid(c) && c.rep.Vect? && DistinctKeys(es)
    requires forall j :: 0 <= j < |es| ==> es[j].0 < NoPos && es[j].1 != c.dflt
    requires forall j :: 0 <= j < |es| ==> Get(c, es[j].0) == c.dflt
    ensures Valid(SetEach(c, es))
    ensures SetEach(c, es).count == c.count + |es|
    decreases |es|
  {
    if |es| > 0 {
      var n := |es| - 1;
      var t := es[..n];
      var k := es[n].0;
      LastKeyNew(es);
      SetEachCounts(c, t);
      SetEachReads(c, t);
      assert Get(SetEach(c, t), k) == c.dflt;
    }
  }

  /**
   `hashtovect`: a fresh empty vector with the same default, into which
   every non-default value is written; the count is recomputed.
   */
  function HashToVect<V(==)>(c: Container<V>): (r: Container<V>)
    requires Shaped(c) && c.rep.Hash?
    ensures Shaped(r) && r.rep.Vect? && r.dflt == c.dflt
    ensures Clean(c) ==> forall i :: Get(r, i) == Get(c, i)
    ensures Valid(c) ==> Valid(r) && r.count == c.count
  {
    var r := SetEach(Fresh(c.dflt), c.rep.entries);
    assert Clean(c) ==> forall i :: Get(r, i) == Get(c, i) by {
      if Clean(c) {
        SetEachReads(Fresh(c.dflt), c.rep.entries);
      }
    }
    assert Valid(c) ==> Valid(r) && r.count == c.count by {
      if Valid(c) {
        SetEachCounts(Fresh(c.dflt), c.rep.entries);
      }
    }
    r
  }

  /**
   `compress(min, max, nb)`: over a span of at least ten indices, a vector
   holding fewer than `ratio` times the span in non-default values becomes
   a hash map, and a hash map holding more than one and a half times that
   becomes a vector. No value read changes, and neither does a right count.
   */
  function Compress<V(==)>(c: Container<V>, lo: nat, hi: nat, nb: int, ratio: real): (r: Container<V>)
    requires Clean(c) && lo <= hi && c.maxIndex <= hi <= NoPos
    ensures Clean(r) && r.dflt == c.dflt
    ensures forall i :: Get(r, i) == Get(c, i)
    ensures Valid(c) ==> Valid(r) && r.count == c.count
    ensures hi == NoPos || hi - lo < 10 ==> r == c
    ensures c.rep.Vect? && r.rep.Hash? ==> (nb as real) < ratio * ((hi - lo + 1) as real)
    ensures c.rep.Hash? && r.rep.Vect? ==> (nb as real) > ratio * ((hi - lo + 1) as real) * 1.5
  {
    if hi == NoPos || hi - lo < 10 then c
    else
      var limit := ratio * ((hi - lo + 1) as real);
      match c.rep
      case Vect(_) => if (nb as real) < limit then VectToHash(c) else c
      case Hash(_) => if (nb as real) > limit * 1.5 then HashToVect(c) else c
  }

  /**
   A removal forced on an index the vector covers but whose value is
   already the default one: `set` then decrements the count all the same.
   */
  predicate ForcedRemoval<V(==)>(c: Container<V>, i: nat, v: V, force: bool)
    requires Shaped(c)
  {
    force && v == c.dflt && c.rep.Vect? && c.minIndex <= i <= c.maxIndex < NoPos
    && c.rep.data[i - c.minIndex] == c.dflt
  }

  /**
   `set(i, v, forceDefaultValueRemoval)`: `i` reads `v` afterwards and no
   other index changes. The count follows the values, except that a forced
   removal of a default value decrements it anyway, and then it is wrong.
   */
  function Set<V(==)>(c: Container<V>, i: nat, v: V, force: bool, ratio: real): (r: Container<V>)
    requires Clean(c) && i < NoPos
    ensures Clean(r) && r.dflt == c.dflt
    ensures Get(r, i) == v
    ensures forall j :: j != i ==> Get(r, j) == Get(c, j)
    ensures Valid(c) ==> r.count == c.count - (if Get(c, i) != c.dflt then 1 else 0) + (if v != c.dflt then 1 else 0)
                                    - (if ForcedRemoval(c, i, v, force) then 1 else 0)
    ensures Valid(c) && !ForcedRemoval(c, i, v, force) ==> Valid(r)
    ensures Valid(c) && ForcedRemoval(c, i, v, force) ==> !Valid(r)
  {
    if v == c.dflt then Clear(c, i, force)
    else
      var lo := if i < c.minIndex then i else c.minIndex;
      var hi := if i > c.maxIndex then i else c.maxIndex;
      Assign(Compress(c, lo, hi, c.count, ratio), i, v)
  }

  /** The default-value half of `set`: the value at `i` is dropped. */
  function Clear<V(==)>(c: Container<V>, i: nat, force: bool): (r: Container<V>)
    requires Clean(c) && i < NoPos
    ensures Clean(r) && r.dflt == c.dflt
    ensures Get(r, i) == c.dflt
    ensures forall j :: j != i ==> Get(r, j) == Get(c, j)
    ensures r.count == c.count - (if Get(c, i) != c.dflt then 1 else 0) - (if ForcedRemoval(c, i, c.dflt, force) then 1 else 0)
    ensures Valid(c) && !ForcedRemoval(c, i, c.dflt, force) ==> Valid(r)
    ensures Valid(c) && ForcedRemoval(c, i, c.dflt, force) ==> !Valid(r)
  {
    match c.rep
    case Vect(data) =>
      if c.minIndex <= i <= c.maxIndex then
        var k := i - c.minIndex;
        if data[k] != c.dflt then
          CountNotUpdate(data, k, c.dflt, c.dflt);
          c.(rep := Vect(data[k := c.dflt]), count := c.count - 1)
        else if force then c.(count := c.count - 1)
        else c
      else c
    case Hash(es) =>
      LookupSpec(es, i);
      if Lookup(es, i).Some? then
        assert Lookup(es, i).value != c.dflt by {
          var j :| 0 <= j < |es| && es[j] == (i, Lookup(es, i).value);
        }
        var r := c.(rep := Hash(Erase(es, i)), count := c.count - 1);
        assert forall j :: 0 <= j < |r.rep.entries| ==> r.rep.entries[j].1 != c.dflt by {
          forall j | 0 <= j < |r.rep.entries| ensures r.rep.entries[j].1 != c.dflt {
            var x := r.rep.entries[j];
            assert x in es;
          }
        }
        r
      else c
  }

  /** In the vector state an index inside `minIndex..maxIndex`: its slot is kept. */
  predicate InVector<V>(c: Container<V>, i: nat)
  {
    c.rep.Vect? && c.maxIndex != NoPos && c.minIndex <= i <= c.maxIndex
  }

  /**
   Setting an index to the default and then changing the default: the
   index reads the new default, except in the vector state inside the
   index range, where its slot still holds the old default.
   */
  lemma EraseThenSetDefault<V>(c: Container<V>, i: nat, force: bool, v: V)
    requires Clean(c) && i < NoPos
    ensures InVector(c, i) ==> Get(SetDefault(Clear(c, i, force), v), i) == c.dflt
    ensures !InVector(c, i) ==> Get(SetDefault(Clear(c, i, force), v), i) == v
  {
    var c1 := Clear(c, i, force);
    assert c1.minIndex == c.minIndex && c1.maxIndex == c.maxIndex && c1.rep.Vect? == c.rep.Vect?;
    if InVector(c, i) {
      assert HasStored(c1, i);
    } else if c.maxIndex != NoPos && c.rep.Hash? {
      assert Lookup(c1.rep.entries, i).None?;
    }
  }

  /** The non-default half of `set`, after `compress`: `i` now holds `v`. */
  function Assign<V(==)>(c: Container<V>, i: nat, v: V): (r: Container<V>)
    requires Clean(c) && i < NoPos && v != c.dflt
    ensures Clean(r) && r.dflt == c.dflt
    ensures Get(r, i) == v
    ensures forall j :: j != i ==> Get(r, j) == Get(c, j)
    ensures r.count == c.count + (if Get(c, i) != c.dflt then 0 else 1)
    ensures Valid(c) ==> Valid(r)
  {
    match c.rep
    case Vect(_) => VectSet(c, i, v)
    case Hash(es) =>
      LookupSpec(es, i);
      var found := Lookup(es, i).Some?;
      assert found ==> Lookup(es, i).value != c.dflt by {
        if found {
          var j :| 0 <= j < |es| && es[j] == (i, Lookup(es, i).value);
        }
      }
      var es1 := Store(es, i, v);
      var r := c.(rep := Hash(es1), count := if found then c.count else c.count + 1,
                  maxIndex := if c.maxIndex < i then i else c.maxIndex,
                  minIndex := if c.minIndex > i then i else c.minIndex);
      assert forall j :: 0 <= j < |es1| ==> es1[j].1 != c.dflt && es1[j].0 < NoPos by {
        forall j | 0 <= j < |es1| ensures es1[j].1 != c.dflt && es1[j].0 < NoPos {
          var x := es1[j];
          assert x in es || x == (i, v);
        }
      }
      r
  }

  // ---------------------------------------------------------------------------
  // Numeric and boolean updates
  // ---------------------------------------------------------------------------

  /**
   `add(i, val)` as written: the first value of an empty container is
   pushed and counted whatever it is, and an in-place sum in the vector
   never looks at whether it reached the default value. The value read is
   right; the count is not kept.
   */
  function AddAsWritten(c: Container<int>, i: nat, val: int, ratio: real): (r: Container<int>)
    requires Clean(c) && i < NoPos
    ensures Clean(r) && r.dflt == c.dflt
    ensures Get(r, i) == Get(c, i) + val
    ensures forall j :: j != i ==> Get(r, j) == Get(c, j)
  {
    if c.maxIndex == NoPos then Container(Vect([c.dflt + val]), c.dflt, i, i, c.count + 1)
    else match c.rep
      case Vect(data) =>
        if i > c.maxIndex || i < c.minIndex || data[i - c.minIndex] == c.dflt then Set(c, i, c.dflt + val, false, ratio)
        else
          var k := i - c.minIndex;
          c.(rep := Vect(data[k := data[k] + val]))
      case Hash(es) => AddToHash(c, i, val, ratio)
  }

  /** The hash map branch of `add`, which does drop a sum equal to the default value. */
  function AddToHash(c: Container<int>, i: nat, val: int, ratio: real): (r: Container<int>)
    requires Clean(c) && i < NoPos && c.rep.Hash?
    ensures Clean(r) && r.dflt == c.dflt
    ensures Get(r, i) == Get(c, i) + val
    ensures forall j :: j != i ==> Get(r, j) == Get(c, j)
    ensures Valid(c) ==> Valid(r) && r.count == c.count - (if Get(c, i) != c.dflt then 1 else 0)
                                                        + (if Get(c, i) + val != c.dflt then 1 else 0)
  {
    var es := c.rep.entries;
    match Lookup(es, i)
    case None => Set(c, i, c.dflt + val, false, ratio)
    case Some(x) =>
      LookupSpec(es, i);
      assert x != c.dflt by {
        var j :| 0 <= j < |es| && es[j] == (i, x);
      }
      if x + val == c.dflt then Clear(c, i, false)
      else
        var r := c.(rep := Hash(Store(es, i, x + val)));
        assert Clean(r) by {
          var es1 := r.rep.entries;
          forall j | 0 <= j < |es1| ensures es1[j].1 != c.dflt && es1[j].0 < NoPos {
            var y := es1[j];
            assert y in es || y == (i, x + val);
          }
        }
        r
  }

  /** On an empty container, adding 0 stores the default value and counts it. */
  lemma AddAsWrittenCountsZero()
    ensures Valid(Fresh(0))
    ensures !Valid(AddAsWritten(Fresh(0), 5, 0, 0.5))
  {
    var r := AddAsWritten(Fresh(0), 5, 0, 0.5);
    assert r.rep.data == [0];
    assert CountNot([0], 0) == 0 by {
      assert [0][..0] == [];
    }
  }

  /** A sum that comes back to the default value in the vector is still counted. */
  lemma AddAsWrittenKeepsCount()
    ensures Valid(Container(Vect([3]), 0, 5, 5, 1))
    ensures !Valid(AddAsWritten(Container(Vect([3]), 0, 5, 5, 1), 5, -3, 0.5))
  {
    var c := Container(Vect([3]), 0, 5, 5, 1);
    assert CountNot([3], 0) == 1 by {
      assert [3][..0] == [];
    }
    var r := AddAsWritten(c, 5, -3, 0.5);
    assert r.rep.data == [0];
    assert CountNot([0], 0) == 0 by {
      assert [0][..0] == [];
    }
  }

  /**
   `add(i, val)` with the count kept in every branch: the first value goes
   through `set`, and an in-place sum reaching the default value is
   dropped from the count, as the hash map branch already does.
   */
  function Add(c: Container<int>, i: nat, val: int, ratio: real): (r: Container<int>)
    requires Clean(c) && i < NoPos
    ensures Clean(r) && r.dflt == c.dflt
    ensures Get(r, i) == Get(c, i) + val
    ensures forall j :: j != i ==> Get(r, j) == Get(c, j)
    ensures Valid(c) ==> Valid(r) && r.count == c.count - (if Get(c, i) != c.dflt then 1 else 0)
                                                        + (if Get(c, i) + val != c.dflt then 1 else 0)
  {
    if c.maxIndex == NoPos then Set(c, i, c.dflt + val, false, ratio)
    else match c.rep
      case Vect(data) =>
        if i > c.maxIndex || i < c.minIndex || data[i - c.minIndex] == c.dflt then Set(c, i, c.dflt + val, false, ratio)
        else AddInPlace(c, i, val)
      case Hash(es) => AddToHash(c, i, val, ratio)
  }

  /** The vector branch of `add` for a non-default value inside the vector: summed in place. */
  function AddInPlace(c: Container<int>, i: nat, val: int): (r: Container<int>)
    requires Clean(c) && c.rep.Vect? && c.maxIndex != NoPos && c.minIndex <= i <= c.maxIndex
    requires Get(c, i) != c.dflt
    ensures Clean(r) && r.dflt == c.dflt
    ensures Get(r, i) == Get(c, i) + val
    ensures forall j :: j != i ==> Get(r, j) == Get(c, j)
    ensures Valid(c) ==> Valid(r) && r.count == c.count - 1 + (if Get(c, i) + val != c.dflt then 1 else 0)
  {
    var data := c.rep.data;
    var k := i - c.minIndex;
    CountNotUpdate(data, k, data[k] + val, c.dflt);
    c.(rep := Vect(data[k := data[k] + val]),
       count := if data[k] + val == c.dflt then c.count - 1 else c.count)
  }

  /**
   `invertBooleanValue(i)`: the value read at `i` flips, and the count
   moves by one in the direction of the new value.
   */
  function InvertBooleanValue(c: Container<bool>, i: nat): (r: Container<bool>)
    requires Clean(c) && i < NoPos
    ensures Clean(r) && r.dflt == c.dflt
    ensures Get(r, i) == !Get(c, i)
    ensures forall j :: j != i ==> Get(r, j) == Get(c, j)
    ensures r.count == c.count + (if Get(c, i) != c.dflt then -1 else 1)
    ensures Valid(c) ==> Valid(r)
  {
    match c.rep
    case Vect(data) =>
      if i > c.maxIndex || i < c.minIndex then VectSet(c, i, !c.dflt) else Flip(c, i)
    case Hash(es) =>
      if Lookup(es, i).Some? then Clear(c, i, false)
      else HashInsert(c, i)
  }

  /** The hash map branch of `invertBooleanValue` for an index with no entry: the indices stay as they are. */
  function HashInsert(c: Container<bool>, i: nat): (r: Container<bool>)
    requires Clean(c) && c.rep.Hash? && Lookup(c.rep.entries, i).None? && i < NoPos
    ensures Clean(r) && r.rep.Hash? && r.dflt == c.dflt
    ensures r.minIndex == c.minIndex && r.maxIndex == c.maxIndex
    ensures Get(r, i) == !c.dflt
    ensures forall j :: j != i ==> Get(r, j) == Get(c, j)
    ensures r.count == c.count + 1
    ensures Valid(c) ==> Valid(r)
  {
    var es := c.rep.entries;
    LookupSpec(es, i);
    var es1 := Store(es, i, !c.dflt);
    var r := c.(rep := Hash(es1), count := c.count + 1);
    assert forall j :: 0 <= j < |es1| ==> es1[j].1 != c.dflt && es1[j].0 < NoPos by {
      forall j | 0 <= j < |es1| ensures es1[j].1 != c.dflt && es1[j].0 < NoPos {
        var x := es1[j];
        assert x in es || x == (i, !c.dflt);
      }
    }
    r
  }

  /** The in-range branch of `invertBooleanValue` on the vector. */
  function Flip(c: Container<bool>, i: nat): (r: Container<bool>)
    requires Shaped(c) && c.rep.Vect? && c.minIndex <= i <= c.maxIndex < NoPos
    ensures Shaped(r) && r.rep.Vect? && r.dflt == c.dflt
    ensures Get(r, i) == !Get(c, i)
    ensures forall j :: j != i ==> Get(r, j) == Get(c, j)
    ensures r.count == c.count + (if Get(c, i) != c.dflt then -1 else 1)
    ensures Valid(c) ==> Valid(r)
  {
    var data := c.rep.data;
    var k := i - c.minIndex;
    CountNotUpdate(data, k, !data[k], c.dflt);
    c.(rep := Vect(data[k := !data[k]]), count := if data[k] != c.dflt then c.count - 1 else c.count + 1)
  }

  /** `numberOfNonDefaultValues`. */
  function NumberOfNonDefaultValues<V>(c: Container<V>): int
  {
    c.count
  }

  /**
   In a valid container the count is the number of indices `findAll`
   lists as holding a value other than the default one.
   */
  lemma CountListsNonDefault<V>(c: Container<V>)
    requires Valid(c)
    ensures FindAll(c, c.dflt, false).Some?
    ensures |FindAll(c, c.dflt, false).value| == NumberOfNonDefaultValues(c)
  {
    match c.rep
    case Vect(data) =>
      MatchingCounts(data, c.minIndex, c.dflt);
    case Hash(es) =>
      MatchingKeysAll(es, c.dflt);
  }

  lemma {:induction false} MatchingCounts<V>(data: seq<V>, base: nat, d: V)
    ensures |Matching(data, base, d, false)| == CountNot(data, d)
  {
    if |data| > 0 {
      MatchingCounts(data[..|data| - 1], base, d);
    }
  }

  lemma {:induction false} MatchingKeysAll<V>(es: Entries<V>, d: V)
    requires forall j :: 0 <= j < |es| ==> es[j].1 != d
    ensures |MatchingKeys(es, d, false)| == |es|
  {
    if |es| > 0 {
      MatchingKeysAll(es[1..], d);
    }
  }
}
