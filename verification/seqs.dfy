/**
 Order-preserving sequence filters shared by the list rules of the
 settings, of the parallel-coordinates view and of the GL composite
 (`std::list::remove`, `QList::removeAll`).
 */
module Seqs {

  /** `a` is `b` with some entries deleted, the rest in their order. */
  predicate SubseqOf<T(==)>(a: seq<T>, b: seq<T>)
    decreases |b|
  {
    if |a| == 0 then true
    else if |b| == 0 then false
    else if a[0] == b[0] then SubseqOf(a[1..], b[1..])
    else SubseqOf(a, b[1..])
  }

  lemma {:induction false} SubseqRefl<T>(s: seq<T>)
    ensures SubseqOf(s, s)
    decreases |s|
  {
    if |s| > 0 {
      SubseqRefl(s[1..]);
    }
  }

  /** A prefix of a subsequence is a subsequence. */
  lemma {:induction false} SubseqPrefix<T>(a: seq<T>, b: seq<T>, k: nat)
    requires SubseqOf(a, b) && k <= |a|
    ensures SubseqOf(a[..k], b)
    decreases |b|
  {
    if k > 0 && |b| > 0 {
      if a[0] == b[0] {
        assert a[..k][1..] == a[1..][..k - 1];
        SubseqPrefix(a[1..], b[1..], k - 1);
      } else {
        SubseqPrefix(a, b[1..], k);
      }
    }
  }

  /** A non-empty sequence is its front followed by its last entry. */
  lemma ButLastSnoc<T>(s: seq<T>)
    requires |s| > 0
    ensures s == s[..|s| - 1] + [s[|s| - 1]]
  {
  }

  /** No entry occurs twice. */
  predicate Distinct<T(==)>(s: seq<T>)
  {
    forall i, j :: 0 <= i < j < |s| ==> s[i] != s[j]
  }

  /** Appending an entry not yet present keeps a sequence free of repeats. */
  lemma DistinctSnoc<T>(s: seq<T>, x: T)
    requires Distinct(s) && x !in s
    ensures Distinct(s + [x])
  {
    var r := s + [x];
    forall i, j | 0 <= i < j < |r| ensures r[i] != r[j] {
      assert r[i] == s[i];
      if j < |s| {
        assert r[j] == s[j];
      }
    }
  }

  /** `b` with every `x` deleted. */
  function Without<T(==,!new)>(b: seq<T>, x: T): (r: seq<T>)
    ensures forall y :: y in r <==> y in b && y != x
    ensures SubseqOf(r, b) && |r| == |b| - multiset(b)[x]
    ensures x !in b ==> r == b
  {
    if |b| == 0 then []
    else
      assert b == [b[0]] + b[1..];
      var t := Without(b[1..], x);
      if b[0] == x then
        assert |t| == 0 || t[0] != b[0];
        t
      else
        assert ([b[0]] + t)[1..] == t;
        [b[0]] + t
  }

  /** Deleting entries keeps a sequence free of repeats. */
  lemma {:induction false} WithoutDistinct<T(!new)>(b: seq<T>, x: T)
    requires Distinct(b)
    ensures Distinct(Without(b, x))
    decreases |b|
  {
    if |b| > 0 {
      assert Distinct(b[1..]) by {
        forall i, j | 0 <= i < j < |b[1..]| ensures b[1..][i] != b[1..][j] {
          assert b[1..][i] == b[i + 1] && b[1..][j] == b[j + 1];
        }
      }
      WithoutDistinct(b[1..], x);
      var t := Without(b[1..], x);
      if b[0] != x {
        assert b == [b[0]] + b[1..];
        assert b[0] !in b[1..] by {
          forall k | 0 <= k < |b[1..]| ensures b[1..][k] != b[0] {
            assert b[1..][k] == b[k + 1];
          }
        }
        var r := [b[0]] + t;
        assert Without(b, x) == r;
        forall i, j | 0 <= i < j < |r| ensures r[i] != r[j] {
          assert r[j] == t[j - 1] && r[j] in t;
          if i > 0 {
            assert r[i] == t[i - 1];
          }
        }
      }
    }
  }

  /** Deleting an entry appended to a sequence without it gives the sequence back. */
  lemma {:induction false} WithoutSnoc<T(!new)>(b: seq<T>, x: T)
    requires x !in b
    ensures Without(b + [x], x) == b
    decreases |b|
  {
    if |b| > 0 {
      assert (b + [x])[1..] == b[1..] + [x];
      WithoutSnoc(b[1..], x);
      assert b == [b[0]] + b[1..];
    }
  }

  /** `b` with only the entries in `keep`. */
  function KeepIn<T(==,!new)>(b: seq<T>, keep: set<T>): (r: seq<T>)
    ensures forall y :: y in r <==> y in b && y in keep
    ensures SubseqOf(r, b)
    ensures (forall y :: y in b ==> y in keep) ==> r == b
  {
    if |b| == 0 then []
    else
      assert b == [b[0]] + b[1..];
      var t := KeepIn(b[1..], keep);
      if b[0] in keep then
        assert ([b[0]] + t)[1..] == t;
        [b[0]] + t
      else
        assert |t| == 0 || t[0] != b[0];
        t
  }

  /** Filtering keeps every kept entry as often as `b` holds it, and no other. */
  lemma {:induction false} KeepInCounts<T(!new)>(b: seq<T>, keep: set<T>)
    ensures forall y :: multiset(KeepIn(b, keep))[y] == if y in keep then multiset(b)[y] else 0
    decreases |b|
  {
    if |b| > 0 {
      KeepInCounts(b[1..], keep);
      assert b == [b[0]] + b[1..];
      assert multiset(b) == multiset{b[0]} + multiset(b[1..]);
      if b[0] in keep {
        assert multiset(KeepIn(b, keep)) == multiset{b[0]} + multiset(KeepIn(b[1..], keep));
      }
    }
  }

  /** The position of the first `x` in `s` (`std::find`). */
  function IndexOf<T(==)>(s: seq<T>, x: T): (k: nat)
    requires x in s
    ensures k < |s| && s[k] == x && x !in s[..k]
  {
    if s[0] == x then 0
    else
      var k := IndexOf(s[1..], x) + 1;
      assert s[..k] == [s[0]] + s[1..][..k - 1];
      k
  }

  /**
   `SGraphIdContainer::remove`: the last element is moved into the place
   of `x` and the sequence shrinks by one.
   */
  function SwapRemove<T(==,!new)>(s: seq<T>, x: T): (r: seq<T>)
    requires x in s
    ensures |r| == |s| - 1
    ensures Distinct(s) ==> Distinct(r) && forall y :: y in r <==> y in s && y != x
    ensures s[|s| - 1] == x && Distinct(s) ==> r == s[..|s| - 1]
  {
    var i := IndexOf(s, x);
    var last := |s| - 1;
    var r := if i < last then s[..last][i := s[last]] else s[..last];
    assert Distinct(s) ==> Distinct(r) && forall y :: y in r <==> y in s && y != x by {
      if Distinct(s) {
        forall y ensures y in r <==> y in s && y != x {
          if y in r {
            var k :| 0 <= k < |r| && r[k] == y;
            assert y == s[if k == i then last else k];
          }
          if y in s && y != x {
            var k :| 0 <= k < |s| && s[k] == y;
            assert k != i;
            assert y == r[if k == last then i else k];
          }
        }
      }
    }
    r
  }
}
