/**
 The iterator helpers of Iterator.h. A Talipot iterator is modelled by the
 finite sequence of elements it yields, in order; each helper drains it
 with `hasNext`/`next` as the source does.
 */
module Iterators {

  /** `iteratorCount`: how many elements are yielded. */
  method IteratorCount<T>(it: seq<T>) returns (count: nat)
    ensures count == |it|
  {
    count := 0;
    while count < |it|
      invariant count <= |it|
    {
      count := count + 1;
    }
  }

  /**
   `iteratorCountCheck(it, n)`: whether at least `n` elements are yielded.
   The count is compared only after being incremented, so `n == 0` is
   never reached and the answer is then false.
   */
  method IteratorCountCheck<T>(it: seq<T>, minNbElements: nat) returns (r: bool)
    ensures r <==> minNbElements >= 1 && |it| >= minNbElements
  {
    var count := 0;
    var i := 0;
    while i < |it|
      invariant 0 <= i <= |it| && count == i
      invariant minNbElements >= 1 ==> i < minNbElements
    {
      count := count + 1;
      if count == minNbElements {
        return true;
      }
      i := i + 1;
    }
    return false;
  }

  /** `iteratorEmpty`: no element is yielded. */
  method IteratorEmpty<T>(it: seq<T>) returns (r: bool)
    ensures r <==> |it| == 0
  {
    var atLeastOne := IteratorCountCheck(it, 1);
    r := !atLeastOne;
  }

  /** The left fold over a sequence, the reference `iteratorReduce` is held to. */
  function FoldLeft<A, T>(f: (A, T) -> A, init: A, s: seq<T>): A
  {
    if |s| == 0 then init else f(FoldLeft(f, init, s[..|s| - 1]), s[|s| - 1])
  }

  /** `iteratorReduce(it, initVal, f)`: the accumulated value, element by element. */
  method IteratorReduce<A, T>(it: seq<T>, initVal: A, f: (A, T) -> A) returns (val: A)
    ensures val == FoldLeft(f, initVal, it)
  {
    val := initVal;
    var i := 0;
    while i < |it|
      invariant 0 <= i <= |it|
      invariant val == FoldLeft(f, initVal, it[..i])
    {
      assert it[..i + 1][..i] == it[..i];
      val := f(val, it[i]);
      i := i + 1;
    }
    assert it[..i] == it;
  }

  /** `iteratorVector` and `iteratorList`: the elements, in order. */
  method IteratorVector<T>(it: seq<T>) returns (ret: seq<T>)
    ensures |ret| == |it|
    ensures forall k :: 0 <= k < |ret| ==> ret[k] == it[k]
  {
    ret := [];
    while |ret| < |it|
      invariant |ret| <= |it|
      invariant forall k :: 0 <= k < |ret| ==> ret[k] == it[k]
    {
      ret := ret + [it[|ret|]];
    }
  }

  /** `iteratorSet`: the set of the elements yielded. */
  method IteratorSet<T>(it: seq<T>) returns (ret: set<T>)
    ensures forall x :: x in ret <==> x in it
  {
    ret := {};
    var i := 0;
    while i < |it|
      invariant 0 <= i <= |it|
      invariant forall x :: x in ret <==> x in it[..i]
    {
      assert it[..i + 1] == it[..i] + [it[i]];
      ret := ret + {it[i]};
      i := i + 1;
    }
    assert it[..i] == it;
  }

  /** Summing by `iteratorReduce` counts the elements, as `iteratorCount` does. */
  lemma {:induction false} ReduceCounts<T>(it: seq<T>)
    ensures FoldLeft((n: int, _: T) => n + 1, 0, it) == |it|
  {
    if |it| > 0 {
      ReduceCounts(it[..|it| - 1]);
    }
  }
}
