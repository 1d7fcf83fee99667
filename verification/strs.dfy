/**
 String helpers with the semantics of Python's `str` methods and C++'s
 `std::string` members, as used throughout the model. Strings are sequences
 of characters; no encoding is implied.
 */
module Strs {

  /** `pat` occurs in `s` starting at index `i`. */
  predicate OccursAt(s: string, pat: string, i: int)
  {
    0 <= i && i + |pat| <= |s| && s[i..i + |pat|] == pat
  }

  predicate Contains(s: string, pat: string)
  {
    exists i :: 0 <= i <= |s| && OccursAt(s, pat, i)
  }

  predicate StartsWith(s: string, prefix: string)
  {
    |prefix| <= |s| && s[..|prefix|] == prefix
  }

  /** A prefix stays a prefix whatever is appended. */
  lemma StartsWithExtended(s: string, prefix: string, u: string)
    requires StartsWith(s, prefix)
    ensures StartsWith(s + u, prefix)
  {
    assert (s + u)[..|prefix|] == s[..|prefix|];
  }

  predicate EndsWith(s: string, suffix: string)
  {
    |suffix| <= |s| && s[|s| - |suffix|..] == suffix
  }

  /**
   The first occurrence of `pat` in `s` at or after `from`, or -1: Python's
   `s.find(pat, from)` and, with `npos` read as -1, C++'s `s.find(pat, from)`.
   */
  function FindFrom(s: string, pat: string, from: nat): (r: int)
    ensures r == -1 || (from <= r && OccursAt(s, pat, r))
    ensures r == -1 ==> forall i :: from <= i ==> !OccursAt(s, pat, i)
    ensures r >= 0 ==> forall i :: from <= i < r ==> !OccursAt(s, pat, i)
    decreases |s| - from
  {
    if from + |pat| > |s| then -1
    else if s[from..from + |pat|] == pat then from
    else FindFrom(s, pat, from + 1)
  }

  function Find(s: string, pat: string): (r: int)
    ensures r == -1 <==> !Contains(s, pat)
    ensures r >= 0 ==> OccursAt(s, pat, r) && forall i :: 0 <= i < r ==> !OccursAt(s, pat, i)
  {
    FindFrom(s, pat, 0)
  }

  /** The last occurrence of `pat` in `s`, or -1 (Python's `rfind`). */
  function RFind(s: string, pat: string): (r: int)
    ensures r == -1 <==> !Contains(s, pat)
    ensures r >= 0 ==> OccursAt(s, pat, r) && forall i :: r < i ==> !OccursAt(s, pat, i)
  {
    RFindBelow(s, pat, |s| - |pat|)
  }

  function RFindBelow(s: string, pat: string, hi: int): (r: int)
    requires hi <= |s| - |pat|
    ensures r == -1 || (0 <= r <= hi && OccursAt(s, pat, r))
    ensures r == -1 ==> forall i :: i <= hi ==> !OccursAt(s, pat, i)
    ensures forall i :: r < i <= hi ==> !OccursAt(s, pat, i)
    decreases hi + 1
  {
    if hi < 0 then -1
    else if s[hi..hi + |pat|] == pat then hi
    else RFindBelow(s, pat, hi - 1)
  }

  /**
   Python's `s.replace(pat, rep)`: every leftmost, non-overlapping occurrence
   of the non-empty `pat` is replaced by `rep`.
   */
  function ReplaceAll(s: string, pat: string, rep: string): (r: string)
    requires |pat| > 0
    ensures !Contains(s, pat) ==> r == s
    decreases |s|
  {
    if |s| < |pat| then s
    else if s[..|pat|] == pat then
      assert OccursAt(s, pat, 0);
      rep + ReplaceAll(s[|pat|..], pat, rep)
    else
      var rest := ReplaceAll(s[1..], pat, rep);
      assert !Contains(s, pat) ==> !Contains(s[1..], pat) by {
        forall i | OccursAt(s[1..], pat, i) ensures OccursAt(s, pat, i + 1) {
          assert s[i + 1..i + 1 + |pat|] == s[1..][i..i + |pat|];
        }
      }
      [s[0]] + rest
  }

  /**
   Python's `s.replace(pat, rep, 1)` and the `find` + `replace` idiom of C++:
   only the first occurrence of `pat` is replaced.
   */
  function ReplaceFirst(s: string, pat: string, rep: string): (r: string)
    ensures Find(s, pat) == -1 ==> r == s
    ensures Find(s, pat) >= 0 ==>
              var p := Find(s, pat);
              r == s[..p] + rep + s[p + |pat|..]
  {
    var p := Find(s, pat);
    if p < 0 then s else s[..p] + rep + s[p + |pat|..]
  }

  /** Only the first occurrence is replaced: a later one is still there, shifted by the difference in length. */
  lemma ReplaceFirstKeepsLater(s: string, pat: string, rep: string, q: int)
    requires OccursAt(s, pat, q) && Find(s, pat) >= 0 && q >= Find(s, pat) + |pat|
    ensures OccursAt(ReplaceFirst(s, pat, rep), pat, q - |pat| + |rep|)
  {
    var p := Find(s, pat);
    var head := s[..p] + rep;
    var tail := s[p + |pat|..];
    OccursInSuffix(s, pat, q, p + |pat|);
    OccursAfter(head, tail, pat, q - p - |pat|);
    assert ReplaceFirst(s, pat, rep) == head + tail;
  }

  /** An occurrence at or after `from` is one in `s[from..]`, moved left by `from`. */
  lemma OccursInSuffix(s: string, pat: string, q: int, from: nat)
    requires OccursAt(s, pat, q) && from <= q
    ensures OccursAt(s[from..], pat, q - from)
  {
    assert s[from..][q - from..q - from + |pat|] == s[q..q + |pat|];
  }

  /** An occurrence in `tail` is one in `head + tail`, moved right by `|head|`. */
  lemma OccursAfter(head: string, tail: string, pat: string, k: int)
    requires OccursAt(tail, pat, k)
    ensures OccursAt(head + tail, pat, |head| + k)
  {
    assert (head + tail)[|head| + k..|head| + k + |pat|] == tail[k..k + |pat|];
  }

  /** Every occurrence of the character `c` replaced by `d`. */
  function MapChar(s: string, c: char, d: char): (r: string)
    ensures |r| == |s|
    ensures forall i :: 0 <= i < |s| ==> r[i] == if s[i] == c then d else s[i]
  {
    seq(|s|, i requires 0 <= i < |s| => if s[i] == c then d else s[i])
  }
  /** No occurrence of `pat` starts inside `a`, so replacing in `a + b` leaves `a` as it is. */
  lemma {:induction false} ReplaceAllSkip(a: string, b: string, pat: string, rep: string)
    requires |pat| > 0
    requires forall i :: 0 <= i < |a| ==> !OccursAt(a + b, pat, i)
    ensures ReplaceAll(a + b, pat, rep) == a + ReplaceAll(b, pat, rep)
    decreases |a|
  {
    var s := a + b;
    if |a| == 0 {
      assert s == b;
    } else if |s| >= |pat| {
      var a' := a[1..];
      assert s[1..] == a' + b;
      OccursShift(s, pat, |a|);
      ReplaceAllSkip(a', b, pat, rep);
      assert !OccursAt(s, pat, 0);
      ReplaceAllHead(a, b, pat, rep);
    }
  }

  /**
   Without an occurrence at the front, the first character is kept and the
   replacing goes on from the second; so what holds of `a[1..] + b` holds
   of `a + b` with `a[0]` in front.
   */
  lemma ReplaceAllHead(a: string, b: string, pat: string, rep: string)
    requires |pat| > 0 && |a| > 0 && |a + b| >= |pat| && !OccursAt(a + b, pat, 0)
    requires ReplaceAll(a[1..] + b, pat, rep) == a[1..] + ReplaceAll(b, pat, rep)
    ensures ReplaceAll(a + b, pat, rep) == a + ReplaceAll(b, pat, rep)
  {
    var s := a + b;
    var x, y, t := ReplaceAll(s, pat, rep), ReplaceAll(s[1..], pat, rep), ReplaceAll(b, pat, rep);
    assert x == [a[0]] + y by {
      ReplaceAllKeep(s, pat, rep);
    }
    assert y == a[1..] + t by {
      TailOfJoin(a, b);
    }
    ConsTail(x, y, a, t);
  }

  /** Dropping the first item of `a + b`, with `a` non-empty, drops it from `a`. */
  lemma TailOfJoin<T>(a: seq<T>, b: seq<T>)
    requires |a| > 0
    ensures (a + b)[1..] == a[1..] + b
  {
  }

  /** `x` is `a[0]` before `y`, and `y` is the rest of `a` before `t`: then `x` is `a` before `t`. */
  lemma ConsTail<T>(x: seq<T>, y: seq<T>, a: seq<T>, t: seq<T>)
    requires |a| > 0 && x == [a[0]] + y && y == a[1..] + t
    ensures x == a + t
  {
    assert [a[0]] + a[1..] == a;
  }

  /** No occurrence at the front: the first character is kept. */
  lemma ReplaceAllKeep(s: string, pat: string, rep: string)
    requires |pat| > 0 && |s| >= |pat| && !OccursAt(s, pat, 0)
    ensures ReplaceAll(s, pat, rep) == [s[0]] + ReplaceAll(s[1..], pat, rep)
  {
    assert s[0..|pat|] == s[..|pat|];
  }

  /** Occurrences in `s[1..]` are the occurrences in `s` moved one to the left. */
  lemma OccursShift(s: string, pat: string, n: int)
    requires |s| > 0
    requires forall i :: 0 <= i < n ==> !OccursAt(s, pat, i)
    ensures forall i :: 0 <= i < n - 1 ==> !OccursAt(s[1..], pat, i)
  {
    forall i | 0 <= i < n - 1 ensures !OccursAt(s[1..], pat, i) {
      assert !OccursAt(s, pat, i + 1);
      if i + |pat| <= |s| - 1 {
        assert s[i + 1..i + 1 + |pat|] == s[1..][i..i + |pat|];
      }
    }
  }

  /** An occurrence at the very start is replaced and the scan resumes after it. */
  lemma ReplaceAllLead(b: string, pat: string, rep: string)
    requires |pat| > 0
    ensures ReplaceAll(pat + b, pat, rep) == rep + ReplaceAll(b, pat, rep)
  {
    assert (pat + b)[..|pat|] == pat;
    assert (pat + b)[|pat|..] == b;
  }

  /** A pattern that starts with `c` cannot occur in a string free of `c`. */
  lemma AbsentLead(s: string, pat: string, c: char)
    requires |pat| > 0 && pat[0] == c && c !in s
    ensures !Contains(s, pat)
  {
    forall i | 0 <= i <= |s| ensures !OccursAt(s, pat, i) {
      if i < |s| {
        assert s[i] in s;
      }
    }
  }

  /** The first occurrence at or after `from` is the one at `q` when nothing earlier matches. */
  lemma FindFromAt(s: string, pat: string, from: nat, q: int)
    requires from <= q && OccursAt(s, pat, q)
    requires forall i :: from <= i < q ==> !OccursAt(s, pat, i)
    ensures FindFrom(s, pat, from) == q
  {
  }

  /** A pattern holding a character that `s` lacks cannot occur in `s`. */
  lemma AbsentChar(s: string, pat: string, c: char)
    requires c in pat && c !in s
    ensures !Contains(s, pat)
  {
    var j :| 0 <= j < |pat| && pat[j] == c;
    forall i | 0 <= i <= |s| ensures !OccursAt(s, pat, i) {
      if i + |pat| <= |s| {
        assert s[i..i + |pat|][j] == s[i + j];
        assert s[i + j] in s;
      }
    }
  }

  /** Mapping a character that is absent changes nothing. */
  lemma MapCharAbsent(s: string, c: char, d: char)
    requires c !in s
    ensures MapChar(s, c, d) == s
  {
    forall i | 0 <= i < |s| ensures MapChar(s, c, d)[i] == s[i] {
      assert s[i] in s;
    }
  }
}
