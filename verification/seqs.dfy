/** Order-preserving selection and backward search over sequences (`Array.prototype.filter`, last match). */
module Seqs {

  /** `s.filter(p)`: the elements of `s` that satisfy `p`, in their original order. */
  function Filter<T>(s: seq<T>, p: T -> bool): (r: seq<T>)
    ensures |r| <= |s|
    ensures forall k :: 0 <= k < |r| ==> r[k] in s && p(r[k])
    ensures forall k :: 0 <= k < |s| && p(s[k]) ==> s[k] in r
    decreases |s|
  {
    if s == [] then []
    else (if p(s[0]) then [s[0]] else []) + Filter(s[1..], p)
  }

  /** Filtering a concatenation filters each part and keeps them in order. */
  lemma {:induction false} FilterConcat<T>(a: seq<T>, b: seq<T>, p: T -> bool)
    ensures Filter(a + b, p) == Filter(a, p) + Filter(b, p)
    decreases |a|
  {
    if a == [] {
      assert a + b == b;
    } else {
      assert (a + b)[0] == a[0];
      assert (a + b)[1..] == a[1..] + b;
      FilterConcat(a[1..], b, p);
    }
  }

  /** Filtering with a predicate every element satisfies changes nothing. */
  lemma {:induction false} FilterAll<T>(s: seq<T>, p: T -> bool)
    requires forall k :: 0 <= k < |s| ==> p(s[k])
    ensures Filter(s, p) == s
    decreases |s|
  {
    if s != [] {
      FilterAll(s[1..], p);
    }
  }

  /** Filtering keeps a strictly ascending key strictly ascending. */
  lemma {:induction false} FilterAscending<T>(s: seq<T>, p: T -> bool, key: T -> int)
    ensures (forall i, j :: 0 <= i < j < |s| ==> key(s[i]) < key(s[j])) ==>
      forall i, j :: 0 <= i < j < |Filter(s, p)| ==> key(Filter(s, p)[i]) < key(Filter(s, p)[j])
    decreases |s|
  {
    if s != [] && forall i, j :: 0 <= i < j < |s| ==> key(s[i]) < key(s[j]) {
      var tail := s[1..];
      FilterAscending(tail, p, key);
      forall x | x in Filter(tail, p)
        ensures key(s[0]) < key(x)
      {
        var m :| 0 <= m < |tail| && tail[m] == x;
        assert s[m + 1] == x;
      }
    }
  }

  /** The index of the last element of `s` that satisfies `p`, or -1 when there is none. */
  function LastMatch<T>(s: seq<T>, p: T -> bool): (r: int)
    ensures -1 <= r < |s|
    ensures r >= 0 ==> p(s[r])
    ensures forall j :: r < j < |s| ==> !p(s[j])
    decreases |s|
  {
    if s == [] then -1
    else if p(s[|s| - 1]) then |s| - 1
    else LastMatch(s[..|s| - 1], p)
  }
}
