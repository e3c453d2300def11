/** Option and the order-preserving sequence filter shared by every component. */
module Seqs {

  /** Python's `None` or a present value. */
  datatype Option<+T> = None | Some(value: T)

  /** `a` is `b` with some elements deleted, the rest kept in their order. */
  predicate IsSubsequence<T(==)>(a: seq<T>, b: seq<T>)
    decreases |b|
  {
    if |a| == 0 then true
    else if |b| == 0 then false
    else if a[0] == b[0] then IsSubsequence(a[1..], b[1..])
    else IsSubsequence(a, b[1..])
  }

  lemma {:induction false} SubsequenceOfTail<T>(a: seq<T>, x: T, b: seq<T>)
    requires IsSubsequence(a, b)
    ensures IsSubsequence(a, [x] + b)
    decreases |b|, 1
  {
    if |a| == 0 {
    } else if a[0] == x {
      assert ([x] + b)[1..] == b;
      SubsequenceDropHead(a, b);
    } else {
      assert ([x] + b)[1..] == b;
    }
  }

  lemma {:induction false} SubsequenceDropHead<T>(a: seq<T>, b: seq<T>)
    requires |a| > 0 && IsSubsequence(a, b)
    ensures IsSubsequence(a[1..], b)
    decreases |b|, 0
  {
    if a[0] == b[0] {
      if |a[1..]| > 0 {
        SubsequenceOfTail(a[1..], b[0], b[1..]);
        assert [b[0]] + b[1..] == b;
      }
    } else {
      SubsequenceDropHead(a, b[1..]);
      if |a[1..]| > 0 {
        SubsequenceOfTail(a[1..], b[0], b[1..]);
        assert [b[0]] + b[1..] == b;
      }
    }
  }

  /** The list comprehension `[x for x in s if keep(x)]`. */
  function Filter<T>(keep: T -> bool, s: seq<T>): (r: seq<T>)
    ensures |r| <= |s|
    ensures IsSubsequence(r, s)
    ensures forall k :: 0 <= k < |r| ==> keep(r[k])
    ensures forall k :: 0 <= k < |s| && keep(s[k]) ==> s[k] in r
    ensures forall x :: x in r ==> x in s
    ensures forall x | x in s :: multiset(r)[x] == if keep(x) then multiset(s)[x] else 0
    decreases |s|
  {
    if |s| == 0 then []
    else
      var rest := Filter(keep, s[1..]);
      FilterConsOrder(keep, s, rest);
      FilterConsCount(keep, s, rest);
      if keep(s[0]) then [s[0]] + rest else rest
  }

  /** One step of the comprehension keeps the result an order-preserving
      selection of the chosen elements. */
  lemma FilterConsOrder<T>(keep: T -> bool, s: seq<T>, rest: seq<T>)
    requires |s| > 0
    requires |rest| <= |s| - 1 && IsSubsequence(rest, s[1..])
    requires forall k :: 0 <= k < |rest| ==> keep(rest[k])
    requires forall k :: 0 <= k < |s[1..]| && keep(s[1..][k]) ==> s[1..][k] in rest
    requires forall x :: x in rest ==> x in s[1..]
    ensures var r := if keep(s[0]) then [s[0]] + rest else rest;
      && |r| <= |s|
      && IsSubsequence(r, s)
      && (forall k :: 0 <= k < |r| ==> keep(r[k]))
      && (forall k :: 0 <= k < |s| && keep(s[k]) ==> s[k] in r)
      && (forall x :: x in r ==> x in s)
  {
    var r := if keep(s[0]) then [s[0]] + rest else rest;
    assert [s[0]] + s[1..] == s;
    if keep(s[0]) {
      assert r[1..] == rest;
    } else {
      SubsequenceOfTail(rest, s[0], s[1..]);
    }
    forall k | 1 <= k < |s| && keep(s[k])
      ensures s[k] in r
    {
      assert s[k] == s[1..][k - 1];
    }
  }

  /** One step of the comprehension keeps every chosen element as often as
      it occurs, and no other. */
  lemma FilterConsCount<T>(keep: T -> bool, s: seq<T>, rest: seq<T>)
    requires |s| > 0
    requires forall x :: x in rest ==> x in s[1..]
    requires forall x | x in s[1..] :: multiset(rest)[x] == if keep(x) then multiset(s[1..])[x] else 0
    ensures var r := if keep(s[0]) then [s[0]] + rest else rest;
      forall x | x in s :: multiset(r)[x] == if keep(x) then multiset(s)[x] else 0
  {
    var r := if keep(s[0]) then [s[0]] + rest else rest;
    assert [s[0]] + s[1..] == s;
    assert multiset(s) == multiset{s[0]} + multiset(s[1..]);
    assert multiset(r) == if keep(s[0]) then multiset{s[0]} + multiset(rest) else multiset(rest);
    forall x | x in s
      ensures multiset(r)[x] == if keep(x) then multiset(s)[x] else 0
    {
      if x !in s[1..] {
        assert x !in rest;
      }
    }
  }

  /** Two complementary filters split `s` without losing or duplicating an element. */
  lemma FilterPartition<T>(p: T -> bool, q: T -> bool, s: seq<T>)
    requires forall x :: x in s ==> p(x) != q(x)
    ensures multiset(Filter(p, s)) + multiset(Filter(q, s)) == multiset(s)
    ensures |Filter(p, s)| + |Filter(q, s)| == |s|
  {
    var a, b := Filter(p, s), Filter(q, s);
    forall x
      ensures (multiset(a) + multiset(b))[x] == multiset(s)[x]
    {
      if x !in s {
        assert x !in a && x !in b;
      }
    }
    assert multiset(a) + multiset(b) == multiset(s);
    assert |multiset(a) + multiset(b)| == |multiset(s)|;
  }

  /** One step of the comprehension: the head is kept exactly when chosen. */
  lemma FilterStep<T>(keep: T -> bool, s: seq<T>)
    requires |s| > 0
    ensures Filter(keep, s) == if keep(s[0]) then [s[0]] + Filter(keep, s[1..]) else Filter(keep, s[1..])
  {
  }

  /** A filter that keeps none of the elements returns the empty sequence. */
  lemma FilterNone<T>(keep: T -> bool, s: seq<T>)
    requires forall k :: 0 <= k < |s| ==> !keep(s[k])
    ensures Filter(keep, s) == []
  {
  }

  /** A filter that keeps every element returns the sequence unchanged. */
  lemma {:induction false} FilterAll<T>(keep: T -> bool, s: seq<T>)
    requires forall k :: 0 <= k < |s| ==> keep(s[k])
    ensures Filter(keep, s) == s
    decreases |s|
  {
    if |s| > 0 {
      var t := s[1..];
      forall k | 0 <= k < |t|
        ensures keep(t[k])
      {
        assert t[k] == s[k + 1];
      }
      FilterAll(keep, t);
      FilterStep(keep, s);
      assert s == [s[0]] + t;
    }
  }

  /** Filtering distributes over concatenation. */
  lemma {:induction false} FilterConcat<T>(keep: T -> bool, a: seq<T>, b: seq<T>)
    ensures Filter(keep, a + b) == Filter(keep, a) + Filter(keep, b)
    decreases |a|
  {
    if |a| == 0 {
      assert a + b == b;
    } else {
      FilterConcat(keep, a[1..], b);
      ConcatStep(keep, a, b);
    }
  }

  /** The induction step of `FilterConcat`: one more element in front of `a`. */
  lemma ConcatStep<T>(keep: T -> bool, a: seq<T>, b: seq<T>)
    requires |a| > 0
    requires Filter(keep, a[1..] + b) == Filter(keep, a[1..]) + Filter(keep, b)
    ensures Filter(keep, a + b) == Filter(keep, a) + Filter(keep, b)
  {
    ConsConcat(a, b);
    FilterStep(keep, a + b);
    FilterStep(keep, a);
    if keep(a[0]) {
      ConsAssoc(a[0], Filter(keep, a[1..]), Filter(keep, b));
    }
  }

  lemma ConsConcat<T>(a: seq<T>, b: seq<T>)
    requires |a| > 0
    ensures (a + b)[0] == a[0] && (a + b)[1..] == a[1..] + b
  {
  }

  lemma ConsAssoc<T>(x: T, u: seq<T>, v: seq<T>)
    ensures [x] + (u + v) == ([x] + u) + v
  {
  }

  /** Each element of `r` is `f` of some element of `s`. */
  ghost predicate MapsFrom<T, U>(f: T -> U, r: seq<U>, s: seq<T>) {
    forall k :: 0 <= k < |r| ==> exists j :: 0 <= j < |s| && r[k] == f(s[j])
  }

  /** Python's slice `s[:n]` for a non-negative bound. */
  function Take<T>(s: seq<T>, n: nat): (r: seq<T>)
    ensures |r| <= n && |r| <= |s|
    ensures |r| == |s| || |r| == n
    ensures forall k :: 0 <= k < |r| ==> r[k] == s[k]
  {
    if |s| <= n then s else s[..n]
  }
}
