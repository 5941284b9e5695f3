/** Order-preserving filtering over sequences, the one collection operation
    every list edit of the platform is built from (`Array.prototype.filter`). */
module Seqs {
  import opened Types

  /** The elements of `s` that satisfy `p`, in their original order. */
  function Filter<T(!new)>(s: seq<T>, p: T -> bool): (r: seq<T>)
    ensures |r| <= |s|
    ensures forall x :: x in r <==> x in s && p(x)
  {
    if s == [] then []
    else if p(s[0]) then [s[0]] + Filter(s[1..], p)
    else Filter(s[1..], p)
  }

  /** Filtering keeps every satisfying element as often as it occurred and
      drops every other one. */
  lemma {:induction false} FilterMultiset<T(!new)>(s: seq<T>, p: T -> bool, x: T)
    ensures multiset(Filter(s, p))[x] == if p(x) then multiset(s)[x] else 0
  {
    if s != [] {
      assert s == [s[0]] + s[1..];
      FilterMultiset(s[1..], p, x);
    }
  }

  /** Filtering distributes over concatenation: the kept elements of a prefix
      come before the kept elements of the rest, so relative order survives. */
  lemma {:induction false} FilterAppend<T(!new)>(a: seq<T>, b: seq<T>, p: T -> bool)
    ensures Filter(a + b, p) == Filter(a, p) + Filter(b, p)
  {
    if a == [] {
      assert a + b == b;
    } else {
      assert (a + b)[1..] == a[1..] + b;
      FilterAppend(a[1..], b, p);
    }
  }

  /** Filtering with a predicate every element satisfies changes nothing. */
  lemma {:induction false} FilterAll<T(!new)>(s: seq<T>, p: T -> bool)
    requires forall i :: 0 <= i < |s| ==> p(s[i])
    ensures Filter(s, p) == s
  {
    if s != [] {
      FilterAll(s[1..], p);
    }
  }

  /** Filtering with a predicate no element satisfies leaves nothing. */
  lemma {:induction false} FilterNone<T(!new)>(s: seq<T>, p: T -> bool)
    requires forall i :: 0 <= i < |s| ==> !p(s[i])
    ensures Filter(s, p) == []
  {
    if s != [] {
      FilterNone(s[1..], p);
    }
  }

  /** A predicate and its negation split a sequence: the two filtered lengths
      add up to the whole. */
  lemma {:induction false} FilterSplit<T(!new)>(s: seq<T>, p: T -> bool, q: T -> bool)
    requires forall x :: q(x) == !p(x)
    ensures |Filter(s, p)| + |Filter(s, q)| == |s|
  {
    if s != [] {
      FilterSplit(s[1..], p, q);
    }
  }

  /** Filtering twice with the same predicate is the same as filtering once. */
  lemma {:induction false} FilterIdempotent<T(!new)>(s: seq<T>, p: T -> bool)
    ensures Filter(Filter(s, p), p) == Filter(s, p)
  {
    var r := Filter(s, p);
    assert forall i :: 0 <= i < |r| ==> r[i] in r;
    FilterAll(r, p);
  }

  /** Filtering a three-part concatenation filters each part. */
  lemma FilterAppend3<T(!new)>(a: seq<T>, x: seq<T>, b: seq<T>, p: T -> bool)
    ensures Filter(a + x + b, p) == Filter(a, p) + Filter(x, p) + Filter(b, p)
  {
    FilterAppend(a + x, b, p);
    FilterAppend(a, x, p);
  }

  /** Removing the element at `k` removes it from the filtered sequence too,
      and nothing else. */
  lemma {:induction false} FilterRemoveAt<T(!new)>(s: seq<T>, k: int, p: T -> bool)
    requires 0 <= k < |s|
    ensures Filter(s[..k] + s[k + 1..], p) == Filter(s[..k], p) + Filter(s[k + 1..], p)
    ensures Filter(s, p) == Filter(s[..k], p) + Filter([s[k]], p) + Filter(s[k + 1..], p)
  {
    var a, x, b := s[..k], [s[k]], s[k + 1..];
    FilterAppend(a, b, p);
    SplitAt(s, k);
    FilterAppend3(a, x, b, p);
  }

  /** A sequence is its prefix, the element at `k` and its suffix. */
  lemma SplitAt<T>(s: seq<T>, k: int)
    requires 0 <= k < |s|
    ensures s == s[..k] + [s[k]] + s[k + 1..]
  {
  }

  /** `Array.prototype.some`. */
  predicate Exists<T>(s: seq<T>, p: T -> bool) {
    exists i :: 0 <= i < |s| && p(s[i])
  }

  /** `Array.prototype.findIndex`: the position of the first element
      satisfying `p`, or -1 when there is none. */
  function FindIndex<T>(s: seq<T>, p: T -> bool): (r: int)
    ensures -1 <= r < |s|
    ensures r == -1 <==> !Exists(s, p)
    ensures r >= 0 ==> p(s[r]) && forall j :: 0 <= j < r ==> !p(s[j])
  {
    if s == [] then -1
    else if p(s[0]) then 0
    else
      var k := FindIndex(s[1..], p);
      assert forall i :: 0 < i < |s| ==> s[i] == s[1..][i - 1];
      if k == -1 then -1 else k + 1
  }

  /** `Array.prototype.find`: the first element satisfying `p`. */
  function Find<T>(s: seq<T>, p: T -> bool): (r: Option<T>)
    ensures r.None? <==> !Exists(s, p)
    ensures r.Some? ==> p(r.value) && r.value in s
    ensures r.Some? ==> r.value == s[FindIndex(s, p)]
  {
    var k := FindIndex(s, p);
    if k < 0 then None else Some(s[k])
  }

  /** `find` looks at the head first and otherwise searches the tail. */
  lemma FindCons<T>(s: seq<T>, p: T -> bool)
    requires s != []
    ensures Find(s, p) == if p(s[0]) then Some(s[0]) else Find(s[1..], p)
  {
    if !p(s[0]) {
      var k := FindIndex(s[1..], p);
      if k >= 0 {
        assert s[k + 1] == s[1..][k];
      }
    }
  }

  /** The first match of a concatenation lies in the first part if it has
      one there, and is otherwise shifted past it. */
  lemma FindIndexAppend<T>(a: seq<T>, b: seq<T>, p: T -> bool)
    ensures Exists(a, p) ==> FindIndex(a + b, p) == FindIndex(a, p)
    ensures !Exists(a, p) && Exists(b, p) ==> FindIndex(a + b, p) == |a| + FindIndex(b, p)
    ensures !Exists(a, p) && !Exists(b, p) ==> FindIndex(a + b, p) == -1
  {
    var r := FindIndex(a + b, p);
    if Exists(a, p) {
      var i := FindIndex(a, p);
      assert (a + b)[i] == a[i];
      assert forall j :: 0 <= j < i ==> (a + b)[j] == a[j];
    } else if Exists(b, p) {
      var i := FindIndex(b, p);
      assert (a + b)[|a| + i] == b[i];
      assert forall j :: 0 <= j < |a| ==> (a + b)[j] == a[j];
      assert forall j :: |a| <= j < |a| + i ==> (a + b)[j] == b[j - |a|];
    } else {
      assert forall j :: 0 <= j < |a| + |b| ==> (a + b)[j] == if j < |a| then a[j] else b[j - |a|];
    }
  }
}
