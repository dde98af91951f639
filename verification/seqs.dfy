/** Sequence helpers shared by the sampler: filtering, flattening a list of
    queues, and swapping two positions. */
module Seqs {

  function Min(a: int, b: int): int {
    if a <= b then a else b
  }

  /** The elements of `s` that satisfy `p`, in their original order
      (`Array.prototype.filter`). Defined by peeling the last element so that
      it lines up with definitions that consume their input front to back. */
  function Filter<T(!new)>(s: seq<T>, p: T -> bool): (r: seq<T>)
    ensures |r| <= |s|
    ensures forall k :: 0 <= k < |r| ==> p(r[k])
    ensures forall x :: multiset(r)[x] == if p(x) then multiset(s)[x] else 0
    decreases |s|
  {
    if s == [] then []
    else
      var init, last := s[..|s| - 1], s[|s| - 1];
      assert s == init + [last];
      Filter(init, p) + (if p(last) then [last] else [])
  }

  /** An element survives the filter exactly when it is present and satisfies `p`. */
  lemma InFilter<T(!new)>(s: seq<T>, p: T -> bool, x: T)
    ensures x in Filter(s, p) <==> x in s && p(x)
  {
    assert x in Filter(s, p) <==> multiset(Filter(s, p))[x] > 0;
    assert x in s <==> multiset(s)[x] > 0;
  }

  /** Filtering two sequences with the same elements keeps the same number. */
  lemma FilterSameCount<T(!new)>(s: seq<T>, t: seq<T>, p: T -> bool)
    requires multiset(s) == multiset(t)
    ensures |Filter(s, p)| == |Filter(t, p)|
  {
    assert multiset(Filter(s, p)) == multiset(Filter(t, p));
    assert |multiset(Filter(s, p))| == |multiset(Filter(t, p))|;
  }

  /** Filtering a sub-multiset keeps no more elements. */
  lemma FilterSubCount<T(!new)>(s: seq<T>, t: seq<T>, p: T -> bool)
    requires multiset(s) <= multiset(t)
    ensures |Filter(s, p)| <= |Filter(t, p)|
  {
    var a, b := multiset(Filter(s, p)), multiset(Filter(t, p));
    assert a <= b;
    assert b == a + (b - a);
    assert |a| == |Filter(s, p)| && |b| == |Filter(t, p)|;
  }

  /** No element satisfies `p`, so nothing survives the filter. */
  lemma FilterNone<T(!new)>(s: seq<T>, p: T -> bool)
    requires forall x :: x in s ==> !p(x)
    ensures Filter(s, p) == []
  {
  }

  /** Filtering one appended element. */
  lemma FilterSnoc<T(!new)>(s: seq<T>, x: T, p: T -> bool)
    ensures Filter(s + [x], p) == Filter(s, p) + (if p(x) then [x] else [])
  {
    assert (s + [x])[..|s + [x]| - 1] == s;
  }

  lemma MultisetCancel<T>(a: multiset<T>, c: multiset<T>, b: multiset<T>)
    requires a + b == c + b
    ensures a == c
  {
    assert a == (a + b) - b;
    assert c == (c + b) - b;
  }

  /** The queues laid end to end. */
  function Flatten<T>(qs: seq<seq<T>>): seq<T> {
    if qs == [] then [] else qs[0] + Flatten(qs[1..])
  }

  /** Number of items left across all queues. */
  function Total<T>(qs: seq<seq<T>>): nat {
    |Flatten(qs)|
  }

  /** `queues.some(q => q.length > 0)` */
  predicate AnyLeft<T>(qs: seq<seq<T>>) {
    exists j :: 0 <= j < |qs| && qs[j] != []
  }

  lemma {:induction false} AnyLeftIffTotal<T>(qs: seq<seq<T>>)
    ensures AnyLeft(qs) <==> Total(qs) > 0
  {
    if qs != [] {
      AnyLeftIffTotal(qs[1..]);
      if AnyLeft(qs[1..]) {
        var j :| 0 <= j < |qs[1..]| && qs[1..][j] != [];
        assert qs[j + 1] != [];
      }
      if AnyLeft(qs) && qs[0] == [] {
        var j :| 0 <= j < |qs| && qs[j] != [];
        assert qs[1..][j - 1] != [];
      }
    }
  }

  /** Replacing one queue swaps its items for the new ones in the pool. */
  lemma {:induction false} FlattenUpdate<T>(qs: seq<seq<T>>, k: nat, v: seq<T>)
    requires k < |qs|
    ensures multiset(Flatten(qs[k := v])) + multiset(qs[k])
         == multiset(Flatten(qs)) + multiset(v)
  {
    if k == 0 {
      assert qs[k := v][1..] == qs[1..];
    } else {
      assert qs[k := v][1..] == qs[1..][k - 1 := v];
      assert qs[k] == qs[1..][k - 1];
      FlattenUpdate(qs[1..], k - 1, v);
      assert Flatten(qs[k := v]) == qs[0] + Flatten(qs[1..][k - 1 := v]);
      assert Flatten(qs) == qs[0] + Flatten(qs[1..]);
      calc {
        multiset(Flatten(qs[k := v])) + multiset(qs[k]);
        multiset(qs[0]) + (multiset(Flatten(qs[1..][k - 1 := v])) + multiset(qs[1..][k - 1]));
        multiset(qs[0]) + (multiset(Flatten(qs[1..])) + multiset(v));
        multiset(Flatten(qs)) + multiset(v);
      }
    }
  }

  /** Appending a queue appends its items. */
  lemma {:induction false} FlattenSnoc<T>(qs: seq<seq<T>>, v: seq<T>)
    ensures Flatten(qs + [v]) == Flatten(qs) + v
  {
    if qs == [] {
      assert [v][1..] == [];
    } else {
      assert (qs + [v])[1..] == qs[1..] + [v];
      FlattenSnoc(qs[1..], v);
    }
  }

  /** `[a[i], a[j]] = [a[j], a[i]]` */
  function Swap<T>(s: seq<T>, i: nat, j: nat): (r: seq<T>)
    requires i < |s| && j < |s|
    ensures |r| == |s| && multiset(r) == multiset(s)
    ensures r[i] == s[j] && r[j] == s[i]
    ensures forall k :: 0 <= k < |s| && k != i && k != j ==> r[k] == s[k]
  {
    s[i := s[j]][j := s[i]]
  }
}
