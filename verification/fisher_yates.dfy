/** `shuffle` of the quiz page: a Fisher–Yates shuffle of a copy of its
    argument. `Math.random()` is not called here; its successive values are
    passed in as a sequence of draws, each a real in [0, 1). Sequences are
    values, so the caller's sequence is never changed, as the copy in the
    source guarantees. */
module FisherYates {
  import opened Seqs

  /** A value `Math.random()` can return. */
  predicate IsDraw(x: real) {
    0.0 <= x < 1.0
  }

  predicate AreDraws(rs: seq<real>) {
    forall k :: 0 <= k < |rs| ==> IsDraw(rs[k])
  }

  /** The draws left after the first `d` have been used. */
  lemma DrawsSuffix(rs: seq<real>, d: nat)
    requires AreDraws(rs) && d <= |rs|
    ensures AreDraws(rs[d..])
  {
    forall k | 0 <= k < |rs[d..]|
      ensures IsDraw(rs[d..][k])
    {
      assert rs[d..][k] == rs[d + k];
    }
  }

  /** `Math.floor(Math.random() * bound)`: always a valid index below `bound`. */
  function RandomIndex(x: real, bound: nat): (r: nat)
    requires IsDraw(x) && 0 < bound
    ensures r < bound
    ensures r as real <= x * bound as real < r as real + 1.0
  {
    assert 0.0 <= x * bound as real < bound as real;
    (x * bound as real).Floor
  }

  /** The shuffle loop from the point where the first `current` positions of
      `arr` are still to be placed; each round uses the next draw. */
  function ShuffleFrom<T>(arr: seq<T>, current: nat, rs: seq<real>): (r: seq<T>)
    requires current <= |arr| && current <= |rs| && AreDraws(rs)
    ensures |r| == |arr| && multiset(r) == multiset(arr)
    ensures r[current..] == arr[current..]
    decreases current
  {
    if current == 0 then arr
    else
      var randomIndex := RandomIndex(rs[0], current);
      ShuffleFrom(Swap(arr, current - 1, randomIndex), current - 1, rs[1..])
  }

  /** `shuffle(array)`, using the first `|array|` draws. */
  function Shuffle<T>(items: seq<T>, rs: seq<real>): (r: seq<T>)
    requires |items| <= |rs| && AreDraws(rs)
    ensures |r| == |items| && multiset(r) == multiset(items)
  {
    ShuffleFrom(items, |items|, rs)
  }

  /** The loop of `shuffle` as written: it runs exactly `array.length` times,
      every swap stays inside the sequence, and the result is `Shuffle`. */
  method ShuffleLoop<T>(items: seq<T>, rs: seq<real>) returns (newArr: seq<T>, iterations: nat)
    requires |items| <= |rs| && AreDraws(rs)
    ensures iterations == |items|
    ensures newArr == Shuffle(items, rs)
  {
    var currentIndex: nat := |items|;
    newArr := items;
    iterations := 0;
    while currentIndex != 0
      invariant currentIndex <= |newArr| == |items|
      invariant iterations + currentIndex == |items|
      invariant AreDraws(rs[iterations..])
      invariant ShuffleFrom(newArr, currentIndex, rs[iterations..]) == Shuffle(items, rs)
    {
      var randomIndex := RandomIndex(rs[iterations], currentIndex);
      ShuffleFromStep(newArr, currentIndex, rs[iterations..]);
      assert rs[iterations..][1..] == rs[iterations + 1..];
      DrawsSuffix(rs, iterations + 1);
      currentIndex := currentIndex - 1;
      newArr := Swap(newArr, currentIndex, randomIndex);
      iterations := iterations + 1;
    }
  }

  /** One round of the loop: swap position `current - 1` with the drawn index. */
  lemma ShuffleFromStep<T>(arr: seq<T>, current: nat, rs: seq<real>)
    requires 0 < current <= |arr| && current <= |rs| && AreDraws(rs)
    ensures ShuffleFrom(arr, current, rs)
         == ShuffleFrom(Swap(arr, current - 1, RandomIndex(rs[0], current)), current - 1, rs[1..])
  {
  }

  /** A shuffle of `n` elements reads the first `n` draws and no others. */
  lemma {:induction false} ShuffleFromUsesPrefix<T>(arr: seq<T>, current: nat, rs: seq<real>, rs': seq<real>)
    requires current <= |arr| && current <= |rs| && current <= |rs'|
    requires AreDraws(rs) && AreDraws(rs')
    requires rs[..current] == rs'[..current]
    ensures ShuffleFrom(arr, current, rs) == ShuffleFrom(arr, current, rs')
    decreases current
  {
    if current > 0 {
      assert rs[0] == rs[..current][0] == rs'[0];
      assert rs[1..][..current - 1] == rs[..current][1..];
      assert rs'[1..][..current - 1] == rs'[..current][1..];
      var randomIndex := RandomIndex(rs[0], current);
      ShuffleFromUsesPrefix(Swap(arr, current - 1, randomIndex), current - 1, rs[1..], rs'[1..]);
    }
  }

  /** `shuffle` of `n` items depends only on the first `n` draws: whatever
      follows them is free for later shuffles, which is how a sample's draws
      split between its group shuffles and its final shuffle. */
  lemma ShuffleUsesPrefix<T>(items: seq<T>, rs: seq<real>, rs': seq<real>)
    requires |items| <= |rs| && |items| <= |rs'| && AreDraws(rs) && AreDraws(rs')
    requires rs[..|items|] == rs'[..|items|]
    ensures Shuffle(items, rs) == Shuffle(items, rs')
  {
    ShuffleFromUsesPrefix(items, |items|, rs, rs');
  }
}
