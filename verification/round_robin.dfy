/** Step 3 of `stratifiedSample`: the round-robin collection loop. Counter `i`
    walks the queues cyclically (`queues[i % queues.length]`); each visit to a
    non-empty queue pops its last item onto `selected`. The loop stops once
    `count` items are selected or every queue is empty. */
module RoundRobin {
  import opened Seqs

  /** The loop's state: the queues as they are being emptied, the counter `i`
      and the items selected so far. */
  datatype Collection<T> = Collection(queues: seq<seq<T>>, i: nat, selected: seq<T>)

  // ---------------------------------------------------------------------
  // Termination: the distance to the next non-empty queue
  // ---------------------------------------------------------------------

  /** The queue `k` steps after position `p`, cyclically. */
  function Idx(p: nat, k: nat, n: nat): (r: nat)
    requires p < n && k < n
    ensures r < n
  {
    if p + k < n then p + k else p + k - n
  }

  /** The position after `p`, cyclically. */
  function Next(p: nat, n: nat): (r: nat)
    requires p < n
    ensures r < n
  {
    if p + 1 == n then 0 else p + 1
  }

  /** The fewest steps, from the `k`-th on, that lead from position `p` to a
      non-empty queue; `|qs|` when there is none. */
  function GapFrom<T>(qs: seq<seq<T>>, p: nat, k: nat): (r: nat)
    requires p < |qs| && k <= |qs|
    ensures k <= r <= |qs|
    decreases |qs| - k
  {
    if k == |qs| then k
    else if qs[Idx(p, k, |qs|)] != [] then k
    else GapFrom(qs, p, k + 1)
  }

  function Gap<T>(qs: seq<seq<T>>, p: nat): nat
    requires p < |qs|
  {
    GapFrom(qs, p, 0)
  }

  lemma {:induction false} GapFromAtMost<T>(qs: seq<seq<T>>, p: nat, k: nat, k': nat)
    requires p < |qs| && k <= k' < |qs| && qs[Idx(p, k', |qs|)] != []
    ensures GapFrom(qs, p, k) <= k'
    decreases k' - k
  {
    if k < k' && qs[Idx(p, k, |qs|)] == [] {
      GapFromAtMost(qs, p, k + 1, k');
    }
  }

  /** While some queue is non-empty, one is reached in fewer than `|qs|` steps. */
  lemma GapBelowLength<T>(qs: seq<seq<T>>, p: nat)
    requires p < |qs| && AnyLeft(qs)
    ensures Gap(qs, p) < |qs|
  {
    var j :| 0 <= j < |qs| && qs[j] != [];
    var k := if j >= p then j - p else j + |qs| - p;
    assert Idx(p, k, |qs|) == j;
    GapFromAtMost(qs, p, 0, k);
  }

  lemma {:induction false} GapFromShift<T>(qs: seq<seq<T>>, p: nat, k: nat)
    requires p < |qs| && 1 <= k <= |qs| && qs[p] == []
    ensures GapFrom(qs, Next(p, |qs|), k - 1)
         == if GapFrom(qs, p, k) == |qs| then |qs| else GapFrom(qs, p, k) - 1
    decreases |qs| - k
  {
    var n := |qs|;
    assert Idx(Next(p, n), k - 1, n) == if k == n then p else Idx(p, k, n);
    if k < n && qs[Idx(p, k, n)] == [] {
      GapFromShift(qs, p, k + 1);
    }
  }

  /** Skipping an empty queue brings the next non-empty one a step closer. */
  lemma SkipShrinksGap<T>(qs: seq<seq<T>>, p: nat)
    requires p < |qs| && qs[p] == [] && AnyLeft(qs)
    ensures Gap(qs, Next(p, |qs|)) < Gap(qs, p)
  {
    assert Idx(p, 0, |qs|) == p;
    GapBelowLength(qs, p);
    GapFromShift(qs, p, 1);
  }

  /** Euclidean division by a positive divisor is unique. */
  lemma DivModUnique(a: int, n: int, q: int, r: int)
    requires 0 < n && 0 <= r < n && a == q * n + r
    ensures a / n == q && a % n == r
  {
    var q0, r0 := a / n, a % n;
    assert a == q0 * n + r0;
    assert (q - q0) * n == r0 - r;
    if q > q0 {
      MulAtLeast(q - q0, n);
    } else if q < q0 {
      MulAtLeast(q0 - q, n);
    }
  }

  lemma MulAtLeast(d: int, n: int)
    requires 1 <= d && 0 < n
    ensures d * n >= n
  {
  }

  /** Incrementing `i` moves `i % n` one position on, and `i / n` counts the
      completed passes. */
  lemma CounterStep(i: nat, n: nat)
    requires 0 < n
    ensures (i + 1) % n == Next(i % n, n)
    ensures (i + 1) / n == i / n + (if i % n + 1 == n then 1 else 0)
  {
    if i % n + 1 == n {
      DivModUnique(i + 1, n, i / n + 1, 0);
    } else {
      DivModUnique(i + 1, n, i / n, i % n + 1);
    }
  }

  /** The second component of the loop's termination measure. */
  function Pending<T>(c: Collection<T>): nat {
    if AnyLeft(c.queues) then Gap(c.queues, c.i % |c.queues|) else 0
  }

  // ---------------------------------------------------------------------
  // The loop
  // ---------------------------------------------------------------------

  /** One run of the loop body: visit `queues[i % queues.length]`, pop its
      last item onto `selected` if it has one, and advance `i`. */
  function Visit<T>(c: Collection<T>): (r: Collection<T>)
    requires |c.queues| > 0
    ensures r.i == c.i + 1 && |r.queues| == |c.queues|
    ensures forall j :: 0 <= j < |r.queues| ==> r.queues[j] <= c.queues[j]
    ensures forall j :: 0 <= j < |r.queues| ==>
              |r.queues[j]| == |c.queues[j]| - (if j == c.i % |c.queues| && c.queues[j] != [] then 1 else 0)
    ensures c.selected <= r.selected
    ensures |r.selected| == |c.selected| + (if c.queues[c.i % |c.queues|] != [] then 1 else 0)
    ensures |r.selected| + Total(r.queues) == |c.selected| + Total(c.queues)
    ensures multiset(r.selected) + multiset(Flatten(r.queues))
         == multiset(c.selected) + multiset(Flatten(c.queues))
  {
    var k := c.i % |c.queues|;
    var queue := c.queues[k];
    if |queue| > 0 then
      var rest, last := queue[..|queue| - 1], queue[|queue| - 1];
      PopConserves(c.queues, k, c.selected);
      Collection(c.queues[k := rest], c.i + 1, c.selected + [last])
    else
      c.(i := c.i + 1)
  }

  /** Popping the last item of queue `k` onto `sel` moves it between the two
      and keeps everything else. */
  lemma PopConserves<T>(qs: seq<seq<T>>, k: nat, sel: seq<T>)
    requires k < |qs| && qs[k] != []
    ensures var queue := qs[k];
      var rest, last := queue[..|queue| - 1], queue[|queue| - 1];
      && multiset(sel + [last]) + multiset(Flatten(qs[k := rest]))
         == multiset(sel) + multiset(Flatten(qs))
      && Total(qs[k := rest]) + 1 == Total(qs)
  {
    var queue := qs[k];
    var rest, last := queue[..|queue| - 1], queue[|queue| - 1];
    assert queue == rest + [last];
    assert multiset(queue) == multiset(rest) + multiset{last};
    assert multiset(sel + [last]) == multiset(sel) + multiset{last};
    FlattenUpdate(qs, k, rest);
    MultisetCancel(multiset(Flatten(qs[k := rest])) + multiset{last},
                   multiset(Flatten(qs)), multiset(rest));
    assert |multiset(Flatten(qs[k := rest])) + multiset{last}| == |multiset(Flatten(qs))|;
  }

  /** Each visit shrinks the measure (items left, steps to the next non-empty
      queue) lexicographically. */
  lemma VisitProgress<T>(c: Collection<T>)
    requires AnyLeft(c.queues)
    ensures Total(Visit(c).queues) < Total(c.queues)
         || (Total(Visit(c).queues) == Total(c.queues) && Pending(Visit(c)) < Pending(c))
  {
    var n := |c.queues|;
    var p := c.i % n;
    if c.queues[p] == [] {
      CounterStep(c.i, n);
      SkipShrinksGap(c.queues, p);
    }
  }

  /** The `while` loop, from state `c`. On exit `count` items are selected or
      no queue has anything left; every item selected was popped from a queue
      (nothing invented, nothing duplicated); each queue only lost items from
      its end. */
  function Collect<T>(c: Collection<T>, count: int): (r: Collection<T>)
    ensures |r.selected| >= count || !AnyLeft(r.queues)
    ensures |r.queues| == |c.queues|
    ensures forall j :: 0 <= j < |r.queues| ==> r.queues[j] <= c.queues[j]
    ensures c.selected <= r.selected
    ensures multiset(r.selected) + multiset(Flatten(r.queues))
         == multiset(c.selected) + multiset(Flatten(c.queues))
    decreases Total(c.queues), Pending(c)
  {
    if |c.selected| < count && AnyLeft(c.queues) then
      VisitProgress(c);
      var v := Visit(c);
      var r := Collect(v, count);
      ChainSteps(c, v, r);
      r
    else
      c
  }

  /** The loop selects `min(count, available)` items in all, keeping what was
      already selected. */
  lemma {:induction false} CollectLength<T>(c: Collection<T>, count: int)
    ensures |Collect(c, count).selected|
         == if count <= |c.selected| then |c.selected| else Min(count, |c.selected| + Total(c.queues))
    decreases Total(c.queues), Pending(c)
  {
    if |c.selected| < count && AnyLeft(c.queues) {
      VisitProgress(c);
      var v := Visit(c);
      CollectLength(v, count);
      assert Collect(c, count) == Collect(v, count);
      ChainLength(count, |c.selected|, Total(c.queues), |v.selected|, Total(v.queues), |Collect(v, count).selected|);
    } else {
      AnyLeftIffTotal(c.queues);
    }
  }

  /** The selection's length composes across one visit: a visit selects at
      most one item and moves it out of the queues. */
  lemma ChainLength(count: int, c: nat, ct: nat, v: nat, vt: nat, r: nat)
    requires c < count && c <= v <= c + 1 && v + vt == c + ct
    requires r == if count <= v then v else Min(count, v + vt)
    ensures r == Min(count, c + ct)
  {
  }

  /** The loop's guarantees compose: what holds from `c` to `v` and from `v` to
      `r` holds from `c` to `r`. */
  lemma ChainSteps<T>(c: Collection<T>, v: Collection<T>, r: Collection<T>)
    requires |v.queues| == |c.queues| && |r.queues| == |v.queues|
    requires forall j :: 0 <= j < |v.queues| ==> v.queues[j] <= c.queues[j]
    requires forall j :: 0 <= j < |r.queues| ==> r.queues[j] <= v.queues[j]
    requires c.selected <= v.selected && v.selected <= r.selected
    requires multiset(v.selected) + multiset(Flatten(v.queues))
          == multiset(c.selected) + multiset(Flatten(c.queues))
    requires multiset(r.selected) + multiset(Flatten(r.queues))
          == multiset(v.selected) + multiset(Flatten(v.queues))
    ensures forall j :: 0 <= j < |r.queues| ==> r.queues[j] <= c.queues[j]
    ensures c.selected <= r.selected
    ensures multiset(r.selected) + multiset(Flatten(r.queues))
         == multiset(c.selected) + multiset(Flatten(c.queues))
  {
    forall j | 0 <= j < |r.queues|
      ensures r.queues[j] <= c.queues[j]
    {
      PrefixTrans(r.queues[j], v.queues[j], c.queues[j]);
    }
    PrefixTrans(c.selected, v.selected, r.selected);
  }

  // ---------------------------------------------------------------------
  // Balance across queues
  // ---------------------------------------------------------------------

  /** How many times queue `j` of `n` has been visited after `i` runs of the
      loop body starting from 0: once per completed pass, plus once if the
      current pass has already gone past it. */
  function Visits(i: nat, j: nat, n: nat): nat
    requires 0 < n
  {
    i / n + (if j < i % n then 1 else 0)
  }

  /** How many items queue `j` has given up since `orig`. */
  function Taken<T>(orig: seq<seq<T>>, c: Collection<T>, j: nat): int
    requires j < |orig| && j < |c.queues|
  {
    |orig[j]| - |c.queues[j]|
  }

  /** The loop invariant behind the balance: every queue has lost one item per
      visit until it ran dry. */
  ghost predicate Fair<T>(orig: seq<seq<T>>, c: Collection<T>) {
    && |c.queues| == |orig|
    && forall j :: 0 <= j < |orig| ==>
         && c.queues[j] <= orig[j]
         && Taken(orig, c, j) == Min(|orig[j]|, Visits(c.i, j, |orig|))
  }

  lemma VisitFair<T>(orig: seq<seq<T>>, c: Collection<T>)
    requires Fair(orig, c) && |c.queues| > 0
    ensures Fair(orig, Visit(c))
  {
    var n := |orig|;
    CounterStep(c.i, n);
    forall j | 0 <= j < n
      ensures Visit(c).queues[j] <= orig[j]
      ensures Taken(orig, Visit(c), j) == Min(|orig[j]|, Visits(c.i + 1, j, n))
    {
      VisitFairAt(orig, c, j);
    }
  }

  /** One visit, seen from queue `j`: it loses an item exactly when it is the
      queue visited and still holds one. */
  lemma VisitFairAt<T>(orig: seq<seq<T>>, c: Collection<T>, j: nat)
    requires Fair(orig, c) && j < |c.queues|
    requires (c.i + 1) % |orig| == Next(c.i % |orig|, |orig|)
    requires (c.i + 1) / |orig| == c.i / |orig| + (if c.i % |orig| + 1 == |orig| then 1 else 0)
    ensures Visit(c).queues[j] <= orig[j]
    ensures Taken(orig, Visit(c), j) == Min(|orig[j]|, Visits(c.i + 1, j, |orig|))
  {
    var n := |orig|;
    var r := Visit(c);
    var before, after := Visits(c.i, j, n), Visits(r.i, j, n);
    assert after == before + (if j == c.i % n then 1 else 0);
    assert |r.queues[j]| == |c.queues[j]| - (if j == c.i % n && c.queues[j] != [] then 1 else 0);
    PrefixTrans(r.queues[j], c.queues[j], orig[j]);
  }

  lemma PrefixTrans<T>(a: seq<T>, b: seq<T>, c: seq<T>)
    requires a <= b && b <= c
    ensures a <= c
  {
    assert a == b[..|a|] == c[..|a|];
  }

  lemma {:induction false} CollectFair<T>(orig: seq<seq<T>>, c: Collection<T>, count: int)
    requires Fair(orig, c)
    ensures Fair(orig, Collect(c, count))
    decreases Total(c.queues), Pending(c)
  {
    if |c.selected| < count && AnyLeft(c.queues) {
      VisitProgress(c);
      VisitFair(orig, c);
      CollectFair(orig, Visit(c), count);
    }
  }

  /** Round robin keeps the queues' contributions level: queue `a` has given at
      least one fewer item than any other queue `b`, unless `a` ran dry; two
      queues that both still hold items differ by at most one. */
  lemma CollectBalanced<T>(queues: seq<seq<T>>, count: int, a: nat, b: nat)
    requires a < |queues| && b < |queues|
    ensures var r := Collect(Collection(queues, 0, []), count);
      && Taken(queues, r, a) >= Min(|queues[a]|, Taken(queues, r, b) - 1)
      && (r.queues[a] != [] && r.queues[b] != [] ==>
            -1 <= Taken(queues, r, a) - Taken(queues, r, b) <= 1)
  {
    var c := Collection(queues, 0, []);
    FairAtStart(queues);
    CollectFair(queues, c, count);
    FairBalanced(queues, Collect(c, count), a, b);
  }

  /** Before the loop nothing has been visited or taken. */
  lemma FairAtStart<T>(queues: seq<seq<T>>)
    ensures Fair(queues, Collection(queues, 0, []))
  {
    var n := |queues|;
    forall j | 0 <= j < n
      ensures Visits(0, j, n) == 0
    {
      DivModUnique(0, n, 0, 0);
    }
  }

  /** Two queues' visit counts never differ by more than one. */
  lemma VisitsClose(i: nat, a: nat, b: nat, n: nat)
    requires 0 < n
    ensures -1 <= Visits(i, a, n) - Visits(i, b, n) <= 1
  {
  }

  /** What the invariant says about two queues. */
  lemma FairBalanced<T>(orig: seq<seq<T>>, c: Collection<T>, a: nat, b: nat)
    requires Fair(orig, c) && a < |orig| && b < |orig|
    ensures Taken(orig, c, a) >= Min(|orig[a]|, Taken(orig, c, b) - 1)
    ensures c.queues[a] != [] && c.queues[b] != [] ==>
              -1 <= Taken(orig, c, a) - Taken(orig, c, b) <= 1
  {
    var n := |orig|;
    VisitsClose(c.i, a, b, n);
    assert |c.queues[a]| <= |orig[a]| && |c.queues[b]| <= |orig[b]|;
  }

  // ---------------------------------------------------------------------
  // Which items come from which queue
  // ---------------------------------------------------------------------

  lemma InPrefix<T>(x: T, a: seq<T>, b: seq<T>)
    requires a <= b && x in a
    ensures x in b
  {
    var k :| 0 <= k < |a| && a[k] == x;
    assert b[k] == x;
  }

  /** When queue `a` is the only one holding items that satisfy `p`, the
      selection gains exactly as many such items as queue `a` gives up. */
  lemma {:induction false} CollectCounts<T(!new)>(c: Collection<T>, count: int, p: T -> bool, a: nat)
    requires a < |c.queues|
    requires forall x :: x in c.queues[a] ==> p(x)
    requires forall j, x :: 0 <= j < |c.queues| && j != a && x in c.queues[j] ==> !p(x)
    ensures var r := Collect(c, count);
      |Filter(r.selected, p)| == |Filter(c.selected, p)| + |c.queues[a]| - |r.queues[a]|
    decreases Total(c.queues), Pending(c)
  {
    if |c.selected| < count && AnyLeft(c.queues) {
      VisitProgress(c);
      var v := Visit(c);
      VisitCounts(c, p, a);
      CollectCounts(v, count, p, a);
      assert Collect(c, count) == Collect(v, count);
    }
  }

  /** One visit of `CollectCounts`: the popped item satisfies `p` exactly when
      it came from queue `a`, and the queues keep the separation. */
  lemma VisitCounts<T(!new)>(c: Collection<T>, p: T -> bool, a: nat)
    requires a < |c.queues|
    requires forall x :: x in c.queues[a] ==> p(x)
    requires forall j, x :: 0 <= j < |c.queues| && j != a && x in c.queues[j] ==> !p(x)
    ensures var v := Visit(c);
      && |Filter(v.selected, p)| == |Filter(c.selected, p)| + |c.queues[a]| - |v.queues[a]|
      && (forall x :: x in v.queues[a] ==> p(x))
      && (forall j, x :: 0 <= j < |v.queues| && j != a && x in v.queues[j] ==> !p(x))
  {
    var v := Visit(c);
    var k := c.i % |c.queues|;
    var queue := c.queues[k];
    if queue != [] {
      var last := queue[|queue| - 1];
      assert v.selected == c.selected + [last];
      FilterSnoc(c.selected, last, p);
      assert p(last) <==> k == a;
    }
    forall x | x in v.queues[a]
      ensures p(x)
    {
      InPrefix(x, v.queues[a], c.queues[a]);
    }
    forall j, x | 0 <= j < |v.queues| && j != a && x in v.queues[j]
      ensures !p(x)
    {
      InPrefix(x, v.queues[j], c.queues[j]);
    }
  }
}
