/** Step 1 of `stratifiedSample`: questions grouped by module. The record of
    groups is kept as a sequence in the order the keys first appear, which is
    the order `Object.values` returns them in for keys that do not look like
    array indices. */
module Grouping {
  import opened Wrappers
  import opened Seqs
  import opened Questions

  datatype Group = Group(key: string, items: seq<Question>)

  predicate DistinctKeys(gs: seq<Group>) {
    forall a, b :: 0 <= a < b < |gs| ==> gs[a].key != gs[b].key
  }

  function Keys(gs: seq<Group>): set<string> {
    set j | 0 <= j < |gs| :: gs[j].key
  }

  /** The module keys the questions carry. */
  function ModulesOf(qs: seq<Question>): set<string> {
    set q | q in qs :: ModuleKey(q)
  }

  /** The groups' item lists, in group order (`Object.values(groups)`). */
  function Items(gs: seq<Group>): (r: seq<seq<Question>>)
    ensures |r| == |gs|
    ensures forall j :: 0 <= j < |gs| ==> r[j] == gs[j].items
  {
    seq(|gs|, j requires 0 <= j < |gs| => gs[j].items)
  }

  /** `groups[m]`: the position of the group keyed `key`, if there is one. */
  function FindGroup(gs: seq<Group>, key: string): (r: Option<nat>)
    ensures r.Some? ==> r.value < |gs| && gs[r.value].key == key
    ensures r.None? <==> key !in Keys(gs)
    decreases |gs|
  {
    if gs == [] then None
    else if gs[0].key == key then Some(0)
    else
      assert forall j :: 1 <= j < |gs| ==> gs[1..][j - 1] == gs[j];
      match FindGroup(gs[1..], key)
      case None => None
      case Some(j) => Some(j + 1)
  }

  /** One round of the `forEach`: push `q` onto the group of its module,
      opening that group at the end when it is new. */
  function AddQuestion(gs: seq<Group>, q: Question): seq<Group> {
    var m := ModuleKey(q);
    match FindGroup(gs, m)
    case Some(j) => gs[j := Group(m, gs[j].items + [q])]
    case None => gs + [Group(m, [q])]
  }

  /** The record `groups` once every question has been pushed. Each group holds
      exactly the questions of its module, in input order; no key repeats;
      the keys are exactly the modules that occur; and the groups laid end to
      end are a permutation of the input, so grouping loses and invents
      nothing. */
  function GroupByModule(qs: seq<Question>): (r: seq<Group>)
    ensures DistinctKeys(r)
    ensures Keys(r) == ModulesOf(qs)
    ensures forall j :: 0 <= j < |r| ==> r[j].items == Filter(qs, InModule(r[j].key))
    ensures forall j :: 0 <= j < |r| ==> r[j].items != []
    ensures multiset(Flatten(Items(r))) == multiset(qs)
    ensures Total(Items(r)) == |qs|
    decreases |qs|
  {
    if qs == [] then []
    else
      var init, q := qs[..|qs| - 1], qs[|qs| - 1];
      assert qs == init + [q];
      var gs := GroupByModule(init);
      AddQuestionKeeps(gs, init, q);
      AddQuestionItems(gs, q);
      var r := AddQuestion(gs, q);
      assert |multiset(Flatten(Items(r)))| == |multiset(qs)|;
      r
  }

  /** The inductive step of `GroupByModule`'s contract. */
  lemma AddQuestionKeeps(gs: seq<Group>, init: seq<Question>, q: Question)
    requires DistinctKeys(gs)
    requires Keys(gs) == ModulesOf(init)
    requires forall j :: 0 <= j < |gs| ==> gs[j].items == Filter(init, InModule(gs[j].key))
    requires forall j :: 0 <= j < |gs| ==> gs[j].items != []
    ensures var r := AddQuestion(gs, q);
      && DistinctKeys(r)
      && Keys(r) == ModulesOf(init + [q])
      && (forall j :: 0 <= j < |r| ==> r[j].items == Filter(init + [q], InModule(r[j].key)))
      && (forall j :: 0 <= j < |r| ==> r[j].items != [])
  {
    AddQuestionKeys(gs, init, q);
    AddQuestionContents(gs, init, q);
  }

  lemma AddQuestionKeys(gs: seq<Group>, init: seq<Question>, q: Question)
    requires DistinctKeys(gs)
    requires Keys(gs) == ModulesOf(init)
    ensures DistinctKeys(AddQuestion(gs, q))
    ensures Keys(AddQuestion(gs, q)) == ModulesOf(init + [q])
  {
    var m := ModuleKey(q);
    var r := AddQuestion(gs, q);
    assert ModulesOf(init + [q]) == ModulesOf(init) + {m};
    match FindGroup(gs, m)
    case Some(i) =>
      var g := Group(m, gs[i].items + [q]);
      assert r == gs[i := g];
      KeysUpdate(gs, i, g);
    case None =>
      var g := Group(m, [q]);
      assert r == gs + [g];
      KeysSnoc(gs, g);
  }

  lemma AddQuestionContents(gs: seq<Group>, init: seq<Question>, q: Question)
    requires DistinctKeys(gs)
    requires Keys(gs) == ModulesOf(init)
    requires forall j :: 0 <= j < |gs| ==> gs[j].items == Filter(init, InModule(gs[j].key))
    requires forall j :: 0 <= j < |gs| ==> gs[j].items != []
    ensures var r := AddQuestion(gs, q);
      && (forall j :: 0 <= j < |r| ==> r[j].items == Filter(init + [q], InModule(r[j].key)))
      && (forall j :: 0 <= j < |r| ==> r[j].items != [])
  {
    var m := ModuleKey(q);
    match FindGroup(gs, m)
    case Some(i) =>
      assert AddQuestion(gs, q) == gs[i := Group(m, gs[i].items + [q])];
      PushContents(gs, init, q, i);
    case None =>
      assert AddQuestion(gs, q) == gs + [Group(m, [q])];
      OpenContents(gs, init, q);
  }

  /** Pushing `q` onto the existing group `i` of its module. */
  lemma PushContents(gs: seq<Group>, init: seq<Question>, q: Question, i: nat)
    requires DistinctKeys(gs)
    requires i < |gs| && gs[i].key == ModuleKey(q)
    requires forall j :: 0 <= j < |gs| ==> gs[j].items == Filter(init, InModule(gs[j].key))
    requires forall j :: 0 <= j < |gs| ==> gs[j].items != []
    ensures var r := gs[i := Group(ModuleKey(q), gs[i].items + [q])];
      && (forall j :: 0 <= j < |r| ==> r[j].items == Filter(init + [q], InModule(r[j].key)))
      && (forall j :: 0 <= j < |r| ==> r[j].items != [])
  {
    var r := gs[i := Group(ModuleKey(q), gs[i].items + [q])];
    forall j | 0 <= j < |r|
      ensures r[j].items == Filter(init + [q], InModule(r[j].key))
    {
      FilterSnoc(init, q, InModule(gs[j].key));
      if j != i {
        assert gs[j].key != ModuleKey(q);
      }
    }
  }

  /** Opening a new group for `q`, whose module has none yet. */
  lemma OpenContents(gs: seq<Group>, init: seq<Question>, q: Question)
    requires ModuleKey(q) !in Keys(gs)
    requires Keys(gs) == ModulesOf(init)
    requires forall j :: 0 <= j < |gs| ==> gs[j].items == Filter(init, InModule(gs[j].key))
    requires forall j :: 0 <= j < |gs| ==> gs[j].items != []
    ensures var r := gs + [Group(ModuleKey(q), [q])];
      && (forall j :: 0 <= j < |r| ==> r[j].items == Filter(init + [q], InModule(r[j].key)))
      && (forall j :: 0 <= j < |r| ==> r[j].items != [])
  {
    var m := ModuleKey(q);
    var r := gs + [Group(m, [q])];
    forall j | 0 <= j < |r|
      ensures r[j].items == Filter(init + [q], InModule(r[j].key))
    {
      FilterSnoc(init, q, InModule(r[j].key));
      if j == |gs| {
        NoQuestionOfNewModule(init, m);
      } else {
        assert r[j] == gs[j] && gs[j].key in Keys(gs);
      }
    }
  }

  /** A module no question carries selects nothing. */
  lemma NoQuestionOfNewModule(qs: seq<Question>, m: string)
    requires m !in ModulesOf(qs)
    ensures Filter(qs, InModule(m)) == []
  {
    forall x | x in qs
      ensures !InModule(m)(x)
    {
      assert ModuleKey(x) in ModulesOf(qs);
    }
    FilterNone(qs, InModule(m));
  }

  lemma KeysSnoc(gs: seq<Group>, g: Group)
    ensures Keys(gs + [g]) == Keys(gs) + {g.key}
  {
    forall k | k in Keys(gs)
      ensures k in Keys(gs + [g])
    {
      var j :| 0 <= j < |gs| && gs[j].key == k;
      assert (gs + [g])[j].key == k;
    }
    assert (gs + [g])[|gs|].key == g.key;
  }

  lemma KeysUpdate(gs: seq<Group>, j: nat, g: Group)
    requires j < |gs| && gs[j].key == g.key
    ensures Keys(gs[j := g]) == Keys(gs)
  {
    forall k | k in Keys(gs)
      ensures k in Keys(gs[j := g])
    {
      var i :| 0 <= i < |gs| && gs[i].key == k;
      assert gs[j := g][i].key == k;
    }
  }

  /** Pushing one question adds exactly that question to the pool of groups. */
  lemma AddQuestionItems(gs: seq<Group>, q: Question)
    ensures multiset(Flatten(Items(AddQuestion(gs, q)))) == multiset(Flatten(Items(gs))) + multiset{q}
  {
    var m := ModuleKey(q);
    match FindGroup(gs, m)
    case Some(j) =>
      var g := Group(m, gs[j].items + [q]);
      ItemsUpdate(gs, j, g);
      FlattenUpdate(Items(gs), j, g.items);
      MultisetCancel(multiset(Flatten(Items(gs[j := g]))), multiset(Flatten(Items(gs))) + multiset{q}, multiset(gs[j].items));
    case None =>
      ItemsSnoc(gs, Group(m, [q]));
      FlattenSnoc(Items(gs), [q]);
  }

  lemma ItemsUpdate(gs: seq<Group>, j: nat, g: Group)
    requires j < |gs|
    ensures Items(gs[j := g]) == Items(gs)[j := g.items]
  {
  }

  lemma ItemsSnoc(gs: seq<Group>, g: Group)
    ensures Items(gs + [g]) == Items(gs) + [g.items]
  {
  }

  /** Every question lands in exactly one group: the group keyed by its
      module exists, and a group holds the question exactly when it is that
      group (the keys being distinct). */
  lemma ExactlyOneGroup(qs: seq<Question>, q: Question)
    requires q in qs
    ensures ModuleKey(q) in Keys(GroupByModule(qs))
    ensures forall j :: 0 <= j < |GroupByModule(qs)| ==>
              (q in GroupByModule(qs)[j].items <==> GroupByModule(qs)[j].key == ModuleKey(q))
  {
    var gs := GroupByModule(qs);
    assert ModuleKey(q) in ModulesOf(qs);
    forall j | 0 <= j < |gs|
      ensures q in gs[j].items <==> gs[j].key == ModuleKey(q)
    {
      InFilter(qs, InModule(gs[j].key), q);
    }
  }
}
