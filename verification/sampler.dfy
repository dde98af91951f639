/** `stratifiedSample` and the combining step of the quiz page. */
module Sampler {
  import opened Wrappers
  import opened Seqs
  import opened Questions
  import opened FisherYates
  import opened Grouping
  import opened RoundRobin

  /** How many questions `stratifiedSample(questions, count)` returns. */
  function SampleSize(available: nat, count: int): nat {
    if count <= 0 then 0 else Min(count, available)
  }

  /** How many draws `stratifiedSample` takes: one per question for the group
      shuffles, then one per selected question for the final shuffle. */
  function DrawsNeeded(available: nat, count: int): nat {
    if count <= 0 then 0 else available + SampleSize(available, count)
  }

  /** Step 2: `Object.values(groups).map(g => shuffle(g))`; each shuffle takes
      the draws after those of the groups before it. Every queue is a
      permutation of its group. */
  function ShuffleEach<T>(groups: seq<seq<T>>, rs: seq<real>): (r: seq<seq<T>>)
    requires Total(groups) <= |rs| && AreDraws(rs)
    ensures |r| == |groups|
    ensures forall j :: 0 <= j < |groups| ==> multiset(r[j]) == multiset(groups[j])
    ensures multiset(Flatten(r)) == multiset(Flatten(groups))
  {
    if groups == [] then []
    else
      var first := Shuffle(groups[0], rs);
      var rest := ShuffleEach(groups[1..], rs[|groups[0]|..]);
      assert ([first] + rest)[1..] == rest;
      [first] + rest
  }

  /** The shuffled per-module queues of step 2. */
  function Queues(questions: seq<Question>, rs: seq<real>): (r: seq<seq<Question>>)
    requires AreDraws(rs) && |questions| <= |rs|
    ensures |r| == |GroupByModule(questions)|
    ensures forall j :: 0 <= j < |r| ==> multiset(r[j]) == multiset(GroupByModule(questions)[j].items)
    ensures multiset(Flatten(r)) == multiset(questions)
  {
    ShuffleEach(Items(GroupByModule(questions)), rs)
  }

  /** The state the round-robin loop of step 3 ends in. */
  function Picked(questions: seq<Question>, count: int, rs: seq<real>): Collection<Question>
    requires AreDraws(rs) && |questions| <= |rs|
  {
    Collect(Collection(Queues(questions, rs), 0, []), count)
  }

  /** `stratifiedSample(questions, count)`. Nothing for a non-positive count;
      otherwise `min(count, |questions|)` questions, none invented and none
      repeated beyond its multiplicity in the input; all of them when `count`
      reaches the number of questions. */
  function StratifiedSample(questions: seq<Question>, count: int, rs: seq<real>): (r: seq<Question>)
    requires AreDraws(rs) && DrawsNeeded(|questions|, count) <= |rs|
    ensures count <= 0 ==> r == []
    ensures |r| == SampleSize(|questions|, count)
    ensures multiset(r) <= multiset(questions)
    ensures count >= |questions| ==> multiset(r) == multiset(questions)
  {
    if count <= 0 then []
    else
      var picked := Picked(questions, count, rs);
      PickedSelection(questions, count, rs);
      DrawsSuffix(rs, |questions|);
      Shuffle(picked.selected, rs[|questions|..])
  }

  /** What round robin over the shuffled queues selects: `min(count, |questions|)`
      questions drawn from the input, all of them when `count` covers it. */
  lemma PickedSelection(questions: seq<Question>, count: int, rs: seq<real>)
    requires count > 0 && AreDraws(rs) && |questions| <= |rs|
    ensures var sel := Picked(questions, count, rs).selected;
      && |sel| == Min(count, |questions|)
      && multiset(sel) <= multiset(questions)
      && (count >= |questions| ==> multiset(sel) == multiset(questions))
  {
    var queues := Queues(questions, rs);
    var picked := Picked(questions, count, rs);
    assert Total(queues) == |multiset(Flatten(queues))| == |questions|;
    CollectLength(Collection(queues, 0, []), count);
    SelectionWithinPool(queues, picked, questions);
  }

  /** What the collection loop's conservation means for the pool it started
      from. */
  lemma SelectionWithinPool(queues: seq<seq<Question>>, picked: Collection<Question>, questions: seq<Question>)
    requires multiset(Flatten(queues)) == multiset(questions)
    requires multiset(picked.selected) + multiset(Flatten(picked.queues)) == multiset(questions)
    ensures multiset(picked.selected) <= multiset(questions)
    ensures |picked.selected| == |questions| ==> multiset(picked.selected) == multiset(questions)
  {
    if |picked.selected| == |questions| {
      assert |multiset(picked.selected) + multiset(Flatten(picked.queues))| == |questions|;
      assert |multiset(Flatten(picked.queues))| == 0;
    }
  }

  // ---------------------------------------------------------------------
  // Balance across modules
  // ---------------------------------------------------------------------

  /** Number of questions of module `m` among `qs`. */
  function CountInModule(qs: seq<Question>, m: string): nat {
    |Filter(qs, InModule(m))|
  }

  /** Every question in the `j`-th shuffled queue belongs to that group's
      module, and to no other group's. */
  lemma QueueModules(questions: seq<Question>, queues: seq<seq<Question>>, j: nat)
    requires |queues| == |GroupByModule(questions)| && j < |queues|
    requires forall i :: 0 <= i < |queues| ==>
               multiset(queues[i]) == multiset(GroupByModule(questions)[i].items)
    ensures var gs := GroupByModule(questions);
      && (forall x :: x in queues[j] ==> InModule(gs[j].key)(x))
      && (forall i, x :: 0 <= i < |queues| && i != j && x in queues[i] ==> !InModule(gs[j].key)(x))
  {
    var gs := GroupByModule(questions);
    forall i, x | 0 <= i < |queues| && x in queues[i]
      ensures ModuleKey(x) == gs[i].key
    {
      assert multiset(gs[i].items)[x] > 0;
      InFilter(questions, InModule(gs[i].key), x);
    }
  }

  /** The number of questions of module `m` in the sample, and in the input,
      read off the round-robin state: for the group keyed `m` these are what
      its queue gave up and its size. */
  lemma ModuleShare(questions: seq<Question>, count: int, rs: seq<real>, m: string)
    returns (j: nat)
    requires count > 0 && AreDraws(rs) && DrawsNeeded(|questions|, count) <= |rs|
    requires m in ModulesOf(questions)
    ensures var queues := Queues(questions, rs);
      && j < |queues|
      && CountInModule(questions, m) == |queues[j]|
      && CountInModule(StratifiedSample(questions, count, rs), m)
         == Taken(queues, Picked(questions, count, rs), j)
  {
    j := GroupOf(questions, m);
    var queues := Queues(questions, rs);
    QueueLength(questions, rs, j);
    QueueModules(questions, queues, j);
    CollectCounts(Collection(queues, 0, []), count, InModule(m), j);
    SampleCountsPicked(questions, count, rs, m);
  }

  /** The group keyed `m` holds all of module `m`'s questions. */
  lemma GroupOf(questions: seq<Question>, m: string) returns (j: nat)
    requires m in ModulesOf(questions)
    ensures var gs := GroupByModule(questions);
      j < |gs| && gs[j].key == m && CountInModule(questions, m) == |gs[j].items|
  {
    var gs := GroupByModule(questions);
    assert m in Keys(gs);
    j :| 0 <= j < |gs| && gs[j].key == m;
  }

  lemma QueueLength(questions: seq<Question>, rs: seq<real>, j: nat)
    requires AreDraws(rs) && |questions| <= |rs| && j < |GroupByModule(questions)|
    ensures |Queues(questions, rs)[j]| == |GroupByModule(questions)[j].items|
  {
    var queue, items := Queues(questions, rs)[j], GroupByModule(questions)[j].items;
    assert |queue| == |multiset(queue)| == |multiset(items)| == |items|;
  }

  /** The final shuffle does not change how many questions of a module the
      sample holds. */
  lemma SampleCountsPicked(questions: seq<Question>, count: int, rs: seq<real>, m: string)
    requires count > 0 && AreDraws(rs) && DrawsNeeded(|questions|, count) <= |rs|
    ensures CountInModule(StratifiedSample(questions, count, rs), m)
         == |Filter(Picked(questions, count, rs).selected, InModule(m))|
  {
    var picked := Picked(questions, count, rs);
    var r := StratifiedSample(questions, count, rs);
    assert r == Shuffle(picked.selected, rs[|questions|..]);
    FilterSameCount(r, picked.selected, InModule(m));
  }

  /** Stratified sampling keeps modules level: the sample holds at least
      `min(available of a, taken of b - 1)` questions of any module `a`,
      measured against any module `b`. */
  lemma StratifiedSampleBalanced(questions: seq<Question>, count: int, rs: seq<real>, ma: string, mb: string)
    requires AreDraws(rs) && DrawsNeeded(|questions|, count) <= |rs|
    ensures var r := StratifiedSample(questions, count, rs);
      CountInModule(r, ma) >= Min(CountInModule(questions, ma), CountInModule(r, mb) - 1)
  {
    var r := StratifiedSample(questions, count, rs);
    if count > 0 {
      if ma !in ModulesOf(questions) {
        NoQuestionOfNewModule(questions, ma);
        assert CountInModule(questions, ma) == 0;
      } else if mb !in ModulesOf(questions) {
        NoQuestionOfNewModule(questions, mb);
        FilterSubCount(r, questions, InModule(mb));
        assert CountInModule(r, mb) == 0;
      } else {
        var ja := ModuleShare(questions, count, rs, ma);
        var jb := ModuleShare(questions, count, rs, mb);
        CollectBalanced(Queues(questions, rs), count, ja, jb);
      }
    }
  }

  // ---------------------------------------------------------------------
  // The page: combine the two samples
  // ---------------------------------------------------------------------

  /** The one error the page raises. */
  datatype PageError = EmptySelection

  function Choices(bank: seq<Question>): seq<Question> {
    Filter(bank, OfKind(ChoiceKind))
  }

  function Judges(bank: seq<Question>): seq<Question> {
    Filter(bank, OfKind(JudgeKind))
  }

  lemma SampledAll(r: seq<Question>, s: seq<Question>, p: Question -> bool)
    requires multiset(r) <= multiset(s)
    requires forall k :: 0 <= k < |s| ==> p(s[k])
    ensures forall k :: 0 <= k < |r| ==> p(r[k])
  {
    forall k | 0 <= k < |r|
      ensures p(r[k])
    {
      assert r[k] in multiset(s);
    }
  }

  /** `QuizPage`: sample the choice questions, then the judge questions, and
      show them in that order; throw when both samples are empty. Choice
      questions come first, judge questions after, none of them invented;
      asking for at least as many as the bank holds shows the whole bank's
      choice and judge questions. */
  function BuildQuiz(bank: seq<Question>, choiceCount: int, judgeCount: int, rs: seq<real>)
    : (r: Result<seq<Question>, PageError>)
    requires AreDraws(rs)
    requires DrawsNeeded(|Choices(bank)|, choiceCount) + DrawsNeeded(|Judges(bank)|, judgeCount) <= |rs|
    ensures r.Err? <==>
              SampleSize(|Choices(bank)|, choiceCount) == 0 && SampleSize(|Judges(bank)|, judgeCount) == 0
    ensures r.Ok? ==>
              var nc := SampleSize(|Choices(bank)|, choiceCount);
              && |r.value| == nc + SampleSize(|Judges(bank)|, judgeCount)
              && (forall k :: 0 <= k < nc ==> r.value[k].kind == ChoiceKind)
              && (forall k :: nc <= k < |r.value| ==> r.value[k].kind == JudgeKind)
              && multiset(r.value) <= multiset(bank)
    ensures r.Ok? && choiceCount >= |Choices(bank)| && judgeCount >= |Judges(bank)| ==>
              multiset(r.value) == multiset(Choices(bank)) + multiset(Judges(bank))
  {
    var choices, judges := Choices(bank), Judges(bank);
    var used := DrawsNeeded(|choices|, choiceCount);
    DrawsSuffix(rs, used);
    var selectedChoices := StratifiedSample(choices, choiceCount, rs);
    var selectedJudges := StratifiedSample(judges, judgeCount, rs[used..]);
    Combined(bank, selectedChoices, selectedJudges, choiceCount >= |choices|, judgeCount >= |judges|);
    var finalQuestions := selectedChoices + selectedJudges;
    if |finalQuestions| == 0 then Err(EmptySelection) else Ok(finalQuestions)
  }

  /** What the concatenation `[...selectedChoices, ...selectedJudges]` holds,
      given what each sample holds. */
  lemma Combined(bank: seq<Question>, sc: seq<Question>, sj: seq<Question>, allChoices: bool, allJudges: bool)
    requires multiset(sc) <= multiset(Choices(bank))
    requires multiset(sj) <= multiset(Judges(bank))
    requires allChoices ==> multiset(sc) == multiset(Choices(bank))
    requires allJudges ==> multiset(sj) == multiset(Judges(bank))
    ensures |sc + sj| == |sc| + |sj|
    ensures forall k :: 0 <= k < |sc| ==> (sc + sj)[k].kind == ChoiceKind
    ensures forall k :: |sc| <= k < |sc + sj| ==> (sc + sj)[k].kind == JudgeKind
    ensures multiset(sc + sj) <= multiset(bank)
    ensures allChoices && allJudges ==>
              multiset(sc + sj) == multiset(Choices(bank)) + multiset(Judges(bank))
  {
    SampledAll(sc, Choices(bank), OfKind(ChoiceKind));
    SampledAll(sj, Judges(bank), OfKind(JudgeKind));
    KindsWithinBank(bank);
    assert multiset(sc + sj) == multiset(sc) + multiset(sj);
  }

  /** The choice and the judge questions are disjoint parts of the bank. */
  lemma KindsWithinBank(bank: seq<Question>)
    ensures multiset(Choices(bank)) + multiset(Judges(bank)) <= multiset(bank)
  {
  }
}
