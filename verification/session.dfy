/** The quiz session of `QuizClient`: answering, submitting, scoring, and the
    display state of each option. The component's three pieces of state
    become one value; each handler becomes a function from state to state. */
module Session {
  import opened Questions
  import opened OptionValues

  /** `answers` (a record from question index to answer code), `submitted`
      and `score`, with the questions the page passed in. */
  datatype Quiz = Quiz(questions: seq<Question>, answers: map<int, string>, submitted: bool, score: int)

  /** The state a fresh page view starts in. */
  function Start(questions: seq<Question>): (r: Quiz)
    ensures r.questions == questions && !r.submitted && |r.answers| == 0
    ensures Consistent(r) && KeysValid(r)
  {
    Quiz(questions, map[], false, 0)
  }

  /** `answers[idx] === v`: an unanswered question reads as `undefined`, which
      equals no answer code. */
  predicate AnswerIs(answers: map<int, string>, idx: int, v: string) {
    idx in answers && answers[idx] == v
  }

  // ---------------------------------------------------------------------
  // handleSelect
  // ---------------------------------------------------------------------

  /** `handleSelect(index, val)`: ignored once submitted; before that it
      records `val` for `index`, replacing any earlier answer, and leaves every
      other answer as it was. */
  function Select(s: Quiz, index: int, val: string): (r: Quiz)
    ensures r.questions == s.questions && r.submitted == s.submitted && r.score == s.score
    ensures s.submitted ==> r.answers == s.answers
    ensures !s.submitted ==>
              && AnswerIs(r.answers, index, val)
              && r.answers.Keys == s.answers.Keys + {index}
              && (forall j :: j in s.answers && j != index ==> r.answers[j] == s.answers[j])
  {
    if s.submitted then s
    else s.(answers := s.answers[index := val])
  }

  // ---------------------------------------------------------------------
  // handleSubmit
  // ---------------------------------------------------------------------

  /** The `forEach` of `handleSubmit` over the first `n` questions. */
  function CountCorrect(questions: seq<Question>, answers: map<int, string>, n: nat): (c: nat)
    requires n <= |questions|
    ensures c <= n
  {
    if n == 0 then 0
    else
      CountCorrect(questions, answers, n - 1)
        + (if AnswerIs(answers, n - 1, questions[n - 1].answer) then 1 else 0)
  }

  /** The indices below `n` whose answer matches the question's answer. */
  function CorrectBelow(questions: seq<Question>, answers: map<int, string>, n: nat): set<int>
    requires n <= |questions|
  {
    set idx | 0 <= idx < n && AnswerIs(answers, idx, questions[idx].answer)
  }

  /** The loop's count is the number of correctly answered indices. */
  lemma {:induction false} CountCorrectIsCardinality(questions: seq<Question>, answers: map<int, string>, n: nat)
    requires n <= |questions|
    ensures CountCorrect(questions, answers, n) == |CorrectBelow(questions, answers, n)|
  {
    if n > 0 {
      CountCorrectIsCardinality(questions, answers, n - 1);
      var below := CorrectBelow(questions, answers, n - 1);
      if AnswerIs(answers, n - 1, questions[n - 1].answer) {
        assert CorrectBelow(questions, answers, n) == below + {n - 1};
      } else {
        assert CorrectBelow(questions, answers, n) == below;
      }
    }
  }

  /** The score a submission records: how many questions are answered
      correctly. */
  function Score(questions: seq<Question>, answers: map<int, string>): (c: nat)
    ensures c == |CorrectBelow(questions, answers, |questions|)|
    ensures c <= |questions|
  {
    CountCorrectIsCardinality(questions, answers, |questions|);
    CountCorrect(questions, answers, |questions|)
  }

  /** `handleSubmit`, with the answer to the `confirm` dialog as `confirmed`.
      Declining changes nothing. Confirming freezes the answers and records as
      score the number of questions whose recorded answer equals the
      question's answer (an unanswered question counts as wrong). */
  function Submit(s: Quiz, confirmed: bool): (r: Quiz)
    ensures !confirmed ==> r == s
    ensures confirmed ==>
              && r.submitted
              && r.questions == s.questions && r.answers == s.answers
              && r.score == |CorrectBelow(s.questions, s.answers, |s.questions|)|
              && 0 <= r.score <= |s.questions|
  {
    if !confirmed then s
    else s.(score := Score(s.questions, s.answers), submitted := true)
  }

  /** An answer nobody gave is never counted, however the question reads. */
  lemma UnansweredIsWrong(s: Quiz, idx: int)
    requires 0 <= idx < |s.questions| && idx !in s.answers
    ensures idx !in CorrectBelow(s.questions, s.answers, |s.questions|)
  {
  }

  // ---------------------------------------------------------------------
  // Per-question verdicts and the percentage
  // ---------------------------------------------------------------------

  /** `isCorrect` of question `idx`. */
  predicate IsCorrect(s: Quiz, idx: int)
    requires 0 <= idx < |s.questions|
  {
    s.submitted && AnswerIs(s.answers, idx, s.questions[idx].answer)
  }

  /** `isWrong` of question `idx`. */
  predicate IsWrong(s: Quiz, idx: int)
    requires 0 <= idx < |s.questions|
  {
    s.submitted && !AnswerIs(s.answers, idx, s.questions[idx].answer)
  }

  /** Before submission no question is marked; after it each question is
      marked either correct or wrong, never both. */
  lemma OneVerdict(s: Quiz, idx: int)
    requires 0 <= idx < |s.questions|
    ensures !s.submitted ==> !IsCorrect(s, idx) && !IsWrong(s, idx)
    ensures s.submitted ==> (IsCorrect(s, idx) <==> !IsWrong(s, idx))
  {
  }

  /** After a confirmed submission the questions marked correct are exactly
      as many as the score. */
  lemma MarkedCorrectMatchesScore(s: Quiz)
    ensures var r := Submit(s, true);
      |set idx | 0 <= idx < |r.questions| && IsCorrect(r, idx)| == r.score
  {
    var r := Submit(s, true);
    assert (set idx | 0 <= idx < |r.questions| && IsCorrect(r, idx))
        == CorrectBelow(s.questions, s.answers, |s.questions|);
  }

  /** `Math.round((score / questions.length) * 100) || 0` on exact rationals:
      `100 * score / total` rounded half up, and 0 when there are no
      questions (0 / 0 is NaN, and `NaN || 0` is 0). */
  function ScorePercentage(score: int, total: nat): (r: int)
    ensures total == 0 ==> r == 0
    ensures total > 0 ==> 2 * total * r <= 200 * score + total < 2 * total * (r + 1)
    ensures 0 <= score <= total ==> 0 <= r <= 100
  {
    if total == 0 then 0
    else
      var r := (200 * score + total) / (2 * total);
      PercentageBounds(score, total, r);
      r
  }

  lemma PercentageBounds(score: int, total: nat, r: int)
    requires 0 < total && r == (200 * score + total) / (2 * total)
    ensures 2 * total * r <= 200 * score + total < 2 * total * (r + 1)
    ensures 0 <= score <= total ==> 0 <= r <= 100
  {
    var d, a := 2 * total, 200 * score + total;
    DivBracket(a, d);
    assert 2 * total * r == d * r;
    assert 2 * total * (r + 1) == d * r + d;
    if 0 <= score <= total {
      DivAtMost(a, d, 100);
    }
  }

  /** Euclidean division brackets its dividend. */
  lemma DivBracket(a: int, d: int)
    requires d > 0
    ensures d * (a / d) <= a < d * (a / d) + d
  {
  }

  /** A non-negative dividend below `d * (k + 1)` has a quotient in `[0, k]`. */
  lemma DivAtMost(a: int, d: int, k: nat)
    requires d > 0 && 0 <= a < d * (k + 1)
    ensures 0 <= a / d <= k
  {
    DivBracket(a, d);
  }

  /** The percentage the result banner shows. */
  function Percentage(s: Quiz): int {
    ScorePercentage(s.score, |s.questions|)
  }

  // ---------------------------------------------------------------------
  // checkOptionState
  // ---------------------------------------------------------------------

  datatype OptionState = Normal | Selected | Correct | CorrectSelected | Wrong

  /** `checkOptionState(qIndex, optionVal, correctVal)` as written. Before
      submission it only shows the user's choice. After submission the correct
      option is always `Correct`, the user's wrong choice is `Wrong`, and
      everything else is `Normal`: the `CorrectSelected` and fall-back
      `Selected` branches come after tests that already caught their cases,
      so they are never taken. */
  function CheckOptionState(s: Quiz, qIndex: int, optionVal: string, correctVal: string): (r: OptionState)
    ensures !s.submitted ==>
              && (r == Selected <==> AnswerIs(s.answers, qIndex, optionVal))
              && (r == Selected || r == Normal)
    ensures s.submitted ==>
              && (r == Correct <==> optionVal == correctVal)
              && (r == Wrong <==> optionVal != correctVal && AnswerIs(s.answers, qIndex, optionVal))
              && r != CorrectSelected && r != Selected
  {
    if !s.submitted then
      if AnswerIs(s.answers, qIndex, optionVal) then Selected else Normal
    else
      var userAns := s.answers;
      if optionVal == correctVal then Correct
      else if AnswerIs(userAns, qIndex, optionVal) && optionVal != correctVal then Wrong
      else if AnswerIs(userAns, qIndex, optionVal) && optionVal == correctVal then CorrectSelected
      else if AnswerIs(s.answers, qIndex, optionVal) then Selected
      else Normal
  }

  /** The discrepancy: a user who picked the right option "A. x" of question 0
      sees it as plain `Correct`, indistinguishable from a right option they
      did not pick, although the page styles `CorrectSelected` separately. */
  lemma PickedCorrectOptionShownAsCorrect()
    ensures var s := Quiz([Question("q", ChoiceKind, "A", ["A. x", "B. y"], Wrappers.None, Wrappers.None)],
                          map[0 := "A"], true, 1);
      && CheckOptionState(s, 0, "A", "A") == Correct
      && CheckOptionStateIntended(s, 0, "A", "A") == CorrectSelected
      && OptionStates(s, 0) == [Correct, Normal]
      && OptionStatesIntended(s, 0) == [CorrectSelected, Normal]
  {
    var q := Question("q", ChoiceKind, "A", ["A. x", "B. y"], Wrappers.None, Wrappers.None);
    assert OptionValue(q, "A. x") == "A";
    assert OptionValue(q, "B. y") == "B";
  }

  /** `checkOptionState` as its branches evidently intend: after submission the
      correct option shows `CorrectSelected` when the user picked it and
      `Correct` when they did not. */
  function CheckOptionStateIntended(s: Quiz, qIndex: int, optionVal: string, correctVal: string): (r: OptionState)
    ensures !s.submitted ==>
              && (r == Selected <==> AnswerIs(s.answers, qIndex, optionVal))
              && (r == Selected || r == Normal)
    ensures s.submitted ==>
              && (r == CorrectSelected <==> optionVal == correctVal && AnswerIs(s.answers, qIndex, optionVal))
              && (r == Correct <==> optionVal == correctVal && !AnswerIs(s.answers, qIndex, optionVal))
              && (r == Wrong <==> optionVal != correctVal && AnswerIs(s.answers, qIndex, optionVal))
              && r != Selected
  {
    if !s.submitted then
      if AnswerIs(s.answers, qIndex, optionVal) then Selected else Normal
    else if optionVal == correctVal then
      if AnswerIs(s.answers, qIndex, optionVal) then CorrectSelected else Correct
    else if AnswerIs(s.answers, qIndex, optionVal) then Wrong
    else Normal
  }

  /** The intended classification differs from the written one only by telling
      the picked correct option apart. */
  lemma IntendedRefinesWritten(s: Quiz, qIndex: int, optionVal: string, correctVal: string)
    ensures var w := CheckOptionState(s, qIndex, optionVal, correctVal);
      var i := CheckOptionStateIntended(s, qIndex, optionVal, correctVal);
      w == (if i == CorrectSelected then Correct else i)
  {
  }

  /** The states of question `idx`'s options, in order, as the page computes
      them: `getOptionValue`, then `checkOptionState` as written. Before
      submission an option is `Selected` exactly when its code is the recorded
      answer. After submission an option is `Correct` exactly when its code is
      the question's answer, `Wrong` exactly when it is the user's wrong pick,
      and `CorrectSelected` never: a right pick looks like an unpicked right
      option. */
  function OptionStates(s: Quiz, idx: int): (r: seq<OptionState>)
    requires 0 <= idx < |s.questions|
    ensures |r| == |s.questions[idx].options|
    ensures !s.submitted ==> forall k :: 0 <= k < |r| ==>
              var val := OptionValue(s.questions[idx], s.questions[idx].options[k]);
              && (r[k] == Selected <==> AnswerIs(s.answers, idx, val))
              && (r[k] == Selected || r[k] == Normal)
    ensures s.submitted ==> forall k :: 0 <= k < |r| ==>
              var val := OptionValue(s.questions[idx], s.questions[idx].options[k]);
              && (r[k] == Correct <==> val == s.questions[idx].answer)
              && (r[k] == Wrong <==> val != s.questions[idx].answer && AnswerIs(s.answers, idx, val))
              && r[k] != CorrectSelected && r[k] != Selected
  {
    var q := s.questions[idx];
    seq(|q.options|, k requires 0 <= k < |q.options| =>
      CheckOptionState(s, idx, OptionValue(q, q.options[k]), q.answer))
  }

  /** The same per-option view with the intended classification: after
      submission an option shows as correct exactly when its code is the
      question's answer, and carries the user's mark (`CorrectSelected` or
      `Wrong`) exactly when its code is the recorded answer. */
  function OptionStatesIntended(s: Quiz, idx: int): (r: seq<OptionState>)
    requires 0 <= idx < |s.questions|
    ensures |r| == |s.questions[idx].options|
    ensures s.submitted ==> forall k :: 0 <= k < |r| ==>
              var val := OptionValue(s.questions[idx], s.questions[idx].options[k]);
              && (r[k] in {Correct, CorrectSelected} <==> val == s.questions[idx].answer)
              && (r[k] in {CorrectSelected, Wrong} <==> AnswerIs(s.answers, idx, val))
  {
    var q := s.questions[idx];
    seq(|q.options|, k requires 0 <= k < |q.options| =>
      CheckOptionStateIntended(s, idx, OptionValue(q, q.options[k]), q.answer))
  }

  // ---------------------------------------------------------------------
  // The session over time
  // ---------------------------------------------------------------------

  /** What the user can do: click an option, or click submit and answer the
      confirmation dialog. */
  datatype Event = Choose(index: int, val: string) | SubmitClicked(confirmed: bool)

  function Step(s: Quiz, e: Event): Quiz {
    match e
    case Choose(index, val) => Select(s, index, val)
    case SubmitClicked(confirmed) => Submit(s, confirmed)
  }

  function Run(s: Quiz, events: seq<Event>): Quiz
    decreases |events|
  {
    if events == [] then s else Run(Step(s, events[0]), events[1..])
  }

  /** The state invariant: no score before submission; after it, the score is
      the number of correct answers; the questions never change. */
  predicate Consistent(s: Quiz) {
    && (!s.submitted ==> s.score == 0)
    && (s.submitted ==> s.score == |CorrectBelow(s.questions, s.answers, |s.questions|)|)
    && 0 <= s.score <= |s.questions|
  }

  /** Answers are only ever recorded for questions on the page. */
  predicate KeysValid(s: Quiz) {
    forall k :: k in s.answers ==> 0 <= k < |s.questions|
  }

  predicate ChoicesOnPage(events: seq<Event>, n: nat) {
    forall k :: 0 <= k < |events| && events[k].Choose? ==> 0 <= events[k].index < n
  }

  /** Every sequence of clicks from a fresh page keeps the invariant, and
      keeps answers keyed by question indices when the user only clicks
      options that are on the page. */
  lemma {:induction false} RunKeepsInvariant(s: Quiz, events: seq<Event>)
    requires Consistent(s)
    ensures Consistent(Run(s, events))
    ensures Run(s, events).questions == s.questions
    ensures KeysValid(s) && ChoicesOnPage(events, |s.questions|) ==> KeysValid(Run(s, events))
    decreases |events|
  {
    if events != [] {
      var t := Step(s, events[0]);
      assert ChoicesOnPage(events, |s.questions|) ==> ChoicesOnPage(events[1..], |s.questions|) by {
        if ChoicesOnPage(events, |s.questions|) {
          forall k | 0 <= k < |events[1..]| && events[1..][k].Choose?
            ensures 0 <= events[1..][k].index < |s.questions|
          {
            assert events[1..][k] == events[k + 1];
          }
        }
      }
      RunKeepsInvariant(t, events[1..]);
    }
  }

  /** Submission is one-way: after it no click changes the answers or the
      score, and the session stays submitted. */
  lemma {:induction false} FrozenAfterSubmit(s: Quiz, events: seq<Event>)
    requires s.submitted && Consistent(s)
    ensures Run(s, events) == s
    decreases |events|
  {
    if events != [] {
      var t := Step(s, events[0]);
      assert t == s;
      FrozenAfterSubmit(t, events[1..]);
    }
  }

  /** The worked example: three questions answered "A", "B", "T" and all
      right score 3 of 3, that is 100; only the first right scores 1, that
      is 33. */
  lemma ExampleScores()
    ensures var qs := [Question("q1", ChoiceKind, "A", [], Wrappers.None, Wrappers.None),
                       Question("q2", ChoiceKind, "B", [], Wrappers.None, Wrappers.None),
                       Question("q3", JudgeKind, "T", [], Wrappers.None, Wrappers.None)];
      && Submit(Quiz(qs, map[0 := "A", 1 := "B", 2 := "T"], false, 0), true).score == 3
      && Percentage(Submit(Quiz(qs, map[0 := "A", 1 := "B", 2 := "T"], false, 0), true)) == 100
      && Submit(Quiz(qs, map[0 := "A"], false, 0), true).score == 1
      && Percentage(Submit(Quiz(qs, map[0 := "A"], false, 0), true)) == 33
  {
    var qs := [Question("q1", ChoiceKind, "A", [], Wrappers.None, Wrappers.None),
               Question("q2", ChoiceKind, "B", [], Wrappers.None, Wrappers.None),
               Question("q3", JudgeKind, "T", [], Wrappers.None, Wrappers.None)];
    var all, first := map[0 := "A", 1 := "B", 2 := "T"], map[0 := "A"];
    assert CountCorrect(qs, all, 1) == 1;
    assert CountCorrect(qs, all, 2) == 2;
    assert CountCorrect(qs, all, 3) == 3;
    assert CountCorrect(qs, first, 1) == 1;
    assert CountCorrect(qs, first, 2) == 1;
    assert CountCorrect(qs, first, 3) == 1;
  }
}
