# Quiz sampler and quiz session, modelled in Dafny

The practice-exam app draws a balanced set of multiple-choice ("choice") and
true/false ("judge") questions from a question bank. It then runs one quiz
session over them: the user picks options, confirms the submission, and gets
a score and a percentage, and every option is shown with a display state.

This project models the two pieces of logic behind that:

- **The sampler** (`app/quiz/page.tsx`):
  - `shuffle`, a Fisher–Yates shuffle of a copy;
  - `stratifiedSample`, which groups questions by module (`'default'` when
    there is none), shuffles each group, collects round robin from the group
    queues until `count` questions are taken or every queue is empty, and
    shuffles the result;
  - the step of the quiz page that samples the choice questions and then the
    judge questions, concatenates them, and fails on an empty result.
- **The session** (`app/quiz/QuizClient.tsx`):
  - `handleSelect`, `handleSubmit` and `checkOptionState`;
  - `getOptionValue`, `scorePercentage`, and the per-question
    `isCorrect`/`isWrong` flags.

Modules, one file each:

| file | module | models |
|---|---|---|
| `wrappers.dfy` | `Wrappers` | `Option` and `Result` |
| `seqs.dfy` | `Seqs` | filtering, flattening and swapping sequences |
| `questions.dfy` | `Questions` | a bank entry; its kind and module key |
| `fisher_yates.dfy` | `FisherYates` | `shuffle` |
| `grouping.dfy` | `Grouping` | step 1 of `stratifiedSample` |
| `round_robin.dfy` | `RoundRobin` | step 3 of `stratifiedSample` |
| `sampler.dfy` | `Sampler` | `stratifiedSample` and the quiz page's combining step |
| `option_values.dfy` | `OptionValues` | `getOptionValue` |
| `session.dfy` | `Session` | the session state and its handlers |

`Math.random()` is not called. Its successive results are an explicit
sequence of draws `rs`, each a real in `[0, 1)`. A random index is
`Floor(x * bound)`, exactly as `Math.floor(Math.random() * currentIndex)`
computes it on exact reals. `Shuffle` of `n` items uses the first `n` draws
(`FisherYates.ShuffleUsesPrefix`).
`StratifiedSample` uses one draw per question for the group shuffles, then
one per selected question for the final shuffle. `BuildQuiz` gives the judge
sample the draws the choice sample left over.

The component's three `useState` values become one immutable `Quiz` value,
and each handler becomes a function from state to state. The `confirm`
dialog's answer is a boolean parameter of `Submit`.

`checkOptionState` and the page's styling of its result disagree in one
place. The function has a branch for `correct-selected` (line 63 of
`app/quiz/QuizClient.tsx`), and the option button gives that state a look of
its own (line 170), but the branch on line 61 answers first, so the state never
occurs. The model keeps both readings apart:

- `Session.CheckOptionState` and `Session.OptionStates` are the code as
  written, which is what the page shows.
- `Session.CheckOptionStateIntended` and `Session.OptionStatesIntended` are
  the classification the branch on line 63 intends; see Findings.

For choice questions the answer code of an option is its first character
upper-cased, so "A. x" and "a. y" get the same code
(`OptionValues.ChoiceCodesDistinct`).

## Model

| member | source | states |
|---|---|---|
| Questions.ModuleKey | app/quiz/page.tsx:32 | The group key is never empty. It is `"default"` exactly when the module is missing, empty or literally "default". Any other module name is its own key. |
| Seqs.Filter | app/quiz/page.tsx:64-65 | `filter` keeps exactly the elements satisfying the predicate, each with its full multiplicity, and drops the rest. |
| FisherYates.RandomIndex | app/quiz/page.tsx:11 | `Math.floor(r * currentIndex)` of a draw in [0, 1) is a valid index below `currentIndex`, and it is the floor of the product. |
| FisherYates.ShuffleFrom | app/quiz/page.tsx:9-17 | The remaining rounds of the loop permute the array: same length, same multiset. Positions already placed are not touched again. |
| FisherYates.Shuffle | app/quiz/page.tsx:4-20 | `shuffle` returns a permutation of its input: same length, same multiset. |
| FisherYates.ShuffleLoop | app/quiz/page.tsx:5-19 | The `while` loop, run as written on a copy, stops after exactly `array.length` rounds. Every index it swaps is in range, and it computes `Shuffle`. |
| FisherYates.ShuffleUsesPrefix | app/quiz/page.tsx:9-17 | A shuffle of `n` items depends only on the first `n` draws. |
| Grouping.FindGroup | app/quiz/page.tsx:33 | `groups[m]` finds the group keyed `m`, and finds nothing exactly when no group has that key. |
| Grouping.GroupByModule | app/quiz/page.tsx:30-35 | Grouping partitions the input. The keys are distinct and are exactly the modules that occur. Each group is non-empty and holds exactly its module's questions, in input order. The groups laid end to end are a permutation of the input. |
| Grouping.ExactlyOneGroup | app/quiz/page.tsx:30-35 | Every question lands in exactly one group: the one keyed by its module. |
| RoundRobin.Visit | app/quiz/page.tsx:44-48 | One run of the loop body advances `i` by one. It moves at most one item, the last of the visited queue, onto `selected`, and moves one exactly when that queue is non-empty. Nothing is lost or invented. |
| RoundRobin.VisitProgress | app/quiz/page.tsx:43-49 | While some queue is non-empty, every run of the body shrinks the pair (items left, distance to the next non-empty queue) lexicographically, so the loop terminates. |
| RoundRobin.Collect | app/quiz/page.tsx:41-49 | On exit `count` items are selected or every queue is empty. Queues only lose items from their ends, and `selected` only grows. Selected items plus remaining items are exactly the items at the start. |
| RoundRobin.CollectLength | app/quiz/page.tsx:41-49 | Starting from an empty selection, the loop selects `min(count, available)` items. |
| RoundRobin.CollectFair | app/quiz/page.tsx:41-49 | Invariant of the loop: after `i` rounds, every queue has given up one item per visit (`i / n` plus one if `i % n` has passed it), until it ran dry. |
| RoundRobin.CollectBalanced | app/quiz/page.tsx:41-49 | Queue `a` gives at least `min(size of a, taken from b - 1)` items for any queue `b`. Two queues that both still hold items have given amounts that differ by at most one. |
| RoundRobin.CollectCounts | app/quiz/page.tsx:44-46 | When only queue `a` holds items with some property, the selection gains exactly as many such items as `a` loses. |
| Sampler.ShuffleEach | app/quiz/page.tsx:38 | Shuffling each group keeps the number of groups, and makes each queue a permutation of its group. |
| Sampler.Queues | app/quiz/page.tsx:38 | The queues of step 2, laid end to end, are a permutation of the input. |
| Sampler.PickedSelection | app/quiz/page.tsx:41-49 | Round robin over the shuffled queues picks `min(count, number of questions)` questions, drawn from the input without duplication. When `count` covers the input, it picks all of it. |
| Sampler.StratifiedSample | app/quiz/page.tsx:26-53 | The result is empty for `count <= 0`. Otherwise it holds `min(count, number of questions)` questions and is a sub-multiset of the input. When `count` reaches the number of questions, it is a permutation of the whole input. |
| Sampler.StratifiedSampleBalanced | app/quiz/page.tsx:22-53 | Balance across modules: the sample holds at least `min(available in a, sampled from b - 1)` questions of module `a`, for any modules `a` and `b`. |
| Sampler.BuildQuiz | app/quiz/page.tsx:64-76 | The page fails exactly when both samples are empty. Otherwise the list has both samples' sizes, choice questions first and judge questions after, and is drawn from the bank. When both counts cover their pools, it holds every choice and judge question of the bank. |
| Sampler.Combined | app/quiz/page.tsx:71 | The concatenation keeps each part's kind in place and stays within the bank. |
| Sampler.KindsWithinBank | app/quiz/page.tsx:64-65 | The choice and judge questions are disjoint parts of the bank. |
| OptionValues.UpperAscii | app/quiz/QuizClient.tsx:85 | `toUpperCase` on a character maps a-z to A-Z and leaves everything else alone. |
| OptionValues.OptionValue | app/quiz/QuizClient.tsx:82-92 | A choice option's code is its first character upper-cased, or "" for an empty option. For any other kind of question, "正确" gives "T", "错误" gives "F", and anything else gives "?". Each is stated in both directions. |
| OptionValues.ChoiceLabel | app/quiz/QuizClient.tsx:84-85 | A choice option's code is one character. An option labelled "B. ..." has code "B". One labelled with a small ASCII letter has the letter 32 code points below it, its capital, as its code ("b. two" has code "B"). Any other first character is its own code. |
| OptionValues.JudgeRoundTrip | app/quiz/QuizClient.tsx:87-90 | The code of a judge option reads back to the option's text. |
| OptionValues.ChoiceCodesDistinct | app/quiz/QuizClient.tsx:82-85 | Two choice options get different codes exactly when their first letters differ after upper-casing. |
| Session.Start | app/quiz/QuizClient.tsx:21-23 | A fresh session is unsubmitted, with no answers and score 0, and already satisfies the session invariant. |
| Session.Select | app/quiz/QuizClient.tsx:27-30 | After submission, `handleSelect` changes nothing. Before it, `handleSelect` records the value for that index, overwriting any earlier answer, and leaves every other answer unchanged. |
| Session.CountCorrectIsCardinality | app/quiz/QuizClient.tsx:35-41 | The counting loop's result is the number of indices whose answer equals the question's answer. |
| Session.Score | app/quiz/QuizClient.tsx:35-46 | The score is the number of correctly answered questions, at most the number of questions. |
| Session.Submit | app/quiz/QuizClient.tsx:32-51 | If the dialog is declined, nothing changes. If it is confirmed, the state becomes submitted with the answers unchanged, and the score is the number of questions answered correctly, between 0 and the number of questions. |
| Session.UnansweredIsWrong | app/quiz/QuizClient.tsx:37-38 | A question never answered is never counted correct. |
| Session.OneVerdict | app/quiz/QuizClient.tsx:129-130 | Before submission no question is flagged. After it, each question is flagged either correct or wrong, never both. |
| Session.MarkedCorrectMatchesScore | app/quiz/QuizClient.tsx:129 | After a confirmed submission, the number of questions flagged correct equals the score. |
| Session.ScorePercentage | app/quiz/QuizClient.tsx:94 | The percentage is 0 without questions. Otherwise it is `100 * score / total` rounded half up, bracketed exactly. It lies in `[0, 100]` whenever `0 <= score <= total`. |
| Session.CheckOptionState | app/quiz/QuizClient.tsx:53-66 | Before submission, an option is `selected` exactly when it is the user's answer, and `normal` otherwise. After submission it is `correct` exactly when it is the right option, and `wrong` exactly when it is the user's wrong pick. `correct-selected` and `selected` are never returned. |
| Session.PickedCorrectOptionShownAsCorrect | app/quiz/QuizClient.tsx:61-63 | A user who picked the right option "A. x" sees it as plain `correct`, so the page shows the options as `correct`, `normal`. The intended classification gives `correct-selected`, `normal`. |
| Session.CheckOptionStateIntended | app/quiz/QuizClient.tsx:53-66 | After submission, `correct-selected` appears exactly for the right option when the user picked it, and `correct` for the right option when they did not. `wrong` appears exactly for a wrong pick, and `selected` never. |
| Session.IntendedRefinesWritten | app/quiz/QuizClient.tsx:60-65 | The written classification is the intended one with `correct-selected` collapsed into `correct`. |
| Session.OptionStates | app/quiz/QuizClient.tsx:156-158 | The page's states of a question's options, one per option. Before submission an option is `selected` exactly when its code is the recorded answer, and `normal` otherwise. After submission it is `correct` exactly when its code is the question's answer, and `wrong` exactly when its code is the user's wrong pick. It is never `correct-selected` or `selected` then. |
| Session.OptionStatesIntended | app/quiz/QuizClient.tsx:156-158 | The same per-option view with the intended classification. After submission an option shows as correct exactly when its code is the answer, and carries the user's mark exactly when its code is the recorded answer. |
| Session.RunKeepsInvariant | app/quiz/QuizClient.tsx:21-51 | Any sequence of clicks keeps the session invariant: no score before submission, and afterwards the score counts the correct answers. Answers stay keyed by question indices when only on-page options are clicked. |
| Session.FrozenAfterSubmit | app/quiz/QuizClient.tsx:27-28 | After submission, no sequence of clicks changes the session. |
| Session.ExampleScores | app/quiz/QuizClient.tsx:35-47 | Worked example: answering three questions "A", "B", "T", all correct, scores 3 and 100%. Answering only the first correctly scores 1 and 33%. |

## Left out

- Floating point. Draws are exact reals in `[0, 1)`, and `Math.round` of the percentage is computed on exact rationals (round half up). The JavaScript double arithmetic is not modelled.
- Randomness. Nothing is claimed about the distribution of shuffles or samples (uniformity); the properties hold for every sequence of draws.
- Sampler.BuildQuiz: the counts are integers. `parseInt` of the `c`/`j` URL parameters (defaults 20 and 10) is not modelled. A non-numeric parameter gives NaN in the source, which selects nothing because every comparison with NaN fails. That is the same outcome the model gives for `count <= 0`.
- Sampler.BuildQuiz: the thrown error is the single value `EmptySelection`. The warning logged and the message text are left out.
- Grouping.GroupByModule: groups are kept in first-appearance order. JavaScript's `Object.values` lists integer-like keys (a module named "3") first, in numeric order; this reordering is not modelled. The proved properties do not depend on the order. Module names that are `Object.prototype` members are not modelled either. For a module named "constructor", "toString" or "__proto__", `groups[m]` on line 33 of `app/quiz/page.tsx` is already truthy and is not an array, so `groups[m].push` on line 34 throws a `TypeError` and the page fails. The model treats such a name as an ordinary key.
- RoundRobin.Collect: `i` is an unbounded natural. A JavaScript number loses precision past 2^53, far beyond any reachable loop count.
- OptionValues.UpperAscii: `toUpperCase` is modelled on ASCII letters only. Other characters, which Unicode may upper-case or expand, are returned unchanged. `substring(0, 1)` is one UTF-16 unit, modelled as one `char`.
- Session.Submit: the `confirm` dialog is its boolean answer, and `window.scrollTo` is left out.
- Rendering: JSX, `clsx` classes, the header, the progress counter `Object.keys(answers).length`, the explanation block, and `getOptionLabel` (the identity) are presentation only.
- The question bank `questions.json`, the home page form and the loading and error pages are not part of this model.

## Findings

| source | as written | input that shows it | evidently intended | confidence | as-written member | corrected member |
|---|---|---|---|---|---|---|
| app/quiz/QuizClient.tsx:61-63 | After submission, the first condition returns `correct` for the right option before the `userAns === optionVal && userAns === correctVal` condition is reached, so `correct-selected` is unreachable. The fallback `selected` on line 64 is unreachable too. | Question 0 with answer "A", the user answered "A", submitted: option "A" is classified `correct`. | The user's correct pick shows as `correct-selected`, the state the branch on line 63 returns and line 170 styles apart from an unpicked correct option. | high (not executed) | Session.PickedCorrectOptionShownAsCorrect | Session.CheckOptionStateIntended |
