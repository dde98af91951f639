/** A question of the bank and the two derived facts the sampler keys on:
    its kind (`type`) and its module. */
module Questions {
  import opened Wrappers

  /** One entry of the question bank. `kind` is the raw `type` field: the page
      keeps "choice" and "judge" questions and drops anything else the bank
      holds. `moduleTag` is the optional `module` field. */
  datatype Question = Question(
    text: string,
    kind: string,
    answer: string,
    options: seq<string>,
    explanation: Option<string>,
    moduleTag: Option<string>)

  const ChoiceKind: string := "choice"
  const JudgeKind: string := "judge"

  /** The group every question without a usable module falls into. */
  const DefaultModule: string := "default"

  /** `q.type === kind`, as a filter predicate. */
  function OfKind(kind: string): Question -> bool {
    (q: Question) => q.kind == kind
  }

  /** `q.module || 'default'`: a missing module and an empty one are both
      falsy in JavaScript, so both land in the default group. */
  function ModuleKey(q: Question): (m: string)
    ensures m != ""
    ensures m == DefaultModule <==>
              q.moduleTag.None? || q.moduleTag.value in {"", DefaultModule}
    ensures q.moduleTag.Some? && q.moduleTag.value != "" ==> m == q.moduleTag.value
  {
    match q.moduleTag
    case Some(name) => if name != "" then name else DefaultModule
    case None => DefaultModule
  }

  /** Membership in the group keyed `key`, as a filter predicate. */
  function InModule(key: string): Question -> bool {
    (q: Question) => ModuleKey(q) == key
  }
}
