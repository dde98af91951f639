/** `getOptionValue` of the quiz client: the answer code an option stands for. */
module OptionValues {
  import opened Questions

  /** The two fixed options of a judge question ("correct", "wrong"). */
  const TrueText: string := "正确"
  const FalseText: string := "错误"

  predicate IsLowerAscii(c: char) {
    'a' <= c <= 'z'
  }

  predicate IsUpperAscii(c: char) {
    'A' <= c <= 'Z'
  }

  /** `toUpperCase` of one character, on the ASCII letters. */
  function UpperAscii(c: char): (u: char)
    ensures IsLowerAscii(c) ==> IsUpperAscii(u) && u as int == c as int - 32
    ensures !IsLowerAscii(c) ==> u == c
  {
    if IsLowerAscii(c) then (c as int - 32) as char else c
  }

  /** `getOptionValue(q, opt)`. A choice option stands for its first character,
      upper-cased ("" for an empty option); a question of any other kind is
      read as a judge question, whose two fixed texts stand for "T" and "F"
      and anything else for "?". */
  function OptionValue(q: Question, opt: string): (r: string)
    ensures q.kind == ChoiceKind ==>
              && (r == "" <==> opt == "")
              && |r| <= 1
              && (opt != "" ==> r[0] == UpperAscii(opt[0]))
    ensures q.kind != ChoiceKind ==>
              && (r == "T" <==> opt == TrueText)
              && (r == "F" <==> opt == FalseText)
              && (r == "?" <==> opt != TrueText && opt != FalseText)
  {
    if q.kind == ChoiceKind then
      if opt == "" then "" else [UpperAscii(opt[0])]
    else if opt == TrueText then "T"
    else if opt == FalseText then "F"
    else "?"
  }

  /** A choice option labelled with a capital letter ("B. ...") stands for that
      letter; one labelled with a small letter stands for its capital, 32 code
      points below it ("b. ..." stands for "B"); any other first character
      stands for itself. */
  lemma ChoiceLabel(q: Question, opt: string)
    requires q.kind == ChoiceKind && opt != ""
    ensures |OptionValue(q, opt)| == 1
    ensures IsUpperAscii(opt[0]) ==> OptionValue(q, opt) == opt[..1]
    ensures IsLowerAscii(opt[0]) ==> OptionValue(q, opt) == [(opt[0] as int - 32) as char]
    ensures !IsLowerAscii(opt[0]) ==> OptionValue(q, opt) == opt[..1]
    ensures OptionValue(q, "b. two") == "B"
  {
  }

  /** The code of a judge option reads back to the option's text. */
  function JudgeText(code: string): string {
    if code == "T" then TrueText else if code == "F" then FalseText else ""
  }

  lemma JudgeRoundTrip(q: Question, opt: string)
    requires q.kind != ChoiceKind && (opt == TrueText || opt == FalseText)
    ensures JudgeText(OptionValue(q, opt)) == opt
  {
  }

  /** Two choice options get distinct codes exactly when their first letters
      differ once upper-cased: the codes identify the options of a question
      whose labels are distinct letters, and "A. ..." and "a. ..." collide. */
  lemma ChoiceCodesDistinct(q: Question, o1: string, o2: string)
    requires q.kind == ChoiceKind && o1 != "" && o2 != ""
    ensures OptionValue(q, o1) != OptionValue(q, o2) <==> UpperAscii(o1[0]) != UpperAscii(o2[0])
  {
  }
}
