/**
 * The prompt answer rules of the three `Questioner` classes. Reading from
 * the terminal is abstracted as the list of lines the user types, one per
 * question; a default given as a function is modelled by the value it
 * returns.
 */
module Questions {
  import opened Base
  import opened Strings
  import opened OrderedMap

  /** An answer value: `string | boolean` */
  datatype Value = Text(text: string) | Flag(flag: bool)

  /** `question.default`: a function returning a value, or the value itself */
  datatype Default = Fn(result: Value) | Literal(value: Value)

  /** `typeof d === "function" ? d() : d` */
  function Resolve(d: Default): Value {
    match d
    case Fn(v) => v
    case Literal(v) => v
  }

  datatype Question = Question(name: string, message: string, kind: string, default: Default)

  /** Only confirm and input questions record an answer. */
  predicate Answerable(q: Question) {
    q.kind == "confirm" || q.kind == "input"
  }

  /**
   * `answer.toLowerCase().includes("y") || answer.toLowerCase().includes("t")`;
   * the oldest questioner accepts only `y` (`acceptT` false).
   */
  predicate IsYes(answer: string, acceptT: bool) {
    'y' in ToLower(answer) || (acceptT && 't' in ToLower(answer))
  }

  /** Case-insensitively: a `y`, or (where accepted) a `t`, anywhere in the answer. */
  lemma YesRule(answer: string, acceptT: bool)
    ensures IsYes(answer, acceptT) <==>
      'y' in answer || 'Y' in answer || (acceptT && ('t' in answer || 'T' in answer))
  {
    LowerContains(answer, 'y');
    LowerContains(answer, 't');
  }

  /** "true" confirms where `t` counts and not in the oldest questioner; "no" never confirms. */
  lemma YesExamples()
    ensures IsYes("true", true) && !IsYes("true", false)
    ensures !IsYes("no", true) && !IsYes("", true)
  {
    YesRule("true", true);
    YesRule("true", false);
    YesRule("no", true);
  }

  /** A confirm question's answer: the default for an empty line, else the yes test */
  function ConfirmValue(answer: string, dflt: Value, acceptT: bool): (v: Value)
    ensures answer == "" ==> v == dflt
    ensures answer != "" ==>
      v.Flag? && (v.flag <==> 'y' in answer || 'Y' in answer || (acceptT && ('t' in answer || 'T' in answer)))
  {
    YesRule(answer, acceptT);
    if answer == "" then dflt else Flag(IsYes(answer, acceptT))
  }

  /** An input question's answer: `answer || default` */
  function InputValue(answer: string, dflt: Value): (v: Value)
    ensures answer != "" ==> v == Text(answer)
    ensures answer == "" ==> v == dflt
  {
    if answer != "" then Text(answer) else dflt
  }

  /** The value a question records for the line typed */
  function AnswerTo(q: Question, typed: string, acceptT: bool): Value {
    if q.kind == "confirm" then ConfirmValue(typed, Resolve(q.default), acceptT)
    else InputValue(typed, Resolve(q.default))
  }

  /** The answers object after the first `n` questions */
  function Collected(questions: seq<Question>, typed: seq<string>, acceptT: bool, n: nat): Entries<string, Value>
    requires n <= |questions| == |typed|
  {
    if n == 0 then []
    else
      var m := Collected(questions, typed, acceptT, n - 1);
      var q := questions[n - 1];
      if Answerable(q) then Put(m, q.name, AnswerTo(q, typed[n - 1], acceptT)) else m
  }

  /** The last of the first `n` questions that records an answer under `name`, or -1 */
  function LastAsked(questions: seq<Question>, name: string, n: nat): (r: int)
    requires n <= |questions|
    ensures -1 <= r < n
    ensures r == -1 <==> forall j :: 0 <= j < n ==> !(Answerable(questions[j]) && questions[j].name == name)
    ensures r >= 0 ==>
      Answerable(questions[r]) && questions[r].name == name &&
      forall j :: r < j < n ==> !(Answerable(questions[j]) && questions[j].name == name)
  {
    if n == 0 then -1
    else if Answerable(questions[n - 1]) && questions[n - 1].name == name then n - 1
    else LastAsked(questions, name, n - 1)
  }

  /**
   * Each name holds the answer of the last confirm or input question asked
   * under it (a later question overwrites an earlier one), and a name no such
   * question used is absent.
   */
  lemma {:induction false} LastAnswerWins(questions: seq<Question>, typed: seq<string>, acceptT: bool, n: nat, name: string)
    requires n <= |questions| == |typed|
    ensures var i := LastAsked(questions, name, n);
      Get(Collected(questions, typed, acceptT, n), name) ==
        if i == -1 then None else Some(AnswerTo(questions[i], typed[i], acceptT))
  {
    if n > 0 {
      LastAnswerWins(questions, typed, acceptT, n - 1, name);
      var q := questions[n - 1];
      if Answerable(q) {
        GetPut(Collected(questions, typed, acceptT, n - 1), q.name, AnswerTo(q, typed[n - 1], acceptT), name);
      }
    }
  }

  /** The loop of `prompt`, shared by the three questioners */
  method Ask(questions: seq<Question>, typed: seq<string>, acceptT: bool) returns (answers: Entries<string, Value>)
    requires |typed| == |questions|
    ensures answers == Collected(questions, typed, acceptT, |questions|)
  {
    answers := [];
    for i := 0 to |questions|
      invariant answers == Collected(questions, typed, acceptT, i)
    {
      var question := questions[i];
      var dflt := Resolve(question.default);
      var answer := typed[i];
      if question.kind == "confirm" {
        if answer == "" {
          answers := Put(answers, question.name, dflt);
        } else {
          answers := Put(answers, question.name, Flag(IsYes(answer, acceptT)));
        }
      } else if question.kind == "input" {
        answers := Put(answers, question.name, if answer != "" then Text(answer) else dflt);
      }
    }
  }

  /** `Questioner.prompt` in src/core/cli/questioner.ts: the default is resolved once per question */
  method Prompt(questions: seq<Question>, typed: seq<string>) returns (answers: Entries<string, Value>)
    requires |typed| == |questions|
    ensures answers == Collected(questions, typed, true, |questions|)
  {
    answers := Ask(questions, typed, true);
  }

  /** `Questioner.prompt` in src/models/cli/questioner.js: `default()` is called for display, so it must be a function */
  method LegacyPrompt(questions: seq<Question>, typed: seq<string>) returns (answers: Entries<string, Value>)
    requires |typed| == |questions|
    requires forall q :: q in questions ==> q.default.Fn?
    ensures answers == Collected(questions, typed, true, |questions|)
  {
    answers := Ask(questions, typed, true);
  }

  /** `Questioner.prompt` in src/models/questioner.js: a function default, and only `y` confirms */
  method YesOnlyPrompt(questions: seq<Question>, typed: seq<string>) returns (answers: Entries<string, Value>)
    requires |typed| == |questions|
    requires forall q :: q in questions ==> q.default.Fn?
    ensures answers == Collected(questions, typed, false, |questions|)
  {
    answers := Ask(questions, typed, false);
  }

  /** `promptConfirm`: the yes test alone, so an empty line is `false` */
  function PromptConfirm(answer: string): (r: bool)
    ensures r <==> 'y' in answer || 'Y' in answer || 't' in answer || 'T' in answer
    ensures answer == "" ==> !r
  {
    YesRule(answer, true);
    IsYes(answer, true)
  }
}
