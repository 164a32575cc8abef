/** The quiz document as the quiz view receives it: a title, optional description, an optional
    time limit and an ordered list of multiple-choice questions. */
module Quizzes {
  import opened Wrappers

  /** One question: its prompt text (`question` in the document), the option texts and the
      0-based index of the correct option. */
  datatype Question = Question(prompt: string, options: seq<string>, correctAnswer: nat)

  /** `timeLimit` is None when the field is missing or `parseInt` produced `NaN`; a present
      value may be any integer, including 0 and negatives. A missing `questions` field is the
      empty sequence. */
  datatype Quiz = Quiz(title: string, content: string, timeLimit: Option<int>, questions: seq<Question>)

  /** Seconds granted when the quiz carries no usable time limit. */
  const DefaultTimeLimit: int := 300

  /** `quiz.timeLimit || 300`: every falsy limit (absent, `NaN`, 0) falls back to the default;
      any other integer, negative ones included, is kept. */
  function StartTime(quiz: Quiz): (t: int)
    ensures t != 0
    ensures quiz.timeLimit.None? ==> t == DefaultTimeLimit
    ensures quiz.timeLimit.Some? ==> t == (if quiz.timeLimit.value == 0 then DefaultTimeLimit else quiz.timeLimit.value)
  {
    match quiz.timeLimit
    case None => DefaultTimeLimit
    case Some(limit) => if limit == 0 then DefaultTimeLimit else limit
  }

  /** Answers the learner may have recorded: every key names a question and every value one
      of that question's options. */
  ghost predicate ValidAnswers(qs: seq<Question>, answers: map<nat, nat>) {
    forall k :: k in answers ==> k < |qs| && answers[k] < |qs[k].options|
  }
}
