/** The results screen: the count of correct answers it prints and one review row per question. */
module Review {
  import opened Wrappers
  import opened Quizzes
  import opened Scoring

  /** The label shown for a question the learner did not answer ("not answered"). */
  const UnansweredLabel: string := "Tidak dijawab"

  /** `quiz.questions.filter((q, i) => answers[i] === q.correctAnswer)`, whose length the
      results screen prints as the number of correct answers. */
  function ResultsFilter(qs: seq<Question>, answers: map<nat, nat>): (r: seq<Question>)
    ensures |r| <= |qs|
    ensures forall q :: q in r ==> q in qs
  {
    if |qs| == 0 then []
    else
      var n := |qs| - 1;
      ResultsFilter(qs[..n], answers) + (if AnsweredCorrectly(qs, answers, n) then [qs[n]] else [])
  }

  /** The count printed on the results screen is the count the score was computed from. */
  lemma {:induction false} ResultsCountMatchesScoring(qs: seq<Question>, answers: map<nat, nat>)
    ensures |ResultsFilter(qs, answers)| == CorrectCount(qs, answers)
  {
    if |qs| > 0 {
      ResultsCountMatchesScoring(qs[..|qs| - 1], answers);
    }
  }

  /** The learner's option text, as the source renders it:
      `question.options?.[answers[index]] || 'Tidak dijawab'`. Any falsy text, the empty
      option text included, is replaced by the unanswered label. */
  function ChosenLabelAsWritten(q: Question, answers: map<nat, nat>, i: nat): (shown: string)
    ensures i !in answers ==> shown == UnansweredLabel
    ensures i in answers && answers[i] < |q.options| && q.options[answers[i]] != "" ==> shown == q.options[answers[i]]
    ensures !(i in answers && answers[i] < |q.options| && q.options[answers[i]] != "") ==> shown == UnansweredLabel
  {
    if i in answers && answers[i] < |q.options| && q.options[answers[i]] != "" then q.options[answers[i]]
    else UnansweredLabel
  }

  /** A question answered with an option whose text is empty (the save filter keeps a question
      with at least one filled option, so the others may be empty and the learner can click
      them) is reported as not answered. */
  lemma BlankOptionShownAsUnanswered()
    ensures var q := Question("2 + 2 = ?", ["4", ""], 0);
            var answers := map[0 := 1];
            0 in answers && ChosenLabelAsWritten(q, answers, 0) == UnansweredLabel
  {
  }

  /** The learner's choice: None exactly when the question has no recorded answer (for answers
      the view can record). The unanswered label is shown only for None. */
  function ChosenOption(q: Question, answers: map<nat, nat>, i: nat): (chosen: Option<string>)
    ensures chosen.Some? ==> i in answers && answers[i] < |q.options| && chosen.value == q.options[answers[i]]
    ensures i !in answers ==> chosen.None?
  {
    if i in answers && answers[i] < |q.options| then Some(q.options[answers[i]]) else None
  }

  /** The correct option's text; `undefined`, rendered as nothing, when the index is out of range. */
  function CorrectOptionText(q: Question): (text: string)
    ensures q.correctAnswer < |q.options| ==> text == q.options[q.correctAnswer]
    ensures q.correctAnswer >= |q.options| ==> text == ""
  {
    if q.correctAnswer < |q.options| then q.options[q.correctAnswer] else ""
  }

  /** One review row: the prompt, the check/cross mark, the learner's choice and the correct text. */
  datatype ReviewRow = ReviewRow(prompt: string, correct: bool, chosen: Option<string>, correctText: string)

  /** The label the row shows for the learner's choice. */
  function ChosenLabel(row: ReviewRow): (shown: string)
    ensures row.chosen.Some? ==> shown == row.chosen.value
    ensures row.chosen.None? ==> shown == UnansweredLabel
  {
    row.chosen.GetOr(UnansweredLabel)
  }

  /** The review list: one row per question, in quiz order. */
  function ReviewRows(qs: seq<Question>, answers: map<nat, nat>): (rows: seq<ReviewRow>)
    ensures |rows| == |qs|
    ensures forall i :: 0 <= i < |qs| ==>
      && rows[i].prompt == qs[i].prompt
      && (rows[i].correct <==> AnsweredCorrectly(qs, answers, i))
      && rows[i].chosen == ChosenOption(qs[i], answers, i)
      && rows[i].correctText == CorrectOptionText(qs[i])
  {
    seq(|qs|, i requires 0 <= i < |qs| =>
      ReviewRow(qs[i].prompt, AnsweredCorrectly(qs, answers, i), ChosenOption(qs[i], answers, i), CorrectOptionText(qs[i])))
  }

  /** For answers the view can record, a row shows the unanswered label exactly when the
      question has no answer; otherwise it shows the chosen option's own text. */
  lemma UnansweredLabelIff(qs: seq<Question>, answers: map<nat, nat>, i: nat)
    requires ValidAnswers(qs, answers)
    requires i < |qs|
    ensures ReviewRows(qs, answers)[i].chosen.None? <==> i !in answers
    ensures i in answers ==> ChosenLabel(ReviewRows(qs, answers)[i]) == qs[i].options[answers[i]]
  {
  }

  /** The corrected rows differ from what the view shows only on the input under "Findings":
      whenever the chosen option's text is not empty, both show the same label. */
  lemma RowsShowSourceLabelUnlessBlank(qs: seq<Question>, answers: map<nat, nat>, i: nat)
    requires ValidAnswers(qs, answers)
    requires i < |qs|
    requires i in answers ==> qs[i].options[answers[i]] != ""
    ensures ChosenLabel(ReviewRows(qs, answers)[i]) == ChosenLabelAsWritten(qs[i], answers, i)
  {
  }

  /** A row marked correct shows the correct option's text as the learner's choice. */
  lemma CorrectRowShowsCorrectText(qs: seq<Question>, answers: map<nat, nat>, i: nat)
    requires i < |qs|
    requires ReviewRows(qs, answers)[i].correct
    requires qs[i].correctAnswer < |qs[i].options|
    ensures ReviewRows(qs, answers)[i].chosen == Some(ReviewRows(qs, answers)[i].correctText)
  {
  }

  /** The number of rows marked correct. */
  function MarkedCorrect(rows: seq<ReviewRow>): (marked: nat)
    ensures marked <= |rows|
    ensures (forall k :: 0 <= k < |rows| ==> !rows[k].correct) ==> marked == 0
  {
    if |rows| == 0 then 0 else MarkedCorrect(rows[..|rows| - 1]) + (if rows[|rows| - 1].correct then 1 else 0)
  }

  /** The check marks in the review add up to the count the score was computed from. */
  lemma {:induction false} MarkedCorrectMatchesScoring(qs: seq<Question>, answers: map<nat, nat>)
    ensures MarkedCorrect(ReviewRows(qs, answers)) == CorrectCount(qs, answers)
  {
    if |qs| > 0 {
      var n := |qs| - 1;
      var rows, pre := ReviewRows(qs, answers), ReviewRows(qs[..n], answers);
      MarkedCorrectMatchesScoring(qs[..n], answers);
      assert rows[..n] == pre by {
        forall i | 0 <= i < n
          ensures rows[..n][i] == pre[i]
        {
          assert qs[..n][i] == qs[i];
        }
      }
      assert MarkedCorrect(rows) == MarkedCorrect(pre) + (if rows[n].correct then 1 else 0);
      assert rows[n].correct == AnsweredCorrectly(qs, answers, n);
    }
  }

}
