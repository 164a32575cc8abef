/** Concrete attempts worked through the model. */
module Scenarios {
  import opened Wrappers
  import opened Quizzes
  import opened Scoring
  import opened Attempt
  import opened Review

  function Q(correct: nat): Question {
    Question("?", ["A", "B", "C", "D"], correct)
  }

  /** Four questions with correct options 1, 0, 2, 3; the learner gets all but question 2 right:
      three of four correct scores 75, and question 2's row is crossed with both texts shown. */
  lemma ThreeOfFourScoresSeventyFive()
    ensures var qs := [Q(1), Q(0), Q(2), Q(3)];
            var answers := map[0 := 1, 1 := 0, 2 := 0, 3 := 3];
            && CorrectCount(qs, answers) == 3
            && Score(qs, answers) == 75
            && !ReviewRows(qs, answers)[2].correct
            && ReviewRows(qs, answers)[2].chosen == Some("A")
            && ReviewRows(qs, answers)[2].correctText == "C"
  {
    var qs := [Q(1), Q(0), Q(2), Q(3)];
    var answers := map[0 := 1, 1 := 0, 2 := 0, 3 := 3];
    var p1, p2, p3 := [Q(1)], [Q(1), Q(0)], [Q(1), Q(0), Q(2)];
    assert p1[..0] == [] && p2[..1] == p1 && p3[..2] == p2 && qs[..3] == p3;
    assert CorrectCount(p1, answers) == 1;
    assert CorrectCount(p2, answers) == 2;
    assert CorrectCount(p3, answers) == 2;
    assert CorrectCount(qs, answers) == 3;
  }

  /** One question, a two-second limit and no answer: two timer callbacks force the submission,
      the score is 0 and the question is reported unanswered. */
  lemma TimeoutWithoutAnswer()
    ensures var quiz := Quiz("t", "", Some(2), [Q(0)]);
            var out := Run(quiz, Init(quiz), [TimerFired, TimerFired]);
            && out.Running?
            && out.attempt.showResults
            && out.attempt.timeLeft == 0
            && out.attempt.score == 0
            && ReviewRows(quiz.questions, out.attempt.answers)[0].chosen.None?
  {
    var quiz := Quiz("t", "", Some(2), [Q(0)]);
    var a1 := Tick(quiz, Init(quiz));
    assert Step(quiz, Init(quiz), TimerFired) == Running(a1);
    assert [TimerFired, TimerFired][1..] == [TimerFired];
    assert Step(quiz, a1, TimerFired) == Running(Tick(quiz, a1));
    assert [TimerFired][1..] == [];
  }

  /** A quiz saved with no questions only offers the way back. */
  lemma EmptyQuizOnlyCancels(ev: Event)
    ensures var quiz := Quiz("t", "", None, []);
            var out := Step(quiz, Init(quiz), ev);
            && (ev.CancelClicked? <==> out.Cancelled?)
            && !out.Completed?
  {
  }
}
