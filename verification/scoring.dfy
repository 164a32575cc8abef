/** Scoring of a submitted attempt: the number of correctly answered questions and the
    rounded percentage derived from it. */
module Scoring {
  import opened Quizzes
  import Rounding

  /** `answers[i] === question.correctAnswer`: an unanswered question (no entry) never matches. */
  predicate AnsweredCorrectly(qs: seq<Question>, answers: map<nat, nat>, i: nat): (correct: bool)
    requires i < |qs|
    ensures correct ==> i in answers
    ensures i in answers && answers[i] != qs[i].correctAnswer ==> !correct
  {
    i in answers && answers[i] == qs[i].correctAnswer
  }

  /** The `forEach` count of correctly answered questions, taken question by question in order. */
  function CorrectCount(qs: seq<Question>, answers: map<nat, nat>): (c: nat)
    ensures c <= |qs|
  {
    if |qs| == 0 then 0
    else
      CorrectCount(qs[..|qs| - 1], answers)
      + (if AnsweredCorrectly(qs, answers, |qs| - 1) then 1 else 0)
  }

  /** The indices of correctly answered questions, as a set: the reference for `CorrectCount`. */
  ghost function CorrectSet(qs: seq<Question>, answers: map<nat, nat>): set<nat> {
    set i: nat | i < |qs| && AnsweredCorrectly(qs, answers, i)
  }

  /** The running count equals the number of correctly answered questions. */
  lemma {:induction false} CorrectCountIsCardinality(qs: seq<Question>, answers: map<nat, nat>)
    ensures CorrectCount(qs, answers) == |CorrectSet(qs, answers)|
  {
    if |qs| > 0 {
      var n := |qs| - 1;
      var pre := qs[..n];
      CorrectCountIsCardinality(pre, answers);
      var last: set<nat> := if AnsweredCorrectly(qs, answers, n) then {n} else {};
      assert CorrectSet(qs, answers) == CorrectSet(pre, answers) + last by {
        forall i: nat | i < n
          ensures AnsweredCorrectly(pre, answers, i) == AnsweredCorrectly(qs, answers, i)
        {
          assert pre[i] == qs[i];
        }
      }
      assert n !in CorrectSet(pre, answers);
    }
  }

  /** Every question counts exactly when every question was answered correctly (both directions). */
  lemma {:induction false} AllCorrectIff(qs: seq<Question>, answers: map<nat, nat>)
    ensures CorrectCount(qs, answers) == |qs| <==> forall i :: 0 <= i < |qs| ==> AnsweredCorrectly(qs, answers, i)
  {
    if |qs| > 0 {
      var n := |qs| - 1;
      var pre := qs[..n];
      AllCorrectIff(pre, answers);
      forall i | 0 <= i < n
        ensures AnsweredCorrectly(pre, answers, i) == AnsweredCorrectly(qs, answers, i)
      {
        assert pre[i] == qs[i];
      }
    }
  }

  /** No question counts exactly when no question was answered correctly (both directions). */
  lemma {:induction false} NoneCorrectIff(qs: seq<Question>, answers: map<nat, nat>)
    ensures CorrectCount(qs, answers) == 0 <==> forall i :: 0 <= i < |qs| ==> !AnsweredCorrectly(qs, answers, i)
  {
    if |qs| > 0 {
      var n := |qs| - 1;
      var pre := qs[..n];
      NoneCorrectIff(pre, answers);
      forall i | 0 <= i < n
        ensures AnsweredCorrectly(pre, answers, i) == AnsweredCorrectly(qs, answers, i)
      {
        assert pre[i] == qs[i];
      }
    }
  }

  /** Only recorded answers can count: the count never exceeds the number of answered questions. */
  lemma UnansweredNeverCounts(qs: seq<Question>, answers: map<nat, nat>)
    ensures CorrectCount(qs, answers) <= |answers.Keys|
    ensures answers == map[] ==> CorrectCount(qs, answers) == 0
  {
    CorrectCountIsCardinality(qs, answers);
    assert CorrectSet(qs, answers) <= answers.Keys;
    SubsetCardinality(CorrectSet(qs, answers), answers.Keys);
  }

  lemma SubsetCardinality(a: set<nat>, b: set<nat>)
    requires a <= b
    ensures |a| <= |b|
  {
    assert b == a + (b - a);
  }

  /** `handleSubmit`'s score: `Math.round(correct / total * 100)` for a non-empty quiz, else 0. */
  function Score(qs: seq<Question>, answers: map<nat, nat>): (score: nat)
    ensures score <= 100
    ensures |qs| == 0 ==> score == 0
    ensures CorrectCount(qs, answers) == 0 ==> score == 0
    ensures |qs| > 0 && CorrectCount(qs, answers) == |qs| ==> score == 100
    ensures |qs| > 0 ==> 2 * |qs| * score <= 200 * CorrectCount(qs, answers) + |qs| < 2 * |qs| * (score + 1)
  {
    if |qs| > 0 then
      var c := CorrectCount(qs, answers);
      Rounding.RoundDivWithin(100 * c, |qs|, 0, 100);
      if c == 0 then Rounding.RoundDivExact(0, |qs|); Rounding.RoundDiv(100 * c, |qs|)
      else if c == |qs| then Rounding.RoundDivExact(100, |qs|); Rounding.RoundDiv(100 * c, |qs|)
      else Rounding.RoundDiv(100 * c, |qs|)
    else 0
  }

  /** More correct answers never lower the score. */
  lemma ScoreMonotone(qs: seq<Question>, a1: map<nat, nat>, a2: map<nat, nat>)
    requires CorrectCount(qs, a1) <= CorrectCount(qs, a2)
    ensures Score(qs, a1) <= Score(qs, a2)
  {
    if |qs| > 0 {
      Rounding.RoundDivMonotone(100 * CorrectCount(qs, a1), 100 * CorrectCount(qs, a2), |qs|);
    }
  }

  /** The loop of `handleSubmit`: walk the questions in order, counting matches. */
  method CountCorrect(qs: seq<Question>, answers: map<nat, nat>) returns (correct: nat)
    ensures correct == |CorrectSet(qs, answers)|
    ensures correct <= |qs|
  {
    correct := 0;
    var i := 0;
    while i < |qs|
      invariant 0 <= i <= |qs|
      invariant correct == CorrectCount(qs[..i], answers)
    {
      assert qs[..i + 1][..i] == qs[..i];
      assert qs[..i + 1][i] == qs[i];
      if i in answers && answers[i] == qs[i].correctAnswer {
        correct := correct + 1;
      }
      i := i + 1;
    }
    assert qs[..|qs|] == qs;
    CorrectCountIsCardinality(qs, answers);
  }
}
