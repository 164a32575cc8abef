/** One learner's attempt at a quiz, as the quiz view holds it: the question on screen, the
    recorded answers, the countdown, whether the results are shown, and the score. Every
    handler and the timer effect of the view is a pure transition on this state. */
module Attempt {
  import opened Quizzes
  import opened Scoring

  /** The view's five pieces of state. `timeLeft` is an `int` because a negative time limit is
      kept as it is. */
  datatype AttemptState = AttemptState(
    current: nat,
    answers: map<nat, nat>,
    timeLeft: int,
    showResults: bool,
    score: nat)

  /** What the view renders, in the order its guards are checked. */
  datatype Screen = NoQuestions | Results | Asking(index: nat)

  /** The learner's actions and the one-second timer callback. `GoForward` is the right-hand
      button: "next" on every question but the last, "finish quiz" on the last. */
  datatype Event =
    | ChooseOption(option: nat)
    | GoPrevious
    | GoForward
    | TimerFired
    | FinishClicked
    | CancelClicked

  /** The result of one event: the attempt goes on, or it ends by handing `(score, answers)` to
      the completion callback, or by the cancellation callback. */
  datatype Outcome =
    | Running(attempt: AttemptState)
    | Completed(score: nat, answers: map<nat, nat>)
    | Cancelled

  /** The state created when the view mounts: first question, no answers, results hidden,
      the full time limit on the clock, score 0. */
  function Init(quiz: Quiz): (a: AttemptState)
    ensures a.current == 0 && a.answers == map[] && !a.showResults && a.score == 0
    ensures a.timeLeft == StartTime(quiz)
  {
    AttemptState(0, map[], StartTime(quiz), false, 0)
  }

  /** The screen chosen by the view: the empty-quiz guard first, then the results phase. */
  function ScreenOf(quiz: Quiz, a: AttemptState): (s: Screen)
    ensures s.NoQuestions? <==> |quiz.questions| == 0
    ensures s.Results? <==> |quiz.questions| > 0 && a.showResults
    ensures s.Asking? ==> s.index == a.current
  {
    if |quiz.questions| == 0 then NoQuestions
    else if a.showResults then Results
    else Asking(a.current)
  }

  /** `handleAnswerSelect(q, opt)`: record `opt` for question `q`, overwriting an earlier choice. */
  function SelectAnswer(a: AttemptState, q: nat, opt: nat): (r: AttemptState)
    ensures r.answers.Keys == a.answers.Keys + {q}
    ensures q in r.answers && r.answers[q] == opt
    ensures forall k :: k in a.answers && k != q ==> r.answers[k] == a.answers[k]
    ensures r.current == a.current && r.timeLeft == a.timeLeft
    ensures r.showResults == a.showResults && r.score == a.score
  {
    a.(answers := a.answers[q := opt])
  }

  /** The "previous" button: `Math.max(0, current - 1)`. */
  function PreviousQuestion(a: AttemptState): (r: AttemptState)
    ensures a.current > 0 ==> r.current + 1 == a.current
    ensures a.current == 0 ==> r.current == 0
    ensures r.answers == a.answers && r.timeLeft == a.timeLeft
    ensures r.showResults == a.showResults && r.score == a.score
  {
    a.(current := if a.current == 0 then 0 else a.current - 1)
  }

  /** The "next" button: `Math.min(n - 1, current + 1)`; the button exists only for a quiz with
      questions. */
  function NextQuestion(quiz: Quiz, a: AttemptState): (r: AttemptState)
    requires |quiz.questions| > 0
    ensures r.current < |quiz.questions|
    ensures a.current + 1 < |quiz.questions| ==> r.current == a.current + 1
    ensures a.current + 1 >= |quiz.questions| ==> r.current == |quiz.questions| - 1
    ensures r.answers == a.answers && r.timeLeft == a.timeLeft
    ensures r.showResults == a.showResults && r.score == a.score
  {
    var last := |quiz.questions| - 1;
    a.(current := if a.current + 1 < last then a.current + 1 else last)
  }

  /** `handleSubmit`: score the recorded answers and show the results. It reads only the quiz
      and the answers. */
  function Submit(quiz: Quiz, a: AttemptState): (r: AttemptState)
    ensures r.showResults
    ensures r.score == Score(quiz.questions, a.answers)
    ensures r.answers == a.answers && r.current == a.current && r.timeLeft == a.timeLeft
  {
    a.(score := Score(quiz.questions, a.answers), showResults := true)
  }

  /** The right-hand button: submit on the last question, otherwise go to the next one. */
  function Forward(quiz: Quiz, a: AttemptState): (r: AttemptState)
    requires |quiz.questions| > 0
    ensures a.current == |quiz.questions| - 1 ==> r == Submit(quiz, a)
    ensures a.current != |quiz.questions| - 1 ==> r == NextQuestion(quiz, a)
    ensures r.answers == a.answers
  {
    if a.current == |quiz.questions| - 1 then Submit(quiz, a) else NextQuestion(quiz, a)
  }

  /** The timer effect arms a one-second timer while time remains and the results are hidden. */
  predicate Armed(a: AttemptState) {
    a.timeLeft > 0 && !a.showResults
  }

  /** The timer effect, run whenever `timeLeft` or `showResults` changes: it arms the timer
      (no state change), or submits once the clock reads exactly 0, or does nothing. */
  function Effect(quiz: Quiz, a: AttemptState): (r: AttemptState)
    ensures a.timeLeft == 0 ==> r == Submit(quiz, a)
    ensures a.timeLeft != 0 ==> r == a
  {
    if Armed(a) then a
    else if a.timeLeft == 0 then Submit(quiz, a)
    else a
  }

  /** The timer callback `setTimeLeft(timeLeft - 1)` followed by the effect it re-triggers.
      Without an armed timer nothing fires. */
  function Tick(quiz: Quiz, a: AttemptState): (r: AttemptState)
    ensures Armed(a) ==> r.timeLeft == a.timeLeft - 1
    ensures !Armed(a) ==> r == a
    ensures a.timeLeft >= 0 ==> r.timeLeft >= 0
    ensures r.answers == a.answers && r.current == a.current
    ensures Armed(a) && a.timeLeft == 1 ==> r.showResults && r.score == Score(quiz.questions, a.answers)
    ensures Armed(a) && a.timeLeft > 1 ==> !r.showResults && r.score == a.score
  {
    if Armed(a) then Effect(quiz, a.(timeLeft := a.timeLeft - 1)) else a
  }

  /** The clock moves exactly when the effect's guard holds: a timer event on a disarmed attempt
      (results shown, or no time left) changes nothing at all. */
  lemma ClockRunsIffArmed(quiz: Quiz, a: AttemptState)
    ensures Tick(quiz, a).timeLeft < a.timeLeft <==> Armed(a)
    ensures !Armed(a) <==> Step(quiz, a, TimerFired) == Running(a)
  {
  }

  /** One event, dispatched the way the view offers it: each screen renders only some controls,
      and an event whose control is absent (or disabled) leaves the attempt unchanged. */
  function Step(quiz: Quiz, a: AttemptState, ev: Event): (out: Outcome)
    ensures out.Completed? <==> ev.FinishClicked? && |quiz.questions| > 0 && a.showResults
    ensures out.Completed? ==> out.score == a.score && out.answers == a.answers
    ensures out.Cancelled? <==> ev.CancelClicked? && (|quiz.questions| == 0 || !a.showResults)
    ensures out.Running? && !ev.ChooseOption? ==> out.attempt.answers == a.answers
    ensures out.Running? && !ev.GoForward? && !ev.TimerFired? ==> out.attempt.showResults == a.showResults
    ensures out.Running? && !ev.TimerFired? ==> out.attempt.timeLeft == a.timeLeft
    ensures ev.TimerFired? ==> out == Running(Tick(quiz, a))
    ensures ScreenOf(quiz, a).Asking? && ev.GoPrevious? ==> out == Running(PreviousQuestion(a))
    ensures ScreenOf(quiz, a).Asking? && ev.GoForward? ==> |quiz.questions| > 0 && out == Running(Forward(quiz, a))
    ensures (ScreenOf(quiz, a).Asking? && ev.ChooseOption? && a.current < |quiz.questions|
             && ev.option < |quiz.questions[a.current].options|) ==> out == Running(SelectAnswer(a, a.current, ev.option))
  {
    match ScreenOf(quiz, a)
    case NoQuestions =>
      if ev.CancelClicked? then Cancelled
      else if ev.TimerFired? then Running(Tick(quiz, a))
      else Running(a)
    case Results =>
      if ev.FinishClicked? then Completed(a.score, a.answers)
      else if ev.TimerFired? then Running(Tick(quiz, a))
      else Running(a)
    case Asking(i) =>
      match ev
      case ChooseOption(j) =>
        if i < |quiz.questions| && j < |quiz.questions[i].options| then Running(SelectAnswer(a, i, j))
        else Running(a)
      case GoPrevious => Running(PreviousQuestion(a))
      case GoForward => Running(Forward(quiz, a))
      case TimerFired => Running(Tick(quiz, a))
      case FinishClicked => Running(a)
      case CancelClicked => Cancelled
  }

  /** A sequence of events from state `a`; the first completion or cancellation ends the run. */
  function Run(quiz: Quiz, a: AttemptState, events: seq<Event>): (out: Outcome)
    ensures |events| == 0 ==> out == Running(a)
    ensures out.Completed? ==> FinishClicked in events
    ensures out.Cancelled? ==> CancelClicked in events
    decreases |events|
  {
    if |events| == 0 then Running(a)
    else
      match Step(quiz, a, events[0])
      case Running(b) => Run(quiz, b, events[1..])
      case other => other
  }

  /** What holds of every attempt the view can reach: the index is on a question, answers name
      real questions and options, a shown score is the score of the recorded answers, the clock
      stays within its start value (and frozen when that start value is negative), and a clock at
      0 means the results are shown. */
  ghost predicate Inv(quiz: Quiz, a: AttemptState) {
    && (|quiz.questions| > 0 ==> a.current < |quiz.questions|)
    && (|quiz.questions| == 0 ==> a.current == 0)
    && ValidAnswers(quiz.questions, a.answers)
    && (a.showResults ==> a.score == Score(quiz.questions, a.answers))
    && (StartTime(quiz) > 0 ==> 0 <= a.timeLeft <= StartTime(quiz))
    && (StartTime(quiz) < 0 ==> a.timeLeft == StartTime(quiz))
    && (a.timeLeft == 0 ==> a.showResults)
  }

  lemma InitEstablishesInv(quiz: Quiz)
    ensures Inv(quiz, Init(quiz))
  {
  }

  /** Every event keeps the invariant, never adds time, and never revives a finished attempt. */
  lemma StepPreservesInv(quiz: Quiz, a: AttemptState, ev: Event)
    requires Inv(quiz, a)
    ensures Step(quiz, a, ev).Running? ==> Inv(quiz, Step(quiz, a, ev).attempt)
    ensures Step(quiz, a, ev).Running? ==> Step(quiz, a, ev).attempt.timeLeft <= a.timeLeft
    ensures Step(quiz, a, ev).Running? && a.showResults ==> Step(quiz, a, ev).attempt.showResults
  {
  }

  /** Once the results are shown the answers and the score are frozen: no event can change them,
      a timer re-run at 0 only re-submits the same score, and the cancellation callback can no
      longer be reached, so the two callbacks are never both called. */
  lemma ResultsAreFrozen(quiz: Quiz, a: AttemptState, ev: Event)
    requires Inv(quiz, a)
    requires a.showResults
    ensures Step(quiz, a, ev).Running? ==> Step(quiz, a, ev).attempt == a
    ensures |quiz.questions| > 0 ==> !Step(quiz, a, ev).Cancelled?
    ensures Effect(quiz, a) == a
  {
  }

  /** The finish button hands the completion callback the score of the recorded answers together
      with those answers, unchanged. */
  lemma FinishReportsSubmittedScore(quiz: Quiz, a: AttemptState)
    requires Inv(quiz, a)
    requires a.showResults && |quiz.questions| > 0
    ensures Step(quiz, a, FinishClicked) == Completed(Score(quiz.questions, a.answers), a.answers)
  {
  }

  /** The second effect run after a timed-out submit (clock 0, results now shown) calls
      `handleSubmit` again; it yields the identical state. Submitting is idempotent. */
  lemma SubmitIdempotent(quiz: Quiz, a: AttemptState)
    ensures Submit(quiz, Submit(quiz, a)) == Submit(quiz, a)
    ensures Effect(quiz, Submit(quiz, a)) == Submit(quiz, a)
  {
  }

  /** A timer-driven submit and a button-driven submit of the same answers give the same
      score: the score depends on the answers alone. */
  lemma SubmitDependsOnlyOnAnswers(quiz: Quiz, a: AttemptState, b: AttemptState)
    requires a.answers == b.answers
    ensures Submit(quiz, a).score == Submit(quiz, b).score
  {
  }

  /** With one second left, the next timer callback forces the submission and scores exactly
      the answers recorded before it. */
  lemma TimeoutForcesSubmit(quiz: Quiz, a: AttemptState)
    requires Inv(quiz, a)
    requires !a.showResults && a.timeLeft == 1
    ensures Step(quiz, a, TimerFired).Running?
    ensures Step(quiz, a, TimerFired).attempt.showResults
    ensures Step(quiz, a, TimerFired).attempt.timeLeft == 0
    ensures Step(quiz, a, TimerFired).attempt.score == Score(quiz.questions, a.answers)
    ensures Step(quiz, a, TimerFired).attempt.answers == a.answers
  {
  }

  /** Navigation never touches the answers, and keeps the index on a question. */
  lemma NavigationKeepsAnswers(quiz: Quiz, a: AttemptState, ev: Event)
    requires Inv(quiz, a)
    requires ev.GoPrevious? || ev.GoForward?
    ensures Step(quiz, a, ev).Running?
    ensures Step(quiz, a, ev).attempt.answers == a.answers
  {
  }

  /** "Next" then "previous" returns to the same question when not on the last one, and
      "previous" then "next" when not on the first one. */
  lemma NavigationRoundTrip(quiz: Quiz, a: AttemptState)
    requires Inv(quiz, a)
    requires |quiz.questions| > 0
    ensures a.current + 1 < |quiz.questions| ==> PreviousQuestion(NextQuestion(quiz, a)) == a
    ensures a.current > 0 ==> NextQuestion(quiz, PreviousQuestion(a)) == a
  {
  }

  /** Choosing again for the same question overwrites the first choice. */
  lemma SelectLastWins(a: AttemptState, q: nat, o1: nat, o2: nat)
    ensures SelectAnswer(SelectAnswer(a, q, o1), q, o2) == SelectAnswer(a, q, o2)
  {
  }

  /** Choices for different questions are independent of the order they were made in. */
  lemma SelectCommutes(a: AttemptState, q1: nat, o1: nat, q2: nat, o2: nat)
    requires q1 != q2
    ensures SelectAnswer(SelectAnswer(a, q1, o1), q2, o2) == SelectAnswer(SelectAnswer(a, q2, o2), q1, o1)
  {
  }

  /** Every completion-callback payload produced by `events` while the view stays mounted. The
      view remains on the results screen after "finish" until its parent unmounts it, which
      happens only after the result has been stored, so "finish" can fire more than once (a
      double click, or a retry after a failed write). A cancellation unmounts the view. */
  function Completions(quiz: Quiz, a: AttemptState, events: seq<Event>): (reports: seq<(nat, map<nat, nat>)>)
    ensures |reports| <= |events|
    ensures |quiz.questions| > 0 && a.showResults ==> |reports| == multiset(events)[FinishClicked]
    decreases |events|
  {
    if |events| == 0 then []
    else
      match Step(quiz, a, events[0])
      case Running(b) =>
        assert events == [events[0]] + events[1..];
        Completions(quiz, b, events[1..])
      case Completed(score, answers) =>
        assert events == [events[0]] + events[1..];
        [(score, answers)] + Completions(quiz, a, events[1..])
      case Cancelled => []
  }

  /** However often "finish" fires on the results screen, and whatever else happens meanwhile,
      every call of the completion callback carries the same score and answers: the score of the
      submitted answers. */
  lemma {:induction false} RepeatedFinishReportsSame(quiz: Quiz, a: AttemptState, events: seq<Event>)
    requires Inv(quiz, a)
    requires a.showResults
    ensures forall k :: 0 <= k < |Completions(quiz, a, events)| ==>
      Completions(quiz, a, events)[k] == (Score(quiz.questions, a.answers), a.answers)
    decreases |events|
  {
    if |events| > 0 {
      ResultsAreFrozen(quiz, a, events[0]);
      RepeatedFinishReportsSame(quiz, a, events[1..]);
    }
  }

  /** Whatever the events — answers, navigation, the button on the last question, or the timer
      running out — a run from a reachable state that completes hands the completion callback the
      score of exactly the answers it hands over, and those answers are valid. */
  lemma {:induction false} CompletionReportsScoreOfAnswers(quiz: Quiz, a: AttemptState, events: seq<Event>)
    requires Inv(quiz, a)
    ensures Run(quiz, a, events).Completed? ==>
      Run(quiz, a, events).score == Score(quiz.questions, Run(quiz, a, events).answers)
      && ValidAnswers(quiz.questions, Run(quiz, a, events).answers)
    ensures Run(quiz, a, events).Running? ==> Inv(quiz, Run(quiz, a, events).attempt)
    decreases |events|
  {
    if |events| > 0 {
      StepPreservesInv(quiz, a, events[0]);
      match Step(quiz, a, events[0])
      case Running(b) => CompletionReportsScoreOfAnswers(quiz, b, events[1..]);
      case Completed(s, ans) =>
      case Cancelled =>
    }
  }

  /** An empty quiz can never complete: it ends only through cancellation. */
  lemma {:induction false} EmptyQuizNeverCompletes(quiz: Quiz, a: AttemptState, events: seq<Event>)
    requires |quiz.questions| == 0
    ensures !Run(quiz, a, events).Completed?
    ensures Run(quiz, a, events).Running? ==> Run(quiz, a, events).attempt.current == a.current
    ensures Run(quiz, a, events).Running? ==> Run(quiz, a, events).attempt.answers == a.answers
    decreases |events|
  {
    if |events| > 0 {
      match Step(quiz, a, events[0])
      case Running(b) => EmptyQuizNeverCompletes(quiz, b, events[1..]);
      case Completed(s, ans) =>
      case Cancelled =>
    }
  }
}
