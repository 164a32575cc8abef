# Quiz attempts and quiz building in a school learning-management front end

This project models, in Dafny, the two pieces of real logic in a React front end of a school
learning-management system.

- The timed quiz view (`QuizInterface.jsx`). It holds five pieces of state: the question on
  screen, the recorded answers, the countdown, whether results are shown, and the score.
  Answer selection, clamped previous/next navigation, the one-second timer with its forced
  submission at 0, scoring, the results screen with its per-question review, and the `m:ss`
  clock label are all pure transitions on that state (module `Attempt`, with `Scoring`,
  `Review`, `TimeFormat`).
- The teacher dashboard's list bookkeeping (`TeacherDashboard.jsx`). This covers the quiz
  form's question reducers and the filter applied on save (module `Builder`). It also covers
  appending and deleting session content, the assignment-submission checklist toggle, and the
  average quiz score (module `Sessions`).

Shared pieces: `Rounding` (an exact integer `Math.round(p / q)`), `Lists` (remove/replace at
an index), `Quizzes` (the quiz document), `Wrappers` (Option). `Scenarios` works through
concrete attempts.

Each transition is a function with a named result and a contract. The properties that relate
several steps are lemmas:
- the invariant every reachable attempt keeps (`Attempt.Inv`);
- a completed run reports the score of exactly the answers it hands over, whether the timer
  or the button ended it, and every repeated "finish" reports the same;
- submitting is idempotent;
- the count on the results screen and the check marks in the review equal the scoring count;
- the clock label reads back as the same number of seconds;
- the save filter keeps order and is idempotent;
- on a checklist without duplicate keys, a toggle flips exactly one key;
- averages stay within the range of the scores.

Behaviours of the code the model keeps:
- The empty-quiz check happens when the view renders, not when the attempt starts. The attempt
  state and the timer exist anyway, and only the way back is offered (`Attempt.ScreenOf`,
  `Attempt.EmptyQuizNeverCompletes`).
- A negative time limit is kept (`quiz.timeLimit || 300` only replaces falsy values). The timer
  then never arms and the quiz never times out (`Attempt.Inv` freezes such a clock). The label
  reads e.g. `-1:-5` (`TimeFormat.FormatTimeExamples`).
- Selecting an out-of-range answer is not checked by the handler. The view offers only the
  current question's options, so `Attempt.Step` dispatches only those.
- When the clock reaches 0, the timer effect calls `handleSubmit` twice: once at 0 and once more
  after the results flag flips. `Attempt.SubmitIdempotent` shows the second call yields the
  identical state.

## Model

| member | source | states |
|---|---|---|
| Quizzes.StartTime | QuizInterface.jsx:10 | the starting clock is the quiz's limit unless it is absent, NaN or 0, which give 300; it is never 0 |
| Attempt.Init | QuizInterface.jsx:8-12 | a new attempt is on question 0 with no answers, results hidden, score 0, the start time on the clock |
| Attempt.InitEstablishesInv | QuizInterface.jsx:8-12 | the initial attempt satisfies the reachable-state invariant |
| Attempt.ScreenOf | QuizInterface.jsx:55-68 | the empty-quiz screen is shown exactly when there are no questions; results exactly when there are questions and the results flag is set; otherwise the current question |
| Attempt.SelectAnswer | QuizInterface.jsx:23-28 | selecting records exactly that question's choice, overwriting an earlier one; every other entry and every other field is unchanged |
| Attempt.SelectLastWins | QuizInterface.jsx:23-28 | choosing twice for one question keeps only the second choice |
| Attempt.SelectCommutes | QuizInterface.jsx:23-28 | choices for different questions do not depend on their order |
| Attempt.PreviousQuestion | QuizInterface.jsx:177-178 | "previous" moves back one question, stays on question 0, and changes nothing but the index |
| Attempt.NextQuestion | QuizInterface.jsx:188-190 | "next" moves forward one question, never past the last, and changes nothing but the index |
| Attempt.Forward | QuizInterface.jsx:183-193 | the right-hand button submits on the last question and goes to the next one elsewhere; it never changes the answers |
| Attempt.NavigationKeepsAnswers | QuizInterface.jsx:174-195 | navigation events never change the answers and never end the attempt |
| Attempt.NavigationRoundTrip | QuizInterface.jsx:177-190 | next then previous (off the last question), and previous then next (off the first), return to the same state |
| Attempt.Submit | QuizInterface.jsx:30-43 | submitting shows the results with the score of the recorded answers and keeps answers, index and clock |
| Attempt.SubmitIdempotent | QuizInterface.jsx:14-21 | a second submission, including the effect's second call at 0, yields the identical state |
| Attempt.SubmitDependsOnlyOnAnswers | QuizInterface.jsx:30-43 | two attempts with the same answers get the same score, whatever ended them |
| Attempt.Effect | QuizInterface.jsx:14-21 | the timer effect submits exactly when the clock reads 0 and changes nothing otherwise |
| Attempt.Armed | QuizInterface.jsx:15 | the effect's guard: time remains and the results are hidden; ClockRunsIffArmed gives its meaning |
| Attempt.ClockRunsIffArmed | QuizInterface.jsx:15-20 | a timer event moves the clock if and only if the guard holds, and leaves the attempt unchanged if and only if it does not |
| Attempt.Tick | QuizInterface.jsx:14-21 | an armed timer takes exactly one second off; without one nothing happens; the clock never goes below 0; reaching 0 forces the submission of the current answers |
| Attempt.TimeoutForcesSubmit | QuizInterface.jsx:14-21 | with one second left, the timer callback ends in the results phase, clock 0, scoring the answers recorded before it |
| Attempt.StepPreservesInv | QuizInterface.jsx:14-193 | every event keeps the index on a question, answers valid, a shown score equal to the answers' score, the clock within its start value and 0 only with results shown; it never adds time and never hides results |
| Attempt.ResultsAreFrozen | QuizInterface.jsx:68-116 | once results are shown, no event changes the attempt, the timer effect is inert, and cancelling is no longer offered, so the two callbacks are never both called |
| Attempt.FinishReportsSubmittedScore | QuizInterface.jsx:45-47 | the finish button hands over the score of the recorded answers together with those answers, unchanged |
| Attempt.Step | QuizInterface.jsx:55-195 | an event completes exactly when "finish" is clicked on the results screen, handing over the shown score and the answers; it cancels exactly when "cancel" is clicked outside the results screen; only choosing an option changes the answers, only the timer changes the clock, and only the forward button or the timer can show the results; on the question screen each control runs its handler: an option click records that option for the question on screen, "previous" runs the clamped step back, the right-hand button runs Forward (submit on the last question), and the timer event runs Tick on every screen |
| Attempt.Run | QuizInterface.jsx:55-195 | a run of no events leaves the attempt as it is; a run completes only if it contains a "finish" click and cancels only if it contains a "cancel" click |
| Attempt.Completions | QuizInterface.jsx:45-47 | the view stays mounted after "finish", so each further "finish" click calls the completion callback again: from the results screen there is exactly one report per "finish" event, and never more reports than events |
| Attempt.RepeatedFinishReportsSame | QuizInterface.jsx:109-111 | every completion-callback call from the results screen, however many and whatever happens between them, carries the score of the submitted answers and those answers |
| Attempt.CompletionReportsScoreOfAnswers | QuizInterface.jsx:45-47 | any run that completes hands over valid answers together with exactly their score; a run still going keeps the invariant |
| Attempt.EmptyQuizNeverCompletes | QuizInterface.jsx:55-66 | a quiz without questions never completes and no event changes its answers or index |
| Scoring.AnsweredCorrectly | QuizInterface.jsx:35 | strict equality with the correct index: an unanswered question is never correct, and a recorded different option is never correct |
| Scoring.CorrectCount | QuizInterface.jsx:34-38 | the count never exceeds the number of questions; CorrectCountIsCardinality states what it counts |
| Scoring.CountCorrect | QuizInterface.jsx:31-38 | the forEach loop counts exactly the questions whose recorded answer equals the correct option |
| Scoring.CorrectCountIsCardinality | QuizInterface.jsx:34-38 | the running count equals the size of the set of correctly answered question indices |
| Scoring.AllCorrectIff | QuizInterface.jsx:34-38 | the count equals the number of questions if and only if every question was answered correctly |
| Scoring.NoneCorrectIff | QuizInterface.jsx:34-38 | the count is 0 if and only if no question was answered correctly |
| Scoring.UnansweredNeverCounts | QuizInterface.jsx:35 | the count never exceeds the number of recorded answers, and is 0 with none |
| Scoring.Score | QuizInterface.jsx:40 | the score lies in 0..100, is the nearest integer to 100·correct/total with halves up, is 0 with no questions or no correct answers, and is 100 when all are correct |
| Scoring.ScoreMonotone | QuizInterface.jsx:40 | more correct answers never give a lower score |
| Rounding.RoundDiv | QuizInterface.jsx:40 | the result is the nearest integer to num/den, halves rounded up, as Math.round does |
| Rounding.RoundDivWithin | TeacherDashboard.jsx:800 | a quotient between two integers rounds to a value between them |
| Rounding.RoundDivExact | QuizInterface.jsx:40 | an exact quotient is returned unchanged |
| Rounding.RoundDivMonotone | QuizInterface.jsx:40 | rounding is monotone in the numerator |
| Review.ResultsFilter | QuizInterface.jsx:82 | every kept question is a question of the quiz, and there are no more of them than questions; ResultsCountMatchesScoring gives their number |
| Review.ResultsCountMatchesScoring | QuizInterface.jsx:82 | the count printed on the results screen equals the count the score was computed from |
| Review.ChosenLabelAsWritten | QuizInterface.jsx:98 | the row shows the chosen option text when an answer is recorded, in range and non-empty, and the unanswered label in every other case, including an answered option whose text is empty |
| Review.BlankOptionShownAsUnanswered | QuizInterface.jsx:98 | an answered question whose chosen option text is empty is shown as not answered |
| Review.ChosenOption | QuizInterface.jsx:98 | the learner's choice is the text of the recorded option, and absent when nothing was recorded |
| Review.UnansweredLabelIff | QuizInterface.jsx:98 | for valid answers, a row shows the unanswered label if and only if the question has no answer; otherwise it shows the chosen option's own text |
| Review.RowsShowSourceLabelUnlessBlank | QuizInterface.jsx:98 | for valid answers, the corrected row shows the same label as the view whenever the chosen option's text is not empty, so the two differ only on the input under Findings |
| Review.CorrectOptionText | QuizInterface.jsx:101 | the correct text is the option at the correct index, empty when that index is out of range |
| Review.ReviewRows | QuizInterface.jsx:87-106 | one row per question in order, with the prompt, a mark set exactly when the answer is correct, the choice and the correct text |
| Review.CorrectRowShowsCorrectText | QuizInterface.jsx:90-101 | a row marked correct shows the correct option's text as the learner's choice |
| Review.ChosenLabel | QuizInterface.jsx:98 | a row with a recorded choice shows that choice's text, and the unanswered label only without one |
| Review.MarkedCorrect | QuizInterface.jsx:90-94 | the number of check marks is at most the number of rows, and 0 when no row is marked |
| Review.MarkedCorrectMatchesScoring | QuizInterface.jsx:87-106 | the number of check marks in the review equals the scoring count |
| TimeFormat.NatToDecimal | QuizInterface.jsx:52 | the decimal rendering is non-empty, all digits, one digit exactly below 10, and without a leading zero from 10 up |
| TimeFormat.IntToDecimal | QuizInterface.jsx:52 | `${mins}` and `secs.toString()` for any integer: a leading minus exactly for negatives, then the digits of the magnitude |
| TimeFormat.DecimalRoundTrip | QuizInterface.jsx:52 | reading a rendered number back gives the number |
| TimeFormat.JsRem60 | QuizInterface.jsx:51 | the remainder differs from the input by a multiple of 60 and takes the sign of the input |
| TimeFormat.PadStart2 | QuizInterface.jsx:52 | padding leaves two characters or more, prefixing zeros to shorter text |
| TimeFormat.FormatTime | QuizInterface.jsx:49-53 | for a non-negative clock the label is minutes in digits, a colon, and two seconds digits; under a minute the label is exactly four characters ("0:ss"), and from a minute on the minutes carry no leading zero |
| TimeFormat.FormatTimeRoundTrip | QuizInterface.jsx:49-53 | the label of a non-negative clock reads back as the same number of seconds |
| TimeFormat.ParseTime | QuizInterface.jsx:49-53 | a label reads back as seconds only if it contains the colon |
| TimeFormat.FormatTimeExamples | QuizInterface.jsx:49-53 | 0, 59, 60, 65, 125 seconds read 0:00, 0:59, 1:00, 1:05, 2:05; -5 reads -1:-5 |
| Builder.AddQuestion | TeacherDashboard.jsx:243-248 | adding appends exactly one blank question (empty prompt, four empty options, option 0 correct) and keeps every earlier question |
| Builder.WithField | TeacherDashboard.jsx:254 | setting one field of a question changes only that field |
| Builder.UpdateQuestion | TeacherDashboard.jsx:250-257 | only the named field of question i changes; the length, its options and every other question stay |
| Builder.UpdateOption | TeacherDashboard.jsx:259-268 | only option j of question i changes; every options length, its prompt and correct index, and every other question stay |
| Builder.RemoveQuestion | TeacherDashboard.jsx:270-275 | exactly question i is dropped and the others keep their order; an index past the end drops nothing |
| Builder.FormStep | TeacherDashboard.jsx:1042 | one edit keeps a non-empty form non-empty; remove does nothing while only one question is left; add grows the form by one; edits keep its length |
| Builder.FormSteps | TeacherDashboard.jsx:1042 | no edits leave the form as it is |
| Builder.FormNeverEmpty | TeacherDashboard.jsx:1042 | with remove offered only for more than one question, no sequence of edits empties the form |
| Builder.IsBlank | TeacherDashboard.jsx:223 | `trim()` is falsy: the empty text is blank, and a blank text starts and ends with whitespace (IsSpace: ASCII whitespace and the no-break space, an approximation of trim's set) |
| Builder.HasFilledOption | TeacherDashboard.jsx:223 | `options.some(opt => opt.trim())`: an empty option list has no filled option, and a filled option has text |
| Builder.Keep | TeacherDashboard.jsx:223 | the save test: a kept question has a non-empty prompt and at least one option, so a question without options is dropped |
| Builder.SaveFilter | TeacherDashboard.jsx:223 | the saved questions are exactly the form's questions with a non-blank prompt and a non-blank option |
| Builder.SaveFilterConcat | TeacherDashboard.jsx:223 | the filter preserves order: filtering a concatenation concatenates the filtered parts |
| Builder.SaveFilterKeepsFilled | TeacherDashboard.jsx:223 | a form whose questions are all filled in is saved unchanged |
| Builder.SaveFilterIdempotent | TeacherDashboard.jsx:223 | filtering twice is filtering once |
| Builder.UntouchedFormSavesNoQuestions | TeacherDashboard.jsx:223 | saving the untouched initial form stores a quiz without questions |
| Builder.ClearingTheOnlyOptionDropsQuestion | TeacherDashboard.jsx:223 | clearing a question's only filled option makes the save filter drop it |
| Lists.RemoveAt | TeacherDashboard.jsx:282-283 | removing keeps everything before and after the index in order and drops exactly one element |
| Lists.ReplaceAt | TeacherDashboard.jsx:253-255 | replacing keeps the length and every other element and puts the value at the index |
| Lists.RemoveAtThenReinsert | TeacherDashboard.jsx:273 | putting the removed element back at its index restores the list |
| Lists.RemoveAtContents | TeacherDashboard.jsx:282-283 | removal takes exactly one copy of the removed element out of the list's contents |
| Lists.RemoveAtShifts | TeacherDashboard.jsx:273 | after removal each element sits at its old index before the gap and one lower after it |
| Lists.ReplaceAtLastWins | TeacherDashboard.jsx:262-264 | a second replacement at one index overrides the first; replacing with the same element changes nothing |
| Sessions.ListOf | TeacherDashboard.jsx:190 | the content form never writes to the quizzes list |
| Sessions.NewContent | TeacherDashboard.jsx:192-200 | a new item keeps title, text and type; only a video gets a link; only an assignment with a filled deadline gets one |
| Sessions.Items | TeacherDashboard.jsx:202 | a list the session never stored reads as empty |
| Sessions.AppendTo | TeacherDashboard.jsx:202 | the item is appended to the named list; the earlier items and every other list are unchanged |
| Sessions.AddContent | TeacherDashboard.jsx:186-203 | the new item goes last in its type's list and no other list changes |
| Sessions.AddQuiz | TeacherDashboard.jsx:214-228 | the saved quiz goes last in the quizzes list with the form's title, description and limit and only the filtered questions; other lists are unchanged |
| Sessions.DeleteContent | TeacherDashboard.jsx:277-284 | deleting removes exactly the item at the index from the named list, keeping order, and no other list changes |
| Sessions.DeleteUndoesAppend | TeacherDashboard.jsx:282-283 | deleting the item just appended restores the list |
| Sessions.Matches | TeacherDashboard.jsx:663-667 | the key test shared by `find` and `some`: a record matches exactly when it is the record with that student, session and assignment |
| Sessions.FindSubmission | TeacherDashboard.jsx:313-317 | find returns the first record with the key, and nothing exactly when no record has it |
| Sessions.ToggleSubmission | TeacherDashboard.jsx:311-329 | a missing key gets one new record at the end; a present key loses exactly one record of that key and nothing else |
| Sessions.IsSubmitted | TeacherDashboard.jsx:663-667 | the checklist shows a key as submitted exactly when its record is present |
| Sessions.ToggleAdds | TeacherDashboard.jsx:321-328 | adding marks the key submitted, keeps keys unique and leaves every other record's presence alone |
| Sessions.ToggleRemoves | TeacherDashboard.jsx:319-320 | on a duplicate-free checklist, removal unmarks the key, keeps keys unique and leaves every other record's presence alone |
| Sessions.ToggleFlips | TeacherDashboard.jsx:311-329 | on a duplicate-free checklist a toggle flips exactly the toggled key's status and keeps keys unique |
| Sessions.ToggleTwice | TeacherDashboard.jsx:311-329 | on a duplicate-free checklist, toggling twice restores the key's status |
| Sessions.DuplicateSurvivesToggle | TeacherDashboard.jsx:311-329 | with two records of one key, a toggle removes only one and the key stays submitted |
| Sessions.Sum | TeacherDashboard.jsx:800 | the sum of a single score is that score |
| Sessions.SumBounds | TeacherDashboard.jsx:800 | a sum of n values in [lo, hi] lies in [n·lo, n·hi] |
| Sessions.AverageScore | TeacherDashboard.jsx:798-802 | the average is 0 with no results, otherwise the nearest integer to the mean with halves up |
| Sessions.AverageWithinRange | TeacherDashboard.jsx:798-802 | the average lies within the range of the scores |
| Sessions.AverageOfEqualScores | TeacherDashboard.jsx:798-802 | equal scores average to that score |
| Scenarios.ThreeOfFourScoresSeventyFive | QuizInterface.jsx:34-40 | three of four correct scores 75 and the wrong question's row shows both option texts, crossed |
| Scenarios.TimeoutWithoutAnswer | QuizInterface.jsx:14-21 | a two-second quiz with no answer is submitted after two timer callbacks with score 0 and the question unanswered |
| Scenarios.EmptyQuizOnlyCancels | QuizInterface.jsx:55-66 | on a quiz without questions only cancellation ends the attempt, and nothing completes it |

## Findings

| source | as written | input that shows it | evidently intended | confidence | as-written member | corrected member |
|---|---|---|---|---|---|---|
| QuizInterface.jsx:98 | the chosen text falls back to "Tidak dijawab" whenever it is falsy, so an empty option text counts as no answer | a question with options "4" and "" answered with option 1 (the save filter keeps questions whose other options are blank) | show the unanswered label only when no answer was recorded | medium; not executed | Review.ChosenLabelAsWritten, Review.BlankOptionShownAsUnanswered | Review.ChosenOption, Review.UnansweredLabelIff |

The review rows of the model (`Review.ReviewRows`) use the corrected choice.

## Left out

- Rounding.RoundDiv: rounds the exact rational `num/den`. The score computation rounds the IEEE
  double `c / n * 100`, whose two-step representation error can differ from exact rounding at
  halves (23 of 40 is 57 in double arithmetic and 58 here), so this applies to `Scoring.Score`.
  `Sessions.AverageScore` divides an integer sum once, which IEEE division rounds correctly, so
  for integer scores the model's average is exact.
- Builder.IsBlank: counts as whitespace only what `Builder.IsSpace` lists (ASCII whitespace and
  the no-break space), for the reason given on the next line.
- Builder.SaveFilter: `trim()` blankness is modelled over ASCII whitespace and the no-break
  space, not every Unicode space and line terminator JavaScript's `trim` removes.
- Database and authentication calls (`addDoc`, `getDocs`, `updateDoc`, `deleteDoc`, login,
  signup, creating students) are external I/O. The model takes their inputs and results as
  values: the session being edited, the list of submissions, the list of quiz scores.
- Sessions.ToggleSubmission: records are identified by position, not by database id. The order
  the refetch returns them in is not modelled.
- Sessions.ToggleSubmission: the toggle reads the checklist as last fetched, which is refreshed
  only after the awaited write and refetch. Two quick clicks on an unmarked key therefore both
  add a record. The model takes one list per toggle and does not interleave the clicks.
  `Sessions.DuplicateSurvivesToggle` shows the duplicate such a race leaves behind.
- Sessions.ToggleTwice: holds only on a checklist without duplicate keys. With duplicates a
  toggle leaves the key submitted, so two toggles can un-submit it.
- Attempt.Run: ends at the first call of the completion callback. The view stays on the results
  screen until its parent unmounts it after storing the result, so "finish" can call it again.
  Those repeats are modelled separately by `Attempt.Completions`. The storing and unmounting
  happen in the student dashboard, which is not part of this model.
- Timer scheduling (`setTimeout`/`clearTimeout`, effect cleanup) is not modelled. Only the
  callback's state change and the effect re-run it triggers remain (`Attempt.Tick`). The effect
  re-run after other state changes appears only through `Attempt.SubmitIdempotent` and
  `Attempt.ResultsAreFrozen`.
- Rendering, styling, dialogs, alerts and confirmation prompts are not modelled. A declined
  confirmation simply means the delete does not happen.
- The progress-bar percentage (QuizInterface.jsx:200-205) is floating-point presentation.
- `parseInt`, `new Date()` and timestamps are opaque. The time limit arrives already parsed
  (None for `NaN`). A deadline is kept as its entered text.
- Session and student CRUD forms, data fetching, the landing page, the login forms and the
  student dashboard (which persists the completed score) are outside the modelled core.
