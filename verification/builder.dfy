/** The teacher's quiz form: the reducers that edit its question list and the filter applied
    when the quiz is saved. */
module Builder {
  import opened Quizzes
  import opened Lists

  /** The question `addQuestion` appends: empty prompt, four empty options, option 0 correct. */
  const BlankQuestion: Question := Question("", ["", "", "", ""], 0)

  /** The question list of a freshly opened form. */
  const InitialQuestions: seq<Question> := [BlankQuestion]

  /** `addQuestion`: one blank question at the end, every earlier question kept. */
  function AddQuestion(qs: seq<Question>): (r: seq<Question>)
    ensures |r| == |qs| + 1
    ensures r[..|qs|] == qs
    ensures r[|qs|] == BlankQuestion
  {
    qs + [BlankQuestion]
  }

  /** The two fields the form edits through `updateQuestion(i, field, value)`. */
  datatype Field = PromptField(text: string) | CorrectField(index: nat)

  /** `{ ...q, [field]: value }` */
  function WithField(q: Question, f: Field): (r: Question)
    ensures r.options == q.options
    ensures f.PromptField? ==> r.prompt == f.text && r.correctAnswer == q.correctAnswer
    ensures f.CorrectField? ==> r.correctAnswer == f.index && r.prompt == q.prompt
  {
    match f
    case PromptField(text) => q.(prompt := text)
    case CorrectField(index) => q.(correctAnswer := index)
  }

  /** `updateQuestion(i, field, value)`: only the named field of question `i` changes. */
  function UpdateQuestion(qs: seq<Question>, i: nat, f: Field): (r: seq<Question>)
    ensures |r| == |qs|
    ensures forall k :: 0 <= k < |qs| && k != i ==> r[k] == qs[k]
    ensures i < |qs| ==> r[i].options == qs[i].options
    ensures i < |qs| && f.PromptField? ==> r[i].prompt == f.text && r[i].correctAnswer == qs[i].correctAnswer
    ensures i < |qs| && f.CorrectField? ==> r[i].correctAnswer == f.index && r[i].prompt == qs[i].prompt
    ensures i >= |qs| ==> r == qs
  {
    if i < |qs| then ReplaceAt(qs, i, WithField(qs[i], f)) else qs
  }

  /** `updateOption(i, j, value)`: only option `j` of question `i` changes; every options list
      keeps its length. */
  function UpdateOption(qs: seq<Question>, i: nat, j: nat, v: string): (r: seq<Question>)
    ensures |r| == |qs|
    ensures forall k :: 0 <= k < |qs| && k != i ==> r[k] == qs[k]
    ensures forall k :: 0 <= k < |qs| ==> |r[k].options| == |qs[k].options|
    ensures i < |qs| ==> r[i].prompt == qs[i].prompt && r[i].correctAnswer == qs[i].correctAnswer
    ensures i < |qs| ==> forall m :: 0 <= m < |qs[i].options| && m != j ==> r[i].options[m] == qs[i].options[m]
    ensures i < |qs| && j < |qs[i].options| ==> r[i].options[j] == v
  {
    if i < |qs| then ReplaceAt(qs, i, qs[i].(options := ReplaceAt(qs[i].options, j, v))) else qs
  }

  /** `removeQuestion(i)`: exactly question `i` is dropped, the rest keep their order. */
  function RemoveQuestion(qs: seq<Question>, i: nat): (r: seq<Question>)
    ensures i < |qs| ==> |r| == |qs| - 1 && r[..i] == qs[..i] && r[i..] == qs[i + 1..]
    ensures i >= |qs| ==> r == qs
  {
    RemoveAt(qs, i)
  }

  /** The form's edit actions. */
  datatype FormEvent =
    | AddClicked
    | QuestionEdited(index: nat, field: Field)
    | OptionEdited(index: nat, option: nat, text: string)
    | RemoveClicked(index: nat)

  /** One edit; the remove button is rendered only while the form holds more than one question. */
  function FormStep(qs: seq<Question>, ev: FormEvent): (r: seq<Question>)
    ensures |qs| >= 1 ==> |r| >= 1
    ensures ev.RemoveClicked? && |qs| <= 1 ==> r == qs
    ensures ev.AddClicked? ==> |r| == |qs| + 1
    ensures !ev.AddClicked? && !ev.RemoveClicked? ==> |r| == |qs|
  {
    match ev
    case AddClicked => AddQuestion(qs)
    case QuestionEdited(i, f) => UpdateQuestion(qs, i, f)
    case OptionEdited(i, j, v) => UpdateOption(qs, i, j, v)
    case RemoveClicked(i) => if |qs| > 1 then RemoveQuestion(qs, i) else qs
  }

  /** The form never runs out of questions: it starts with one and no edit empties it. */
  lemma {:induction false} FormNeverEmpty(qs: seq<Question>, events: seq<FormEvent>)
    requires |qs| >= 1
    ensures |FormSteps(qs, events)| >= 1
    decreases |events|
  {
    if |events| > 0 {
      FormNeverEmpty(FormStep(qs, events[0]), events[1..]);
    }
  }

  /** A sequence of edits, applied in order. */
  function FormSteps(qs: seq<Question>, events: seq<FormEvent>): (r: seq<Question>)
    ensures |events| == 0 ==> r == qs
    decreases |events|
  {
    if |events| == 0 then qs else FormSteps(FormStep(qs, events[0]), events[1..])
  }

  /** Whitespace as `String.prototype.trim` removes it (the ASCII and Latin-1 spaces). */
  predicate IsSpace(c: char) {
    c == ' ' || c == '\t' || c == '\n' || c == '\r' || c == '\U{000B}' || c == '\U{000C}' || c == '\U{00A0}'
  }

  /** `s.trim()` is falsy: the text is empty or only whitespace. */
  predicate IsBlank(s: string): (blank: bool)
    ensures |s| == 0 ==> blank
    ensures blank && |s| > 0 ==> IsSpace(s[0]) && IsSpace(s[|s| - 1])
  {
    forall k :: 0 <= k < |s| ==> IsSpace(s[k])
  }

  /** `options.some(opt => opt.trim())` */
  predicate HasFilledOption(options: seq<string>): (filled: bool)
    ensures |options| == 0 ==> !filled
    ensures filled ==> exists k :: 0 <= k < |options| && |options[k]| > 0
  {
    exists k :: 0 <= k < |options| && !IsBlank(options[k])
  }

  /** The save filter's test: a non-blank prompt and at least one non-blank option. */
  predicate Keep(q: Question): (kept: bool)
    ensures kept ==> |q.prompt| > 0 && |q.options| > 0
    ensures |q.options| == 0 ==> !kept
  {
    !IsBlank(q.prompt) && HasFilledOption(q.options)
  }

  /** The questions saved with the quiz: exactly those passing `Keep`, in form order. */
  function SaveFilter(qs: seq<Question>): (r: seq<Question>)
    ensures |r| <= |qs|
    ensures forall k :: 0 <= k < |r| ==> Keep(r[k])
    ensures forall q :: q in r <==> q in qs && Keep(q)
  {
    if |qs| == 0 then []
    else (if Keep(qs[0]) then [qs[0]] else []) + SaveFilter(qs[1..])
  }

  /** The filter keeps order: filtering a concatenation concatenates the filtered parts. */
  lemma {:induction false} SaveFilterConcat(a: seq<Question>, b: seq<Question>)
    ensures SaveFilter(a + b) == SaveFilter(a) + SaveFilter(b)
  {
    if |a| == 0 {
      assert a + b == b;
    } else {
      assert (a + b)[0] == a[0];
      assert (a + b)[1..] == a[1..] + b;
      SaveFilterConcat(a[1..], b);
    }
  }

  /** A form whose every question is filled in is saved unchanged. */
  lemma {:induction false} SaveFilterKeepsFilled(qs: seq<Question>)
    requires forall k :: 0 <= k < |qs| ==> Keep(qs[k])
    ensures SaveFilter(qs) == qs
  {
    if |qs| > 0 {
      assert Keep(qs[0]);
      SaveFilterKeepsFilled(qs[1..]);
      assert qs == [qs[0]] + qs[1..];
    }
  }

  /** Filtering a second time changes nothing. */
  lemma SaveFilterIdempotent(qs: seq<Question>)
    ensures SaveFilter(SaveFilter(qs)) == SaveFilter(qs)
  {
    SaveFilterKeepsFilled(SaveFilter(qs));
  }

  /** Saving an untouched form stores a quiz without questions, which the quiz view then
      shows as having no questions. */
  lemma UntouchedFormSavesNoQuestions()
    ensures SaveFilter(InitialQuestions) == []
  {
    assert !HasFilledOption(BlankQuestion.options);
  }

  /** A question whose one remaining filled option is cleared is no longer saved. */
  lemma ClearingTheOnlyOptionDropsQuestion(q: Question, j: nat)
    requires j < |q.options|
    requires forall m :: 0 <= m < |q.options| && m != j ==> IsBlank(q.options[m])
    ensures !Keep(UpdateOption([q], 0, j, "")[0])
  {
    var o := UpdateOption([q], 0, j, "")[0].options;
    forall m | 0 <= m < |o|
      ensures IsBlank(o[m])
    {
      if m != j {
        assert o[m] == q.options[m];
      }
    }
  }
}
