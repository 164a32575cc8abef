/** Bookkeeping on the teacher dashboard: the content lists of a session, the submission
    checklist of an assignment, and the average quiz score. */
module Sessions {
  import opened Wrappers
  import opened Quizzes
  import opened Lists
  import Builder
  import Rounding

  /** The four lists a session document holds. */
  datatype ListName = Materials | Videos | QuizList | Assignments

  /** The content form's type selector. */
  datatype ContentType = Material | Video | Assignment

  /** `contentForm.type + 's'`: the list a new content item goes to. */
  function ListOf(t: ContentType): (l: ListName)
    ensures l != QuizList
  {
    match t
    case Material => Materials
    case Video => Videos
    case Assignment => Assignments
  }

  /** A stored item. Only videos carry a link and only assignments a deadline (kept as the text
      the teacher entered; None is the stored `null`). Saved quizzes are stored whole. */
  datatype Item =
    | ContentItem(title: string, body: string, kind: ContentType, url: Option<string>, deadline: Option<string>)
    | QuizItem(quiz: Quiz)

  /** A session document; a list that was never written is absent from `lists`. */
  datatype Session = Session(id: string, lists: map<ListName, seq<Item>>)

  /** `session[name] || []` */
  function Items(s: Session, name: ListName): (items: seq<Item>)
    ensures name !in s.lists ==> items == []
  {
    if name in s.lists then s.lists[name] else []
  }

  datatype ContentForm = ContentForm(title: string, body: string, kind: ContentType, url: string, deadline: string)

  /** The item built from the content form: a link for a video, a deadline (or `null` when the
      field is empty) for an assignment, nothing extra for a material. */
  function NewContent(f: ContentForm): (it: Item)
    ensures it.ContentItem? && it.title == f.title && it.body == f.body && it.kind == f.kind
    ensures it.url.Some? <==> f.kind == Video
    ensures it.url.Some? ==> it.url.value == f.url
    ensures f.kind == Assignment && f.deadline != "" ==> it.deadline == Some(f.deadline)
    ensures f.kind != Assignment || f.deadline == "" ==> it.deadline.None?
  {
    ContentItem(f.title, f.body, f.kind,
      if f.kind == Video then Some(f.url) else None,
      if f.kind == Assignment && f.deadline != "" then Some(f.deadline) else None)
  }

  /** `[...(session[name] || []), item]` written back: the item goes last, the others stay in
      place, and every other list is untouched. */
  function AppendTo(s: Session, name: ListName, it: Item): (r: Session)
    ensures r.id == s.id
    ensures Items(r, name) == Items(s, name) + [it]
    ensures forall other :: other != name ==> Items(r, other) == Items(s, other)
  {
    Session(s.id, s.lists[name := Items(s, name) + [it]])
  }

  /** `handleCreateContent` */
  function AddContent(s: Session, f: ContentForm): (r: Session)
    ensures Items(r, ListOf(f.kind)) == Items(s, ListOf(f.kind)) + [NewContent(f)]
    ensures forall other :: other != ListOf(f.kind) ==> Items(r, other) == Items(s, other)
  {
    AppendTo(s, ListOf(f.kind), NewContent(f))
  }

  /** The quiz form's fields; the time limit is what `parseInt` made of the input. */
  datatype QuizForm = QuizForm(title: string, content: string, timeLimit: Option<int>, questions: seq<Question>)

  /** `handleCreateQuiz`: the saved quiz keeps the form's fields but only the filled-in
      questions, and is appended to the session's quizzes. */
  function AddQuiz(s: Session, f: QuizForm): (r: Session)
    ensures |Items(r, QuizList)| == |Items(s, QuizList)| + 1
    ensures Items(r, QuizList)[..|Items(s, QuizList)|] == Items(s, QuizList)
    ensures var saved := Items(r, QuizList)[|Items(s, QuizList)|];
            saved.QuizItem? && saved.quiz.title == f.title && saved.quiz.content == f.content
            && saved.quiz.timeLimit == f.timeLimit
            && saved.quiz.questions == Builder.SaveFilter(f.questions)
    ensures forall other :: other != QuizList ==> Items(r, other) == Items(s, other)
  {
    AppendTo(s, QuizList, QuizItem(Quiz(f.title, f.content, f.timeLimit, Builder.SaveFilter(f.questions))))
  }

  /** `handleDeleteContent(name, index)`: `splice(index, 1)` on a copy of the list, written back. */
  function DeleteContent(s: Session, name: ListName, index: nat): (r: Session)
    ensures index < |Items(s, name)| ==>
      |Items(r, name)| == |Items(s, name)| - 1
      && Items(r, name)[..index] == Items(s, name)[..index]
      && Items(r, name)[index..] == Items(s, name)[index + 1..]
    ensures index >= |Items(s, name)| ==> Items(r, name) == Items(s, name)
    ensures forall other :: other != name ==> Items(r, other) == Items(s, other)
  {
    Session(s.id, s.lists[name := RemoveAt(Items(s, name), index)])
  }

  /** Deleting the item just added restores the list. */
  lemma DeleteUndoesAppend(s: Session, name: ListName, it: Item)
    ensures Items(DeleteContent(AppendTo(s, name, it), name, |Items(s, name)|), name) == Items(s, name)
  {
    var grown := Items(s, name) + [it];
    assert grown[..|Items(s, name)|] == Items(s, name);
  }

  /** A submission record of the checklist, keyed by student, session and assignment. */
  datatype Submission = Submission(studentId: string, sessionId: string, assignmentIndex: nat)

  predicate Matches(sub: Submission, student: string, session: string, assignment: nat): (matched: bool)
    ensures matched <==> sub == Submission(student, session, assignment)
  {
    sub.studentId == student && sub.sessionId == session && sub.assignmentIndex == assignment
  }

  /** The checklist's `isSubmitted`: some record has the key, which is the same as the key's
      own record being present. */
  predicate IsSubmitted(subs: seq<Submission>, student: string, session: string, assignment: nat): (submitted: bool)
    ensures submitted <==> Submission(student, session, assignment) in subs
  {
    exists k :: 0 <= k < |subs| && Matches(subs[k], student, session, assignment)
  }

  /** `Array.prototype.find`: the position of the first record with the key. */
  function FindSubmission(subs: seq<Submission>, student: string, session: string, assignment: nat): (r: Option<nat>)
    ensures r.Some? ==> r.value < |subs| && Matches(subs[r.value], student, session, assignment)
    ensures r.Some? ==> forall k :: 0 <= k < r.value ==> !Matches(subs[k], student, session, assignment)
    ensures r.None? <==> !IsSubmitted(subs, student, session, assignment)
  {
    if |subs| == 0 then None
    else if Matches(subs[0], student, session, assignment) then Some(0)
    else
      match FindSubmission(subs[1..], student, session, assignment)
      case None =>
        assert forall k :: 1 <= k < |subs| ==> subs[k] == subs[1..][k - 1];
        None
      case Some(k) => Some(k + 1)
  }

  /** `toggleAssignmentSubmission`: delete the first matching record if there is one, otherwise
      add a record with the key. */
  function ToggleSubmission(subs: seq<Submission>, student: string, session: string, assignment: nat): (r: seq<Submission>)
    ensures !IsSubmitted(subs, student, session, assignment) ==>
      r == subs + [Submission(student, session, assignment)]
    ensures IsSubmitted(subs, student, session, assignment) ==>
      multiset(r) + multiset{Submission(student, session, assignment)} == multiset(subs)
  {
    match FindSubmission(subs, student, session, assignment)
    case Some(k) => RemoveAtContents(subs, k); RemoveAt(subs, k)
    case None => subs + [Submission(student, session, assignment)]
  }

  /** No two records share a key. */
  ghost predicate UniqueKeys(subs: seq<Submission>) {
    forall i, j :: 0 <= i < j < |subs| ==> subs[i] != subs[j]
  }

  /** The records left after removing position `p` are the others, each still present. */
  lemma RemoveAtMembers(xs: seq<Submission>, p: nat, x: Submission)
    requires p < |xs|
    ensures x in RemoveAt(xs, p) <==> x in xs[..p] || x in xs[p + 1..]
  {
    var r := RemoveAt(xs, p);
    assert r == xs[..p] + xs[p + 1..];
  }

  /** Adding a missing key marks it submitted and changes no other key's status. */
  lemma ToggleAdds(subs: seq<Submission>, student: string, session: string, assignment: nat, other: Submission)
    requires !IsSubmitted(subs, student, session, assignment)
    ensures var r := ToggleSubmission(subs, student, session, assignment);
      && IsSubmitted(r, student, session, assignment)
      && (UniqueKeys(subs) ==> UniqueKeys(r))
      && (other != Submission(student, session, assignment) ==> (other in r <==> other in subs))
  {
    var r := ToggleSubmission(subs, student, session, assignment);
    var key := Submission(student, session, assignment);
    assert r[|subs|] == key;
  }

  /** Removing a present key, on a checklist without duplicates, marks it not submitted, keeps
      the keys unique and changes no other key's status. */
  lemma ToggleRemoves(subs: seq<Submission>, student: string, session: string, assignment: nat, other: Submission)
    requires UniqueKeys(subs)
    requires IsSubmitted(subs, student, session, assignment)
    ensures var r := ToggleSubmission(subs, student, session, assignment);
      && !IsSubmitted(r, student, session, assignment)
      && UniqueKeys(r)
      && (other != Submission(student, session, assignment) ==> (other in r <==> other in subs))
  {
    var key := Submission(student, session, assignment);
    var p := FindSubmission(subs, student, session, assignment).value;
    var r := RemoveAt(subs, p);
    assert subs[p] == key;
    assert subs == subs[..p] + [key] + subs[p + 1..];
    assert key !in subs[..p] && key !in subs[p + 1..] by {
      forall k | 0 <= k < |subs| && k != p
        ensures subs[k] != key
      {
        if k < p { assert subs[k] != subs[p]; } else { assert subs[p] != subs[k]; }
      }
    }
    RemoveAtMembers(subs, p, key);
    RemoveAtMembers(subs, p, other);
    forall i, j | 0 <= i < j < |r|
      ensures r[i] != r[j]
    {
      RemoveAtShifts(subs, p, i);
      RemoveAtShifts(subs, p, j);
    }
  }

  /** On a checklist without duplicate keys, a toggle flips the key's status, leaves every
      other key's status alone, and keeps the keys unique. */
  lemma ToggleFlips(subs: seq<Submission>, student: string, session: string, assignment: nat,
                    st: string, se: string, a: nat)
    requires UniqueKeys(subs)
    requires (st, se, a) != (student, session, assignment)
    ensures var r := ToggleSubmission(subs, student, session, assignment);
      && IsSubmitted(r, student, session, assignment) == !IsSubmitted(subs, student, session, assignment)
      && UniqueKeys(r)
      && IsSubmitted(r, st, se, a) == IsSubmitted(subs, st, se, a)
  {
    var r := ToggleSubmission(subs, student, session, assignment);
    var other := Submission(st, se, a);
    if IsSubmitted(subs, student, session, assignment) {
      ToggleRemoves(subs, student, session, assignment, other);
    } else {
      ToggleAdds(subs, student, session, assignment, other);
    }
  }

  /** On a checklist without duplicates, toggling twice restores the key's status. */
  lemma ToggleTwice(subs: seq<Submission>, student: string, session: string, assignment: nat)
    requires UniqueKeys(subs)
    ensures IsSubmitted(ToggleSubmission(ToggleSubmission(subs, student, session, assignment), student, session, assignment), student, session, assignment)
         == IsSubmitted(subs, student, session, assignment)
  {
    if IsSubmitted(subs, student, session, assignment) {
      ToggleRemoves(subs, student, session, assignment, Submission(student, session, assignment));
    } else {
      ToggleAdds(subs, student, session, assignment, Submission(student, session, assignment));
    }
    var once := ToggleSubmission(subs, student, session, assignment);
    if IsSubmitted(once, student, session, assignment) {
      ToggleRemoves(once, student, session, assignment, Submission(student, session, assignment));
    } else {
      ToggleAdds(once, student, session, assignment, Submission(student, session, assignment));
    }
  }

  /** With two records of one key, which two quick clicks on an unmarked key produce (each
      click reads the list as it was before the other's write), a toggle removes only one of
      them and the key stays submitted. */
  lemma DuplicateSurvivesToggle(student: string, session: string, assignment: nat)
    ensures var k := Submission(student, session, assignment);
      && !UniqueKeys([k, k])
      && ToggleSubmission([], student, session, assignment) == [k]
      && IsSubmitted(ToggleSubmission([k, k], student, session, assignment), student, session, assignment)
  {
    var k := Submission(student, session, assignment);
    assert [k, k][0] == [k, k][1];
    assert RemoveAt([k, k], 0) == [k];
  }

  /** `reduce((sum, result) => sum + result.score, 0)` */
  function Sum(xs: seq<int>): (total: int)
    ensures |xs| == 1 ==> total == xs[0]
  {
    if |xs| == 0 then 0 else Sum(xs[..|xs| - 1]) + xs[|xs| - 1]
  }

  /** A sum of values in `[lo, hi]` lies in `[n * lo, n * hi]`. */
  lemma {:induction false} SumBounds(xs: seq<int>, lo: int, hi: int)
    requires forall k :: 0 <= k < |xs| ==> lo <= xs[k] <= hi
    ensures |xs| * lo <= Sum(xs) <= |xs| * hi
  {
    if |xs| > 0 {
      var n := |xs| - 1;
      var pre := xs[..n];
      assert forall k :: 0 <= k < |pre| ==> pre[k] == xs[k];
      SumBounds(pre, lo, hi);
      assert Sum(xs) == Sum(pre) + xs[n];
      assert lo <= xs[n] <= hi;
      assert |pre| == n;
      assert (n + 1) * lo == n * lo + lo && (n + 1) * hi == n * hi + hi;
    }
  }

  /** The dashboard's average quiz score: 0 with no results, otherwise the rounded mean. */
  function AverageScore(scores: seq<int>): (avg: int)
    ensures |scores| == 0 ==> avg == 0
    ensures |scores| > 0 ==> 2 * |scores| * avg <= 2 * Sum(scores) + |scores| < 2 * |scores| * (avg + 1)
  {
    if |scores| > 0 then Rounding.RoundDiv(Sum(scores), |scores|) else 0
  }

  /** The average stays within the range of the scores, so percentages average to a percentage. */
  lemma AverageWithinRange(scores: seq<int>, lo: int, hi: int)
    requires |scores| > 0
    requires forall k :: 0 <= k < |scores| ==> lo <= scores[k] <= hi
    ensures lo <= AverageScore(scores) <= hi
  {
    SumBounds(scores, lo, hi);
    Rounding.RoundDivWithin(Sum(scores), |scores|, lo, hi);
  }

  /** Equal scores average to that score. */
  lemma AverageOfEqualScores(scores: seq<int>, v: int)
    requires |scores| > 0
    requires forall k :: 0 <= k < |scores| ==> scores[k] == v
    ensures AverageScore(scores) == v
  {
    AverageWithinRange(scores, v, v);
  }
}
