/** The decision logic of the teacher dashboard
    (app/dashboard/teacher/page.tsx): the total-students sum, the late
    count, the review form's conversions, and the guards on creating a class
    or an assignment. The average score and the score cell are in
    `Scores`. */
module TeacherDashboard {

  import opened Wrappers
  import opened Seqs
  import opened Text
  import opened Records
  import Classes
  import Assignments

  // ---------------------------------------------------------------------
  // Total students

  /** A class with its member rows attached. */
  datatype Roster = Roster(cls: Class, members: seq<Membership>)

  /** The membership row belongs to the class. */
  function InClass(classId: string): Membership -> bool {
    (m: Membership) => m.classId == classId
  }

  /** The membership row belongs to one of the classes. */
  function InClasses(classIds: seq<string>): Membership -> bool {
    (m: Membership) => m.classId in classIds
  }

  /** Each class with its members (`getClassMembers` per class). */
  function Rosters(classes: seq<Class>, ms: seq<Membership>): (r: seq<Roster>)
    ensures |r| == |classes|
    ensures forall i :: 0 <= i < |r| ==> r[i] == Roster(classes[i], Filter(ms, InClass(classes[i].id)))
  {
    if |classes| == 0 then [] else [Roster(classes[0], Filter(ms, InClass(classes[0].id)))] + Rosters(classes[1..], ms)
  }

  function ClassIdsOf(classes: seq<Class>): (ids: seq<string>)
    ensures |ids| == |classes|
    ensures forall i :: 0 <= i < |classes| ==> ids[i] == classes[i].id
  {
    if |classes| == 0 then [] else [classes[0].id] + ClassIdsOf(classes[1..])
  }

  /** The "Total Students" figure: the sum of the classes' member counts. It
      is at least each class's count, and zero exactly when no class has a
      member. */
  function TotalStudents(rosters: seq<Roster>): (total: int)
    ensures forall i :: 0 <= i < |rosters| ==> |rosters[i].members| <= total
    ensures total == 0 <==> forall i :: 0 <= i < |rosters| ==> |rosters[i].members| == 0
  {
    var size := (r: Roster) => |r.members|;
    SumOfNonNegative(rosters, size);
    Sum(rosters, size)
  }

  /** Counting the members of one class and of other classes separately
      counts the members of all of them. */
  lemma {:induction false} CountSplit(ms: seq<Membership>, id: string, rest: seq<string>)
    requires id !in rest
    ensures Count(ms, InClasses([id] + rest)) == Count(ms, InClass(id)) + Count(ms, InClasses(rest))
    decreases |ms|
  {
    if |ms| > 0 {
      CountSplit(ms[1..], id, rest);
    }
  }

  /** With distinct class ids, the total is the number of membership rows of
      the teacher's classes: a student enrolled in two classes counts
      twice. */
  lemma {:induction false} TotalStudentsCountsMemberships(classes: seq<Class>, ms: seq<Membership>)
    requires forall i, j :: 0 <= i < j < |classes| ==> classes[i].id != classes[j].id
    ensures TotalStudents(Rosters(classes, ms)) == Count(ms, InClasses(ClassIdsOf(classes)))
    decreases |classes|
  {
    var ids := ClassIdsOf(classes);
    if |classes| == 0 {
      FilterNone(ms, InClasses(ids));
    } else {
      var rs := Rosters(classes, ms);
      assert rs[1..] == Rosters(classes[1..], ms);
      TotalStudentsCountsMemberships(classes[1..], ms);
      assert ids == [classes[0].id] + ClassIdsOf(classes[1..]);
      assert classes[0].id !in ClassIdsOf(classes[1..]);
      CountSplit(ms, classes[0].id, ClassIdsOf(classes[1..]));
    }
  }

  // ---------------------------------------------------------------------
  // Late submissions

  /** `assignments.find(a => a.id === id)`: the first assignment with the
      id. */
  function FindAssignment(assignments: seq<Assignment>, id: string): (r: Option<Assignment>)
    ensures r.None? <==> forall i :: 0 <= i < |assignments| ==> assignments[i].id != id
    ensures r.Some? ==> exists i :: 0 <= i < |assignments| && assignments[i] == r.value && r.value.id == id
                          && forall j :: 0 <= j < i ==> assignments[j].id != id
  {
    if |assignments| == 0 then None
    else if assignments[0].id == id then Some(assignments[0])
    else
      var r := FindAssignment(assignments[1..], id);
      assert forall i :: 0 < i < |assignments| ==> assignments[i] == assignments[1..][i - 1];
      r
  }

  /** Created strictly after the due date of its assignment; a submission
      whose assignment is not listed is never late. */
  predicate IsLate(s: Submission, assignments: seq<Assignment>) {
    var a := FindAssignment(assignments, s.assignmentId);
    a.Some? && s.createdAt > a.value.dueDate
  }

  /** The "Late Submissions" figure: at most one per submission, zero
      exactly when none is late, and every submission exactly when all are. */
  function LateCount(subs: seq<Submission>, assignments: seq<Assignment>): (n: nat)
    ensures n <= |subs|
    ensures n == 0 <==> forall i :: 0 <= i < |subs| ==> !IsLate(subs[i], assignments)
    ensures n == |subs| <==> forall i :: 0 <= i < |subs| ==> IsLate(subs[i], assignments)
  {
    var late := (s: Submission) => IsLate(s, assignments);
    CountExtremes(subs, late);
    Count(subs, late)
  }

  /** With distinct assignment ids, a submission is late exactly when some
      listed assignment with its id is due strictly before it was made. */
  lemma IsLateIff(s: Submission, assignments: seq<Assignment>)
    requires forall i, j :: 0 <= i < j < |assignments| ==> assignments[i].id != assignments[j].id
    ensures IsLate(s, assignments) <==>
      exists a :: a in assignments && a.id == s.assignmentId && s.createdAt > a.dueDate
  {
    var f := FindAssignment(assignments, s.assignmentId);
    if exists a :: a in assignments && a.id == s.assignmentId && s.createdAt > a.dueDate {
      var a :| a in assignments && a.id == s.assignmentId && s.createdAt > a.dueDate;
      var k :| 0 <= k < |assignments| && assignments[k] == a;
      var i :| 0 <= i < |assignments| && assignments[i] == f.value && f.value.id == s.assignmentId
               && forall j :: 0 <= j < i ==> assignments[j].id != s.assignmentId;
      assert i == k;
    }
  }

  /** Late by the reference reading: some listed assignment with the
      submission's id is due strictly before it was made. */
  predicate LateAgainstSome(s: Submission, assignments: seq<Assignment>) {
    exists a :: a in assignments && a.id == s.assignmentId && s.createdAt > a.dueDate
  }

  /** With distinct assignment ids the late count is the number of
      submissions late against some listed assignment. */
  lemma LateCountIsReference(subs: seq<Submission>, assignments: seq<Assignment>)
    requires forall i, j :: 0 <= i < j < |assignments| ==> assignments[i].id != assignments[j].id
    ensures LateCount(subs, assignments) == Count(subs, (s: Submission) => LateAgainstSome(s, assignments))
  {
    forall i | 0 <= i < |subs| ensures IsLate(subs[i], assignments) == LateAgainstSome(subs[i], assignments) {
      IsLateIff(subs[i], assignments);
    }
    FilterCongruent(subs, (s: Submission) => IsLate(s, assignments), (s: Submission) => LateAgainstSome(s, assignments));
  }

  /** A submission whose assignment is not listed adds nothing to the late
      count, however late it is. */
  lemma UnlistedIsNotCounted(subs: seq<Submission>, s: Submission, assignments: seq<Assignment>)
    requires forall i :: 0 <= i < |assignments| ==> assignments[i].id != s.assignmentId
    ensures LateCount(subs + [s], assignments) == LateCount(subs, assignments)
  {
    FilterAppend(subs, [s], (x: Submission) => IsLate(x, assignments));
    assert !IsLate(s, assignments);
    FilterNone([s], (x: Submission) => IsLate(x, assignments));
  }

  /** Submitting exactly at the due time is not late. */
  lemma OnTimeIsNotLate(s: Submission, assignments: seq<Assignment>, a: Assignment)
    requires FindAssignment(assignments, s.assignmentId) == Some(a)
    requires s.createdAt <= a.dueDate
    ensures !IsLate(s, assignments)
  {
  }

  // ---------------------------------------------------------------------
  // Review form

  /** The two text fields of the review form. */
  datatype ReviewForm = ReviewForm(score: string, comment: string)

  /** `handleOpenReview`: the current teacher score as text, or "" when
      there is none; the current feedback, or "" when there is none. */
  function OpenReview(s: Submission): (f: ReviewForm)
    ensures f.score == "" <==> s.teacherScore.None?
    ensures s.teacherScore.Some? ==> ParseInt(f.score) == s.teacherScore
    ensures f.comment == s.teacherFeedback.GetOr("")
  {
    if s.teacherScore.Some? then
      ParseIntRoundTrip(s.teacherScore.value);
      ReviewForm(IntToString(s.teacherScore.value), s.teacherFeedback.GetOr(""))
    else ReviewForm("", s.teacherFeedback.GetOr(""))
  }

  /** A score field the number input can hold: empty or an integer. */
  predicate ScoreFieldOk(f: ReviewForm) {
    f.score == "" || ParseInt(f.score).Some?
  }

  /** `handleSubmitReview`'s arguments to `updateTeacherReview`: an empty
      score is null, otherwise the parsed number, with no range check; an
      empty comment is null. */
  function SubmitReview(f: ReviewForm): (r: (Option<int>, Option<string>))
    requires ScoreFieldOk(f)
    ensures r.0.None? <==> f.score == ""
    ensures r.0.Some? ==> Some(r.0.value) == ParseInt(f.score)
    ensures r.1.None? <==> f.comment == ""
    ensures r.1.Some? ==> r.1.value == f.comment
  {
    (if f.score == "" then None else ParseInt(f.score), if f.comment == "" then None else Some(f.comment))
  }

  /** Opening a review and saving it unchanged writes back what was there,
      except that an empty feedback becomes null. */
  lemma ReviewRoundTripIff(s: Submission)
    ensures ScoreFieldOk(OpenReview(s))
    ensures SubmitReview(OpenReview(s)) == (s.teacherScore, s.teacherFeedback) <==> s.teacherFeedback != Some("")
  {
  }

  /** The handler does no range check of its own: whatever integer reaches
      it is sent as the teacher score. The 0-100 range and whole-number step
      of the number input are enforced only by the browser's form
      validation, before the handler runs. */
  lemma ReviewSendsAnyInteger(n: int, comment: string)
    ensures ScoreFieldOk(ReviewForm(IntToString(n), comment))
    ensures SubmitReview(ReviewForm(IntToString(n), comment)).0 == Some(n)
  {
    ParseIntRoundTrip(n);
  }

  // ---------------------------------------------------------------------
  // Create guards

  /** `handleCreateClass`: refused with no user or a name that trims to
      nothing (`None`, no insert tried); otherwise `createClass` is called
      with the name as typed, untrimmed, and its result is handed back: an
      error is alerted and changes nothing, a class is added. */
  function HandleCreateClass(store: Store, user: Option<string>, name: string, id: string, rendered: string, now: int,
                             accepted: bool)
    : (r: (Store, Option<Result<Class, Error>>))
    requires Classes.IsRandomRendering(rendered)
    ensures r.1.None? <==> user.None? || Trim(name) == ""
    ensures r.1.None? ==> r.0 == store
    ensures r.1.Some? ==> (r.1.value.Failure? <==> !accepted)
    ensures r.1.Some? && r.1.value.Failure? ==> r.0 == store
    ensures r.1.Some? && r.1.value.Success? ==>
      var c := r.1.value.value;
      r.0 == store.(classes := store.classes + [c]) && c.name == name && c.teacherId == user.value && c.id == id
  {
    if user.None? || Trim(name) == "" then (store, None)
    else
      var c := Classes.CreateClass(store, name, user.value, id, rendered, now, accepted);
      (c.0, Some(c.1))
  }

  /** A name of white space only creates nothing. */
  lemma BlankClassNameCreatesNothing(store: Store, user: Option<string>, name: string, id: string, rendered: string,
                                     now: int, accepted: bool)
    requires Classes.IsRandomRendering(rendered)
    requires forall i :: 0 <= i < |name| ==> IsSpace(name[i])
    ensures HandleCreateClass(store, user, name, id, rendered, now, accepted) == (store, None)
  {
    TrimEmptyIff(name);
  }

  /** `handleCreateAssignment`: refused unless a class is selected, the
      title trims to something and a user is signed in (`None`, no insert
      tried); otherwise `createAssignment` of
      lib/supabase/queries/assignments.ts is called with the title as typed
      and its result handed back: an error is alerted and changes nothing,
      an assignment is added. */
  function HandleCreateAssignment(store: Store, user: Option<string>, selectedClass: string, title: string,
                                  description: string, dueDate: int, id: string, now: int, accepted: bool)
    : (r: (Store, Option<Result<Assignment, Error>>))
    ensures r.1.None? <==> selectedClass == "" || Trim(title) == "" || user.None?
    ensures r.1.None? ==> r.0 == store
    ensures r.1.Some? ==> (r.1.value.Failure? <==> !accepted)
    ensures r.1.Some? && r.1.value.Failure? ==> r.0 == store
    ensures r.1.Some? && r.1.value.Success? ==>
      var a := r.1.value.value;
      && r.0 == store.(assignments := store.assignments + [a])
      && a.classId == selectedClass && a.title == title
      && a.teacherId == user && (a.description.None? <==> description == "")
  {
    if selectedClass == "" || Trim(title) == "" || user.None? then (store, None)
    else
      var a := Assignments.CreateAssignment(store, id, selectedClass, user.value, title, description, dueDate, now, accepted);
      (a.0, Some(a.1))
  }

  /** A title of white space only creates nothing. */
  lemma BlankTitleCreatesNothing(store: Store, user: Option<string>, selectedClass: string, title: string,
                                 description: string, dueDate: int, id: string, now: int, accepted: bool)
    requires forall i :: 0 <= i < |title| ==> IsSpace(title[i])
    ensures HandleCreateAssignment(store, user, selectedClass, title, description, dueDate, id, now, accepted) == (store, None)
  {
    TrimEmptyIff(title);
  }
}
