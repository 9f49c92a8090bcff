/** The two submit paths: `submitAssignment` of lib/supabase/submissions.ts
    (insert, grade, then patch the result or mark the row `grading_failed`)
    and the student dashboard's inline handler in
    app/dashboard/student/page.tsx (upload, insert, grade, and swallow any
    grading error). Whether each store write is accepted, and whether the
    grading call throws or which draw it makes, are parameters. */
module SubmitFlow {

  import opened Wrappers
  import opened Seqs
  import opened Records
  import opened Grading
  import SubmissionQueries
  import Storage

  /** How the call into the grading pipeline ends: it throws, or it runs
      with the given random draw. */
  datatype GradeCall = Threw | Drew(r: real)

  predicate ValidCall(g: GradeCall) {
    g.Drew? ==> 0.0 <= g.r < 1.0
  }

  /** `x || undefined` on an optional text column: empty text counts as
      missing. */
  function NonEmpty(o: Option<string>): (r: Option<string>)
    ensures r.Some? <==> o.Some? && o.value != ""
    ensures r.Some? ==> r == o
  {
    if o.Some? && o.value != "" then o else None
  }

  /** The assignment row the `.single()` lookup by id returns: a row with
      that id, the only one there is; none when no row has the id. */
  function LookupAssignment(store: Store, assignmentId: string): (r: Option<Assignment>)
    ensures r.Some? ==> r.value in store.assignments && r.value.id == assignmentId
    ensures r.Some? ==> forall a :: a in store.assignments && a.id == assignmentId ==> a == r.value
    ensures (forall a :: a in store.assignments ==> a.id != assignmentId) ==> r.None?
  {
    var found := Filter(store.assignments, (a: Assignment) => a.id == assignmentId);
    assert found != [] ==> found[0] in found;
    Single(found)
  }

  /** The grading configuration: the found assignment's title, answer key
      and rubric, with a missing assignment giving title "" and no answer
      key or rubric. */
  function ConfigFor(assignmentId: string, found: Option<Assignment>): (c: GradingConfig)
    ensures c.assignmentId == assignmentId
    ensures found.None? ==> c == GradingConfig(None, None, assignmentId, "")
    ensures found.Some? ==>
      && c.assignmentTitle == found.value.title
      && c.answerKey == NonEmpty(found.value.answerKey)
      && c.rubric == NonEmpty(found.value.rubric)
  {
    match found
    case None => GradingConfig(None, None, assignmentId, "")
    case Some(a) => GradingConfig(NonEmpty(a.answerKey), NonEmpty(a.rubric), assignmentId, a.title)
  }

  /** What a submit call hands back: the submission row, if any, and the
      error, if any. */
  datatype Outcome = Outcome(data: Option<Submission>, error: Option<Error>)

  /** `submitAssignment`. */
  function SubmitAssignment(store: Store, assignmentId: string, student: string, imageUrl: string, now: int,
                            insertOk: bool, call: GradeCall, updateOk: bool, failPatchOk: bool)
    : (r: (Store, Outcome))
    requires ValidCall(call)
    ensures !insertOk ==> r == (store, Outcome(None, Some(StoreRejected)))
    ensures insertOk ==> |r.0.submissions| == |store.submissions| + 1
    ensures insertOk ==>
      var n := |store.submissions|;
      var inserted := SubmissionQueries.CreateSubmission(store.submissions, assignmentId, student, imageUrl, now, true).1.value;
      var final := r.0.submissions[n];
      && |r.0.submissions| == n + 1 && r.0.submissions[..n] == store.submissions
      && r.0.classes == store.classes && r.0.memberships == store.memberships && r.0.assignments == store.assignments
      && inserted.status == Grading
      && final == inserted.(status := final.status, aiScore := final.aiScore, aiFeedback := final.aiFeedback)
      && (final.status == Graded <==> call.Drew? && updateOk)
      && (final.status == GradingFailed <==> call.Threw? && failPatchOk)
      && (final.status == Grading <==> (call.Drew? && !updateOk) || (call.Threw? && !failPatchOk))
      && (final.status == Graded ==>
            var g := GradeSubmission(imageUrl, ConfigFor(assignmentId, LookupAssignment(store, assignmentId)), call.r);
            final.aiScore == Some(g.score) && final.aiFeedback == Some(g.feedback) && r.1.data == Some(final))
      && (final.status != Graded ==> final.aiScore.None? && final.aiFeedback.None? && r.1.data == Some(inserted))
      && (r.1.error.Some? <==> call.Threw?)
      && (r.1.error.Some? ==> r.1.error.value == GradingThrew)
  {
    var (subs, created) := SubmissionQueries.CreateSubmission(store.submissions, assignmentId, student, imageUrl, now, insertOk);
    if created.Failure? then (store, Outcome(None, Some(created.error)))
    else
      var row := created.value;
      var inserted := store.(submissions := subs);
      match call
      case Threw =>
        var marked := if failPatchOk then inserted.(submissions := subs[row.id := row.(status := GradingFailed)]) else inserted;
        (marked, Outcome(Some(row), Some(GradingThrew)))
      case Drew(draw) =>
        var config := ConfigFor(assignmentId, LookupAssignment(store, assignmentId));
        var g := GradeSubmission(imageUrl, config, draw);
        if updateOk then
          var graded := row.(status := Graded, aiScore := Some(g.score), aiFeedback := Some(g.feedback));
          (inserted.(submissions := subs[row.id := graded]), Outcome(Some(graded), None))
        else (inserted, Outcome(Some(row), None))
  }

  /** When the insert fails the grading call makes no difference: it is
      never reached. */
  lemma InsertFailureSkipsGrading(store: Store, assignmentId: string, student: string, imageUrl: string, now: int,
                                  c1: GradeCall, c2: GradeCall, u1: bool, u2: bool, f1: bool, f2: bool)
    requires ValidCall(c1) && ValidCall(c2)
    ensures SubmitAssignment(store, assignmentId, student, imageUrl, now, false, c1, u1, f1)
         == SubmitAssignment(store, assignmentId, student, imageUrl, now, false, c2, u2, f2)
  {
  }

  /** On a successful run the stored score is the mock pipeline's, hence in
      [70, 99]. */
  lemma GradedScoreInMockRange(store: Store, assignmentId: string, student: string, imageUrl: string, now: int, draw: real)
    requires 0.0 <= draw < 1.0
    ensures var r := SubmitAssignment(store, assignmentId, student, imageUrl, now, true, Drew(draw), true, true);
      var final := r.0.submissions[|store.submissions|];
      final.status == Graded && final.aiScore.Some? && 70 <= final.aiScore.value <= 99
  {
  }

  // ---------------------------------------------------------------------
  // The student dashboard's inline submit

  /** `handleSubmitAssignment`: uploads the file (its result is given, and a
      failed upload reports its own error), inserts the attempt with
      `createSubmission`, calls the pipeline on the public URL with the
      assignment's answer key and rubric, and writes the result with
      `updateSubmissionGrading`; a grading error and a failed result write
      are both ignored, leaving the attempt at grading. */
  function InlineSubmit(store: Store, assignment: Assignment, student: string, uploaded: Result<Storage.Uploaded, Error>,
                        now: int, createOk: bool, call: GradeCall, updateOk: bool)
    : (r: (Store, Option<Error>))
    requires ValidCall(call)
    ensures uploaded.Failure? ==> r == (store, Some(uploaded.error))
    ensures uploaded.Success? && !createOk ==> r == (store, Some(StoreRejected))
    ensures r.0.classes == store.classes && r.0.memberships == store.memberships && r.0.assignments == store.assignments
    ensures uploaded.Success? && createOk ==> |r.0.submissions| == |store.submissions| + 1
    ensures uploaded.Success? && createOk ==>
      var n := |store.submissions|;
      var final := r.0.submissions[n];
      && r.1.None?
      && |r.0.submissions| == n + 1 && r.0.submissions[..n] == store.submissions
      && final.filePath == Some(uploaded.value.filePath) && final.assignmentId == assignment.id && final.student == student
      && final.status != GradingFailed
      && (final.status == Graded <==> call.Drew? && updateOk)
      && (final.status == Grading ==> final.aiScore.None? && final.aiFeedback.None? && final.gradedAt.None?)
      && (final.status == Graded ==>
            var config := GradingConfig(NonEmpty(assignment.answerKey), NonEmpty(assignment.rubric), assignment.id, assignment.title);
            var g := GradeSubmission(uploaded.value.publicUrl, config, call.r);
            final.aiScore == Some(g.score) && final.aiFeedback == Some(g.feedback) && final.gradedAt == Some(now))
  {
    if uploaded.Failure? then (store, Some(uploaded.error))
    else
      var (subs, inserted) := SubmissionQueries.CreateSubmission(store.submissions, assignment.id, student, uploaded.value.filePath, now, createOk);
      if inserted.Failure? then (store, Some(inserted.error))
      else
        var row := inserted.value;
        var created := store.(submissions := subs);
        match call
        case Threw => (created, None)
        case Drew(draw) =>
          var config := GradingConfig(NonEmpty(assignment.answerKey), NonEmpty(assignment.rubric), assignment.id, assignment.title);
          var g := GradeSubmission(uploaded.value.publicUrl, config, draw);
          var patched := SubmissionQueries.UpdateSubmissionGrading(subs, row.id, g.score, g.feedback, now);
          if updateOk && patched.Success? then (created.(submissions := patched.value.0), None)
          else (created, None)
  }

  /** The two submit paths agree on a thrown grading call except for the
      final status: the library path marks the row grading_failed and
      reports the error, the dashboard path keeps it at grading silently. */
  lemma PathsDivergeOnThrow(store: Store, assignment: Assignment, student: string, up: Storage.Uploaded, now: int)
    ensures var lib := SubmitAssignment(store, assignment.id, student, up.filePath, now, true, Threw, true, true);
      var inline := InlineSubmit(store, assignment, student, Success(up), now, true, Threw, true);
      && lib.0.submissions[|store.submissions|].status == GradingFailed
      && inline.0.submissions[|store.submissions|].status == Grading
      && lib.1.error == Some(GradingThrew) && inline.1.None?
      && lib.0.submissions[|store.submissions|] == inline.0.submissions[|store.submissions|].(status := GradingFailed)
  {
  }
}
