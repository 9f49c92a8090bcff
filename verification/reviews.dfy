/** The teacher-review patch of lib/supabase/reviews.ts. Its `teacher_comment`
    column is the `teacher_feedback` column the other review path
    (`updateTeacherReview`) writes; the model keeps the one column. */
module Reviews {

  import opened Wrappers
  import opened Records
  import SubmissionQueries

  /** An optional field of an update object: left out (`undefined`, so the
      column is not written), explicitly null, or a value. */
  datatype Field<T> = Absent | Null | Given(value: T)

  /** The column after writing `f` over `current`. */
  function Write<T>(current: Option<T>, f: Field<T>): (r: Option<T>)
    ensures f.Absent? ==> r == current
    ensures f.Null? ==> r.None?
    ensures f.Given? ==> r == Some(f.value)
  {
    match f
    case Absent => current
    case Null => None
    case Given(v) => Some(v)
  }

  /** The `TeacherReview` argument. */
  datatype TeacherReview = TeacherReview(teacherScore: Field<int>, teacherComment: Field<string>, teacherOverride: Option<bool>)

  /** `addTeacherReview`: writes the score and comment as given (null and
      left-out alike pass through) and the override flag, which is false
      when missing or false; no other column changes. Fails when no row has
      the id. */
  function AddTeacherReview(subs: seq<Submission>, id: nat, review: TeacherReview)
    : (r: Result<(seq<Submission>, Submission), Error>)
    ensures r.Failure? <==> id >= |subs|
    ensures r.Failure? ==> r.error == NoSuchRow
    ensures r.Success? ==>
      var (t, row) := r.value;
      && |t| == |subs| && t[id] == row
      && (forall j :: 0 <= j < |subs| && j != id ==> t[j] == subs[j])
      && (review.teacherScore.Given? ==> row.teacherScore == Some(review.teacherScore.value))
      && (review.teacherScore.Null? ==> row.teacherScore.None?)
      && (review.teacherScore.Absent? ==> row.teacherScore == subs[id].teacherScore)
      && (review.teacherComment.Given? ==> row.teacherFeedback == Some(review.teacherComment.value))
      && (review.teacherComment.Null? ==> row.teacherFeedback.None?)
      && (review.teacherComment.Absent? ==> row.teacherFeedback == subs[id].teacherFeedback)
      && row.teacherOverride == Some(review.teacherOverride == Some(true))
      && row == subs[id].(teacherScore := row.teacherScore, teacherFeedback := row.teacherFeedback,
                          teacherOverride := row.teacherOverride)
  {
    if id < |subs| then
      var flag := if review.teacherOverride.Some? then review.teacherOverride.value else false;
      var row := subs[id].(teacherScore := Write(subs[id].teacherScore, review.teacherScore),
                           teacherFeedback := Write(subs[id].teacherFeedback, review.teacherComment),
                           teacherOverride := Some(flag));
      Success((subs[id := row], row))
    else Failure(NoSuchRow)
  }

  /** A nullable argument as an update field: null stays null. */
  function FromOption<T>(o: Option<T>): Field<T> {
    match o
    case None => Null
    case Some(v) => Given(v)
  }

  /** The two review paths write the same score and feedback when given the
      same (nullable) values; they differ only in the override flag, which
      `updateTeacherReview` leaves as it was. */
  lemma ReviewPathsAgree(subs: seq<Submission>, id: nat, score: Option<int>, feedback: Option<string>, flag: Option<bool>)
    ensures var a := AddTeacherReview(subs, id, TeacherReview(FromOption(score), FromOption(feedback), flag));
      var u := SubmissionQueries.UpdateTeacherReview(subs, id, score, feedback);
      && a.Success? == u.Success?
      && (a.Success? ==> a.value.1 == u.value.1.(teacherOverride := a.value.1.teacherOverride))
  {
  }

  /** Applying the same review twice is applying it once. */
  lemma AddTeacherReviewIdempotent(subs: seq<Submission>, id: nat, review: TeacherReview)
    requires id < |subs|
    ensures var once := AddTeacherReview(subs, id, review).value.0;
      AddTeacherReview(once, id, review).value.0 == once
  {
    var once := AddTeacherReview(subs, id, review).value.0;
    assert once[id := once[id]] == once;
  }
}
