/** The attempt-number lookup as lib/supabase/queries/submissions.ts writes
    it: `getNextAttemptNumber` filters on the `user_id` column while
    `createSubmission` fills in `student_id`. Rows here carry both columns so
    the mismatch can be stated; the rest of the model uses one key
    (SubmissionQueries). */
module AttemptKey {

  import opened Wrappers
  import opened Records
  import SubmissionQueries

  /** A submissions row reduced to the columns the numbering reads. */
  datatype RawRow = RawRow(assignmentId: string, userId: Option<string>, studentId: Option<string>, attempt: int)

  /** The row matches the lookup's `.eq("assignment_id").eq("user_id")`. */
  predicate MatchesLookup(r: RawRow, assignmentId: string, student: string) {
    r.assignmentId == assignmentId && r.userId == Some(student)
  }

  /** The attempt number the lookup reads: the largest among the rows it
      matches (`.order(..., { ascending: false }).limit(1)`), or none. */
  function TopMatching(rows: seq<RawRow>, assignmentId: string, student: string): (top: Option<int>)
    ensures top.None? <==> forall i :: 0 <= i < |rows| ==> !MatchesLookup(rows[i], assignmentId, student)
    ensures top.Some? ==> exists i :: 0 <= i < |rows| && MatchesLookup(rows[i], assignmentId, student) && rows[i].attempt == top.value
    ensures top.Some? ==> forall i :: 0 <= i < |rows| && MatchesLookup(rows[i], assignmentId, student) ==> rows[i].attempt <= top.value
    decreases |rows|
  {
    if |rows| == 0 then None
    else
      var rest := TopMatching(rows[1..], assignmentId, student);
      assert forall i :: 1 <= i < |rows| ==> rows[i] == rows[1..][i - 1];
      if !MatchesLookup(rows[0], assignmentId, student) then rest
      else if rest.Some? && rest.value >= rows[0].attempt then rest
      else Some(rows[0].attempt)
  }

  /** `getNextAttemptNumber` as written: `(top || 0) + 1` over the rows the
      `user_id` lookup matches. The result exceeds every matched attempt
      and is one more than one of them, or 1 when none is matched. */
  function NextAttemptAsWritten(rows: seq<RawRow>, assignmentId: string, student: string): (n: int)
    ensures forall i :: 0 <= i < |rows| && MatchesLookup(rows[i], assignmentId, student) ==> rows[i].attempt < n
    ensures (exists i :: 0 <= i < |rows| && MatchesLookup(rows[i], assignmentId, student) && rows[i].attempt == n - 1)
            || ((forall i :: 0 <= i < |rows| ==> !MatchesLookup(rows[i], assignmentId, student)) && n == 1)
  {
    SubmissionQueries.AfterTop(TopMatching(rows, assignmentId, student))
  }

  /** `|| 0` turns a largest attempt of 0 into 1 but lets a negative one
      through: a matched attempt of -5 gives -4. */
  lemma NegativeTopIsKept(assignmentId: string, student: string)
    ensures NextAttemptAsWritten([RawRow(assignmentId, Some(student), None, -5)], assignmentId, student) == -4
  {
  }

  /** `createSubmission` as written: the new row carries `student_id` and
      leaves `user_id` unset. */
  function CreateAsWritten(rows: seq<RawRow>, assignmentId: string, student: string): (r: (seq<RawRow>, RawRow))
    ensures r.0 == rows + [r.1]
    ensures r.1.studentId == Some(student) && r.1.userId == None
  {
    var row := RawRow(assignmentId, None, Some(student), NextAttemptAsWritten(rows, assignmentId, student));
    (rows + [row], row)
  }

  /** Every row in the table was inserted by `createSubmission`. */
  ghost predicate OnlyCreatedRows(rows: seq<RawRow>) {
    forall i :: 0 <= i < |rows| ==> rows[i].userId == None
  }

  /** As written, the lookup never sees a row `createSubmission` inserted,
      so every attempt, however many precede it, is numbered 1. */
  lemma AsWrittenAlwaysNumbersOne(rows: seq<RawRow>, assignmentId: string, student: string)
    requires OnlyCreatedRows(rows)
    ensures CreateAsWritten(rows, assignmentId, student).1.attempt == 1
    ensures OnlyCreatedRows(CreateAsWritten(rows, assignmentId, student).0)
  {
  }

  /** The concrete input: two sequential submissions by one student to one
      assignment both get attempt number 1. */
  lemma AsWrittenSecondAttemptIsOne(assignmentId: string, student: string)
    ensures var first := CreateAsWritten([], assignmentId, student);
            var second := CreateAsWritten(first.0, assignmentId, student);
            first.1.attempt == 1 && second.1.attempt == 1
  {
    var first := CreateAsWritten([], assignmentId, student);
    AsWrittenAlwaysNumbersOne(first.0, assignmentId, student);
  }

  /** With the lookup and the insert on the same key, the second sequential
      submission gets attempt number 2. */
  lemma CorrectedSecondAttemptIsTwo(assignmentId: string, student: string, p1: string, p2: string, t1: int, t2: int)
    ensures var first := SubmissionQueries.CreateSubmission([], assignmentId, student, p1, t1, true);
            var second := SubmissionQueries.CreateSubmission(first.0, assignmentId, student, p2, t2, true);
            first.1.value.attempt == 1 && second.1.value.attempt == 2
  {
    var first := SubmissionQueries.CreateSubmission([], assignmentId, student, p1, t1, true);
    SubmissionQueries.NewAttemptNumberIsCountPlusOne([], assignmentId, student, p1, t1);
    SubmissionQueries.CreateExtendsPair([], assignmentId, student, p1, t1, true, assignmentId, student);
    assert SubmissionQueries.PairRows(first.0, assignmentId, student) == [first.1.value];
    SubmissionQueries.NewAttemptNumberIsCountPlusOne(first.0, assignmentId, student, p2, t2);
  }
}
