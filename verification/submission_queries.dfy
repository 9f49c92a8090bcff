/** The submission store operations of lib/supabase/queries/submissions.ts:
    attempt numbering, insertion of a new attempt, the AI-grading and
    teacher-review patches, and the attempt and teacher listings. The store
    is the in-memory `Store`; one student key is used throughout. */
module SubmissionQueries {

  import opened Wrappers
  import opened Seqs
  import opened Records

  /** The row belongs to the (assignment, student) pair. */
  predicate OfPair(s: Submission, assignmentId: string, student: string) {
    s.assignmentId == assignmentId && s.student == student
  }

  /** All attempts of the pair, in table order. */
  function PairRows(subs: seq<Submission>, assignmentId: string, student: string): seq<Submission> {
    Filter(subs, (s: Submission) => OfPair(s, assignmentId, student))
  }

  /** The pair's attempts, largest attempt number first
      (`.order("attempt_number", { ascending: false })`). */
  function StudentSubmissionAttempts(subs: seq<Submission>, assignmentId: string, student: string): (r: seq<Submission>)
    ensures SortedDescBy(r, (s: Submission) => s.attempt)
    ensures forall s :: s in r <==> s in subs && OfPair(s, assignmentId, student)
    ensures |r| == |PairRows(subs, assignmentId, student)|
    ensures |r| > 0 ==> forall s :: s in r ==> s.attempt <= r[0].attempt
  {
    var r := SortDescBy(PairRows(subs, assignmentId, student), (s: Submission) => s.attempt);
    assert forall k :: 0 <= k < |r| ==> r[0].attempt >= r[k].attempt;
    r
  }

  /** `(data?.attempt_number || 0) + 1`: the attempt number read back by
      the lookup, with a missing row or a zero read as 0, plus one. */
  function AfterTop(top: Option<int>): int {
    (if top.None? || top.value == 0 then 0 else top.value) + 1
  }

  /** The next attempt number: one more than the largest existing attempt
      of the pair, or 1 when the pair has none. Computed as the source does,
      from the first row of the descending listing. */
  function NextAttemptNumber(subs: seq<Submission>, assignmentId: string, student: string): (n: int)
    ensures forall i :: 0 <= i < |subs| && OfPair(subs[i], assignmentId, student) ==> subs[i].attempt < n
    ensures (exists i :: 0 <= i < |subs| && OfPair(subs[i], assignmentId, student) && subs[i].attempt == n - 1)
            || ((forall i :: 0 <= i < |subs| ==> !OfPair(subs[i], assignmentId, student)) && n == 1)
  {
    var top := StudentSubmissionAttempts(subs, assignmentId, student);
    if |top| == 0 then
      AfterTop(None)
    else
      assert top[0] in subs;
      AfterTop(Some(top[0].attempt))
  }

  /** The row `createSubmission` inserts: status grading, every score,
      feedback and grading time null. */
  function NewAttempt(subs: seq<Submission>, assignmentId: string, student: string, filePath: string, now: int): Submission {
    Submission(
      id := |subs|,
      assignmentId := assignmentId,
      student := student,
      filePath := Some(filePath),
      attempt := NextAttemptNumber(subs, assignmentId, student),
      status := Grading,
      aiScore := None,
      aiFeedback := None,
      teacherScore := None,
      teacherFeedback := None,
      teacherOverride := None,
      createdAt := now,
      gradedAt := None)
  }

  /** `createSubmission`: inserts one new attempt and returns the table and
      the inserted row; `accepted` is whether the store takes the insert, and
      a refused insert is returned as the error with the table unchanged. */
  function CreateSubmission(subs: seq<Submission>, assignmentId: string, student: string, filePath: string, now: int,
                            accepted: bool)
    : (r: (seq<Submission>, Result<Submission, Error>))
    ensures r.1.Failure? <==> !accepted
    ensures r.1.Failure? ==> r.0 == subs && r.1.error == StoreRejected
    ensures r.1.Success? ==>
      var row := r.1.value;
      && r.0 == subs + [row]
      && r.0[..|subs|] == subs
      && row.id == |subs| && row.assignmentId == assignmentId && row.student == student
      && row.filePath == Some(filePath) && row.createdAt == now
      && row.status == Grading
      && row.aiScore.None? && row.aiFeedback.None? && row.teacherScore.None?
      && row.teacherFeedback.None? && row.teacherOverride.None? && row.gradedAt.None?
      && row.attempt == NextAttemptNumber(subs, assignmentId, student)
      && (forall i :: 0 <= i < |subs| && OfPair(subs[i], assignmentId, student) ==> subs[i].attempt < row.attempt)
      && (IdsArePositions(subs) ==> IdsArePositions(r.0))
  {
    if !accepted then (subs, Failure(StoreRejected))
    else
      var row := NewAttempt(subs, assignmentId, student, filePath, now);
      (subs + [row], Success(row))
  }

  /** The AI-grading patch (`updateSubmissionGrading`): sets status graded,
      the AI score and feedback and the grading time on row `id`. */
  function UpdateSubmissionGrading(subs: seq<Submission>, id: nat, aiScore: int, aiFeedback: string, now: int)
    : (r: Result<(seq<Submission>, Submission), Error>)
    ensures r.Failure? <==> id >= |subs|
    ensures r.Failure? ==> r.error == NoSuchRow
    ensures r.Success? ==>
      var (t, row) := r.value;
      && |t| == |subs| && t[id] == row
      && (forall j :: 0 <= j < |subs| && j != id ==> t[j] == subs[j])
      && row.status == Graded && row.aiScore == Some(aiScore) && row.aiFeedback == Some(aiFeedback)
      && row.gradedAt == Some(now)
      && row.teacherScore == subs[id].teacherScore && row.teacherFeedback == subs[id].teacherFeedback
      && row.teacherOverride == subs[id].teacherOverride
      && row.id == subs[id].id && row.assignmentId == subs[id].assignmentId && row.student == subs[id].student
      && row.attempt == subs[id].attempt && row.filePath == subs[id].filePath
      && row.createdAt == subs[id].createdAt
  {
    if id < |subs| then
      var row := subs[id].(status := Graded, aiScore := Some(aiScore), aiFeedback := Some(aiFeedback), gradedAt := Some(now));
      Success((subs[id := row], row))
    else Failure(NoSuchRow)
  }

  /** The teacher-review patch (`updateTeacherReview`): writes the teacher
      score and feedback, either of which may be null, and nothing else. */
  function UpdateTeacherReview(subs: seq<Submission>, id: nat, teacherScore: Option<int>, teacherFeedback: Option<string>)
    : (r: Result<(seq<Submission>, Submission), Error>)
    ensures r.Failure? <==> id >= |subs|
    ensures r.Failure? ==> r.error == NoSuchRow
    ensures r.Success? ==>
      var (t, row) := r.value;
      && |t| == |subs| && t[id] == row
      && (forall j :: 0 <= j < |subs| && j != id ==> t[j] == subs[j])
      && row.teacherScore == teacherScore && row.teacherFeedback == teacherFeedback
      && row == subs[id].(teacherScore := row.teacherScore, teacherFeedback := row.teacherFeedback)
  {
    if id < |subs| then
      var row := subs[id].(teacherScore := teacherScore, teacherFeedback := teacherFeedback);
      Success((subs[id := row], row))
    else Failure(NoSuchRow)
  }

  /** Ids of the classes the teacher owns. */
  function TeacherClassIds(store: Store, teacher: string): set<string> {
    set c | c in store.classes && c.teacherId == teacher :: c.id
  }

  /** Ids of the assignments in the teacher's classes. */
  function TeacherAssignmentIds(store: Store, teacher: string): set<string> {
    set a | a in store.assignments && a.classId in TeacherClassIds(store, teacher) :: a.id
  }

  /** `getTeacherSubmissions`: no classes, or no assignments in them, give
      the empty list without an error; otherwise every submission to those
      assignments, newest first. */
  function TeacherSubmissions(store: Store, teacher: string): (r: seq<Submission>)
    ensures forall s :: s in r <==> s in store.submissions && s.assignmentId in TeacherAssignmentIds(store, teacher)
    ensures SortedDescBy(r, (s: Submission) => s.createdAt)
    ensures TeacherClassIds(store, teacher) == {} ==> r == []
    ensures TeacherAssignmentIds(store, teacher) == {} ==> r == []
  {
    var classIds := TeacherClassIds(store, teacher);
    if |classIds| == 0 then []
    else
      var assignmentIds := TeacherAssignmentIds(store, teacher);
      if |assignmentIds| == 0 then []
      else
        var rows := Filter(store.submissions, (s: Submission) => s.assignmentId in assignmentIds);
        SortDescBy(rows, (s: Submission) => s.createdAt)
  }

  // ---------------------------------------------------------------------
  // Sequential attempt numbering

  /** One store call against the submissions table. */
  datatype Op =
    | Create(assignmentId: string, student: string, filePath: string, now: int, accepted: bool)
    | Grade(id: nat, aiScore: int, aiFeedback: string, gradedAt: int)
    | Review(id: nat, teacherScore: Option<int>, teacherFeedback: Option<string>)

  /** Runs one call; a refused insert, or a patch that matches no row,
      leaves the table as it was. */
  function Apply(subs: seq<Submission>, op: Op): seq<Submission> {
    match op
    case Create(a, s, p, now, acc) => CreateSubmission(subs, a, s, p, now, acc).0
    case Grade(id, sc, fb, t) =>
      var r := UpdateSubmissionGrading(subs, id, sc, fb, t);
      if r.Success? then r.value.0 else subs
    case Review(id, sc, fb) =>
      var r := UpdateTeacherReview(subs, id, sc, fb);
      if r.Success? then r.value.0 else subs
  }

  /** Runs the calls one after another. */
  function Run(subs: seq<Submission>, ops: seq<Op>): seq<Submission>
    decreases |ops|
  {
    if |ops| == 0 then subs else Run(Apply(subs, ops[0]), ops[1..])
  }

  /** How many of the calls insert an attempt for the pair. */
  function CreatesFor(ops: seq<Op>, assignmentId: string, student: string): nat {
    if |ops| == 0 then 0
    else
      var here := if ops[0].Create? && ops[0].accepted && ops[0].assignmentId == assignmentId && ops[0].student == student then 1 else 0;
      here + CreatesFor(ops[1..], assignmentId, student)
  }

  /** The pair's attempts, in table order, are numbered 1, 2, 3, ... */
  ghost predicate Consecutive(subs: seq<Submission>, assignmentId: string, student: string) {
    var rows := PairRows(subs, assignmentId, student);
    forall k :: 0 <= k < |rows| ==> rows[k].attempt == k + 1
  }

  /** With consecutive numbering the next attempt is the count plus one. */
  lemma NextIsCountPlusOne(subs: seq<Submission>, assignmentId: string, student: string)
    requires Consecutive(subs, assignmentId, student)
    ensures NextAttemptNumber(subs, assignmentId, student) == |PairRows(subs, assignmentId, student)| + 1
  {
    var rows := PairRows(subs, assignmentId, student);
    var n := NextAttemptNumber(subs, assignmentId, student);
    if |rows| > 0 {
      var last := rows[|rows| - 1];
      assert last in rows;
      var i :| 0 <= i < |subs| && subs[i] == last;
      assert n > |rows|;
    }
    if exists i :: 0 <= i < |subs| && OfPair(subs[i], assignmentId, student) && subs[i].attempt == n - 1 {
      var i :| 0 <= i < |subs| && OfPair(subs[i], assignmentId, student) && subs[i].attempt == n - 1;
      assert subs[i] in rows;
      var k :| 0 <= k < |rows| && rows[k] == subs[i];
    }
  }

  /** Patching a row without touching its pair or attempt number keeps
      every pair's attempt numbers as they were. */
  lemma {:induction false} PatchKeepsPairAttempts(subs: seq<Submission>, id: nat, row: Submission, assignmentId: string, student: string)
    requires id < |subs|
    requires row.assignmentId == subs[id].assignmentId && row.student == subs[id].student
    requires row.attempt == subs[id].attempt
    ensures |PairRows(subs[id := row], assignmentId, student)| == |PairRows(subs, assignmentId, student)|
    ensures forall k :: 0 <= k < |PairRows(subs, assignmentId, student)| ==>
      PairRows(subs[id := row], assignmentId, student)[k].attempt == PairRows(subs, assignmentId, student)[k].attempt
  {
    var t := subs[id := row];
    assert t[1..] == if id == 0 then subs[1..] else subs[1..][id - 1 := row];
    if id > 0 {
      PatchKeepsPairAttempts(subs[1..], id - 1, row, assignmentId, student);
    }
  }

  lemma PatchedStaysConsecutive(subs: seq<Submission>, id: nat, row: Submission, assignmentId: string, student: string)
    requires id < |subs| && Consecutive(subs, assignmentId, student)
    requires |PairRows(subs[id := row], assignmentId, student)| == |PairRows(subs, assignmentId, student)|
    requires forall k :: 0 <= k < |PairRows(subs, assignmentId, student)| ==>
      PairRows(subs[id := row], assignmentId, student)[k].attempt == PairRows(subs, assignmentId, student)[k].attempt
    ensures Consecutive(subs[id := row], assignmentId, student)
  {
    var before := PairRows(subs, assignmentId, student);
    var after := PairRows(subs[id := row], assignmentId, student);
    forall k | 0 <= k < |after| ensures after[k].attempt == k + 1 {
      assert after[k].attempt == before[k].attempt;
    }
  }

  /** An accepted insert for another pair leaves this pair's rows alone;
      one for this pair appends it; a refused insert changes nothing. */
  lemma CreateExtendsPair(subs: seq<Submission>, a: string, s: string, p: string, now: int, accepted: bool,
                          assignmentId: string, student: string)
    ensures var r := CreateSubmission(subs, a, s, p, now, accepted);
      PairRows(r.0, assignmentId, student)
        == PairRows(subs, assignmentId, student) + (if accepted && a == assignmentId && s == student then [r.1.value] else [])
  {
    var r := CreateSubmission(subs, a, s, p, now, accepted);
    if accepted {
      FilterAppend(subs, [r.1.value], (x: Submission) => OfPair(x, assignmentId, student));
    }
  }

  /** An insert keeps the pair's numbering consecutive and adds one attempt
      to the pair exactly when it is accepted and for the pair. */
  lemma CreateKeepsConsecutive(subs: seq<Submission>, a: string, s: string, p: string, now: int, accepted: bool,
                               assignmentId: string, student: string)
    requires Consecutive(subs, assignmentId, student)
    ensures var t := CreateSubmission(subs, a, s, p, now, accepted).0;
      && Consecutive(t, assignmentId, student)
      && |PairRows(t, assignmentId, student)|
           == |PairRows(subs, assignmentId, student)| + (if accepted && a == assignmentId && s == student then 1 else 0)
  {
    CreateExtendsPair(subs, a, s, p, now, accepted, assignmentId, student);
    if accepted && a == assignmentId && s == student {
      NextIsCountPlusOne(subs, assignmentId, student);
    }
  }

  /** A patch that keeps the row's pair and attempt number keeps the pair's
      numbering consecutive and its size. */
  lemma PatchKeepsConsecutive(subs: seq<Submission>, id: nat, row: Submission, assignmentId: string, student: string)
    requires id < |subs| && Consecutive(subs, assignmentId, student)
    requires row.assignmentId == subs[id].assignmentId && row.student == subs[id].student
    requires row.attempt == subs[id].attempt
    ensures Consecutive(subs[id := row], assignmentId, student)
    ensures |PairRows(subs[id := row], assignmentId, student)| == |PairRows(subs, assignmentId, student)|
  {
    PatchKeepsPairAttempts(subs, id, row, assignmentId, student);
    PatchedStaysConsecutive(subs, id, row, assignmentId, student);
  }

  /** One call keeps the pair's numbering consecutive and adds one attempt
      to the pair exactly when it creates one for it. */
  lemma ApplyKeepsConsecutive(subs: seq<Submission>, op: Op, assignmentId: string, student: string)
    requires Consecutive(subs, assignmentId, student)
    ensures Consecutive(Apply(subs, op), assignmentId, student)
    ensures |PairRows(Apply(subs, op), assignmentId, student)|
      == |PairRows(subs, assignmentId, student)| + CreatesFor([op], assignmentId, student)
  {
    assert CreatesFor([op], assignmentId, student)
      == if op.Create? && op.accepted && op.assignmentId == assignmentId && op.student == student then 1 else 0;
    match op
    case Create(a, s, p, now, acc) =>
      CreateKeepsConsecutive(subs, a, s, p, now, acc, assignmentId, student);
    case Grade(id, sc, fb, t) =>
      if id < |subs| {
        PatchKeepsConsecutive(subs, id, UpdateSubmissionGrading(subs, id, sc, fb, t).value.1, assignmentId, student);
      }
    case Review(id, sc, fb) =>
      if id < |subs| {
        PatchKeepsConsecutive(subs, id, UpdateTeacherReview(subs, id, sc, fb).value.1, assignmentId, student);
      }
  }

  /** The Nth sequential submission for a pair gets attempt number N: any
      sequence of inserts and patches, started from consecutive numbering,
      keeps it consecutive, and the pair gains exactly one attempt per
      accepted insert for it. */
  lemma {:induction false} SequentialAttemptsAreConsecutive(subs: seq<Submission>, ops: seq<Op>, assignmentId: string, student: string)
    requires Consecutive(subs, assignmentId, student)
    ensures Consecutive(Run(subs, ops), assignmentId, student)
    ensures |PairRows(Run(subs, ops), assignmentId, student)|
      == |PairRows(subs, assignmentId, student)| + CreatesFor(ops, assignmentId, student)
    decreases |ops|
  {
    if |ops| > 0 {
      ApplyKeepsConsecutive(subs, ops[0], assignmentId, student);
      SequentialAttemptsAreConsecutive(Apply(subs, ops[0]), ops[1..], assignmentId, student);
    }
  }

  /** The inserted row gets attempt N when N-1 attempts of the pair exist
      and are numbered consecutively. */
  lemma NewAttemptNumberIsCountPlusOne(subs: seq<Submission>, assignmentId: string, student: string, filePath: string, now: int)
    requires Consecutive(subs, assignmentId, student)
    ensures CreateSubmission(subs, assignmentId, student, filePath, now, true).1.value.attempt
      == |PairRows(subs, assignmentId, student)| + 1
  {
    NextIsCountPlusOne(subs, assignmentId, student);
  }

  /** A pair with no rows starts at attempt 1. */
  lemma FirstAttemptIsOne(subs: seq<Submission>, assignmentId: string, student: string)
    requires forall i :: 0 <= i < |subs| ==> !OfPair(subs[i], assignmentId, student)
    ensures NextAttemptNumber(subs, assignmentId, student) == 1
  {
  }
}
