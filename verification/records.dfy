/** The rows of the classroom store: classes, class memberships,
    assignments and submission attempts, with one student key (`student`)
    on both memberships and submissions. Times are integer milliseconds
    since the epoch; scores are integers. */
module Records {

  import opened Wrappers

  /** Milliseconds in one calendar day. */
  const DayMillis: int := 86_400_000

  /** The calendar day a timestamp falls on (midnight-truncation). */
  function DayOf(t: int): int {
    t / DayMillis
  }

  lemma DayOfMonotone(t: int, u: int)
    requires t <= u
    ensures DayOf(t) <= DayOf(u)
  {
  }

  /** Submission status: just created and being graded, graded by the
      pipeline, or the pipeline threw. */
  datatype Status = Grading | Graded | GradingFailed

  /** One attempt by a student at an assignment. `id` is the row's position
      in the submissions table. `teacherOverride` is only ever written by the
      review path of lib/supabase/reviews.ts; `None` means never written. */
  datatype Submission = Submission(
    id: nat,
    assignmentId: string,
    student: string,
    filePath: Option<string>,
    attempt: int,
    status: Status,
    aiScore: Option<int>,
    aiFeedback: Option<string>,
    teacherScore: Option<int>,
    teacherFeedback: Option<string>,
    teacherOverride: Option<bool>,
    createdAt: int,
    gradedAt: Option<int>)

  /** An assignment of a class. `teacherId` is unset when the assignment was
      created through the path that does not record it. */
  datatype Assignment = Assignment(
    id: string,
    classId: string,
    teacherId: Option<string>,
    title: string,
    description: Option<string>,
    dueDate: int,
    rubric: Option<string>,
    answerKey: Option<string>,
    createdAt: int)

  /** A class owned by one teacher, joined by its code. */
  datatype Class = Class(id: string, name: string, code: string, teacherId: string, createdAt: int)

  /** A student's enrolment in a class. */
  datatype Membership = Membership(classId: string, student: string, createdAt: int)

  /** The hosted relational store, as four tables held in memory. */
  datatype Store = Store(
    classes: seq<Class>,
    memberships: seq<Membership>,
    assignments: seq<Assignment>,
    submissions: seq<Submission>)

  /** Errors the model surfaces, named by the situation that produces them. */
  datatype Error =
    | NoSuchRow                // an update by id matched no row
    | ClassNotFound            // no class carries the code
    | CodeNotUnique            // several classes carry the code
    | AlreadyEnrolled          // "Already enrolled in this class"
    | StoreRejected            // the store refused a write
    | UploadFailed             // object storage refused the upload
    | GradingThrew             // the grading pipeline raised an error

  /** Every submission's id is its position in the table. */
  ghost predicate IdsArePositions(subs: seq<Submission>) {
    forall i :: 0 <= i < |subs| ==> subs[i].id == i
  }
}
