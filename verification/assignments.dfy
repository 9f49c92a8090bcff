/** Assignment creation and listing of lib/supabase/queries/assignments.ts and
    lib/supabase/assignments.ts, including the grouping of a student's
    fetched submissions by assignment. */
module Assignments {

  import opened Wrappers
  import opened Seqs
  import opened Records
  import Classes
  import SubmissionQueries

  // ---------------------------------------------------------------------
  // Creation

  /** `createAssignment` of lib/supabase/queries/assignments.ts: records the
      teacher, stores an empty description as null, and leaves rubric and
      answer key null; `id` is the key the store assigns and `accepted`
      whether the store takes the insert. A refused insert is returned as
      the error and changes nothing. */
  function CreateAssignment(store: Store, id: string, classId: string, teacher: string, title: string,
                            description: string, dueDate: int, now: int, accepted: bool)
    : (r: (Store, Result<Assignment, Error>))
    ensures r.1.Failure? <==> !accepted
    ensures r.1.Failure? ==> r.0 == store && r.1.error == StoreRejected
    ensures r.1.Success? ==>
      var a := r.1.value;
      && r.0 == store.(assignments := store.assignments + [a])
      && a.id == id && a.classId == classId && a.teacherId == Some(teacher)
      && a.title == title && a.dueDate == dueDate && a.createdAt == now
      && (a.description.None? <==> description == "")
      && (a.description.Some? ==> a.description.value == description)
      && a.rubric.None? && a.answerKey.None?
  {
    if !accepted then (store, Failure(StoreRejected))
    else
      var a := Assignment(id, classId, Some(teacher), title, if description == "" then None else Some(description),
                          dueDate, None, None, now);
      (store.(assignments := store.assignments + [a]), Success(a))
  }

  /** `createAssignment` of lib/supabase/assignments.ts: stores class, title,
      description, due date and the optional answer-key and rubric URLs as
      given (an empty description stays empty) and records no teacher; a
      refused insert is returned as the error and changes nothing. */
  function CreateAssignmentWithUrls(store: Store, id: string, classId: string, title: string, description: string,
                                    dueDate: int, answerKeyUrl: Option<string>, rubricUrl: Option<string>, now: int,
                                    accepted: bool)
    : (r: (Store, Result<Assignment, Error>))
    ensures r.1.Failure? <==> !accepted
    ensures r.1.Failure? ==> r.0 == store && r.1.error == StoreRejected
    ensures r.1.Success? ==>
      var a := r.1.value;
      && r.0 == store.(assignments := store.assignments + [a])
      && a.id == id && a.classId == classId && a.teacherId.None?
      && a.title == title && a.description == Some(description) && a.dueDate == dueDate
      && a.answerKey == answerKeyUrl && a.rubric == rubricUrl && a.createdAt == now
  {
    if !accepted then (store, Failure(StoreRejected))
    else
      var a := Assignment(id, classId, None, title, Some(description), dueDate, rubricUrl, answerKeyUrl, now);
      (store.(assignments := store.assignments + [a]), Success(a))
  }

  /** The two creation paths store the same row up to the teacher column,
      except that only the first turns an empty description into null, and
      both refuse together. */
  lemma CreationPathsAgree(store: Store, id: string, classId: string, teacher: string, title: string,
                           description: string, dueDate: int, now: int, accepted: bool)
    ensures var q := CreateAssignment(store, id, classId, teacher, title, description, dueDate, now, accepted);
      var l := CreateAssignmentWithUrls(store, id, classId, title, description, dueDate, None, None, now, accepted);
      && (q.1.Failure? <==> l.1.Failure?)
      && (accepted ==> ((q.1.value == l.1.value.(teacherId := Some(teacher))) <==> description != ""))
  {
  }

  // ---------------------------------------------------------------------
  // Listings

  /** `getStudentAssignments`: a failed or empty membership fetch gives the
      empty list; otherwise the assignments of the student's classes, earliest
      due date first. */
  function StudentAssignments(store: Store, student: string, memberFetchFails: bool): (r: seq<Assignment>)
    ensures memberFetchFails ==> r == []
    ensures Classes.MemberClassIds(store.memberships, student) == {} ==> r == []
    ensures forall a :: a in r <==>
      !memberFetchFails && a in store.assignments && a.classId in Classes.MemberClassIds(store.memberships, student)
    ensures SortedBy(r, (a: Assignment) => a.dueDate)
  {
    var ids := Classes.MemberClassIds(store.memberships, student);
    if memberFetchFails || |ids| == 0 then []
    else
      var rows := Filter(store.assignments, (a: Assignment) => a.classId in ids);
      var r := SortBy(rows, (a: Assignment) => a.dueDate);
      assert forall a :: a in r <==> a in multiset(r);
      assert forall a :: a in rows <==> a in multiset(rows);
      r
  }

  /** `getTeacherAssignments`: a failed or empty class fetch gives the empty
      list; otherwise the assignments of the teacher's classes, newest
      first. */
  function TeacherAssignments(store: Store, teacher: string, classFetchFails: bool): (r: seq<Assignment>)
    ensures classFetchFails ==> r == []
    ensures SubmissionQueries.TeacherClassIds(store, teacher) == {} ==> r == []
    ensures forall a :: a in r <==>
      !classFetchFails && a in store.assignments && a.classId in SubmissionQueries.TeacherClassIds(store, teacher)
    ensures SortedDescBy(r, (a: Assignment) => a.createdAt)
  {
    var ids := SubmissionQueries.TeacherClassIds(store, teacher);
    if classFetchFails || |ids| == 0 then []
    else SortDescBy(Filter(store.assignments, (a: Assignment) => a.classId in ids), (a: Assignment) => a.createdAt)
  }

  // ---------------------------------------------------------------------
  // Grouping the student's submissions by assignment

  /** The submissions of one assignment, in the order given. */
  function GroupOf(subs: seq<Submission>, assignmentId: string): seq<Submission> {
    Filter(subs, (s: Submission) => s.assignmentId == assignmentId)
  }

  lemma GroupOfAppend(subs: seq<Submission>, s: Submission, assignmentId: string)
    ensures GroupOf(subs + [s], assignmentId)
      == GroupOf(subs, assignmentId) + (if s.assignmentId == assignmentId then [s] else [])
  {
    FilterAppend(subs, [s], (x: Submission) => x.assignmentId == assignmentId);
  }

  /** `groups` holds, under each assignment id that occurs in `subs`, that
      assignment's submissions in order, and no other key. */
  ghost predicate GroupsOf(groups: map<string, seq<Submission>>, subs: seq<Submission>) {
    && (forall a :: a in groups ==> groups[a] == GroupOf(subs, a) && |groups[a]| > 0)
    && (forall a :: a !in groups ==> GroupOf(subs, a) == [])
  }

  /** Pushing `s` onto its assignment's list, creating the list first. */
  function Push(groups: map<string, seq<Submission>>, s: Submission): map<string, seq<Submission>> {
    groups[s.assignmentId := (if s.assignmentId in groups then groups[s.assignmentId] else []) + [s]]
  }

  lemma PushKeepsGroups(groups: map<string, seq<Submission>>, subs: seq<Submission>, s: Submission)
    requires GroupsOf(groups, subs)
    ensures GroupsOf(Push(groups, s), subs + [s])
  {
    forall a ensures GroupOf(subs + [s], a) == GroupOf(subs, a) + (if s.assignmentId == a then [s] else []) {
      GroupOfAppend(subs, s, a);
    }
  }

  /** The `Map` built by pushing each submission, in order, onto the list of
      its assignment: a key is present exactly when some submission carries
      it, and its list is that assignment's submissions in the given order. */
  method GroupByAssignment(subs: seq<Submission>) returns (groups: map<string, seq<Submission>>)
    ensures forall a :: a in groups ==> groups[a] == GroupOf(subs, a) && |groups[a]| > 0
    ensures forall a :: a !in groups ==> GroupOf(subs, a) == []
  {
    groups := map[];
    var i := 0;
    while i < |subs|
      invariant 0 <= i <= |subs|
      invariant GroupsOf(groups, subs[..i])
    {
      assert subs[..i + 1] == subs[..i] + [subs[i]];
      PushKeepsGroups(groups, subs[..i], subs[i]);
      groups := Push(groups, subs[i]);
      i := i + 1;
    }
    assert subs[..i] == subs;
  }

  /** `submissionsByAssignment.get(id) || []`. */
  function GroupLookup(groups: map<string, seq<Submission>>, assignmentId: string): seq<Submission> {
    if assignmentId in groups then groups[assignmentId] else []
  }

  /** An assignment with the attempts attached to it. */
  datatype AssignmentWithSubmissions = AssignmentWithSubmissions(assignment: Assignment, submissions: seq<Submission>)

  /** The student's submissions to the listed assignments, newest first, as
      the second query fetches them. */
  function FetchedSubmissions(store: Store, student: string, listed: seq<Assignment>): (r: seq<Submission>)
    ensures forall s :: s in r <==> s in store.submissions && s.student == student && exists a :: a in listed && a.id == s.assignmentId
    ensures SortedDescBy(r, (s: Submission) => s.createdAt)
  {
    var ids := set a | a in listed :: a.id;
    SortDescBy(Filter(store.submissions, (s: Submission) => s.student == student && s.assignmentId in ids),
               (s: Submission) => s.createdAt)
  }

  /** One group of the fetched submissions is exactly the student's
      submissions to that listed assignment, newest first. */
  lemma GroupIsStudentsSubmissions(store: Store, student: string, listed: seq<Assignment>, a: Assignment)
    requires a in listed
    ensures var g := GroupOf(FetchedSubmissions(store, student, listed), a.id);
      && (forall s :: s in g <==> s in store.submissions && s.student == student && s.assignmentId == a.id)
      && SortedDescBy(g, (s: Submission) => s.createdAt)
  {
    var fetched := FetchedSubmissions(store, student, listed);
    FilterKeepsSortedDesc(fetched, (s: Submission) => s.assignmentId == a.id, (s: Submission) => s.createdAt);
  }

  /** Attaches to each listed assignment its group of `fetched`, looked up
      in the map `GroupByAssignment` builds. */
  method AttachGroups(listed: seq<Assignment>, fetched: seq<Submission>) returns (r: seq<AssignmentWithSubmissions>)
    ensures |r| == |listed|
    ensures forall k :: 0 <= k < |r| ==> r[k].assignment == listed[k] && r[k].submissions == GroupOf(fetched, listed[k].id)
  {
    var groups := GroupByAssignment(fetched);
    r := [];
    var i := 0;
    while i < |listed|
      invariant 0 <= i <= |listed|
      invariant |r| == i
      invariant forall k :: 0 <= k < i ==> r[k].assignment == listed[k] && r[k].submissions == GroupOf(fetched, listed[k].id)
    {
      r := r + [AssignmentWithSubmissions(listed[i], GroupLookup(groups, listed[i].id))];
      i := i + 1;
    }
  }

  /** `getStudentAssignments` of lib/supabase/assignments.ts: the student's
      assignments, earliest due first, each carrying exactly the student's
      own submissions to it, newest first, and the empty list when it has
      none. */
  method StudentAssignmentsWithSubmissions(store: Store, student: string, memberFetchFails: bool)
    returns (r: seq<AssignmentWithSubmissions>)
    ensures |r| == |StudentAssignments(store, student, memberFetchFails)|
    ensures forall i :: 0 <= i < |r| ==> r[i].assignment == StudentAssignments(store, student, memberFetchFails)[i]
    ensures forall i, s :: 0 <= i < |r| ==>
      (s in r[i].submissions <==> s in store.submissions && s.student == student && s.assignmentId == r[i].assignment.id)
    ensures forall i :: 0 <= i < |r| ==> SortedDescBy(r[i].submissions, (s: Submission) => s.createdAt)
  {
    var listed := StudentAssignments(store, student, memberFetchFails);
    r := AttachGroups(listed, FetchedSubmissions(store, student, listed));
    forall k | 0 <= k < |r|
      ensures (forall s :: s in r[k].submissions <==> s in store.submissions && s.student == student && s.assignmentId == r[k].assignment.id)
      ensures SortedDescBy(r[k].submissions, (s: Submission) => s.createdAt)
    {
      GroupIsStudentsSubmissions(store, student, listed, listed[k]);
    }
  }
}
