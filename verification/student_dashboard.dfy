/** The decision logic of the student dashboard
    (app/dashboard/student/page.tsx): the latest attempt of each assignment,
    the completed/pending split, the day streak, the next-attempt label and
    the join-by-code form. */
module StudentDashboard {

  import opened Wrappers
  import opened Seqs
  import opened Text
  import opened Records
  import SubmissionQueries
  import Classes
  import Assignments

  // ---------------------------------------------------------------------
  // Attempts and the completed/pending split

  /** An assignment card's attempts: the pair's attempts re-sorted by
      attempt number, largest first, so the first is the latest. */
  function CardAttempts(subs: seq<Submission>, assignmentId: string, student: string): (r: seq<Submission>)
    ensures SortedDescBy(r, (s: Submission) => s.attempt)
    ensures forall s :: s in r <==> s in subs && SubmissionQueries.OfPair(s, assignmentId, student)
    ensures |r| == |SubmissionQueries.PairRows(subs, assignmentId, student)|
    ensures |r| > 0 ==> forall s :: s in r ==> s.attempt <= r[0].attempt
  {
    var r := SortDescBy(SubmissionQueries.StudentSubmissionAttempts(subs, assignmentId, student), (s: Submission) => s.attempt);
    assert forall k :: 0 <= k < |r| ==> r[0].attempt >= r[k].attempt;
    r
  }

  /** The card counts as completed: its latest attempt is graded or being
      graded. */
  predicate IsCompleted(a: Assignments.AssignmentWithSubmissions) {
    |a.submissions| > 0 && (a.submissions[0].status == Graded || a.submissions[0].status == Grading)
  }

  /** The card counts as pending: no attempt, or a latest attempt that is
      neither graded nor being graded. */
  predicate IsPending(a: Assignments.AssignmentWithSubmissions) {
    |a.submissions| == 0 || (a.submissions[0].status != Graded && a.submissions[0].status != Grading)
  }

  /** The "Completed" figure: zero exactly when no card is completed, and
      every card exactly when all are. */
  function CompletedCount(cards: seq<Assignments.AssignmentWithSubmissions>): (n: nat)
    ensures n <= |cards|
    ensures n == 0 <==> forall i :: 0 <= i < |cards| ==> !IsCompleted(cards[i])
    ensures n == |cards| <==> forall i :: 0 <= i < |cards| ==> IsCompleted(cards[i])
  {
    CountExtremes(cards, IsCompleted);
    Count(cards, IsCompleted)
  }

  /** The "Pending" figure: zero exactly when no card is pending, and every
      card exactly when all are. */
  function PendingCount(cards: seq<Assignments.AssignmentWithSubmissions>): (n: nat)
    ensures n <= |cards|
    ensures n == 0 <==> forall i :: 0 <= i < |cards| ==> !IsPending(cards[i])
    ensures n == |cards| <==> forall i :: 0 <= i < |cards| ==> IsPending(cards[i])
  {
    CountExtremes(cards, IsPending);
    Count(cards, IsPending)
  }

  /** Every assignment is exactly one of pending and completed. */
  lemma {:induction false} PendingPlusCompleted(cards: seq<Assignments.AssignmentWithSubmissions>)
    ensures PendingCount(cards) + CompletedCount(cards) == |cards|
    decreases |cards|
  {
    if |cards| > 0 {
      PendingPlusCompleted(cards[1..]);
      assert IsPending(cards[0]) <==> !IsCompleted(cards[0]);
    }
  }

  /** A card whose latest attempt failed grading is pending, however many
      earlier attempts were graded. */
  lemma FailedLatestIsPending(a: Assignments.AssignmentWithSubmissions)
    requires |a.submissions| > 0 && a.submissions[0].status == GradingFailed
    ensures IsPending(a) && !IsCompleted(a)
  {
  }

  // ---------------------------------------------------------------------
  // Day streak

  /** A submission that counts toward the streak: graded or being graded. */
  predicate Active(s: Submission) {
    s.status == Graded || s.status == Grading
  }

  /** The days on which the student has at least one active submission. */
  ghost function ActiveDays(subs: seq<Submission>): set<int> {
    set s | s in subs && Active(s) :: DayOf(s.createdAt)
  }

  /** The day of each submission. */
  function DaysOf(subs: seq<Submission>): (r: seq<int>)
    ensures |r| == |subs|
    ensures forall i :: 0 <= i < |subs| ==> r[i] == DayOf(subs[i].createdAt)
  {
    if |subs| == 0 then [] else [DayOf(subs[0].createdAt)] + DaysOf(subs[1..])
  }

  /** Largest day first. */
  ghost predicate Descending(days: seq<int>) {
    forall i, j :: 0 <= i < j < |days| ==> days[i] >= days[j]
  }

  /** The streak walk: over days, latest first, a day equal to the day being
      checked extends the streak and moves the check one day back; a day
      before it ends the walk; a later day (a future one, or a second
      submission on a counted day) is skipped. The result is the length of
      the run of consecutive days ending at `check` that all occur. */
  function Walk(days: seq<int>, check: int): (k: nat)
    requires Descending(days)
    ensures forall d :: check - k < d <= check ==> d in days
    ensures check - k !in days
    decreases |days|
  {
    if |days| == 0 then 0
    else if days[0] == check then
      var k := Walk(days[1..], check - 1);
      assert forall d :: d in days[1..] ==> d in days;
      1 + k
    else if days[0] < check then 0
    else
      var k := Walk(days[1..], check);
      assert forall d :: d in days[1..] ==> d in days;
      k
  }

  /** Submissions newest first fall on days latest first. */
  lemma DaysDescend(sorted: seq<Submission>)
    requires SortedDescBy(sorted, (s: Submission) => s.createdAt)
    ensures Descending(DaysOf(sorted))
  {
    var days := DaysOf(sorted);
    forall i, j | 0 <= i < j < |days| ensures days[i] >= days[j] {
      DayOfMonotone(sorted[j].createdAt, sorted[i].createdAt);
    }
  }

  /** The days of the active submissions, in any order, are the active
      days. */
  lemma DaysAreActiveDays(subs: seq<Submission>, sorted: seq<Submission>)
    requires forall s :: s in sorted <==> s in subs && Active(s)
    ensures forall d :: d in DaysOf(sorted) <==> d in ActiveDays(subs)
  {
    var days := DaysOf(sorted);
    forall d ensures d in days ==> d in ActiveDays(subs) {
      if d in days {
        var i :| 0 <= i < |days| && days[i] == d;
        assert sorted[i] in sorted;
      }
    }
    forall d ensures d in ActiveDays(subs) ==> d in days {
      if d in ActiveDays(subs) {
        var s :| s in subs && Active(s) && DayOf(s.createdAt) == d;
        var i :| 0 <= i < |sorted| && sorted[i] == s;
        assert days[i] == d;
      }
    }
  }

  /** The dashboard streak: active submissions, newest first, walked back
      from today. It is the number of consecutive days ending today on each
      of which the student has an active submission. */
  function Streak(subs: seq<Submission>, now: int): (k: nat)
    ensures forall d :: DayOf(now) - k < d <= DayOf(now) ==> d in ActiveDays(subs)
    ensures DayOf(now) - k !in ActiveDays(subs)
    ensures k == 0 <==> DayOf(now) !in ActiveDays(subs)
  {
    var sorted := SortDescBy(Filter(subs, Active), (s: Submission) => s.createdAt);
    DaysDescend(sorted);
    DaysAreActiveDays(subs, sorted);
    Walk(DaysOf(sorted), DayOf(now))
  }

  /** Days [today, today-1, today-3] give a streak of 2; two submissions on
      one day count once; nothing today gives 0. */
  lemma StreakExamples(t: int)
    ensures Walk([t, t - 1, t - 3], t) == 2
    ensures Walk([t, t, t - 1], t) == 2
    ensures Walk([t + 1, t - 1], t) == 0
  {
    assert [t, t - 1, t - 3][1..] == [t - 1, t - 3];
    assert [t - 1, t - 3][1..] == [t - 3];
    assert Walk([t - 3], t - 2) == 0;
    assert Walk([t - 1, t - 3], t - 1) == 1;
  }

  // ---------------------------------------------------------------------
  // Next-attempt label and join form

  /** "Submit Attempt #n": the number of existing attempts plus one, or no
      number ("Submit Your Work") before the first attempt. */
  function AttemptLabel(attempts: seq<Submission>): (n: Option<int>)
    ensures n.None? <==> |attempts| == 0
    ensures n.Some? ==> n.value == |attempts| + 1
  {
    if |attempts| == 0 then None else Some(|attempts| + 1)
  }

  /** With consecutive numbering the label announces the attempt number the
      next insert will get. */
  lemma AttemptLabelIsNextAttempt(subs: seq<Submission>, assignmentId: string, student: string)
    requires SubmissionQueries.Consecutive(subs, assignmentId, student)
    requires |SubmissionQueries.PairRows(subs, assignmentId, student)| > 0
    ensures AttemptLabel(CardAttempts(subs, assignmentId, student))
      == Some(SubmissionQueries.NextAttemptNumber(subs, assignmentId, student))
  {
    SubmissionQueries.NextIsCountPlusOne(subs, assignmentId, student);
  }

  /** The join form's input after one edit: the browser inserts at most six
      of the typed characters (`maxLength`), then `onChange` upper-cases the
      value. A capital longer than its letter makes the value longer than
      six; typed ASCII stays at six at most, upper-cased letter for
      letter. */
  function CodeInput(typed: string): (code: string)
    ensures ToUpper(code) == code
    ensures forall k :: 0 <= k < |code| ==> !IsLower(code[k])
    ensures |code| <= 18
    ensures AllAscii(typed) ==>
      && |code| == (if |typed| <= 6 then |typed| else 6)
      && forall i :: 0 <= i < |code| ==> code[i] == UpperChar(typed[i])
  {
    var kept := if |typed| <= 6 then typed else typed[..6];
    assert AllAscii(typed) ==> AllAscii(kept);
    ToUpperIdempotent(kept);
    ToUpper(kept)
  }

  /** Six sharp s, accepted by `maxLength`, upper-case to twelve letters. */
  lemma CodeInputCanExceedSix()
    ensures |CodeInput("\U{DF}\U{DF}\U{DF}\U{DF}\U{DF}\U{DF}")| == 12
  {
    LengtheningExamples();
  }

  /** `handleJoinClass`: with no user, or a code that trims to nothing, the
      form is refused without any lookup (`None`); otherwise the trimmed
      code is joined. */
  function HandleJoin(store: Store, user: Option<string>, classCode: string, accepted: bool, now: int)
    : (r: (Store, Option<Result<Membership, Error>>))
    ensures r.1.None? <==> user.None? || Trim(classCode) == ""
    ensures r.1.None? ==> r.0 == store
    ensures r.1.Some? ==> (r.0, r.1.value) == Classes.JoinClassByCode(store, Trim(classCode), user.value, accepted, now)
  {
    if user.None? || Trim(classCode) == "" then (store, None)
    else
      var j := Classes.JoinClassByCode(store, Trim(classCode), user.value, accepted, now);
      (j.0, Some(j.1))
  }

  /** A code made only of white space is refused without a lookup. */
  lemma BlankCodeIsRefused(store: Store, user: Option<string>, classCode: string, accepted: bool, now: int)
    requires forall i :: 0 <= i < |classCode| ==> IsSpace(classCode[i])
    ensures HandleJoin(store, user, classCode, accepted, now) == (store, None)
  {
    TrimEmptyIff(classCode);
  }
}
