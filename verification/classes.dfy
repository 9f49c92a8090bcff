/** Class membership of lib/supabase/queries/classes.ts (duplicated, with the
    same logic, in lib/supabase/classes.ts): joining a class by its code,
    generating a code for a new class, and a student's class listing. */
module Classes {

  import opened Wrappers
  import opened Seqs
  import opened Text
  import opened Records

  /** Classes whose stored code is exactly `code`. */
  function WithCode(classes: seq<Class>, code: string): seq<Class> {
    Filter(classes, (c: Class) => c.code == code)
  }

  /** The student's memberships of one class. */
  function Enrolments(ms: seq<Membership>, student: string, classId: string): seq<Membership> {
    Filter(ms, (m: Membership) => m.student == student && m.classId == classId)
  }

  /** No (student, class) pair is enrolled twice. */
  ghost predicate NoDuplicateMemberships(ms: seq<Membership>) {
    forall student, classId :: |Enrolments(ms, student, classId)| <= 1
  }

  /** `joinClassByCode`: looks the class up by the upper-cased code with
      `.single()` (no class, or several, is an error), then looks up the
      student's membership with `.single()` (exactly one existing row refuses
      the join), then inserts one membership; `accepted` is whether the store
      takes the insert. Every refusal leaves the store as it was. */
  function JoinClassByCode(store: Store, code: string, student: string, accepted: bool, now: int)
    : (r: (Store, Result<Membership, Error>))
    ensures r.1.Failure? ==> r.0 == store
    ensures r.1.Success? ==> r.0 == store.(memberships := store.memberships + [r.1.value])
    ensures var found := WithCode(store.classes, ToUpper(code));
      && (r.1 == Failure(ClassNotFound) <==> |found| == 0)
      && (r.1 == Failure(CodeNotUnique) <==> |found| > 1)
      && (r.1 == Failure(AlreadyEnrolled) <==> |found| == 1 && |Enrolments(store.memberships, student, found[0].id)| == 1)
      && (r.1.Success? <==> |found| == 1 && |Enrolments(store.memberships, student, found[0].id)| != 1 && accepted)
      && (r.1.Success? ==> r.1.value == Membership(found[0].id, student, now))
    ensures r.1.Failure? ==> r.1.error in {ClassNotFound, CodeNotUnique, AlreadyEnrolled, StoreRejected}
  {
    var found := WithCode(store.classes, ToUpper(code));
    match Single(found)
    case None => (store, Failure(if |found| == 0 then ClassNotFound else CodeNotUnique))
    case Some(c) =>
      if Single(Enrolments(store.memberships, student, c.id)).Some? then (store, Failure(AlreadyEnrolled))
      else if !accepted then (store, Failure(StoreRejected))
      else
        var m := Membership(c.id, student, now);
        (store.(memberships := store.memberships + [m]), Success(m))
  }

  /** Codes that agree up to case join the same class: the lookup sees only
      the upper-cased code. */
  lemma JoinIgnoresCase(store: Store, a: string, b: string, student: string, accepted: bool, now: int)
    requires SameIgnoringCase(a, b)
    ensures JoinClassByCode(store, a, student, accepted, now) == JoinClassByCode(store, b, student, accepted, now)
  {
    SameIgnoringCaseUpper(a, b);
  }

  /** Any casing of a stored upper-case code finds its class: the join is
      not refused for an unknown code and, when it succeeds, enrols the
      student in that class. */
  lemma AnyCasingFindsClass(store: Store, c: Class, typed: string, student: string, accepted: bool, now: int)
    requires c in store.classes && ToUpper(c.code) == c.code
    requires SameIgnoringCase(typed, c.code)
    ensures var r := JoinClassByCode(store, typed, student, accepted, now);
      && r.1 != Failure(ClassNotFound)
      && (r.1.Success? ==> r.1.value.classId == c.id)
  {
    SameIgnoringCaseUpper(typed, c.code);
    assert c in WithCode(store.classes, c.code);
  }

  /** A typed code whose upper-case form is a stored code finds that class. */
  lemma UpperCodeFindsClass(store: Store, c: Class, typed: string, student: string, accepted: bool, now: int)
    requires c in store.classes && ToUpper(typed) == c.code
    ensures var r := JoinClassByCode(store, typed, student, accepted, now);
      && r.1 != Failure(ClassNotFound)
      && (r.1.Success? ==> r.1.value.classId == c.id)
  {
    assert c in WithCode(store.classes, c.code);
  }

  /** `toUpperCase` maps the dotless i to I, so "\U{131}ABCDE" joins the
      class whose code is "IABCDE", and likewise after any other capitals. */
  lemma DotlessIFindsClass(store: Store, c: Class, rest: string, student: string, accepted: bool, now: int)
    requires forall k :: 0 <= k < |rest| ==> IsUpper(rest[k])
    requires c in store.classes && c.code == ['I'] + rest
    ensures var r := JoinClassByCode(store, ['\U{131}'] + rest, student, accepted, now);
      && r.1 != Failure(ClassNotFound)
      && (r.1.Success? ==> r.1.value.classId == c.id)
  {
    DotlessIPrefixUpper(rest);
    UpperCodeFindsClass(store, c, ['\U{131}'] + rest, student, accepted, now);
  }

  /** A successful join adds exactly one membership, for the student, and
      leaves the other tables alone. */
  lemma JoinInsertsOneMembership(store: Store, code: string, student: string, accepted: bool, now: int)
    requires JoinClassByCode(store, code, student, accepted, now).1.Success?
    ensures var s := JoinClassByCode(store, code, student, accepted, now).0;
      && |s.memberships| == |store.memberships| + 1
      && s.memberships[..|store.memberships|] == store.memberships
      && s.memberships[|store.memberships|].student == student
      && s.classes == store.classes && s.assignments == store.assignments && s.submissions == store.submissions
  {
  }

  /** Appending a membership adds it to its own pair's enrolments only. */
  lemma EnrolmentsAppend(ms: seq<Membership>, m: Membership, student: string, classId: string)
    ensures Enrolments(ms + [m], student, classId)
      == Enrolments(ms, student, classId) + (if m.student == student && m.classId == classId then [m] else [])
  {
    FilterAppend(ms, [m], (x: Membership) => x.student == student && x.classId == classId);
  }

  /** A join keeps every (student, class) pair enrolled at most once. */
  lemma JoinKeepsNoDuplicates(store: Store, code: string, student: string, accepted: bool, now: int)
    requires NoDuplicateMemberships(store.memberships)
    ensures NoDuplicateMemberships(JoinClassByCode(store, code, student, accepted, now).0.memberships)
  {
    var r := JoinClassByCode(store, code, student, accepted, now);
    if r.1.Success? {
      var m := r.1.value;
      forall s, k ensures |Enrolments(r.0.memberships, s, k)| <= 1 {
        EnrolmentsAppend(store.memberships, m, s, k);
        assert |Enrolments(store.memberships, s, k)| <= 1;
      }
    }
  }

  /** The same join done twice in a row: the second is refused as already
      enrolled and inserts nothing. */
  lemma SecondJoinIsRefused(store: Store, code: string, student: string, now: int, later: int)
    requires NoDuplicateMemberships(store.memberships)
    requires JoinClassByCode(store, code, student, true, now).1.Success?
    ensures var first := JoinClassByCode(store, code, student, true, now).0;
      var second := JoinClassByCode(first, code, student, true, later);
      second.1 == Failure(AlreadyEnrolled) && second.0 == first
  {
    var r := JoinClassByCode(store, code, student, true, now);
    var c := WithCode(store.classes, ToUpper(code))[0];
    assert |Enrolments(store.memberships, student, c.id)| <= 1;
    EnrolmentsAppend(store.memberships, r.1.value, student, c.id);
  }

  // ---------------------------------------------------------------------
  // Class codes

  /** A digit of `Number.prototype.toString(36)`: `[0-9a-z]`. */
  predicate IsBase36Digit(c: char) { IsDigit(c) || IsLower(c) }

  /** The shape of `Math.random().toString(36)` for a draw in [0, 1): "0",
      or "0." followed by base-36 digits. */
  predicate IsRandomRendering(s: string) {
    && |s| >= 1 && s[0] == '0'
    && (|s| >= 2 ==> s[1] == '.')
    && forall i :: 2 <= i < |s| ==> IsBase36Digit(s[i])
  }

  /** `String.prototype.substring(start, end)` for `start <= end`: both ends
      are clamped to the string's length. */
  function Substring(s: string, start: nat, end: nat): (r: string)
    requires start <= end
    ensures |r| == (if end < |s| then end else |s|) - (if start < |s| then start else |s|)
    ensures forall i :: 0 <= i < |r| ==> r[i] == s[start + i]
  {
    var lo := if start < |s| then start else |s|;
    var hi := if end < |s| then end else |s|;
    s[lo..hi]
  }

  /** `Math.random().toString(36).substring(2, 8).toUpperCase()`: at most six
      characters, each a digit or an upper-case letter, namely the upper-cased
      digits right after "0.". */
  function ClassCode(rendered: string): (code: string)
    requires IsRandomRendering(rendered)
    ensures |code| <= 6
    ensures |code| == (if |rendered| >= 8 then 6 else if |rendered| >= 2 then |rendered| - 2 else 0)
    ensures forall i :: 0 <= i < |code| ==> IsCodeChar(code[i])
    ensures forall i :: 0 <= i < |code| ==> code[i] == UpperChar(rendered[i + 2])
  {
    var digits := Substring(rendered, 2, 8);
    assert AllAscii(digits);
    ToUpper(digits)
  }

  /** A generated code is already upper-case, so the join's upper-casing
      maps it to itself. */
  lemma ClassCodeIsUpper(rendered: string)
    requires IsRandomRendering(rendered)
    ensures ToUpper(ClassCode(rendered)) == ClassCode(rendered)
  {
    var code := ClassCode(rendered);
    assert AllAscii(code);
    assert forall i :: 0 <= i < |code| ==> UpperChar(code[i]) == code[i];
  }

  /** `createClass`: inserts a class owned by the teacher, with the
      generated code; `id` is the key the store assigns and `accepted`
      whether the store takes the insert. A refused insert is returned as
      the error and changes nothing. */
  function CreateClass(store: Store, name: string, teacher: string, id: string, rendered: string, now: int, accepted: bool)
    : (r: (Store, Result<Class, Error>))
    requires IsRandomRendering(rendered)
    ensures r.1.Failure? <==> !accepted
    ensures r.1.Failure? ==> r.0 == store && r.1.error == StoreRejected
    ensures r.1.Success? ==>
      var c := r.1.value;
      && r.0 == store.(classes := store.classes + [c])
      && c.id == id && c.name == name && c.teacherId == teacher && c.createdAt == now
      && |c.code| <= 6 && (forall i :: 0 <= i < |c.code| ==> IsCodeChar(c.code[i]))
      && c.code == ClassCode(rendered)
  {
    if !accepted then (store, Failure(StoreRejected))
    else
      var c := Class(id, name, ClassCode(rendered), teacher, now);
      (store.(classes := store.classes + [c]), Success(c))
  }

  /** A freshly created class whose code no other class carries can be
      joined by typing its code in any casing. */
  lemma CreatedClassIsJoinable(store: Store, name: string, teacher: string, id: string, rendered: string, now: int,
                               typed: string, student: string, later: int)
    requires IsRandomRendering(rendered)
    requires forall i :: 0 <= i < |store.classes| ==> store.classes[i].code != ClassCode(rendered)
    requires forall i :: 0 <= i < |store.memberships| ==> store.memberships[i].classId != id
    requires SameIgnoringCase(typed, ClassCode(rendered))
    ensures var created := CreateClass(store, name, teacher, id, rendered, now, true).0;
      JoinClassByCode(created, typed, student, true, later) == (created.(memberships := store.memberships + [Membership(id, student, later)]), Success(Membership(id, student, later)))
  {
    var r := CreateClass(store, name, teacher, id, rendered, now, true);
    var code := ClassCode(rendered);
    ClassCodeIsUpper(rendered);
    SameIgnoringCaseUpper(typed, code);
    FilterAppend(store.classes, [r.1.value], (c: Class) => c.code == code);
    FilterNone(store.classes, (c: Class) => c.code == code);
    assert WithCode(r.0.classes, code) == [r.1.value];
    FilterNone(store.memberships, (m: Membership) => m.student == student && m.classId == id);
  }

  // ---------------------------------------------------------------------
  // A student's classes

  /** Ids of the classes the student is enrolled in. */
  function MemberClassIds(ms: seq<Membership>, student: string): set<string> {
    set m | m in ms && m.student == student :: m.classId
  }

  /** `getStudentClasses`: a failed membership fetch, or no memberships,
      give the empty list; otherwise the classes the student is enrolled in,
      newest first, or null when fetching them fails. */
  function StudentClasses(store: Store, student: string, memberFetchFails: bool, classFetchFails: bool)
    : (r: Option<seq<Class>>)
    ensures memberFetchFails ==> r == Some([])
    ensures MemberClassIds(store.memberships, student) == {} ==> r == Some([])
    ensures r.None? <==> !memberFetchFails && MemberClassIds(store.memberships, student) != {} && classFetchFails
    ensures r.Some? ==> forall c :: c in r.value ==> c in store.classes && c.id in MemberClassIds(store.memberships, student)
    ensures r.Some? && !memberFetchFails ==>
      forall c :: c in store.classes && c.id in MemberClassIds(store.memberships, student) ==> c in r.value
    ensures r.Some? ==> SortedDescBy(r.value, (c: Class) => c.createdAt)
  {
    if memberFetchFails then Some([])
    else
      var ids := MemberClassIds(store.memberships, student);
      if |ids| == 0 then Some([])
      else if classFetchFails then None
      else Some(SortDescBy(Filter(store.classes, (c: Class) => c.id in ids), (c: Class) => c.createdAt))
  }
}
