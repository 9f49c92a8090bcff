# Classroom grading app — a Dafny model of its core

The system is a classroom web app on a hosted relational store:

- Teachers create classes, which get a random join code, and post assignments.
- Students join classes by code and upload photographed work as numbered attempts.
- A (mock) AI pipeline grades each attempt. Teachers may then override the score and comment.
- Two dashboards summarise the data: averages, late counts, streaks and completion.

This project models that core as pure functions over immutable data:

- The store is four in-memory tables: `Records.Store` holds classes, memberships, assignments and submissions.
- Every store call becomes a function from a store to a store and a result.
- Failures the code handles are modelled as values. This covers a missing row, a code no class carries, an existing enrolment and a refused write.
- Dashboard arithmetic becomes integer functions over those tables: the rounded average, the streak, the late count and the score displays.
- Route protection becomes a decision function from (user, profile role) to "redirect to page X" or "proceed".

Conventions used throughout:

- **Student key.** One student key, `student`, is used on memberships and submissions. The source mixes `user_id` and `student_id`; see Findings.
- **Row ids.** A submission's `id` is its position in its table.
- **`.single()`.** It succeeds only on exactly one matching row (`Wrappers.Single`).
- **Times.** Times are integer milliseconds, and a day is `t / 86_400_000`.
- **Scores.** Scores are integers. `Math.round(sum / n)` is characterised exactly for integer sums.
- **Inputs.** Random draws, clock values, and upload and URL services are parameters. So is whether the store accepts each insert (`accepted`, `insertOk`, `createOk`): a refused insert returns `StoreRejected` and leaves the store unchanged.
- **Characters.** Strings are sequences of Unicode code points. `trim` strips the ECMAScript white space set. `toUpperCase` capitalises ASCII letters and every character whose full capital is ASCII letters, possibly with combining marks: ß becomes "SS" and ı becomes "I".

Modules, one per file:

| file | module | source it follows |
|---|---|---|
| wrappers.dfy | Wrappers | `Option`, `Result`, `.single()` |
| seqs.dfy | Seqs | filter, count, sum and sort helpers |
| text.dfy | Text | upper-casing, `trim`, decimal rendering and parsing |
| records.dfy | Records | the rows and the store (lib/types.ts fields) |
| submission_queries.dfy | SubmissionQueries | lib/supabase/queries/submissions.ts |
| attempt_key.dfy | AttemptKey | the attempt-number lookup as written (Findings) |
| lifecycle.dfy | SubmitFlow | lib/supabase/submissions.ts and the dashboard's inline submit |
| grading.dfy | Grading | lib/ai/grading.ts |
| storage.dfy | Storage | lib/supabase/storage.ts |
| classes.dfy | Classes | lib/supabase/queries/classes.ts and lib/supabase/classes.ts |
| assignments.dfy | Assignments | lib/supabase/queries/assignments.ts and lib/supabase/assignments.ts |
| reviews.dfy | Reviews | lib/supabase/reviews.ts |
| scores.dfy | Scores | the score rules of both dashboards |
| student_dashboard.dfy | StudentDashboard | app/dashboard/student/page.tsx |
| teacher_dashboard.dfy | TeacherDashboard | app/dashboard/teacher/page.tsx |
| access.dfy | Access | lib/supabase/auth-utils.ts, lib/supabase/auth.ts, app/page.tsx |

## Model

| member | source | states |
|---|---|---|
| Wrappers.Single | lib/supabase/queries/classes.ts:97-101 | `.single()` yields a row exactly when one row matches, and then that row |
| Text.ToUpper | lib/supabase/queries/classes.ts:100 | `toUpperCase`: the result is at least as long as the input and at most three times as long, and no ASCII lower-case letter remains; an ASCII string is capitalised letter by letter at the same length |
| Text.ToUpperIdempotent | lib/supabase/classes.ts:48 | upper-casing an upper-cased string changes nothing |
| Text.SameIgnoringCaseUpper | lib/supabase/classes.ts:48 | strings whose characters have the same capitals one for one upper-case to the same string |
| Text.SharpSDoubles | app/dashboard/student/page.tsx:585 | a string of sharp s upper-cases to twice its length |
| Text.SharpSUpper | app/dashboard/student/page.tsx:585 | the sharp s upper-cases to "SS" |
| Text.DotlessIUpper | lib/supabase/queries/classes.ts:100 | the dotless i upper-cases to the ASCII "I" |
| Text.DotlessIPrefixUpper | lib/supabase/queries/classes.ts:100 | a dotless i followed by ASCII capitals upper-cases to "I" followed by the same capitals |
| Text.LengtheningExamples | app/dashboard/student/page.tsx:585-588 | six sharp s upper-case to twelve letters |
| Text.Trim | app/dashboard/student/page.tsx:208 | `trim`: the result is no longer than the input, and when non-empty it neither starts nor ends with ECMAScript white space |
| Text.TrimEmptyIff | app/dashboard/student/page.tsx:206 | a string trims to "" exactly when every character is white space |
| Text.NonAsciiBlankTrims | app/dashboard/teacher/page.tsx:172 | a no-break space, a vertical tab, and an ideographic space with a byte-order mark all trim to "" |
| SubmissionQueries.StudentSubmissionAttempts | lib/supabase/queries/submissions.ts:51-56 | the listing holds exactly the pair's rows, as many as there are, ordered by attempt number descending, so the first has the largest attempt |
| SubmissionQueries.NextAttemptNumber | lib/supabase/queries/submissions.ts:91-100 | the next number exceeds every attempt of the pair and is one more than one of them, or is 1 when the pair has no rows |
| SubmissionQueries.CreateSubmission | lib/supabase/queries/submissions.ts:112-131 | a refused insert returns the store's error and leaves the rows unchanged; an accepted one appends one row and touches no earlier row; the new row has status grading, the given file path, null AI and teacher scores and feedback, no override flag written, no grading time, and the attempt number `NextAttemptNumber` gives the pair, which is above every earlier attempt of the pair |
| SubmissionQueries.UpdateSubmissionGrading | lib/supabase/queries/submissions.ts:142-152 | with no row of that id the patch fails; otherwise only that row changes, to status graded with the AI score, feedback and grading time, keeping teacher fields, pair, attempt number and file path |
| SubmissionQueries.UpdateTeacherReview | lib/supabase/queries/submissions.ts:165-173 | only the teacher score and feedback of the row change, either possibly to null; status and AI fields stay; no row of that id is an error |
| SubmissionQueries.TeacherSubmissions | lib/supabase/queries/submissions.ts:181-227 | exactly the submissions to assignments of the teacher's classes, newest first; empty without error when the teacher has no classes or they have no assignments |
| SubmissionQueries.NextIsCountPlusOne | lib/supabase/queries/submissions.ts:91-100 | when the pair's attempts are numbered 1..n, the next number is n + 1 |
| SubmissionQueries.CreateExtendsPair | lib/supabase/queries/submissions.ts:114-129 | an accepted insert appends the new row to its own pair's attempts and leaves every other pair's attempts as they were |
| SubmissionQueries.PatchKeepsPairAttempts | lib/supabase/queries/submissions.ts:142-173 | a patch that keeps a row's pair and attempt number keeps every pair's attempt numbers in order |
| SubmissionQueries.PatchedStaysConsecutive | lib/supabase/queries/submissions.ts:142-173 | such a patch keeps a pair numbered 1, 2, 3, ... |
| SubmissionQueries.CreateKeepsConsecutive | lib/supabase/queries/submissions.ts:112-131 | an insert keeps a pair numbered 1, 2, 3, ... and grows it by one exactly when the store accepts it and it is for that pair |
| SubmissionQueries.PatchKeepsConsecutive | lib/supabase/queries/submissions.ts:142-173 | a grading or review patch keeps a pair's numbering and its size |
| SubmissionQueries.ApplyKeepsConsecutive | lib/supabase/queries/submissions.ts:112-173 | any single insert, refused or accepted, or grading or review patch keeps consecutive numbering, and adds one attempt to the pair exactly when it is an accepted insert for it |
| SubmissionQueries.SequentialAttemptsAreConsecutive | lib/supabase/queries/submissions.ts:112-131 | over any sequence of calls, refused inserts included, the Nth accepted submission of a pair gets attempt number N |
| SubmissionQueries.NewAttemptNumberIsCountPlusOne | lib/supabase/queries/submissions.ts:112-120 | with n consecutive attempts, the inserted row is attempt n + 1 |
| SubmissionQueries.FirstAttemptIsOne | lib/supabase/queries/submissions.ts:100 | a pair without rows starts at attempt 1 |
| AttemptKey.NextAttemptAsWritten | lib/supabase/queries/submissions.ts:91-100 | the lookup as written, `(top \|\| 0) + 1` over rows whose `user_id` matches: 1 when none does, and one more than the largest matching attempt otherwise, whatever its sign |
| AttemptKey.TopMatching | lib/supabase/queries/submissions.ts:91-98 | the `order(attempt_number desc).limit(1)` lookup gives no row exactly when no row matches, and otherwise the largest attempt of a matching row |
| AttemptKey.NegativeTopIsKept | lib/supabase/queries/submissions.ts:100 | a lone matching row with attempt -5 yields -4, not 1 |
| AttemptKey.CreateAsWritten | lib/supabase/queries/submissions.ts:112-127 | the insert as written fills `student_id` and leaves `user_id` unset |
| AttemptKey.AsWrittenAlwaysNumbersOne | lib/supabase/queries/submissions.ts:95-118 | as written, every inserted attempt is numbered 1, whatever rows exist |
| AttemptKey.AsWrittenSecondAttemptIsOne | lib/supabase/queries/submissions.ts:95-118 | two sequential submissions by one student both get attempt 1 |
| AttemptKey.CorrectedSecondAttemptIsTwo | lib/supabase/queries/submissions.ts:112-120 | with one key, the same two submissions get attempts 1 and 2 |
| SubmitFlow.NonEmpty | lib/supabase/submissions.ts:37-38 | `x \|\| undefined` keeps a non-empty text and drops a missing or empty one |
| SubmitFlow.LookupAssignment | lib/supabase/submissions.ts:12-16 | a found assignment is in the table with the requested id, and is the row every same-id row equals; no row with the id gives none |
| SubmitFlow.ConfigFor | lib/supabase/submissions.ts:36-41 | the grading config carries the assignment's title, answer key and rubric; a missing assignment gives title "" and neither key nor rubric |
| SubmitFlow.SubmitAssignment | lib/supabase/submissions.ts:19-76 | a failed insert returns its error with the store unchanged; otherwise the row is inserted at grading, then becomes graded with the pipeline's score and feedback iff grading ran and the write succeeded; it becomes grading_failed iff grading threw and that patch succeeded; otherwise it stays at grading with the inserted row returned; an error is reported iff grading threw |
| SubmitFlow.InsertFailureSkipsGrading | lib/supabase/submissions.ts:30-32 | after a failed insert the grading outcome makes no difference: grading is never reached |
| SubmitFlow.GradedScoreInMockRange | lib/supabase/submissions.ts:43-66 | a fully successful submit stores a graded row with an AI score in [70, 99] |
| SubmitFlow.InlineSubmit | app/dashboard/student/page.tsx:219-276 | a failed upload stops with the upload's own error and a failed create with the store's, both with no change; after a create no error is reported, only the submissions table changes, the new row carries the uploaded path, and it is graded iff grading ran and the write succeeded; a graded row holds the score and feedback the pipeline gives for the public URL and the assignment's config, graded now; it never becomes grading_failed, and otherwise stays at grading with no AI result |
| SubmitFlow.PathsDivergeOnThrow | app/dashboard/student/page.tsx:253-276 | on a thrown grading call the library path marks the row grading_failed and reports the error, while the dashboard path leaves it at grading and reports nothing; the rows are otherwise equal |
| Grading.ExtractTextFromImage | lib/ai/grading.ts:29-34 | the mock extraction returns non-empty text |
| Grading.ExtractIgnoresImage | lib/ai/grading.ts:29-34 | it returns the same text for every image URL |
| Grading.MockScore | lib/ai/grading.ts:67 | `floor(r·30) + 70` for r in [0, 1) is in [70, 99], inside the documented 0-100 range |
| Grading.EveryMockScoreReachable | lib/ai/grading.ts:67 | every score in [70, 99] comes from some draw |
| Grading.GradeWithLLM | lib/ai/grading.ts:66-83 | the score is in [70, 99]; the breakdown is accuracy = score − 5, methodology = score − 10, completeness = score, all between 60 and the score; the feedback is the fixed non-empty text |
| Grading.GradeSubmission | lib/ai/grading.ts:89-100 | the pipeline is scoring applied to the extraction, with a score in the documented range |
| Grading.GradeDependsOnDrawOnly | lib/ai/grading.ts:89-100 | neither the image nor the assignment config changes the mock result, only the draw does |
| Storage.FileExtension | lib/supabase/storage.ts:23 | "jpg" exactly for an empty name or one ending in '.'; otherwise the text after the last '.', or the whole name when there is none |
| Storage.StoragePath | lib/supabase/storage.ts:23-25 | the key reads back as its parts: it opens with the assignment id and '/', then the student id and '/'; the text up to the last '.' parses to the timestamp; what follows that '.' is the file name's extension |
| Storage.UploadSubmissionImage | lib/supabase/storage.ts:23-50 | an upload error is returned as is with no data; otherwise the stored path is paired with its public URL |
| Storage.SubmissionSignedUrl | lib/supabase/storage.ts:71-91 | the URL is requested for the given lifetime or 3600 s; an error or a missing or empty URL gives null |
| Classes.JoinClassByCode | lib/supabase/queries/classes.ts:95-130 | the class is looked up by the upper-cased code; no class or several is an error; an existing enrolment is "already enrolled"; a refused insert is the store's error; each refusal leaves the store unchanged; otherwise exactly one membership (class, student) is appended |
| Classes.JoinIgnoresCase | lib/supabase/classes.ts:44-49 | codes whose characters have the same `toUpperCase` capitals one for one give the same join; this includes non-ASCII letters such as the dotless i |
| Classes.AnyCasingFindsClass | lib/supabase/queries/classes.ts:97-105 | any casing of a stored upper-case code finds its class and enrols into it |
| Classes.UpperCodeFindsClass | lib/supabase/queries/classes.ts:97-105 | a typed code whose upper-case form is a stored code finds that class and enrols into it |
| Classes.DotlessIFindsClass | lib/supabase/queries/classes.ts:100 | a code typed with a dotless i, as in "ıABCDE", finds the class whose code has an ASCII I, as in "IABCDE", and a successful join enrols into it |
| Classes.JoinInsertsOneMembership | lib/supabase/classes.ts:67-77 | a successful join adds exactly one membership, for that student, and touches no other table |
| Classes.JoinKeepsNoDuplicates | lib/supabase/queries/classes.ts:107-129 | joins done one after another never enrol a student twice in one class |
| Classes.SecondJoinIsRefused | lib/supabase/classes.ts:55-65 | repeating a successful join is refused as already enrolled and inserts nothing |
| Classes.Substring | lib/supabase/queries/classes.ts:137 | `substring` clamps both ends to the string's length |
| Classes.ClassCode | lib/supabase/queries/classes.ts:137 | a generated code has at most six characters, all in [0-9A-Z]: the upper-cased base-36 digits after "0." |
| Classes.ClassCodeIsUpper | lib/supabase/classes.ts:7 | a generated code is unchanged by the join's upper-casing |
| Classes.CreateClass | lib/supabase/queries/classes.ts:135-150 | a refused insert returns the store's error and changes nothing; an accepted one appends one class with the given name and teacher and the generated code |
| Classes.CreatedClassIsJoinable | lib/supabase/queries/classes.ts:95-150 | a new class whose code is unused can be joined by typing its code in any casing |
| Classes.StudentClasses | lib/supabase/queries/classes.ts:26-52 | a failed membership fetch or no memberships give the empty list; a failed class fetch gives null; otherwise exactly the classes enrolled in, newest first |
| Assignments.CreateAssignment | lib/supabase/queries/assignments.ts:104-125 | a refused insert returns the store's error and changes nothing; an accepted one appends one assignment with the given class, teacher, title and due date; an empty description becomes null; rubric and answer key are null |
| Assignments.CreateAssignmentWithUrls | lib/supabase/assignments.ts:5-27 | a refused insert returns the store's error and changes nothing; an accepted one appends one assignment with class, title, description, due date and the answer-key and rubric URLs as given, and no teacher |
| Assignments.CreationPathsAgree | lib/supabase/queries/assignments.ts:113-121 | the two creation paths fail together; when the store accepts, they store the same row up to the teacher exactly when the description is non-empty |
| Assignments.StudentAssignments | lib/supabase/queries/assignments.ts:36-65 | empty without error when there are no memberships or their fetch fails; otherwise exactly the assignments of the student's classes, earliest due first |
| Assignments.TeacherAssignments | lib/supabase/queries/assignments.ts:70-99 | empty when the teacher has no classes; otherwise exactly the assignments of those classes, newest first |
| Assignments.GroupByAssignment | lib/supabase/assignments.ts:77-84 | every fetched submission is in the group of its own assignment and no other, in fetched order; there is a group exactly for each assignment that has a submission |
| Assignments.FetchedSubmissions | lib/supabase/assignments.ts:67-74 | the second query fetches exactly the student's submissions to the listed assignments, newest first |
| Assignments.GroupIsStudentsSubmissions | lib/supabase/assignments.ts:67-91 | the group attached to a listed assignment is exactly the student's submissions to it, newest first |
| Assignments.AttachGroups | lib/supabase/assignments.ts:88-91 | each listed assignment, in order, gets the group of its own id, and the empty list when there is none |
| Assignments.StudentAssignmentsWithSubmissions | lib/supabase/assignments.ts:39-96 | the listing is the student's assignments, earliest due first; each carries exactly the student's own submissions to it, newest first, so the first is the latest; an assignment without submissions carries the empty list |
| Reviews.Write | lib/supabase/reviews.ts:24-25 | a left-out field keeps the column, null clears it, a value sets it |
| Reviews.AddTeacherReview | lib/supabase/reviews.ts:17-33 | only teacher score, comment and override change; score and comment are written as given; the override is true only when given as true; no row of that id is an error |
| Reviews.ReviewPathsAgree | lib/supabase/reviews.ts:21-28 | this path and `updateTeacherReview` write the same score and feedback and differ only in the override flag |
| Reviews.AddTeacherReviewIdempotent | lib/supabase/reviews.ts:21-30 | applying the same review twice is applying it once |
| Scores.EffectiveScore | app/dashboard/student/page.tsx:326 | the teacher score when present, else the AI score; missing only when both are |
| Scores.QualifyingScoreIsEffective | app/dashboard/student/page.tsx:318-327 | on a row counted by the average the `?? 0` default never applies |
| Scores.RoundedMean | app/dashboard/student/page.tsx:324-328 | the result is within one half of sum/n, halves rounding up |
| Scores.RoundedMeanUnique | app/dashboard/student/page.tsx:324-328 | that integer is unique |
| Scores.AverageScore | app/dashboard/student/page.tsx:318-330 | 0 when no row is graded with a score; otherwise the nearest integer to the mean effective score over graded rows with some score |
| Scores.AverageWithinBounds | app/dashboard/teacher/page.tsx:280-294 | averaging scores that all lie in [lo, hi] gives a result in [lo, hi], e.g. 0-100 |
| Scores.AverageExample | app/dashboard/student/page.tsx:318-330 | rows (teacher 90, AI 80) and (AI 70) average to 80; ungraded and scoreless rows do not count |
| Scores.CardScore | app/dashboard/student/page.tsx:495-497 | the card prefers the AI score and shows 0 or no score as "—" |
| Scores.HistoryScore | app/dashboard/student/page.tsx:679-681 | the history shows the effective score, 0 included, and "—" only when there is none |
| Scores.DisplayRulesAgreeIff | app/dashboard/student/page.tsx:495-497 | the two displays agree iff the row does not carry two different scores and its effective score is not 0 |
| Scores.DisplayRulesAgreeOnOneScore | app/dashboard/student/page.tsx:679-681 | in particular they agree when at most one score is present and it is not 0 |
| Scores.TeacherCell | app/dashboard/teacher/page.tsx:516-532 | a teacher score is shown as an override with the AI score (when present) struck through; otherwise a non-zero AI score is shown as the bare number, and the dash exactly when the AI score is null or 0 |
| Scores.TeacherCellShowsEffective | app/dashboard/teacher/page.tsx:516-532 | the cell's main number is the effective score, missing only with no score or only an AI score of 0 |
| Scores.SummaryAiScore | app/dashboard/teacher/page.tsx:135 | per-assignment summaries turn an AI score of 0 into null and keep any other |
| StudentDashboard.CardAttempts | app/dashboard/student/page.tsx:173-181 | a card holds exactly the pair's attempts, ordered by attempt number descending, so the largest comes first |
| StudentDashboard.CompletedCount | app/dashboard/student/page.tsx:309-315 | the completed figure is at most the number of cards, zero exactly when no card's latest attempt is graded or grading, and all of them exactly when every card's is |
| StudentDashboard.PendingCount | app/dashboard/student/page.tsx:302-308 | the pending figure is at most the number of cards, zero exactly when no card is pending, and all of them exactly when every card is |
| StudentDashboard.PendingPlusCompleted | app/dashboard/student/page.tsx:302-315 | every assignment is exactly one of pending and completed: the two counts sum to the number of assignments |
| StudentDashboard.FailedLatestIsPending | app/dashboard/student/page.tsx:302-315 | an assignment whose latest attempt failed grading is pending |
| StudentDashboard.Walk | app/dashboard/student/page.tsx:340-356 | the walk's count is the length of the run of consecutive days ending at the start day that all occur |
| StudentDashboard.Streak | app/dashboard/student/page.tsx:333-357 | the streak is the number of consecutive days ending today with a graded or grading submission; 0 iff there is none today |
| StudentDashboard.StreakExamples | app/dashboard/student/page.tsx:340-356 | days [today, today−1, today−3] give 2; two submissions on one day count once; nothing today gives 0 |
| StudentDashboard.AttemptLabel | app/dashboard/student/page.tsx:711-716 | no attempts give "Submit Your Work", otherwise the attempt count plus one |
| StudentDashboard.AttemptLabelIsNextAttempt | app/dashboard/student/page.tsx:711-716 | with consecutive numbering the label is the number the next insert gets |
| StudentDashboard.CodeInput | app/dashboard/student/page.tsx:585-588 | the field keeps at most six typed characters and holds their `toUpperCase` form: no ASCII lower-case letter remains, upper-casing again changes nothing, and the result has at most 18 characters; for ASCII input it is exactly the first six characters, each upper-cased |
| StudentDashboard.CodeInputCanExceedSix | app/dashboard/student/page.tsx:585-588 | six typed sharp s, which `maxLength` admits, leave a twelve-letter code in the field |
| StudentDashboard.HandleJoin | app/dashboard/student/page.tsx:204-212 | with no user, or a code that `trim` (Unicode white space included) empties, no lookup happens and nothing changes; otherwise the trimmed code is joined, and a refusal is reported with the store unchanged |
| StudentDashboard.BlankCodeIsRefused | app/dashboard/student/page.tsx:206 | a code of white space only, no-break spaces and other Unicode spaces included, is refused without a lookup |
| TeacherDashboard.Rosters | app/dashboard/teacher/page.tsx:96-105 | each class is paired with exactly its own membership rows |
| TeacherDashboard.TotalStudents | app/dashboard/teacher/page.tsx:274-277 | the total is at least each class's member count, and zero exactly when no class has a member |
| TeacherDashboard.TotalStudentsCountsMemberships | app/dashboard/teacher/page.tsx:274-277 | the total is the number of membership rows of the teacher's classes, so a student in two classes counts twice |
| TeacherDashboard.FindAssignment | app/dashboard/teacher/page.tsx:298 | `find` gives the first assignment with the id, or none when no assignment has it |
| TeacherDashboard.IsLateIff | app/dashboard/teacher/page.tsx:297-301 | with distinct ids, a submission is late iff its assignment is listed and due strictly before it was made |
| TeacherDashboard.LateCount | app/dashboard/teacher/page.tsx:297-301 | the late figure is at most the number of submissions, zero exactly when none is late, and all of them exactly when all are |
| TeacherDashboard.LateCountIsReference | app/dashboard/teacher/page.tsx:297-301 | the late count equals the number of submissions late against some listed assignment |
| TeacherDashboard.UnlistedIsNotCounted | app/dashboard/teacher/page.tsx:298-299 | a submission whose assignment is not listed adds nothing to the count |
| TeacherDashboard.OnTimeIsNotLate | app/dashboard/teacher/page.tsx:300 | a submission made exactly at the due time is not late |
| TeacherDashboard.OpenReview | app/dashboard/teacher/page.tsx:259-264 | the form shows the teacher score as text, or "" when there is none, and the feedback, or "" when there is none |
| TeacherDashboard.SubmitReview | app/dashboard/teacher/page.tsx:235-239 | an empty score is sent as null, otherwise as the parsed number; an empty comment is sent as null |
| TeacherDashboard.ReviewRoundTripIff | app/dashboard/teacher/page.tsx:235-264 | opening and saving a review unchanged writes back what was there iff the feedback is not the empty text |
| TeacherDashboard.ReviewSendsAnyInteger | app/dashboard/teacher/page.tsx:235-239 | the handler does no range check: any integer that reaches it is sent as the teacher score; the 0-100 range and whole-number step are left to the browser's validation of the input at 826-828 |
| TeacherDashboard.HandleCreateClass | app/dashboard/teacher/page.tsx:170-182 | refused, with nothing created, with no user or a name that `trim` empties; otherwise the store's refusal is alerted with nothing changed, and an accepted insert creates one class with the name as typed and the user as teacher |
| TeacherDashboard.BlankClassNameCreatesNothing | app/dashboard/teacher/page.tsx:172 | a blank name, Unicode white space included, creates nothing whether or not the store would accept |
| TeacherDashboard.HandleCreateAssignment | app/dashboard/teacher/page.tsx:185-201 | refused unless a class is selected, the title trims to something and a user is signed in; otherwise the store's refusal is alerted with nothing changed, and an accepted insert creates one assignment with the title as typed and the user as teacher |
| TeacherDashboard.BlankTitleCreatesNothing | app/dashboard/teacher/page.tsx:187-188 | a blank title, Unicode white space included, creates nothing whether or not the store would accept |
| Access.GetUserRole | lib/supabase/auth-utils.ts:16-35 | no user gives role null and id ""; a user gives their id, with role null iff the profile role is missing or empty |
| Access.RequireAuthClient | lib/supabase/auth-utils.ts:66-79 | no user goes to the login page with nothing returned; a user proceeds and is returned |
| Access.IsAuthenticated | lib/supabase/auth-utils.ts:40-45 | `!!user`: authenticated exactly when the provider returns a user |
| Access.IsEmailConfirmed | lib/supabase/auth-utils.ts:50-61 | no user is not confirmed; a user is confirmed exactly when `email_confirmed_at` is set |
| Access.ConfirmedPassesAuth | lib/supabase/auth-utils.ts:50-61 | a confirmed e-mail implies a signed-in user, who passes the auth check |
| Access.RequireRoleClient | lib/supabase/auth-utils.ts:84-104 | a null or empty role (`!role`) goes to the login page, another role to the home page, and the expected role proceeds with its record |
| Access.RequireAuth | lib/supabase/auth.ts:12-16 | no user goes to the login page; a user proceeds |
| Access.RequireRole | lib/supabase/auth.ts:18-30 | no user goes to the login page; a profile role other than the required one, a missing profile included, goes to the home page; the required role proceeds |
| Access.RequireRoleAuthenticatesFirst | lib/supabase/auth.ts:20-26 | with no user the profile is never consulted |
| Access.RoleChecksAgreeIff | lib/supabase/auth-utils.ts:89-103 | the client and server role checks agree iff the user has a non-empty profile role |
| Access.MissingProfileThreeWays | lib/supabase/auth.ts:28 | a signed-in user without a profile goes to the login page on the client, the home page on the server, and the student dashboard from home |
| Access.Home | app/page.tsx:17-33 | no user goes to the login page, the teacher role to the teacher dashboard, any other role or none to the student dashboard |
| Access.DashboardGate | app/dashboard/student/page.tsx:104-119 | no user goes to the login page; a missing profile or another role goes home; the page's role proceeds |
| Access.DashboardGateIsRequireRole | app/dashboard/teacher/page.tsx:62-77 | the dashboards' gate decides as the server's `requireRole` does |
| Access.RolelessNeverSettles | app/page.tsx:31-33 | a signed-in user whose role is neither student nor teacher is bounced between home and the student dashboard forever |
| Access.HomeSettlesIff | app/page.tsx:17-33 | from the home page a visitor lands within three loads iff they are not such a user, on the login page or their role's dashboard |

## Left out

- Concurrency: `Promise.all` fan-out and the check-then-insert races in attempt numbering and joins. Calls are sequential here, and nothing is claimed about uniqueness under concurrent calls.
- The hosted store, the network, the object store and the auth provider. They are in-memory tables, given user and profile values, and function or `Result` parameters.
- JSX, React state, modals, `alert`, console logging and router mechanics. Only the decisions are modelled.
- Floating point. `parseFloat` scores are integers. `Math.round` of a real quotient is stated exactly for integer sums.
- Time zones. `setHours(0, 0, 0, 0)` works in local time; `Records.DayOf` truncates integer timestamps to UTC days.
- `Math.random` and `Date.now`. They are parameters: a real draw for the mock score, the base-36 rendering for class codes, and a timestamp.
- The commented-out LLM call in lib/ai/grading.ts. It is not code that runs.
- lib/supabase/users.ts, lib/types.ts and the login, signup and confirm-email pages are not part of this model. The types file only supplied the row fields.
- Pass-through queries are not modelled: `getTeacherClasses`, `getClassMembers`, `getSubmissionsForAssignment`, `getStudentSubmissions`, `getAssignmentSubmissions`, `getSubmissionAttempts`, `getLatestSubmission` and the server-side variants. They only forward a filter to the store.
- Column naming. The lib/supabase/ files order submissions by `submitted_at` and group them by `user_id`. The model uses `createdAt` and the one student key.
- Assignment columns. lib/supabase/assignments.ts writes `answer_key_url` and `rubric_url`, while lib/supabase/queries/assignments.ts writes `answer_key` and `rubric`. Both are modelled as the one `answerKey`/`rubric` pair of `Records.Assignment`. `Assignments.CreationPathsAgree` depends on this: with two column pairs, the two rows would never be equal.
- `teacher_comment` in lib/supabase/reviews.ts is modelled as the `teacher_feedback` column that the other review path writes.
- Error paths of second queries are not modelled: a failed assignment or submission fetch after the membership or class lookup. Only the empty and failed first lookups are modelled.
- SubmitFlow.SubmitAssignment: the inserted row's attempt number comes from `NextAttemptNumber`, where the source leaves it to a store default. `image_url` is stored as the file path.
- SubmitFlow.InlineSubmit: the handler's early return (no user, no open assignment or no file) is UI state and is not modelled; the upload result is an input.
- TeacherDashboard.SubmitReview: requires the score field to be empty or an integer. The number input has no `step` attribute, so its default step of 1 makes the browser refuse a fractional entry such as 85.5 before the handler runs. The browser also refuses values outside 0-100. A non-numeric entry, which `parseFloat` would turn into NaN, is not modelled.
- TeacherDashboard.Rosters: takes every member fetch as successful. The source counts a failed fetch as no members.
- Classes.JoinClassByCode: with two or more existing memberships for the pair, `.single()` finds none and the join inserts again. The model keeps this behaviour; `Classes.JoinKeepsNoDuplicates` shows such a state never arises from sequential joins.
- Text.ToUpper: non-ASCII letters whose capital is itself non-ASCII are left unchanged: é, Greek and Cyrillic letters, and so on. Only the ASCII letters and the characters whose capitals are ASCII letters with marks are mapped. This covers every character that can change how a code made of [0-9A-Z] compares.
- Text.Trim: its contract states the length bound and that the result starts and ends with non-white space. That the result is the input's middle slice is stated by `Text.TrimStart` and `Text.TrimEnd`, of which it is the composition.
- StudentDashboard.CodeInput: models one edit of the field, the typed text capped by `maxLength` and then upper-cased. Keystroke-by-keystroke growth is not modelled. Neither is `maxLength` counting UTF-16 code units rather than code points.
- Scores.CardScore, Scores.HistoryScore and Scores.TeacherCell: only which value is shown, a number or the dash, is modelled, not how it is rendered. The student card and the history print "%" after the value, so a missing score reads "—%". The teacher table prints "%" only on an override and its struck AI score; its plain cell shows the bare number. All three write the dash as the mis-encoded "‚Äî".
- Seqs.SortBy and Seqs.SortDescBy: the order among equal keys is left open, as the store leaves it.

## Findings

| source | as written | input that shows it | evidently intended | confidence | as-written member | corrected member |
|---|---|---|---|---|---|---|
| lib/supabase/queries/submissions.ts:95 | `getNextAttemptNumber` filters on `user_id`, but `createSubmission` (line 118) writes only `student_id`, so the lookup never sees an inserted attempt | one student submits to one assignment twice in a row: both rows get attempt number 1 | the lookup uses the key the insert writes, so the Nth attempt is numbered N | high; not executed | AttemptKey.AsWrittenSecondAttemptIsOne | AttemptKey.CorrectedSecondAttemptIsTwo |
