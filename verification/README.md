# Resultify results engine in Dafny

This project models the results engine of the resultify service. The
service computes students' semester reports for an institutional group and
student set. It also moves results through their approval lifecycle. The
service's small helpers are modelled as well: the result schema, invite
rendering and invite handlers, update protection, the error handler, and
the guard that blocks an application administrator.

The engine exists twice in the service: once for the exam officer
(`server/api/groupAdministrators/controller.js`) and once for the
administrator (`server/api/administrators/administratorController.js`).
The two copies differ in which result statuses they may show: {2, 3, 4}
for the officer and {3, 4} for the administrator. The model has one engine
with the visible statuses as a parameter. `Report.OfficerGetResults` and
`Report.AdminGetResults` instantiate it, and `Views` proves that the two
agree whenever no result sits in status 2.

Modules:

- `Common` holds generic helpers: filters, maps, `findOne` as the first match, and ASCII lower-casing.
- `Records` holds the store as values: students, group-course bindings, registrations and result rows, with the course populated.
- `CourseLists` holds the level and semester filters and the cut-off window.
- `TermAggregation` covers `getSingleResult` and `getSingleResultCos`. Each course gets a DRP, `Pending...`, `Passed` or `Failed` row, and TCR/TCE/TGP are folded over those rows.
- `Cumulative` covers `getPreviousData` and `getPreviousResult`:
  - it builds the windowed history per course;
  - the last passing attempt counts;
  - remarks are listed for core courses.
- `Report` covers `get_results`:
  - term totals are the sum of the three passes;
  - `previous` is cumulative minus term;
  - cgpa, gpa and the `|| 1` guards.
- `Views` shows that the officer's and the administrator's views agree when nothing is in status 2.
- `Lifecycle` covers the status transitions. They act on the results collection, an array of result rows updated in place, and read the students and registrations of the store:
  - officer submit 2→3, all or nothing;
  - officer reject 2→1, per course;
  - administrator approve {3,4}→4 and administrator reject {3,4}→2, both all or nothing.
- `AsyncReduce` models the term pass's `async` reduce as written (see Findings).
- `ResultsSchema`, `Invites`, `UserProtection`, `ErrorHandler` and `AppAdmins` model the helpers.

Where the code and the obvious reading differ, the model follows the code:

- Term GPA divides by TCR, not TCE.
- The attempt a course is credited with is the *last* non-failing windowed result, because each passing attempt overwrites the accumulator.
- A course registered in the window but with no windowed result earns nothing and is not remarked.
- Remarks come from the core list only.
- Officer submit looks at every registration of the semester, whatever its `reg_status`.
- The carry-over pass excludes only the core list, so a current elective is counted again as a carry-over.
- A student with no registration in the year gets the placeholder message under `results`, not `data`.
- The administrator's `get_results` has no group-assignment guard.
- The administrator's reject is scoped to the cohort and semester, not to one course.

The grade mapper (`Utils.getGradeData` with the group's grade system) is
not part of this model. It is a parameter `grader: (Student, int) ->
GradeData`, and the lookup of the group's options is folded into it. A
grade fails when its ASCII lower-casing is `"f"`. The clock
(`Date.now()`) is a parameter of `NewInvite`, and fresh ids come from a
counter.

## Model

| member | source | states |
|---|---|---|
| Records.FailsIffLetterF | server/api/groupAdministrators/controller.js:640-645 | a grade fails exactly when it is "f" or "F" (lower-cased "f") |
| Records.Cohort | server/api/groupAdministrators/controller.js:917-923 | the cohort is exactly the students of the group and set who entered no later than the year, in store order |
| Records.CohortAppend | server/api/groupAdministrators/controller.js:917-923 | the cohort of a split store is the cohorts of the parts, in order, and a single student is kept iff it belongs: the query keeps store order |
| CourseLists.Bindings | server/api/groupAdministrators/controller.js:924-931 | exactly the bindings of the group and set with the requested core/elective flag |
| CourseLists.TermList | server/api/groupAdministrators/controller.js:932-940 | a binding is in the term list iff its course is of the semester and of the level |
| CourseLists.CumulativeList | server/api/groupAdministrators/controller.js:841-855 | a binding is kept iff its level is below L, or equal to L with semester at most S |
| CourseLists.InWindowIff | server/api/groupAdministrators/controller.js:763-767 | a record is in the window iff its year is before Y, or is Y with course semester at most S |
| CourseLists.TermListInCumulative | server/api/groupAdministrators/controller.js:932-940 | every course of the term list is also in the cumulative list |
| TermAggregation.RegisteredInIff | server/api/groupAdministrators/controller.js:574-579 | the per-course registration check holds iff a reg_status registration of the student for the course in the year exists |
| TermAggregation.RegisteredInYearIff | server/api/groupAdministrators/controller.js:559-563 | the opening check holds iff the student has some reg_status registration in the year |
| TermAggregation.RegisteredInGivesYear | server/api/groupAdministrators/controller.js:559-579 | a registration for one course implies the opening check passes |
| TermAggregation.VisibleResult | server/api/groupAdministrators/controller.js:596-605 | the found result is the student's for the course and year with a visible status; none is found iff no such row exists |
| TermAggregation.Graded | server/api/groupAdministrators/controller.js:594-647 | a registered course's row names the course and its units and adds the units to tcr; it is Pending iff no result was found |
| TermAggregation.GradedMeaning | server/api/groupAdministrators/controller.js:594-647 | a registered course always adds its units to tcr; without a result the row is "Pending..." with score, exam and all three CA scores 0, null grade and nothing to tce/tgp; with one, score is exam+ca1+ca2+ca3, the remark is Failed iff the grade fails, tce gains the units only on a pass, tgp gains points×units |
| TermAggregation.CourseEntry | server/api/groupAdministrators/controller.js:572-649 | a row names its course and units |
| TermAggregation.CourseEntryMeaning | server/api/groupAdministrators/controller.js:572-649 | a row is DRP iff the course is not registered, and then its score, exam and CA scores are 0 and it adds nothing; otherwise it adds the units to tcr; it is Pending iff registered with no visible result; tce gains units only on Passed |
| TermAggregation.FoldEntriesIsSum | server/api/groupAdministrators/controller.js:572-654 | the fold appends one row per course in order and adds the sum of the contributions |
| TermAggregation.Reduce | server/api/groupAdministrators/controller.js:572-654 | from a fresh accumulator, no courses leave it as initialised; otherwise data holds one row per course in order and the totals are their sum |
| TermAggregation.SingleResult | server/api/groupAdministrators/controller.js:556-657 | with no registration in the year: placeholder message under `results` and zero totals; otherwise exactly one row per course in input order and totals equal to the sum of the rows' contributions |
| TermAggregation.TermCreditsRegistered | server/api/groupAdministrators/controller.js:594-595 | tcr is the sum of the units of exactly the registered courses |
| TermAggregation.TermEarnedWithinRegistered | server/api/groupAdministrators/controller.js:594-646 | with non-negative units, 0 ≤ tce ≤ tcr |
| TermAggregation.CourseEntriesAppend | server/api/groupAdministrators/controller.js:572-654 | appending a course to the list appends exactly its row |
| TermAggregation.UnregisteredCourseAddsNothing | server/api/groupAdministrators/controller.js:580-593 | adding an unregistered course adds a DRP row and leaves the totals unchanged |
| TermAggregation.SemesterRegs | server/api/groupAdministrators/controller.js:661-673 | exactly the student's reg_status registrations of the year whose course is of the semester |
| TermAggregation.ListedIff | server/api/groupAdministrators/controller.js:676-680 | the in-list test holds iff some listed course has the registration's course id |
| TermAggregation.NotListed | server/api/groupAdministrators/controller.js:676-681 | exactly the registrations whose course is not in the list |
| TermAggregation.CarriedOver | server/api/groupAdministrators/controller.js:661-681 | never more carry-overs than registrations (membership is CarriedOverMembers) |
| TermAggregation.SingleResultCos | server/api/groupAdministrators/controller.js:658-749 | data stays the "no carryovers" message iff nothing is carried over, otherwise one row per carried-over registration; totals are the sum of their contributions |
| TermAggregation.CarriedOverMembers | server/api/groupAdministrators/controller.js:661-681 | a registration is carried over iff it is the student's reg_status registration of the year and semester and its course is not in the core list |
| TermAggregation.ElectiveAlsoCarriedOver | server/api/groupAdministrators/controller.js:676-681 | a registered elective of the semester that is not core is counted again as a carry-over |
| TermAggregation.CarryEarnedWithinRegistered | server/api/groupAdministrators/controller.js:682-734 | with non-negative units, the carry-over pass has 0 ≤ tce ≤ tcr |
| Cumulative.WindowRegs | server/api/groupAdministrators/controller.js:755-768 | exactly the student's reg_status registrations for the course inside the window |
| Cumulative.WindowResults | server/api/groupAdministrators/controller.js:774-791 | exactly the student's visible results for the course inside the window |
| Cumulative.LastPassing | server/api/groupAdministrators/controller.js:795-814 | the index of a passing attempt after which none passes; none iff no attempt passes |
| Cumulative.FoldSlapIsLastPassing | server/api/groupAdministrators/controller.js:795-814 | the attempts fold credits exactly the last passing attempt and leaves the accumulator unchanged when none passes |
| Cumulative.CourseHistory | server/api/groupAdministrators/controller.js:754-821 | a course adds either nothing or its units to ctcr, and its remark, if any, is its own code |
| Cumulative.CourseHistoryMeaning | server/api/groupAdministrators/controller.js:755-820 | a course is remarked iff it has no windowed registration or every windowed result fails; ctcr gains its units once iff registered; ctce/ctgp come from the last passing attempt only, and are zero with no result |
| Cumulative.CourseHistoryEarnedWithinRegistered | server/api/groupAdministrators/controller.js:773-820 | for a well-formed store, one course's 0 ≤ ctce ≤ ctcr |
| Cumulative.FoldHistoryIsSum | server/api/groupAdministrators/controller.js:753-825 | the course fold adds every course's contribution and appends the remarks in course order |
| Cumulative.SumHistoryRemarks | server/api/groupAdministrators/controller.js:769-818 | a code is in the remarks iff some course contributed that remark |
| Cumulative.PreviousData | server/api/groupAdministrators/controller.js:750-829 | the cumulative history is the sum of the per-course contributions, in list order |
| Cumulative.PreviousDataRemarks | server/api/groupAdministrators/controller.js:769-818 | a code is remarked iff one of the listed courses is remarked with it |
| Cumulative.PreviousDataEarnedWithinRegistered | server/api/groupAdministrators/controller.js:750-829 | for a well-formed store, 0 ≤ ctce ≤ ctcr |
| Cumulative.UnregisteredCoreIsRemark | server/api/groupAdministrators/controller.js:830-900 | a cumulative core course with no windowed registration is among the remarks |
| Cumulative.RemarkIsCoreCarryOver | server/api/groupAdministrators/controller.js:891-896 | every remark is the code of a core course of the group and set that was remarked; electives never are |
| Cumulative.PreviousEarnedWithinRegistered | server/api/groupAdministrators/controller.js:891-896 | for a well-formed store, the cumulative totals have 0 ≤ tce ≤ tcr |
| Cumulative.PreviousResult | server/api/groupAdministrators/controller.js:830-900 | the totals are the core and elective cumulative histories added field by field, each the sum of its courses' contributions; the remarks are the core history's only |
| Report.OrOne | server/api/groupAdministrators/controller.js:988-1008 | the "x or 1" guard is never zero and is x when x is non-zero |
| Report.AssembleMeaning | server/api/groupAdministrators/controller.js:976-1011 | term totals are core + elective + carry-over; previous = cumulative − term; cgpa is cumulative tgp over cumulative tce; previous gpa is over previous tce; gpa is tgp over tcr |
| Report.Assemble | server/api/groupAdministrators/controller.js:976-1011 | the report carries the student's matric and name, the three passes' data and the cumulative remarks |
| Report.StudentResult | server/api/groupAdministrators/controller.js:958-1012 | a student's report carries that student's matric and name |
| Report.GetResults | server/api/groupAdministrators/controller.js:917-1016 | 200 with the message, the term core and elective lists, and as many reports as the cohort has students |
| Report.StudentResultMeaning | server/api/groupAdministrators/controller.js:958-1012 | tcr, tce and tgp are each the sum of the core, elective and carry-over passes; previous tce, tcr and tgp plus the term's are the cumulative totals; cgpa is cumulative tgp over cumulative tce; previous gpa is previous tgp over previous tce; gpa is tgp over tcr; remarks are the cumulative remarks; core, electives and carryovers are the passes' data |
| Report.OfficerGetResults | server/api/groupAdministrators/controller.js:901-1022 | 403 "Group wasn't assigned to you." with no data iff the group is not assigned; otherwise 200 with the message and exactly the engine's response over statuses 2, 3 and 4 |
| Report.AdminGetResults | server/api/administrators/administratorController.js:540-657 | always 200 with the message and exactly the engine's response over statuses 3 and 4: no assignment guard |
| Report.ResultsPerStudent | server/api/groupAdministrators/controller.js:917-1016 | one report per cohort student, in cohort order, each the student's own |
| Report.TermPassSober | server/api/groupAdministrators/controller.js:594-647 | with non-negative units, tcr ≥ 0 and no credits registered means no grade points |
| Report.CarryPassSober | server/api/groupAdministrators/controller.js:682-734 | the same for the carry-over pass over a well-formed store |
| Report.AssembleNoCredits | server/api/groupAdministrators/controller.js:976-1008 | with zero term tcr, gpa is 0 and tgp is 0 |
| Report.NoCreditsZeroGpa | server/api/groupAdministrators/controller.js:1008 | for a well-formed store, a student with no registered credits gets gpa 0 and tgp 0 |
| Views.VisibleResultAgree | server/api/administrators/administratorController.js:248-253 | two visible sets that accept the same stored rows find the same result |
| Views.CourseEntryAgree | server/api/administrators/administratorController.js:224-297 | such sets give the same course row |
| Views.SingleResultAgree | server/api/administrators/administratorController.js:208-304 | such sets give the same term pass |
| Views.SingleResultCosAgree | server/api/administrators/administratorController.js:305-392 | such sets give the same carry-over pass |
| Views.CourseHistoryAgree | server/api/administrators/administratorController.js:396-462 | such sets give the same course history |
| Views.PreviousResultAgree | server/api/administrators/administratorController.js:469-539 | such sets give the same cumulative result |
| Views.StudentResultAgree | server/api/administrators/administratorController.js:593-649 | such sets give the same student report |
| Views.GetResultsAgree | server/api/administrators/administratorController.js:540-657 | such sets give the same response |
| Views.ViewsAgreeWithoutSubmitted | server/api/administrators/administratorController.js:252 | for an assigned group and no result in status 2, the officer's and administrator's responses are equal |
| Views.SubmittedSeenByOfficerOnly | server/api/administrators/administratorController.js:252 | the administrator never shows a status-2 result, and whatever it shows the officer also finds |
| Lifecycle.StudentKeys | server/api/groupAdministrators/controller.js:1090-1101 | every key is the student's and comes from a registration of the student in the year with a course of the semester, whatever its reg_status; every such registration gives a key; no more keys than registrations |
| Lifecycle.BatchKeys | server/api/groupAdministrators/controller.js:1087-1121 | every key belongs to a listed student and comes from a registration of the batch |
| Lifecycle.CohortKeys | server/api/groupAdministrators/controller.js:1082-1101 | every key belongs to a cohort student and comes from one of that student's registrations of the semester |
| Lifecycle.KeyInBatch | server/api/groupAdministrators/controller.js:1087-1101 | every semester registration of a listed student gives a key of the batch |
| Lifecycle.Hits | server/api/groupAdministrators/controller.js:1104-1111 | the collected rows are rows of the table for the year with a source status |
| Lifecycle.HitsMeaning | server/api/groupAdministrators/controller.js:1087-1121 | a row is collected iff it is the first match of some key |
| Lifecycle.Moved | server/api/groupAdministrators/controller.js:1126-1131 | collected rows take the new status; every other row is unchanged |
| Lifecycle.BatchEffect | server/api/groupAdministrators/controller.js:1126-1131 | after a complete batch every key's row has the new status; any changed row was for the year in a source status and only its status changed |
| Lifecycle.FindOne | server/api/groupAdministrators/controller.js:1104-1109 | the scan returns the first matching row |
| Lifecycle.CollectBatch | server/api/groupAdministrators/controller.js:1087-1121 | the check phase reports whether every key has a row, and collects the first matching row of each key |
| Lifecycle.MoveRows | server/api/groupAdministrators/controller.js:1126-1131 | the write phase leaves the table as the rows with every collected position moved to the new status |
| Lifecycle.BatchTransition | server/api/groupAdministrators/controller.js:1087-1131 | complete: the collected rows move to the new status; incomplete: 403 and the table is unchanged |
| Lifecycle.OfficerSubmit | server/api/groupAdministrators/controller.js:1066-1146 | unassigned group: 403 and nothing changes; a cohort registration without a status-2 result: 403 "You can't submit with pending results." and nothing changes; otherwise every matched row becomes 3 |
| Lifecycle.AdminApprove | server/api/administrators/administratorController.js:730-805 | a missing status-3/4 result: 403 and nothing changes; otherwise every matched row becomes 4 |
| Lifecycle.AdminReject | server/api/administrators/administratorController.js:658-729 | a missing status-3/4 result: 403 and nothing changes; otherwise every matched row of the cohort's semester becomes 2 |
| Lifecycle.MissingResultBlocks | server/api/groupAdministrators/controller.js:1104-1125 | a cohort registration of the semester with no status-2 result makes the batch incomplete |
| Lifecycle.LookupFindsRow | server/api/groupAdministrators/controller.js:1104-1110 | the `findOne` finds a row iff the store holds a matching row |
| Lifecycle.CohortCompleteIff | server/api/groupAdministrators/controller.js:1087-1125 | the batch passes its check iff every semester registration of every cohort student has a result in a source status ({2} for submission, {3, 4} for approval and rejection) |
| Lifecycle.RejectOne | server/api/groupAdministrators/controller.js:1046-1054 | only a matching status-2 row of the student for the course and year can change, and it becomes 1 |
| Lifecycle.RejectAll | server/api/groupAdministrators/controller.js:1045-1055 | the table keeps its length (its effect is RejectAllFrame and RejectAllMoves) |
| Lifecycle.RejectAllSnoc | server/api/groupAdministrators/controller.js:1045-1055 | one more student's turn comes after the others' |
| Lifecycle.RejectAllFrame | server/api/groupAdministrators/controller.js:1045-1055 | a row the rejection changes was a status-2 row of a listed student for the course and year, and it is now 1 |
| Lifecycle.RejectAllMoves | server/api/groupAdministrators/controller.js:1045-1055 | each listed student's first status-2 row for the course and year becomes 1 |
| Lifecycle.RejectTurn | server/api/groupAdministrators/controller.js:1046-1054 | one student's turn leaves the table as the rejection of that student's first status-2 row for the course and year |
| Lifecycle.RejectStudents | server/api/groupAdministrators/controller.js:1045-1055 | the turns of the listed students, in order, leave the table as their rejection |
| Lifecycle.OfficerReject | server/api/groupAdministrators/controller.js:1023-1065 | unassigned group: 403 and nothing changes; otherwise the table becomes the rejection of the cohort's rows for the course and year |
| ResultsSchema.Create | server/api/models/resultsModel.js:3-47 | a result is saved iff course, student and year are given and each score, defaulted to 0, is within its maximum; it keeps the given course, student and year |
| ResultsSchema.SavedTotalAtMost100 | server/api/models/resultsModel.js:9-32 | a saved result's total is at most 100 |
| ResultsSchema.SavedDefaults | server/api/models/resultsModel.js:9-46 | each absent score is saved as 0 and an absent status as 1; each given score and status is saved as given |
| ResultsSchema.MissingRequiredReported | server/api/models/resultsModel.js:4-41 | a missing course, student or year is reported by its path |
| ResultsSchema.NegativeScoreAccepted | server/api/models/resultsModel.js:9-32 | no minimum is declared: for any draft with its required fields, negative scores on all four fields are saved, with a negative total |
| Invites.StatusText | server/api/models/invitesModel.js:28-29 | 0 is "Active", 1 is "Used", anything else is "Blocked" |
| Invites.ToJson | server/api/models/invitesModel.js:24-31 | the token is the id, role/email/created_at pass through, the status is rendered as text |
| Invites.ChosenKind | server/api/commonFunctions.js:13-16 | the first configured kind when `type` is true, the second otherwise |
| Invites.HasActiveIff | server/api/commonFunctions.js:25-28 | the duplicate check holds iff an invite to the address has status 0 |
| Invites.ListInvites | server/api/commonFunctions.js:47-59 | every listed JSON is the rendering of a stored invite of one of the two configured roles, and every such invite is listed |
| Invites.GetOneInvite | server/api/commonFunctions.js:81-93 | 404 iff no invite has the id, otherwise 200 with that invite rendered |
| Invites.InviteStore.NewInvite | server/api/commonFunctions.js:5-46 | an active invite to the address: 400 and nothing stored; otherwise a new active invite of the chosen role is appended and 200 with the message and the rendered invite |
| Invites.InviteStore.DeleteInvite | server/api/commonFunctions.js:64-80 | no such id: 404 and nothing changes; otherwise only that invite's status becomes 2 and it is returned rendered |
| Invites.BlockedIsNotActive | server/api/commonFunctions.js:72-76 | blocking an invite in place renders it "Blocked", and an active invite to an address remains iff another invite to it is active |
| UserProtection.Stripped | server/api/commonFunctions.js:95-100 | a key is kept iff it is not one of id, user_role, root, status with a truthy value; kept values are unchanged |
| UserProtection.StrippedIdempotent | server/api/commonFunctions.js:95-100 | protecting twice is protecting once |
| UserProtection.FalsyProtectedSurvives | server/api/commonFunctions.js:95-100 | a falsy value under a protected key survives unchanged |
| UserProtection.StepsStrip | server/api/commonFunctions.js:96-99 | the four deletions in turn give the protected body |
| UserProtection.Request.UserUpdateProtection | server/api/commonFunctions.js:95-100 | the request body becomes the protected body |
| ErrorHandler.IndexOf | server/server.js:37-40 | the first occurrence of the word, and -1 iff it does not occur |
| ErrorHandler.StatusFor | server/server.js:36-42 | 400 iff the lower-cased name mentions "validation" or "cast"; 401 iff it mentions "unauthorized" and neither of those; 500 otherwise |
| ErrorHandler.HandleError | server/server.js:34-52 | the status is the classification of the name and the message is the error's own |
| ErrorHandler.ValidationAndCastAre400 | server/server.js:38-42 | ValidationError and CastError answer 400 |
| ErrorHandler.UnauthorizedIs401 | server/server.js:37 | UnauthorizedError answers 401 |
| ErrorHandler.NotMentioned | server/server.js:37-40 | a name lacking a word's first letter in both cases does not mention the word |
| ErrorHandler.PlainErrorIs500 | server/server.js:36 | a plain Error answers 500 |
| AppAdmins.ToggleUserState | server/api/administrators/administratorController.js:103-110 | the account's status becomes the value, nothing else changes, and the saved account is returned rendered |
| AppAdmins.DeleteAnswer | server/api/administrators/administratorController.js:111-132 | non-root caller: 403; root target: 403; non-administrator: 404; 200 iff all guards pass |
| AppAdmins.DeleteAppAdmin | server/api/administrators/administratorController.js:111-132 | answers by the guard chain; on success the target's status becomes false and the data is the saved target rendered; on refusal the status is unchanged and the data is empty |
| AsyncReduce.AsyncReduceRejectsFromTwo | server/api/groupAdministrators/controller.js:572-654 | as written, the term pass rejects on a list of two or more courses |
| AsyncReduce.AsyncReduceAgreesUpToOne | server/api/groupAdministrators/controller.js:572-654 | with at most one course, the code as written and the sequential reduce agree |
| AsyncReduce.TwoCoursesShowIt | server/api/groupAdministrators/controller.js:572-654 | two courses: as written it rejects, while the sequential reduce gives two rows |

## Left out

- Mongoose queries, `populate`, `save` and the Express request and response plumbing are replaced by in-memory sequences and returned values. `next()` success paths become `Next`. The `next(err)` error paths of failed queries are not modelled.
- Request validation (`req.validate`) is not modelled. The model takes well-typed requests.
- `Utils.getGradeData`, `validateGradeSystem` and the group-options lookup are not part of this model. They are the `grader` parameter. A missing group-options document, on which the source would crash, is not represented.
- `Utils.notify` notifications are left out.
- `parseFloat(x.toFixed(2))` rounding is left out. GPAs are exact `real` ratios with the `|| 1` guard.
- `toLowerCase` is modelled on ASCII letters only.
- Promise concurrency (`Promise.all`) is left out. The writes are a sequential loop over the collected rows.
- The model uses the intended sequential fold for every `async` reduce. As written, each call after the first receives the previous call's promise as `acc`:
  - The term pass rejects from the second course on (see Findings).
  - `get_results` rejects from the second student on (`[...acc]` of a promise).
  - The check phases of the officer's `save_result` and of the administrator's `save_result` and `reject_result` reject from the second student on (`[...acc.results]` of a promise, controller.js:1117, administratorController.js:705 and 777). This happens even when every student has a single registration. Within one student they also reject from the second registration of the semester (`acc.results.push` of a promise). So `Lifecycle.OfficerSubmit`, `Lifecycle.AdminApprove` and `Lifecycle.AdminReject` describe the intended batch, not what happens once the cohort has two students.
  - The write loop of the officer's `reject_result` (controller.js:1045-1054) has no check phase. From the second student on, `[...acc, await result.save()]` spreads the promise before `save()` runs and throws. Only the first student's row can be saved, and the handler ends in `next(err)` as soon as a later student has a status-2 row. `Lifecycle.OfficerReject` moves every cohort student's row.
  - `getPreviousData` rejects as soon as a course after the first is remarked (`acc.remarks.push` of a promise, controller.js:770 and 816, administratorController.js:413 and 455): a core course not registered in the window, or one with no passing attempt. Otherwise it resolves with the first call's accumulator, because later updates land on the promise objects.
  - The carry-over pass and the attempts fold inside `getPreviousData` never throw. They write later updates onto the promise objects and resolve with the first call's accumulator.
- Negative course units are not excluded by the source. Lemmas bounding tce by tcr require non-negative units (`Records.WellFormed`).
- `ResultsSchema.Create`: Mongoose's casting of non-numbers and its error-message texts are not modelled. Errors are reported by path, in schema order.
- Invites: the rendered `__v` field and the `created_at` Date type are not modelled. `getInvites`' final `_.orderBy` sorts on a key that every rendered invite shares, so the model keeps store order.
- AppAdmins.DeleteAppAdmin: the user model and its `toJson` are not part of this model, so the rendered user in the answer carries only the root flag, the role and the status.
- AppAdmins.ToggleUserState: for the same reason, the rendered saved user it returns carries only the root flag, the role and the status.
- The error handler's `data` (`err._message`, `err.stack`) and `console.log` are left out.
- Seeding, route wiring, and the CRUD of groups, courses, lecturers, students and group options are left out. So are `getAppAdmins`, `createAppAdmin` and the admin update handlers.

## Findings

| source | as written | input that shows it | evidently intended | confidence | as-written member | corrected member |
|---|---|---|---|---|---|---|
| server/api/groupAdministrators/controller.js:572-654 | `courses.reduce(async (acc, cur) => …)` passes the previous call's promise as `acc`; from the second course on, `acc.data` is `undefined` and `push` throws, so `getSingleResult` rejects | a registered student and a term list of two courses | a sequential fold that pushes one row per course and sums the totals | high (not executed) | AsyncReduce.TwoCoursesShowIt | TermAggregation.Reduce |
