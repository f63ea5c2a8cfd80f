# Attendance app model

A model, in Dafny, of a small attendance system for colleges.

- **The administrator** keeps a register of students and a library of subjects. They assign subjects to classes; a class is a degree, a department, a year and a semester. They browse the attendance history of each class.
- **Class representatives (CRs)** are students flagged as such. A CR signs in with a roll number and a password. A CR marks one session of one of the class's subjects at a time and submits it to the shared attendance log. A CR can browse the class's history. A CR can reset a forgotten password through an emailed code or a security question.

The model follows the shape of the program:

- The shell's shared state (four lists and the signed-in user) is the class `App.Store`.
- Each screen is a class whose methods are its event handlers. The screen's `useState` variables are the fields of one record, held in the class's `state` field:
  - `Login.LoginPanel`, with `Login.LoginState`;
  - `AdminConsole.AdminPanel`, with `AdminConsole.AdminState`;
  - `RepDashboard.CRPanel`, with `RepDashboard.DashboardState`.
- The handlers update the store and the screen state in place. Each handler's `ensures` gives the new record as the old one with the changed fields replaced (`state == old(state).(error := ...)`), so every field it does not set is stated unchanged. It also gives the new store, or says the store is unchanged.
- Two methods chain handlers the way a user would, and prove what the whole flow achieves:
  - `Login.ResetThenSignInFlow`: reset a password through the wizard, then sign in with it;
  - `RepDashboard.MarkOneAbsentFlow`: open a subject, mark one student absent, then submit.
- The memoised queries are pure functions:
  - class lists;
  - subject lists;
  - session lists;
  - per-student statistics;
  - session rosters.

  Their contracts say what each query returns. Lemmas relate the queries to each other.
- The two tallies that the program builds with a `forEach` loop are methods with loops, proved against their specification:
  - assignments grouped under their class label;
  - students counted per department.

  So is the bulk-assign loop.

JavaScript behaviour the model spells out:

- `parseInt` on the number inputs (`Types.ParseInt`), including NaN.
- `===` on numbers, where NaN equals nothing (`Types.SameNum`).
- The default string order of `sort()` (`Strings.StrLt`).
- Stable sorting by a comparator (`Seqs.SortBy`).
- `Array.from(new Set(...))` (`Seqs.Dedup`).
- `trim`, `toLowerCase` and `split`.
- `Math.round` of a percentage, in exact arithmetic (`Attendance.Percentage`; see "Left out" for where floating point differs).
- A missing map entry reading as false.

Modules:

| file | module | what it holds |
|---|---|---|
| wrappers.dfy | Wrappers | `Option` |
| seqs.dfy | Seqs | filter, map, dedup, find, stable sort, counting lemmas |
| strings.dfy | Strings | string order, digits, `split`, `trim`, `toLowerCase` |
| dates.dfy | IsoDates | `YYYY-MM-DD` dates and their order |
| types.dfy | Types | the records, `parseInt`, option lists, initial data |
| cohort.dfy | Cohorts | class membership, class subjects for both dashboards |
| attendance.dfy | Attendance | records of a subject, session dates, percentages, rosters |
| admin_reports.dfy | AdminReports | the administrator's history queries |
| cr_reports.dfy | CRReports | the CR's history queries |
| assignments.dfy | Assignments | duplicate test, bulk-assign loop, selection toggling |
| grouping.dfy | Grouping | grouped assignments and students per department |
| app.dfy | App | the shell: shared state, sign-in, sign-out, password reset |
| login.dfy | Login | the sign-in forms and the password-reset wizard |
| cr.dfy | RepDashboard | the CR's dashboard |
| admin.dfy | AdminConsole | the administrator's dashboard |

## Model

| member | source | states |
|---|---|---|
| Types.ParseInt | components/AdminDashboard.tsx:607-614 | `parseInt` of an empty input is NaN; a string of decimal digits reads as its value |
| Types.ParseIntRoundTrip | components/AdminDashboard.tsx:788-797 | reading back a rendered integer gives the same integer |
| Types.InitialData | types.ts:51-114 | the app starts with no students and no assignments; there are two library subjects with distinct ids and codes; 13 degrees without repeats, 22 departments and 7 security questions |
| IsoDates.StringOrderIsChronological | types.ts:31-38 | on `YYYY-MM-DD` dates, string order is exactly calendar order |
| Cohorts.CohortStudents | components/AdminDashboard.tsx:279-286 | a student is listed iff all four class fields are equal under `===` |
| Cohorts.Classmates | components/CRDashboard.tsx:47-54 | the CR's classmates are exactly the students of the CR's own class |
| Cohorts.OwnClassmate | components/CRDashboard.tsx:47-54 | a listed CR is among their own classmates iff their year and semester are numbers, because NaN matches nothing |
| Cohorts.FindCourse | components/AdminDashboard.tsx:266-276 | the first library subject with the id; None iff no subject has it |
| Cohorts.LookupsFound | components/AdminDashboard.tsx:266-276 | the lookups of the class's assignments find exactly the library subjects named by some assignment of the class |
| Cohorts.CohortSubjects | components/AdminDashboard.tsx:266-276 | a subject is listed iff some assignment of the class names it and it is still in the library; the list has one entry per assignment of the class whose subject is still in the library, in assignment order (orphans dropped, repeats kept), each the first library subject with that assignment's id |
| Cohorts.CohortSubjectsComplete | components/AdminDashboard.tsx:266-276 | with no orphan assignments, the list has one subject per assignment of the class, in order |
| Cohorts.MyCourses | components/CRDashboard.tsx:34-44 | a library subject is listed iff an assignment with the CR's department, year and semester names it, with the CR's degree or an empty degree; the list is in library order (a subsequence of the library) |
| Cohorts.MyCoursesDistinct | components/CRDashboard.tsx:34-44 | a library without repeats gives a subject list without repeats |
| Cohorts.AdminSubjectsVisibleToCR | components/CRDashboard.tsx:34-44 | every subject the administrator lists for a CR's class is on the CR's dashboard |
| Cohorts.EmptyDegreeOnlyForCR | components/CRDashboard.tsx:34-44 | the converse fails: an assignment with an empty degree reaches the CR but not the administrator's list |
| Attendance.Percentage | components/AdminDashboard.tsx:315-337 | 0 without sessions; otherwise the whole number nearest to 100·present/sessions, halves rounded up |
| Attendance.PercentageRange | components/CRDashboard.tsx:95-133 | present ≤ sessions gives at most 100; all sessions give 100 and none give 0 |
| Attendance.SubjectRecords | components/CRDashboard.tsx:95-133 | exactly the log's records of the subject, in log order (a subsequence of the log) |
| Attendance.PresentCount | components/CRDashboard.tsx:95-133 | the PRESENT records, never more than the records counted |
| Attendance.SessionDates | components/AdminDashboard.tsx:289-312 | a date is listed iff some record has it; the dates are strictly descending |
| Attendance.SessionDatesDistinct | components/AdminDashboard.tsx:289-312 | no session date appears twice |
| Attendance.SessionDatesChronological | components/AdminDashboard.tsx:289-312 | on ISO dates, the sessions run from the latest calendar day back |
| Attendance.PresentAtMostSessions | components/AdminDashboard.tsx:315-337 | with one record per student and session, a student's PRESENT count is at most the number of sessions |
| Attendance.DoubleSubmissionShows200 | components/CRDashboard.tsx:71-91 | submitting the same class twice on one date gives a student 200% |
| Attendance.RecordFor | components/AdminDashboard.tsx:340-353 | a student's first record in the session, or None iff there is none |
| Attendance.MarkOf | components/AdminDashboard.tsx:340-353 | "N/A" iff the student has no record; otherwise the status of the student's first record |
| Attendance.Roster | components/AdminDashboard.tsx:340-353 | one row per student (a permutation of the list), each with its mark, sorted by roll number |
| Attendance.OnDate | components/CRDashboard.tsx:95-133 | exactly the records with that date, in their original order |
| AdminReports.ClassRecordsOn | components/AdminDashboard.tsx:289-312 | the subject's records of that date that belong to current students of the class, in the subject's record order |
| AdminReports.HistorySessions | components/AdminDashboard.tsx:289-312 | empty without a subject; otherwise one session per date of the subject, latest first, each with the class size, its class records (a subsequence of the log, so in log order and with their repeats) and their PRESENT count |
| AdminReports.HistoryStudentStats | components/AdminDashboard.tsx:315-337 | empty without a subject; otherwise a permutation of the class sorted by roll number, each row with its PRESENT count, the session count and the rounded percentage |
| AdminReports.StatsAtMost100 | components/AdminDashboard.tsx:315-337 | with one record per student and session, every percentage is at most 100 |
| AdminReports.SessionRecords | components/AdminDashboard.tsx:340-353 | exactly the records of the subject on the date |
| AdminReports.SessionMarkIsFirstInLog | components/AdminDashboard.tsx:340-353 | a student's mark on a session roster is the status of the student's first record for that subject and date, in log order |
| AdminReports.SessionDetails | components/AdminDashboard.tsx:340-353 | None iff no date or no subject is chosen; otherwise the class roster for that session |
| CRReports.HistoryStats | components/CRDashboard.tsx:95-133 | nothing without a subject; sessions latest first, each counting every record of its date; one row per classmate sorted by roll number, with counts and percentage |
| CRReports.TotalRecordedIsSum | components/CRDashboard.tsx:95-133 | the session totals add up per date |
| CRReports.SessionsCountEveryRecord | components/CRDashboard.tsx:95-133 | the session totals add up to the number of records of the subject |
| CRReports.StatsAtMost100 | components/CRDashboard.tsx:95-133 | with one record per student and session, every percentage is at most 100 |
| CRReports.AdminPresentAtMost | components/AdminDashboard.tsx:289-312 | a session of the administrator's history counts at most the PRESENT records of its subject and date |
| CRReports.AdminCountsAtMostCR | components/CRDashboard.tsx:95-133 | both dashboards list the same session dates; the administrator's present count never exceeds the CR's |
| CRReports.SessionDetails | components/CRDashboard.tsx:136-148 | None iff no date or no subject is chosen; otherwise the classmates' roster for that session |
| Assignments.Unassigned | components/AdminDashboard.tsx:195-239 | a selected subject is kept iff it is not yet assigned to the class |
| Assignments.PlanAssignments | components/AdminDashboard.tsx:205-228 | the loop creates exactly the specified assignments; created plus duplicates equals the selection's length |
| Assignments.NewAssignmentsSpec | components/AdminDashboard.tsx:195-239 | the new assignments name the unassigned selected subjects in order, with the class's fields and the drawn ids |
| Assignments.NewAssignmentIds | components/AdminDashboard.tsx:218 | distinct drawn ids give distinct assignment ids |
| Assignments.UnassignedDistinct | components/AdminDashboard.tsx:195-239 | a selection without repeats leaves subjects to assign without repeats |
| Assignments.Toggled | components/AdminDashboard.tsx:168-174 | the toggled subject's membership flips and every other subject's stays |
| Assignments.ToggledDistinct | components/AdminDashboard.tsx:168-174 | toggling keeps the selection free of repeats |
| Assignments.ToggleTwiceUnselected | components/AdminDashboard.tsx:168-174 | toggling an unselected subject twice restores the selection exactly |
| Assignments.ToggleTwiceSelected | components/AdminDashboard.tsx:168-174 | toggling a selected subject twice keeps the same subjects and moves that one to the end |
| Assignments.AvailableCourses | components/AdminDashboard.tsx:176-193 | an id is listed iff it is a library subject not yet assigned to the class; the list is a subsequence of the library's ids, in library order |
| Assignments.AvailableDistinct | components/AdminDashboard.tsx:176-193 | distinct library ids give distinct available ids |
| Assignments.SelectAll | components/AdminDashboard.tsx:185-192 | the result is the available list or empty, and only available subjects are selected; it is empty iff the selection is as long as the available list or nothing is available |
| Assignments.SelectAllTwice | components/AdminDashboard.tsx:185-192 | from a selection of another length, select-all selects every available subject and a second click clears it |
| Assignments.SelectAllComparesLengths | components/AdminDashboard.tsx:185-192 | only lengths are compared: a stale selection as long as the available list is cleared, although an available subject was never selected |
| Grouping.GroupedSnoc | components/AdminDashboard.tsx:252-256 | filing one more element under its key keeps the grouping exact: each group is exactly the elements with its key, and each key is listed once |
| Grouping.FileByKey | components/AdminDashboard.tsx:251-256 | the loop files every element under its key, in list order, with one group per key that occurs |
| Grouping.GroupAssignments | components/AdminDashboard.tsx:250-261 | labels strictly ascending, one per label that occurs; each group is exactly the assignments with its label, in order; the groups hold every assignment once |
| Grouping.TotalSizeIsSum | components/AdminDashboard.tsx:250-261 | the group sizes are the per-label counts |
| Grouping.TallyStep | components/AdminDashboard.tsx:358-360 | counting the next student keeps the tally exact: each department's count is its number of students so far, and the keys are the departments in order of first appearance |
| Grouping.TallyByDepartment | components/AdminDashboard.tsx:357-360 | the loop gives each department that occurs its number of students, with the keys in order of first appearance |
| Grouping.DeptEntries | components/AdminDashboard.tsx:361 | one entry per department, in order of first appearance, with its number of students |
| Grouping.StudentsPerDept | components/AdminDashboard.tsx:356-362 | each department that occurs appears once with its number of students; counts are non-increasing and add up to the number of students; the result is the stable sort of `DeptEntries` by count |
| Grouping.DeptTiesInFirstAppearanceOrder | components/AdminDashboard.tsx:361 | departments with equal counts are ranked in the order in which each department's first student appears |
| Seqs.SortByStable | components/AdminDashboard.tsx:361 | the sort is stable: elements whose keys tie come out in the order they went in |
| Seqs.SomesInOrder | components/AdminDashboard.tsx:266-276 | dropping the missing lookups keeps the found ones in order and with their repeats |
| Seqs.FilterPresentAfterMap | components/AdminDashboard.tsx:266-276 | looking up and dropping the misses equals keeping the elements whose lookup succeeds, then looking up |
| Seqs.DedupFirstAppearance | components/AdminDashboard.tsx:289-312 | de-duplication lists first appearances in order: of two listed values, the earlier one occurs before any occurrence of the later one |
| Grouping.TotalCountIsSum | components/AdminDashboard.tsx:356-362 | the entry counts are the per-department counts |
| App.WithPassword | App.tsx:28-30 | each student with the id gets the new password, and nobody else changes |
| App.ResetChangesOnlyThatPassword | App.tsx:28-30 | a reset keeps every student's place and every field except that student's password |
| App.ResetTwice | App.tsx:28-30 | of two resets of one account, the last wins |
| App.Store.constructor | App.tsx:9-16 | the initial lists, no attendance, nobody signed in, login screen |
| App.Store.View | App.tsx:33-61 | admin screen iff the role is admin; CR screen iff the role is CR and there is a user |
| App.Store.Login | App.tsx:18-21 | the role is set; the user is replaced only when one is given; the data is unchanged |
| App.Store.Logout | App.tsx:23-26 | nobody is signed in, the login screen shows, and the data is unchanged |
| App.Store.ResetPassword | App.tsx:28-30 | only passwords change, as `WithPassword` says |
| Login.FindByRoll | components/Login.tsx:47-68 | the first student with the roll number; None iff there is none |
| Login.CRSignIn | components/Login.tsx:47-68 | signs in iff the first student with the roll number is a CR with a valid password; the error names the first failing check |
| Login.OnlyRepresentativesSignIn | components/Login.tsx:47-68 | a student who is not a CR never signs in, whatever the password |
| Login.ResetThenSignIn | components/Login.tsx:155-178 | after a reset to a non-empty password, signing in with it succeeds |
| Login.Identify | components/Login.tsx:87-109 | identified iff the first student with the roll number is a CR with an email or a security question, and then it is that student; otherwise the first failing check's message, the no-recovery message exactly when a CR has neither |
| Login.AnswerIgnoresCase | components/Login.tsx:140-153 | answers equal up to letter case are accepted |
| Login.AnswerIgnoresPadding | components/Login.tsx:140-153 | white space around the answer is ignored |
| Login.MaskName | components/Login.tsx:181-186 | same length; the first two characters are kept and the rest become `*` |
| Login.MaskEmail | components/Login.tsx:181-186 | a string without `@` is shown unchanged; an address keeps an `@` |
| Login.MaskEmailEmptyPart | components/Login.tsx:181-183 | `name@domain` with an empty local part or an empty domain is shown unchanged |
| Login.MaskEmailShape | components/Login.tsx:181-186 | `name@domain` keeps its length, domain, `@` and first two characters, with the rest of the name masked |
| Login.MaskEmailDropsAfterSecondAt | components/Login.tsx:181-186 | text after a second `@` is dropped |
| Login.MaskEmailIdempotent | components/Login.tsx:181-186 | masking twice equals masking once |
| Login.CodeHasFourDigits | components/Login.tsx:117 | the code drawn from 1000 to 9999 renders as exactly four digits |
| Login.LoginPanel.constructor | components/Login.tsx:12-36 | the admin tab with the demo credentials, no messages, the wizard closed |
| Login.LoginPanel.AdminLogin | components/Login.tsx:38-45 | admin/admin opens the admin screen; anything else sets the error and leaves the shell unchanged |
| Login.LoginPanel.CRLogin | components/Login.tsx:47-68 | the shell signs in exactly the student `CRSignIn` accepts; otherwise its message is shown; the rest of the screen state is unchanged |
| Login.LoginPanel.StartReset | components/Login.tsx:72-79 | the wizard opens at the identify step with cleared messages and no student; the rest of the screen state is unchanged |
| Login.LoginPanel.CancelReset | components/Login.tsx:81-85 | the wizard closes and its messages clear; the rest of the screen state is unchanged |
| Login.LoginPanel.SelectTab | components/Login.tsx:354-361 | the chosen tab shows and the messages clear; the rest of the screen state is unchanged |
| Login.LoginPanel.IdentifyStudent | components/Login.tsx:87-109 | moves to the method step with the identified CR iff `Identify` accepts; otherwise shows its message; the rest of the screen state is unchanged |
| Login.LoginPanel.SelectMethod | components/Login.tsx:111-128 | email: stores the four-digit code and goes to code entry; question: goes to the answer step; a method the account lacks only clears the error; the rest of the screen state is unchanged |
| Login.LoginPanel.VerifyEmail | components/Login.tsx:130-138 | only the code sent leads to the new-password step; the rest of the screen state is unchanged |
| Login.LoginPanel.VerifyQA | components/Login.tsx:140-153 | no stored answer or a wrong one sets an error; a matching answer leads on; the rest of the screen state is unchanged |
| Login.LoginPanel.ResetPassword | components/Login.tsx:155-178 | shorter than 4 or unconfirmed is refused with the store unchanged; otherwise the CR's password is replaced and the CR form is pre-filled; the rest of the screen state is unchanged |
| Login.LoginPanel.BackToIdentify | components/Login.tsx:278 | back to the identify step; the rest of the screen state is unchanged |
| Login.LoginPanel.BackToMethod | components/Login.tsx:294-316 | back to the method step; the rest of the screen state is unchanged |
| Login.ResetThenSignInFlow | components/Login.tsx:72-178 | from the CR tab, opening the wizard, identifying a CR, verifying by either method and setting a new password of at least 4 characters, then signing in with it, shows the CR screen for that CR with the new password |
| RepDashboard.AllMarked | components/CRDashboard.tsx:58-65 | a map with exactly the classmates' ids, all set to the value |
| RepDashboard.Toggle | components/CRDashboard.tsx:67-69 | the student's mark flips; every other mark stays |
| RepDashboard.ToggleTwice | components/CRDashboard.tsx:67-69 | toggling twice restores every mark |
| RepDashboard.SubmittedRecord | components/CRDashboard.tsx:74-81 | a classmate's record: `att_` id, date, subject, PRESENT iff marked, and the CR as marker |
| RepDashboard.Submission | components/CRDashboard.tsx:71-91 | one record per classmate, in order |
| RepDashboard.SubmissionPresentCount | components/CRDashboard.tsx:71-91 | the present count sent for the insight equals the PRESENT records submitted, when the marks are for distinct classmates |
| RepDashboard.SubmissionKeepsOneRecordPerSlot | components/CRDashboard.tsx:71-91 | a first submission of a session keeps one record per student and session |
| RepDashboard.SubmissionAddsSession | components/CRDashboard.tsx:71-91 | after submitting for a non-empty class, the date is a session of the subject |
| RepDashboard.CourseName | components/CRDashboard.tsx:87 | the subject's name, or "Unknown" when it is missing or empty |
| RepDashboard.CRPanel.constructor | components/CRDashboard.tsx:20-31 | the marking view with today's date and nothing selected |
| RepDashboard.CRPanel.StartAttendance | components/CRDashboard.tsx:58-65 | the subject is open and every classmate is marked present; the rest of the screen state is unchanged |
| RepDashboard.CRPanel.MarkAll | components/CRDashboard.tsx:295-304 | every classmate, and only classmates, get the chosen mark; the rest of the screen state is unchanged |
| RepDashboard.CRPanel.ToggleStudent | components/CRDashboard.tsx:67-69 | the marks become `Toggle` of the old marks; the rest of the screen state is unchanged |
| RepDashboard.CRPanel.SetSubmissionDate | components/CRDashboard.tsx:274 | the date changes; the marks stay; the rest of the screen state is unchanged |
| RepDashboard.CRPanel.Submit | components/CRDashboard.tsx:71-91 | nothing without a subject; otherwise the log gains `Submission`, and the request carries the subject's name, the class size and the present marks; the rest of the screen state is unchanged |
| RepDashboard.CRPanel.ReceiveInsight | components/CRDashboard.tsx:88-89 | the insight text is shown; the rest of the screen state is unchanged |
| RepDashboard.CRPanel.ReturnToDashboard | components/CRDashboard.tsx:257 | the subject and insight are cleared; the rest of the screen state is unchanged |
| RepDashboard.CRPanel.ShowMarking | components/CRDashboard.tsx:178 | marking view, history subject cleared; the rest of the screen state is unchanged |
| RepDashboard.CRPanel.ShowHistory | components/CRDashboard.tsx:190 | history view, marking subject and insight cleared; the rest of the screen state is unchanged |
| RepDashboard.CRPanel.SelectHistorySubject | components/CRDashboard.tsx:364-381 | the history subject is set or cleared; the rest of the screen state is unchanged |
| RepDashboard.CRPanel.SelectHistoryTab | components/CRDashboard.tsx:395-401 | the history's students or sessions tab shows; the rest of the screen state is unchanged |
| RepDashboard.CRPanel.ViewSession | components/CRDashboard.tsx:455 | the roster's session is set or cleared; the rest of the screen state is unchanged |
| RepDashboard.MarkOneAbsentFlow | components/CRDashboard.tsx:58-91 | opening a subject, toggling one classmate and submitting marks exactly that classmate absent and appends that submission to the log |
| AdminConsole.ClearedForm | components/AdminDashboard.tsx:75 | keeps degree, department, year and semester; everything else is blank |
| AdminConsole.EditRoundTrip | components/AdminDashboard.tsx:78-93 | opening a complete student for editing and saving unchanged gives the student back |
| AdminConsole.EditFillsAbsentEmail | components/AdminDashboard.tsx:78-93 | saving unchanged turns an absent email into an empty one |
| AdminConsole.ReplaceStudent | components/AdminDashboard.tsx:63-65 | the edited student is rebuilt from the form; everyone else is unchanged |
| AdminConsole.ReplaceKeepsIds | components/AdminDashboard.tsx:63-65 | editing keeps every id |
| AdminConsole.WithoutStudent | components/AdminDashboard.tsx:95-104 | exactly the students with another id remain |
| AdminConsole.DeleteKeepsDistinctIds | components/AdminDashboard.tsx:95-104 | deleting keeps ids distinct |
| AdminConsole.AddKeepsDistinctIds | components/AdminDashboard.tsx:66-72 | adding with a fresh id keeps ids distinct |
| AdminConsole.GeneratedStudents | services/geminiService.ts:44-55 | one student per profile, with id `gen_<stamp>_<index>` |
| AdminConsole.GeneratedStudentsFacts | services/geminiService.ts:44-55 | generated ids are distinct; the students are in the form's class and have the default password |
| AdminConsole.ReplaceCourse | components/AdminDashboard.tsx:133-135 | ids are unchanged; the edited subject takes the form's name and code |
| AdminConsole.DeleteCourseCascade | components/AdminDashboard.tsx:151-160 | no assignment of the deleted subject remains, all others stay, and no orphans appear |
| AdminConsole.AssignFromLibraryKeepsNoOrphans | components/AdminDashboard.tsx:195-239 | assigning library subjects creates no orphan assignment |
| AdminConsole.StaleSelectionCreatesOrphan | components/AdminDashboard.tsx:151-160 | a selected subject that is deleted and then assigned yields an orphan assignment |
| AdminConsole.AdminPanel.constructor | components/AdminDashboard.tsx:20-58 | blank forms, no selection, and B.Tech / Computer Science / year 1 / semester 1 for both class pickers |
| AdminConsole.AdminPanel.SetStudentForm | components/AdminDashboard.tsx:571-649 | the form takes the typed values; the rest of the screen state is unchanged |
| AdminConsole.AdminPanel.SaveStudent | components/AdminDashboard.tsx:61-76 | edits the student being edited or appends a new one with the stamp as id; then clears the form except its class; the rest of the screen state is unchanged |
| AdminConsole.AdminPanel.EditStudent | components/AdminDashboard.tsx:78-93 | the form shows the student and the student is being edited; the rest of the screen state is unchanged |
| AdminConsole.AdminPanel.CancelStudentEdit | components/AdminDashboard.tsx:106-109 | the blank form, nobody being edited; the rest of the screen state is unchanged |
| AdminConsole.AdminPanel.DeleteStudent | components/AdminDashboard.tsx:95-104 | once confirmed, the student is removed and an edit of it is cancelled; the rest of the screen state is unchanged |
| AdminConsole.AdminPanel.GenerateStudents | components/AdminDashboard.tsx:111-128 | the generated students are appended; the rest of the screen state is unchanged |
| AdminConsole.AdminPanel.SetCourseForm | components/AdminDashboard.tsx:930-937 | the subject form takes the typed values; the rest of the screen state is unchanged |
| AdminConsole.AdminPanel.SaveCourse | components/AdminDashboard.tsx:131-144 | edits the subject being edited or appends `course_<stamp>` (a stamp not yet used as an id); then blanks the form; distinct subject ids stay distinct; the rest of the screen state is unchanged |
| AdminConsole.AdminPanel.EditCourse | components/AdminDashboard.tsx:146-149 | the form shows the subject and the subject is being edited; the rest of the screen state is unchanged |
| AdminConsole.AdminPanel.CancelCourseEdit | components/AdminDashboard.tsx:162-165 | the blank form, nothing being edited; the rest of the screen state is unchanged |
| AdminConsole.AdminPanel.DeleteCourse | components/AdminDashboard.tsx:151-160 | once confirmed, the subject and its assignments are removed; the rest of the screen state is unchanged |
| AdminConsole.AdminPanel.SetAssignDegree | components/AdminDashboard.tsx:771 | the target class's degree changes and the selection stays; the rest of the screen state is unchanged |
| AdminConsole.AdminPanel.SetAssignDepartment | components/AdminDashboard.tsx:778 | the target class's department changes and the selection stays; the rest of the screen state is unchanged |
| AdminConsole.AdminPanel.SetAssignYear | components/AdminDashboard.tsx:788 | the target class's year becomes `parseInt` of the input; the rest of the screen state is unchanged |
| AdminConsole.AdminPanel.SetAssignSemester | components/AdminDashboard.tsx:797 | the target class's semester becomes `parseInt` of the input; the rest of the screen state is unchanged |
| AdminConsole.AdminPanel.ToggleCourse | components/AdminDashboard.tsx:828-840 | a subject already assigned to the class is left alone; otherwise `Toggled`, keeping the selection free of repeats; the rest of the screen state is unchanged |
| AdminConsole.AdminPanel.ToggleSelectAll | components/AdminDashboard.tsx:176-193 | `SelectAll` of the available subjects; no selected subject is already assigned; the rest of the screen state is unchanged |
| AdminConsole.AdminPanel.AssignMultiple | components/AdminDashboard.tsx:195-239 | an empty selection or a NaN year or semester changes nothing; otherwise the new assignments are appended, and the selection is cleared iff there is at least one; the rest of the screen state is unchanged |
| AdminConsole.AdminPanel.DeleteAssignment | components/AdminDashboard.tsx:241-247 | once confirmed, the assignment is removed; the rest of the screen state is unchanged |
| AdminConsole.AdminPanel.SetHistoryDegree | components/AdminDashboard.tsx:1009-1012 | the history class's degree changes and the chosen subject is cleared; the rest of the screen state is unchanged |
| AdminConsole.AdminPanel.SetHistoryDepartment | components/AdminDashboard.tsx:1019-1022 | the history class's department changes and the chosen subject is cleared; the rest of the screen state is unchanged |
| AdminConsole.AdminPanel.SetHistoryYear | components/AdminDashboard.tsx:1031-1034 | the history year becomes `parseInt` of the input and the subject is cleared; the rest of the screen state is unchanged |
| AdminConsole.AdminPanel.SetHistorySemester | components/AdminDashboard.tsx:1043-1046 | the history semester becomes `parseInt` of the input and the subject is cleared; the rest of the screen state is unchanged |
| AdminConsole.AdminPanel.SelectHistorySubject | components/AdminDashboard.tsx:1058 | the history subject is set; the rest of the screen state is unchanged |
| AdminConsole.AdminPanel.ViewSession | components/AdminDashboard.tsx:1145 | the roster's session is set or cleared; the rest of the screen state is unchanged |

## Left out

- Rendering and `alert` pop-ups are left out. So are the screen-state fields that only choose what is drawn: the administrator's `activeTab`, `manageSubTab` and `histView`, and the `loadingAI` flag (components/AdminDashboard.tsx:20-22, 57). The login tab, the reset step and the CR's history tab are modelled.
- Attendance.Percentage: computes `Math.round(present / sessions * 100)` exactly, not in double precision. The two differ when the double quotient falls just below a half: for 23 of 40 sessions the program shows 57 where the model gives 58, and for 29 of 200 it shows 14 where the model gives 15. There are 16 such pairs with at most 400 sessions.
- The dashboard summaries of the administrator's history are left out: the average attendance and the top and low lists (components/AdminDashboard.tsx:1180-1230). They use floating-point averages.
- The generative service is left out: the network calls, the prompt and its starting roll number.
  - The generated profiles are a parameter of `AdminConsole.AdminPanel.GenerateStudents`. A failed call is an empty list.
  - The insight text is a parameter of `RepDashboard.CRPanel.ReceiveInsight`. services/geminiService.ts is not part of this model beyond its post-processing of generated students.
- `Date.now()`, `Math.random()` and today's date become parameters:
  - `stamp` for ids (`AdminConsole.AdminPanel.SaveCourse` requires a stamp that no subject id uses yet, as a millisecond clock gives);
  - `ids` for assignment ids;
  - `code` for the emailed code;
  - `today`.

  The program reads `Date.now()` once per element when it builds the records of one submission (components/CRDashboard.tsx:75) and the ids of generated students (services/geminiService.ts:45). The model uses one `stamp` for the whole list, so it does not capture records or students of one list carrying different millisecond stamps. Record ids are never read, and generated ids stay distinct through their index suffix either way.

  The `assign_<now>_<random>_<courseId>` format is not built: only the distinctness of the drawn ids matters.
- `window.confirm` is the `confirmed` parameter.
- Form setters are methods that take the typed value.
- Numbers are integers or NaN. Non-integer years and semesters and hexadecimal `parseInt` input are not modelled. Neither are `localeCompare` collation (roll numbers are compared by code unit), case folding beyond ASCII and UTF-16 length.
- `Object.keys` lists integer-like keys first. Department names and class labels are treated as non-integer keys, so insertion order holds.
- `RepDashboard.CRPanel.Submit`: the insight request is returned to the caller rather than awaited. The answer arrives through `ReceiveInsight`.
- `Attendance.PercentageRange`: percentages stay within 100 only when present ≤ sessions. Submitting one class twice on one date breaks that, and the model shows it rather than excluding it (`Attendance.DoubleSubmissionShows200`).
- `Login.MaskEmailShape`: stated only for addresses with a single `@`. Text after a second `@` is dropped (`Login.MaskEmailDropsAfterSecondAt`).
- Deleting a subject does not prune the administrator's selection or the attendance records. This is modelled as is (`AdminConsole.StaleSelectionCreatesOrphan`).
