# Kindergarten attendance and leave system — a Dafny model

This project models the core logic of a kindergarten attendance and leave system. The system has a
NestJS service layer and a React front end. The model covers:

- **Statistics.** The leave ledger per student and leave type has buckets approved, pending,
  rejected and total, each holding days and hours. The model also covers the 8-hour-to-one-day
  carry, school-day counting, the late, leave-early and absent counters, per-status counts and
  the per-date roll-up.
- **Daily reports.** Each (student, date) has a disposition: present by default, overridden by an
  attendance record, overridden in turn by a covering approved or pending leave request. Report
  rows are assembled per date and enrolled student, then filtered or sorted. The model also
  covers the unresolved-absences report.
- **Class roll call.** The model covers the roll call's status precedence and the upsert keyed by
  student and date. The upsert never writes a record for a student on leave.
- **Leave requests.** Creating a request turns `HH:MM` times into timestamps. Approve and reject
  are modelled with their not-found errors.
- **Academic years.** The model covers the single-active-year rule, the promotion step (K1 and K2
  advance, NURSERY is listed for manual handling, K3 graduates) and the manual nursery assignment.
- **Class visibility.** The model covers class visibility by role and the administrator-only class
  operations.
- **Front-end logic.**
  - HolidaysTab: effective holiday status, the toggle, the submit diff, month parsing and the
    season filter. A stored date reaches the page as a JSON timestamp, while the page compares
    it with a `YYYY-MM-DD` text; the model keeps both forms.
  - StatisticsReportPage: the effective attendance rate, card aggregation with carry, and leave
    formatting.
  - AttendancePage: the changed-record diff sent on submit.
  - ReportPage: status labels, the "all classes" toggle and the request parameters.
  - AcademicTermsTab: default season windows, semester mapping, grouping, year create/delete and the
    year edit, which the page sends with PUT while the server routes only PATCH.
  - dateUtils: ROC-year conversion.
  - api.ts: the query-string builder.

Representation:

- Dates are integer day numbers counted from 1970-01-01. The weekday is `(d + 4) % 7`, with 0 as
  Sunday.
- Leave hours are kept as whole minutes, with the carry at 480 minutes (8 hours). Every carry and
  sum therefore preserves `days * 480 + minutes`.
- Leave start and end times are absolute minute timestamps (`day * 1440 + h * 60 + m`).
- Rates are exact `real` values.
- Database tables are sequences or maps. Services that update the tables are classes whose methods
  change those fields. Each method is proved against a specification function. Pure code is
  modelled as functions and lemmas.

Where the system's written description and the code differ, the model follows the code:

- When several leave requests cover a date, the first one in list order supplies the type, the
  row id and the leave status. The latest-created request does not win.
- A leave request's days are counted over its own span. They are not clipped to the report window.
- The late, leave-early and absent counters skip holiday dates only. Weekend records still count.
- `create` on a leave request whose `isFullDay` reaches the service absent still parses and stores
  its times, while the stored flag defaults to true. Over HTTP this happens only when the body sends
  `isFullDay: null`. A body that leaves the field out gets the request class's default `true` from
  the validation pipe (`transform: true`), and its times are then dropped.
- `updateAcademicYear` with `isActive` deactivates the other years before it looks the year up. An
  unknown id therefore fails after the other years have been deactivated. A year already held by
  another row also fails after that step, since the database refuses a second row with the same
  `year`.

Modules, one per source file plus shared pieces:

- `Wrappers`: Option and Result.
- `Schema`: the shared records.
- `Calendar`: weekday, school days and civil dates.
- `Sorting`: a stable descending sort by key.
- `Text`: decimal text, trimming, `parseInt` and split/join.
- The rest are `Statistics`, `Reports`, `Attendance`, `Leaves`, `Academic`, `Classes`,
  `HolidaysTab`, `StatisticsPage`, `AttendancePage`, `ReportPage`, `AcademicTermsTab`,
  `DateUtils` and `Api`.

## Model

| member | source | states |
|---|---|---|
| Calendar.SchoolDaysBetween | backend/src/statistics/statistics.service.ts:290-306 | the number of school days in start..end is at most the span length, and 0 when end < start |
| Calendar.WeekHasFiveSchoolDays | backend/src/statistics/statistics.service.ts:296-303 | any seven consecutive days hold exactly five school days when there are no holidays |
| Calendar.MoreHolidaysFewerDays | backend/src/statistics/statistics.service.ts:290-306 | adding holidays never increases the school-day count |
| Calendar.SameHolidaysInSpan | backend/src/statistics/statistics.service.ts:103-104 | only holidays inside the span affect the count, so restricting the holiday set to the window changes nothing |
| Sorting.SortDesc | backend/src/reports/reports.service.ts:150 | the result is ordered by key descending and is a permutation of the input |
| Sorting.SortDescIdempotent | backend/src/reports/reports.service.ts:236 | sorting an already sorted list changes nothing |
| Sorting.SortDescStable | backend/src/reports/reports.service.ts:150 | the sort is stable: the elements of each key come out in their input order |
| Statistics.AddTo | backend/src/statistics/statistics.service.ts:208-236 | adding to one status adds the same amount to that bucket and to total, and leaves the other buckets unchanged |
| Statistics.Carry | backend/src/statistics/statistics.service.ts:238-246 | the carry preserves days*8h + hours, leaves nonnegative hours below 8 hours, and changes nothing below 8 hours |
| Statistics.CarryLedger | backend/src/statistics/statistics.service.ts:238-246 | the carry over all four buckets preserves each bucket's value and keeps total = approved + pending + rejected |
| Statistics.LeaveMinutes | backend/src/statistics/statistics.service.ts:328-332 | the clock-time difference is under one day in size, and equals end - start for two times on the same day |
| Statistics.CountSchoolDays | backend/src/statistics/statistics.service.ts:290-325 | the counting loop returns exactly the number of school days in start..end |
| Statistics.CountRecord | backend/src/statistics/statistics.service.ts:150-184 | a holiday record changes nothing; late, leave-early and absent each raise exactly their own counter; the ledger balance is kept |
| Statistics.CountLeave | backend/src/statistics/statistics.service.ts:187-249 | a leave request initialises its type's ledger, touches no other type, and keeps the ledger balance |
| Statistics.StudentLedger | backend/src/statistics/statistics.service.ts:131-249 | the two per-student loops compute the specified tally of records and leave requests |
| Statistics.RecordLoop | backend/src/statistics/statistics.service.ts:150-184 | the record loop over one student's records yields the specified record tally |
| Statistics.LeaveLoop | backend/src/statistics/statistics.service.ts:187-249 | the leave loop over one student's requests adds the specified leave ledgers |
| Statistics.StudentTallyBalanced | backend/src/statistics/statistics.service.ts:150-249 | in every leave type's ledger the total bucket's value equals approved + pending + rejected |
| Statistics.FullDayLeaveEffect | backend/src/statistics/statistics.service.ts:208-219 | a full-day leave adds its school-day count to its own status bucket and to total, and nothing to the other buckets |
| Statistics.PartialLeaveEffect | backend/src/statistics/statistics.service.ts:220-246 | a partial-day leave adds hours times school days to its status bucket and total, then carries |
| Statistics.MissingTimeOnlyInitialises | backend/src/statistics/statistics.service.ts:192-199 | a partial-day leave without both times only initialises its type's ledger |
| Statistics.OnLeaveRecordEffect | backend/src/statistics/statistics.service.ts:164-181 | an on_leave record with a leave type adds one day to approved and to total |
| Statistics.FullDayOnlyTotals | backend/src/statistics/statistics.service.ts:208-219 | with full-day leave only, every bucket has zero hours, so total days = approved + pending + rejected days |
| Statistics.CountersCountMatching | backend/src/statistics/statistics.service.ts:150-163 | each counter equals the number of the student's non-holiday records with that status |
| Statistics.SundayToTuesdayCountsTwo | backend/src/statistics/statistics.service.ts:290-306 | a full-day leave from a Sunday to a Tuesday counts two days |
| Statistics.LeaveSpanNotClipped | backend/src/statistics/statistics.service.ts:202 | a leave reaching outside the window is counted over its whole span |
| Statistics.NineHoursCarryToOneDay | backend/src/statistics/statistics.service.ts:237-246 | a nine-hour partial leave is stored as one day and one hour |
| Statistics.ReportEnrollment | backend/src/statistics/statistics.service.ts:132-134 | the current-year enrollment is used when one exists, otherwise the first; none only when there are no enrollments |
| Statistics.RecordsInWindow | backend/src/statistics/statistics.service.ts:107-113 | exactly the records dated inside the window |
| Statistics.LeavesOverlapping | backend/src/statistics/statistics.service.ts:116-126 | exactly the leave requests overlapping the window |
| Statistics.SelectStudents | backend/src/statistics/statistics.service.ts:69-95 | exactly the students matching the optional id and having an enrollment in one of the grades |
| Statistics.GetStatisticsReport | backend/src/statistics/statistics.service.ts:40-268 | the report loop computes the specified rows from the selected students and windowed records and leaves |
| Statistics.StatisticsRowsFacts | backend/src/statistics/statistics.service.ts:131-265 | no more rows than students, each row for a student with an enrollment, totalDays = school days of the window, ledgers balanced |
| Statistics.StatisticsRowsDistinct | backend/src/statistics/statistics.service.ts:131-265 | students with distinct ids give rows with distinct student ids: at most one row per student |
| Statistics.StatusCountsSum | backend/src/statistics/statistics.service.ts:365-370 | the five status counts add up to the number of records |
| Statistics.Rate | backend/src/statistics/statistics.service.ts:373-375 | the rate is 0 with no records, otherwise rate * n = present * 100, and it lies in 0..100 |
| Statistics.QueryRecords | backend/src/statistics/statistics.service.ts:346-362 | exactly the records inside the window matching the optional class and student |
| Statistics.AttendanceStatistics | backend/src/statistics/statistics.service.ts:341-385 | totalDays is the number of matching records, the five counts sum to it, and the rate is 0 when there are none |
| Statistics.GenerateDateRange | backend/src/statistics/statistics.service.ts:590-600 | consecutive dates from start to end inclusive, empty when end < start |
| Statistics.RecordsOn | backend/src/statistics/statistics.service.ts:525-527 | exactly the records of the given date |
| Statistics.DateRow | backend/src/statistics/statistics.service.ts:529-548 | the counts sum to that date's records, and the rate is 0 with no students |
| Statistics.StatisticsByDate | backend/src/statistics/statistics.service.ts:485-552 | one row per date of the range, each the roll-up of that date's matching records |
| Reports.StudentsInScope | backend/src/reports/reports.service.ts:28-33 | exactly the students matching the class and grade filters |
| Reports.LeaveExceptions | backend/src/reports/reports.service.ts:66-75 | exactly the approved or pending leave requests of those students overlapping the window |
| Reports.AttendanceExceptions | backend/src/reports/reports.service.ts:57-63 | exactly the records of those students inside the window |
| Reports.FirstAttendanceSpec | backend/src/reports/reports.service.ts:94-97 | the first record for the student and date in list order, none when there is none |
| Reports.FirstCoveringLeaveSpec | backend/src/reports/reports.service.ts:106-110 | the first leave request covering the date in list order, none when there is none |
| Reports.NonEmptyName | backend/src/reports/reports.service.ts:100 | an empty leave-type name is treated as absent |
| Reports.EnrollmentForSpec | backend/src/reports/reports.service.ts:84 | an enrollment for the date's year when one exists, none otherwise |
| Reports.ResolveRow | backend/src/reports/reports.service.ts:87-141 | the step-by-step row resolution computes the specified disposition |
| Reports.ResolveDay | backend/src/reports/reports.service.ts:83-142 | the per-student loop yields the specified rows for the date |
| Reports.ResolveWindow | backend/src/reports/reports.service.ts:79-143 | the day loop yields the rows of every date from start to end, in date order |
| Reports.DayRowsCount | backend/src/reports/reports.service.ts:83-85 | a date has exactly one row per student enrolled in that date's year |
| Reports.WindowRowsCount | backend/src/reports/reports.service.ts:79-85 | the window has exactly one row per date and enrolled student |
| Reports.DayRowsDates | backend/src/reports/reports.service.ts:83-85 | every row built for a date carries that date |
| Reports.WindowRowsDates | backend/src/reports/reports.service.ts:79-85 | every row of the report lies between the start and end dates |
| Reports.FilterStatuses | backend/src/reports/reports.service.ts:145-148 | exactly the rows whose status is in the filter |
| Reports.FilterStatusesConcat | backend/src/reports/reports.service.ts:145-148 | filtering works row by row: the filter of a concatenation is the concatenation of the filters, so kept rows keep their order |
| Reports.FilterStatusesOne | backend/src/reports/reports.service.ts:145-148 | a single row is kept exactly when its status name is listed |
| Reports.GetAttendanceReport | backend/src/reports/reports.service.ts:27-151 | with a status filter, the filtered rows in generation order; without one, all rows sorted by date descending |
| Reports.DefaultIsPresent | backend/src/reports/reports.service.ts:88-91 | with no record and no covering leave the row is present, with no type, leave status or note and a virtual id |
| Reports.RecordOverridesDefault | backend/src/reports/reports.service.ts:94-103 | the first record for the date sets status, type name and note, and the id att-<id> |
| Reports.FirstAttendanceIsFirst | backend/src/reports/reports.service.ts:94-97 | the earliest matching record is the one chosen |
| Reports.FirstLeaveIsFirst | backend/src/reports/reports.service.ts:106-110 | the earliest covering leave is the one chosen |
| Reports.LeaveOverridesRecord | backend/src/reports/reports.service.ts:106-129 | a covering leave forces on_leave with its type, id and status, and keeps the record's note |
| Reports.LeaveStatusOnlyFromRequest | backend/src/reports/reports.service.ts:118-129 | a leave status is present exactly when a leave covers the date, and only on on_leave rows |
| Reports.RejectedRequestIgnored | backend/src/reports/reports.service.ts:69 | a rejected request never enters the leave exceptions |
| Reports.UnfilteredReportSorted | backend/src/reports/reports.service.ts:150 | the unfiltered report is a permutation of the rows, sorted by date descending |
| Reports.UnresolvedFilter | backend/src/reports/reports.service.ts:189-234 | exactly the in-scope absent records that no leave request of any status covers |
| Reports.UnresolvedAbsences | backend/src/reports/reports.service.ts:184-237 | the unresolved absences, sorted by date descending, as a permutation of the filter's result |
| Attendance.StudentsOfClass | backend/src/attendance/attendance.service.ts:12-14 | exactly the students enrolled in the class |
| Attendance.StatusMap | backend/src/attendance/attendance.service.ts:29 | keyed by exactly the students having a record on the date |
| Attendance.GetAttendanceForClass | backend/src/attendance/attendance.service.ts:11-40 | one entry per class student in order; on_leave when leave covers the date; present when there is no record |
| Attendance.StoredStatusWins | backend/src/attendance/attendance.service.ts:29-36 | a student not on leave gets the stored record's status |
| Attendance.OnLeaveIds | backend/src/attendance/attendance.service.ts:45-55 | exactly the class students with an approved or pending leave covering the date |
| Attendance.NotOnLeave | backend/src/attendance/attendance.service.ts:56 | exactly the submissions of students not on leave |
| Attendance.AttendanceTable.Upsert | backend/src/attendance/attendance.service.ts:57-71 | afterwards a record with the submitted status exists for the student and date, holding the submitted note or, when none was submitted, the note stored before; keys stay unique |
| Attendance.UpsertStoresSubmission | backend/src/attendance/attendance.service.ts:57-71 | after one upsert the record found by key has the submitted status and the submitted note, or the previously stored note when the note was omitted |
| Attendance.AttendanceTable.RecordClassAttendance | backend/src/attendance/attendance.service.ts:42-73 | the table becomes the upsert of every submission of a student not on leave |
| Attendance.UpsertUnique | backend/src/attendance/attendance.service.ts:57-71 | the upsert keeps at most one record per student and date |
| Attendance.UpsertKeepsIdentity | backend/src/attendance/attendance.service.ts:61-69 | an update changes only status and note of the record with the submitted key; id, student, class, date and creator of every stored record stay; at most one record is added |
| Attendance.UpsertAllStores | backend/src/attendance/attendance.service.ts:57-71 | every submission has a record for its student and date afterwards |
| Attendance.UpsertAllLastWins | backend/src/attendance/attendance.service.ts:56-71 | for the last submission of a student, the stored record afterwards has its status, and its note when it gives one |
| Attendance.UpsertAllKeepsKeys | backend/src/attendance/attendance.service.ts:57-71 | existing records keep their id, student and date |
| Attendance.UpsertAllUntouched | backend/src/attendance/attendance.service.ts:57-71 | records of other dates or students are unchanged |
| Attendance.UpsertAllNewRecords | backend/src/attendance/attendance.service.ts:57-71 | every new record belongs to a submitted student |
| Attendance.OnLeaveStudentsUntouched | backend/src/attendance/attendance.service.ts:45-56 | records of students on leave are unchanged and none is created for them |
| Leaves.NumberOf | backend/src/leaves/leaves.service.ts:23 | a time part is a number exactly when it is all digits |
| Leaves.Timestamp | backend/src/leaves/leaves.service.ts:24-25 | a valid clock time lands on the request's day at that minute of the day |
| Leaves.ParseHHMMRoundTrip | backend/src/leaves/leaves.service.ts:23 | a two-digit HH:MM string parses back to its hours and minutes |
| Leaves.TimeField | backend/src/leaves/leaves.service.ts:21-32 | no time when none is given or the request is full-day; otherwise the parsed timestamp, or an error exactly when the string does not parse |
| Leaves.NewLeave | backend/src/leaves/leaves.service.ts:11-53 | a new request is pending, unapproved, copies the input fields, and isFullDay defaults to true; it succeeds exactly when both time fields parse, otherwise it is InvalidTime, and the stored times are the parsed ones |
| Leaves.ServiceFlag | backend/src/leaves/dto/create-leave-request.dto.ts:29-31 | an omitted flag becomes true, an explicit null stays absent, a given flag is kept |
| Leaves.OmittedInBodyDropsTimes | backend/src/leaves/leaves.service.ts:21-32 | a body without isFullDay stores a full-day request with no times |
| Leaves.OmittedFlagKeepsTimes | backend/src/leaves/leaves.service.ts:21-26 | with isFullDay absent at the service (a null in the body) the request is full-day yet still stores its start time |
| Leaves.ApplyApprove | backend/src/leaves/leaves.service.ts:64-70 | approve sets status and approver and changes no other field |
| Leaves.ApplyReject | backend/src/leaves/leaves.service.ts:82-89 | reject sets status and approver; the reason is replaced only by a non-empty one |
| Leaves.TransitionsIgnoreStatusAndRepeat | backend/src/leaves/leaves.service.ts:55-90 | neither transition depends on the current status, and applying one twice equals applying it once |
| Leaves.LeaveTable.Create | backend/src/leaves/leaves.service.ts:11-53 | stores the new request under a fresh id, or changes nothing on error |
| Leaves.LeaveTable.Approve | backend/src/leaves/leaves.service.ts:55-71 | an unknown id gives NotFound and changes nothing; otherwise the stored request is approved |
| Leaves.LeaveTable.Reject | backend/src/leaves/leaves.service.ts:73-90 | an unknown id gives NotFound and changes nothing; otherwise the stored request is rejected |
| Academic.Deactivate | backend/src/academic/academic.service.ts:55-59 | every year except the kept one becomes inactive, nothing else changes |
| Academic.ActiveEnrollments | backend/src/academic/academic.service.ts:112-121 | exactly the previous year's enrollments of active students |
| Academic.Graduate | backend/src/academic/academic.service.ts:176-181 | the student becomes graduated with reason 畢業; other students are unchanged |
| Academic.AcademicStore.CreateAcademicYear | backend/src/academic/academic.service.ts:48-90 | a duplicate year gives Conflict and changes nothing; an active new year leaves it the only active one |
| Academic.AcademicStore.UpdateAcademicYear | backend/src/academic/academic.service.ts:223-238 | activating a year first deactivates every other year; an unknown id gives NotFound, and a year held by another row gives DuplicateYear, both with only that deactivation done; otherwise exactly the row is replaced by the input; ids and years stay unique and an activated year is the only active one |
| Academic.AcademicStore.PromoteStudents | backend/src/academic/academic.service.ts:92-204 | enrollments gain the planned promotions, K3 students graduate, and the counts are the plan's lengths |
| Academic.PlanPromotions | backend/src/academic/academic.service.ts:132-183 | the enrollment loop yields the specified plan and graduates exactly its K3 students |
| Academic.PromoteOne | backend/src/academic/academic.service.ts:133-182 | one enrollment extends the plan as the level rules say; only a K3 student is added to the graduates |
| Academic.AssignmentError | backend/src/academic/academic.service.ts:334-355 | no error exactly when the student, the class and the grade exist and the grade is NURSERY or K1; otherwise the first failing check names the error: student, class or grade not found, or grade not allowed |
| Academic.AcademicStore.ManualAssignNursery | backend/src/academic/academic.service.ts:330-383 | succeeds exactly when the checks pass; a failed check is returned as the error and nothing changes; on success the existing enrollment is updated or one is created |
| Academic.FirstEnrollmentIsFirst | backend/src/academic/academic.service.ts:369-371 | no enrollment before the one found belongs to the student and year, and none at all when nothing is found |
| Academic.CountAfterUpdate | backend/src/academic/academic.service.ts:373-377 | updating the existing enrollment keeps one enrollment per student and year |
| Academic.CountAfterAppend | backend/src/academic/academic.service.ts:380-382 | creating an enrollment adds exactly one for that student and year |
| Academic.PlanCounts | backend/src/academic/academic.service.ts:125-203 | manualK2 <= promoted, and promoted + graduated + nursery <= active enrollments |
| Academic.PlanCreatesPromotions | backend/src/academic/academic.service.ts:132-170 | K1 and K2 students without a new-year enrollment get one in the same class at the next level |
| Academic.PlanListsNursery | backend/src/academic/academic.service.ts:137-164 | every listed nursery student has a NURSERY enrollment and no new-year enrollment |
| Academic.PlanListsGraduates | backend/src/academic/academic.service.ts:137-182 | every graduated student has a K3 enrollment and no new-year enrollment |
| Academic.StepCreatesPromotion | backend/src/academic/academic.service.ts:149-170 | one loop step creates at most the promotion of its own enrollment: same student and class, the new year, the next level's grade |
| Academic.PlanPrefix | backend/src/academic/academic.service.ts:132-183 | the loop only appends: the plan of the first k enrollments is continued by the plan of all of them |
| Academic.PlanPromotesEligible | backend/src/academic/academic.service.ts:132-170 | every K1 or K2 enrollment without a new-year enrollment whose level has a next grade yields a new enrollment in the same class at that grade; K2 students are also listed for a class assignment |
| Academic.PlanListsAllNursery | backend/src/academic/academic.service.ts:132-175 | every NURSERY enrollment without a new-year enrollment lists its student for a manual decision |
| Academic.PlanGraduatesAllK3 | backend/src/academic/academic.service.ts:132-182 | every K3 enrollment without a new-year enrollment makes its student a graduate |
| Academic.GraduateAllSpec | backend/src/academic/academic.service.ts:176-181 | every listed student becomes graduated with the graduation reason; every other row is unchanged |
| Academic.GradeAtLevel | backend/src/academic/academic.service.ts:104 | a found grade is in the list and has the level |
| Academic.GradeById | backend/src/academic/academic.service.ts:133 | a found grade is in the list and has the id |
| Academic.GradeLookupsMiss | backend/src/academic/academic.service.ts:104-135 | a lookup by id or by level finds nothing only when no grade has that id or level |
| Classes.ActiveYear | backend/src/classes/classes.service.ts:15-18 | the year of an active academic year, none exactly when no year is active |
| Classes.ClassesIn | backend/src/classes/classes.service.ts:23 | exactly the classes with the given ids, ordered by id |
| Classes.AssignedIds | backend/src/classes/classes.service.ts:26-30 | exactly the class ids of the teacher's active assignments |
| Classes.EnrolledIds | backend/src/classes/classes.service.ts:39-43 | exactly the class ids with enrollments in the year |
| Classes.FindAll | backend/src/classes/classes.service.ts:11-66 | no user or role and unknown roles see nothing; results come from the class table, ordered by id |
| Classes.FindAllWithActiveYear | backend/src/classes/classes.service.ts:36-63 | with an active year: GA sees enrolled classes or all; a teacher sees that year's assigned classes or none |
| Classes.FindAllWithoutActiveYear | backend/src/classes/classes.service.ts:21-33 | with no active year: GA sees all classes; a teacher sees assigned classes, or none when there are none |
| Classes.CheckIsAdmin | backend/src/classes/classes.service.ts:68-72 | passes exactly for a GA specialist |
| Classes.ClassStore.Create | backend/src/classes/classes.service.ts:74-77 | non-admins get Forbidden and nothing changes; otherwise a new class is appended |
| Classes.ClassStore.Update | backend/src/classes/classes.service.ts:79-84 | Forbidden or NotFound change nothing; otherwise only the name changes |
| Classes.ClassStore.Remove | backend/src/classes/classes.service.ts:86-98 | Forbidden, NotFound, or refused when any enrollment references the class; otherwise exactly that class is removed |
| Classes.ClassStore.AssignTeacher | backend/src/classes/classes.service.ts:113-147 | succeeds exactly for an admin, an existing class and a teacher user; a missing class or teacher is NotFound with that id; the stored row has the given dates, isActive defaulting to true, and empty notes as null |
| Classes.CountInClass | backend/src/classes/classes.service.ts:92 | zero exactly when no enrollment references the class |
| HolidaysTab.Lookup | frontend/src/pages/admin/HolidaysTab.tsx:270-274 | the override for the date if one exists, none exactly when the date was not modified |
| HolidaysTab.IsHolidayDate | frontend/src/pages/admin/HolidaysTab.tsx:270-290 | an override decides; otherwise a listed row or a weekend makes a holiday, and since no row is ever listed that is exactly the weekends |
| HolidaysTab.IsoDateHasNoT | frontend/src/pages/admin/HolidaysTab.tsx:176 | a page date written YYYY-MM-DD holds no T |
| HolidaysTab.RenderedStampIsNoDay | backend/src/academic/academic.service.ts:312-318 | a stored row's date, which reaches the page as a timestamp YYYY-MM-DDT…, never equals a page date |
| HolidaysTab.NeverListed | frontend/src/pages/admin/HolidaysTab.tsx:277 | as written, `h.date === dateString` finds no row of the list for any date |
| HolidaysTab.DatePartRendered | frontend/src/pages/admin/HolidaysTab.tsx:277 | the part of a date text before its first T is the text of its day |
| HolidaysTab.FirstListed | frontend/src/pages/admin/HolidaysTab.tsx:311 | none exactly when no row matches the date; otherwise a matching row of the list |
| HolidaysTab.SetOverrideLookup | frontend/src/pages/admin/HolidaysTab.tsx:236-239 | setting an override changes that date's lookup only and keeps dates unique |
| HolidaysTab.Toggle | frontend/src/pages/admin/HolidaysTab.tsx:209-239 | the selected date's effective status flips and other overrides are unchanged |
| HolidaysTab.ToggleTwice | frontend/src/pages/admin/HolidaysTab.tsx:209-239 | toggling twice restores every date's effective status |
| HolidaysTab.NormalizeSlashDate | frontend/src/pages/admin/HolidaysTab.tsx:255-258 | MM/DD/YYYY becomes YYYY-MM-DD with zero-padded month and day |
| HolidaysTab.NormalizeKeepsIso | frontend/src/pages/admin/HolidaysTab.tsx:255 | a date without slashes is unchanged |
| HolidaysTab.ActionFor | frontend/src/pages/admin/HolidaysTab.tsx:309-350 | for either way of matching rows: a holiday create exactly for an unlisted weekday marked holiday; a working-day create exactly for an unlisted weekend marked school day; a delete of the first matching row exactly for a listed date marked school day; creates carry the date and season |
| HolidaysTab.WholeTextActions | frontend/src/pages/admin/HolidaysTab.tsx:309-350 | as written, whatever the list holds: a weekday marked holiday gets a holiday create, a weekend marked school day a working-day create, and nothing else is sent, never a delete |
| HolidaysTab.PlannedCreates | frontend/src/pages/admin/HolidaysTab.tsx:309-350 | exactly the create actions of the modified dates |
| HolidaysTab.PlannedDeletes | frontend/src/pages/admin/HolidaysTab.tsx:309-350 | exactly the delete actions of the modified dates |
| HolidaysTab.AtMostOneActionPerDate | frontend/src/pages/admin/HolidaysTab.tsx:309-350 | there are no more actions than modified dates |
| HolidaysTab.WeekendHolidayNeedsNoRecord | frontend/src/pages/admin/HolidaysTab.tsx:315-328 | a weekend marked holiday produces no create |
| HolidaysTab.NoDeleteSent | frontend/src/pages/admin/HolidaysTab.tsx:331-336 | as written, a submit plans no delete call |
| HolidaysTab.HolidayEditor.Open | frontend/src/pages/admin/HolidaysTab.tsx:98-101 | opening the dialog starts with no overrides |
| HolidaysTab.HolidayEditor.ToggleSelected | frontend/src/pages/admin/HolidaysTab.tsx:209-239 | the overrides become the toggled overrides |
| HolidaysTab.PlanCalls | frontend/src/pages/admin/HolidaysTab.tsx:309-350 | the loop over the modified dates queues exactly the planned creates and deletes |
| HolidaysTab.HolidayEditor.Submit | frontend/src/pages/admin/HolidaysTab.tsx:293-370 | without a season: an error and no calls; otherwise the planned calls, never a delete; when they succeed, reload only after calls, overrides cleared and dialog closed; when they fail, an error with list, marks and dialog unchanged |
| HolidaysTab.HolidaysInSeason | frontend/src/pages/admin/HolidaysTab.tsx:757-759 | season 0 shows all holidays; otherwise exactly that season's holidays |
| HolidaysTab.ParseMonth | frontend/src/pages/admin/HolidaysTab.tsx:19-37 | 0..11 for a known trimmed lower-cased name, -1 exactly when none matches |
| HolidaysTab.ParseMonthIgnoresCase | frontend/src/pages/admin/HolidaysTab.tsx:19-37 | parsing is case-insensitive |
| HolidaysTab.ParseMonthIgnoresSpace | frontend/src/pages/admin/HolidaysTab.tsx:19-37 | surrounding spaces are ignored |
| HolidaysTab.CreatedRows | frontend/src/pages/admin/HolidaysTab.tsx:320-347 | one stored row per create call, in order, with its date, description and season |
| HolidaysTab.RemainingRows | frontend/src/pages/admin/HolidaysTab.tsx:331-336 | exactly the rows not deleted |
| HolidaysTab.RemainingRowsNoDeletes | frontend/src/pages/admin/HolidaysTab.tsx:331-336 | with no delete call the list is unchanged |
| HolidaysTab.WeekdayHolidayReadsAsSchoolDay | frontend/src/pages/admin/HolidaysTab.tsx:277-347 | as written, a weekday marked holiday reads as one, its submit creates exactly one holiday row and deletes nothing, and after reload the date reads as a school day |
| HolidaysTab.ListedWeekdayIsNeverDeleted | frontend/src/pages/admin/HolidaysTab.tsx:209-347 | as written, a stored weekday holiday reads as a school day; one toggle marks it holiday and the submit stores a second row; a second toggle marks it school day and the submit sends nothing, so the list is unchanged |
| HolidaysTab.WorkingDayMarkReadsAsHoliday | frontend/src/pages/admin/HolidaysTab.tsx:277-347 | as written, a Saturday marked school day gets one working-day row, and after reload it reads as a holiday again, because the row is not found and the weekend rule applies; found by date part the row would be a listed holiday |
| HolidaysTab.CorrectedIsHolidayDate | frontend/src/pages/admin/HolidaysTab.tsx:270-290 | an override decides; a working-day row alone makes its date a school day; otherwise a row found by date part or a weekend makes a holiday |
| HolidaysTab.CorrectedMarksSurviveReload | frontend/src/pages/admin/HolidaysTab.tsx:270-359 | with rows found by date part in the lookup and the submit, and working-day rows read as school days: from holiday rows one per date and no modified weekend already listed, every submitted mark reads back unchanged after reload and every other date keeps its status |
| HolidaysTab.StoredWorkingDayKeepsSchoolDay | frontend/src/pages/admin/HolidaysTab.tsx:309-350 | for a weekend with a stored working-day row, marking it a holiday sends no call, so even the corrected lookup still reads it as a school day |
| StatisticsPage.BucketDays | frontend/src/pages/StatisticsReportPage.tsx:166-169 | days + hours/8 of a bucket |
| StatisticsPage.TotalLeaveDaysNonNegative | frontend/src/pages/StatisticsReportPage.tsx:163-169 | nonnegative totals give a nonnegative leave-day sum |
| StatisticsPage.EffectiveAttendanceRate | frontend/src/pages/StatisticsReportPage.tsx:160-180 | N/A exactly when totalDays is 0; otherwise the specified rate, never negative |
| StatisticsPage.RateBounds | frontend/src/pages/StatisticsReportPage.tsx:163-180 | with nonnegative leave the rate is in 0..100, and 100 with no absences or leave |
| StatisticsPage.RateNotClampedAbove | frontend/src/pages/StatisticsReportPage.tsx:172-180 | a negative leave total gives a rate above 100, which is not clamped |
| StatisticsPage.FormatSubData | frontend/src/pages/StatisticsReportPage.tsx:131-140 | "0" exactly when both parts are nonpositive; otherwise days 天 and/or hours 小時 |
| StatisticsPage.LeaveCellLines | frontend/src/pages/StatisticsReportPage.tsx:142-151 | pending and rejected lines appear only when their bucket is nonzero |
| StatisticsPage.LeaveTypeColumns | frontend/src/pages/StatisticsReportPage.tsx:185-189 | exactly the union of all students' leave types |
| StatisticsPage.TotalLates | frontend/src/pages/StatisticsReportPage.tsx:301 | the sum over students bounds each student's lates |
| StatisticsPage.TotalAbsents | frontend/src/pages/StatisticsReportPage.tsx:302 | the sum over students bounds each student's absences |
| StatisticsPage.TotalsConcat | frontend/src/pages/StatisticsReportPage.tsx:301-302 | the late and absent totals of a concatenation are the sums of the parts' totals |
| StatisticsPage.TotalsOfOne | frontend/src/pages/StatisticsReportPage.tsx:301-302 | one row's totals are its own late and absent counts |
| StatisticsPage.AddBucket | frontend/src/pages/StatisticsReportPage.tsx:280-290 | adding with carry preserves days*8 + hours and keeps hours in 0..8 |
| StatisticsPage.AggregateCards | frontend/src/pages/StatisticsReportPage.tsx:268-294 | one card per leave type, each slot's value the column sum; hours stay below 8 and nonnegative |
| StatisticsPage.AddRow | frontend/src/pages/StatisticsReportPage.tsx:272-292 | merging one student adds each slot's value |
| StatisticsPage.AddRowFacts | frontend/src/pages/StatisticsReportPage.tsx:272-292 | the merge's keys are the union, values add, and normal form is kept |
| AttendancePage.SnapshotLastWins | frontend/src/pages/AttendancePage.tsx:42 | the snapshot maps each student to their last row's status |
| AttendancePage.Original | frontend/src/pages/AttendancePage.tsx:74-75 | the snapshot status, or present when missing |
| AttendancePage.HandleStatusChange | frontend/src/pages/AttendancePage.tsx:55-61 | only the matching student's status changes; length, order and other rows stay |
| AttendancePage.RecordsToSubmit | frontend/src/pages/AttendancePage.tsx:72-79 | no on_leave row and no unchanged row is submitted |
| AttendancePage.SubmittedExactlyChanged | frontend/src/pages/AttendancePage.tsx:72-79 | a record is submitted exactly when its row changed and is not on_leave |
| AttendancePage.LoadedTableSendsNothing | frontend/src/pages/AttendancePage.tsx:42-79 | submitting the loaded table unchanged sends nothing |
| AttendancePage.OneEditSendsOneRecord | frontend/src/pages/AttendancePage.tsx:55-79 | one edit sends exactly that record, unless it restores the original or is on_leave |
| ReportPage.FormatStatus | frontend/src/pages/ReportPage.tsx:13-27 | on_leave with a type reads 請假 (type), plus the leave status when given; otherwise the status label |
| ReportPage.LabelsDistinct | frontend/src/pages/ReportPage.tsx:13-27 | different statuses get different labels |
| ReportPage.HandleClassChange | frontend/src/pages/ReportPage.tsx:77-81 | 'all' clears a full selection and otherwise selects every class; other choices replace the selection |
| ReportPage.AllTogglesBack | frontend/src/pages/ReportPage.tsx:77-81 | choosing 'all' twice returns to the empty selection |
| ReportPage.ClassParams | frontend/src/pages/ReportPage.tsx:133-139 | no class filter for none or all classes; otherwise the selected ids |
| ReportPage.AttendanceQuery | frontend/src/pages/ReportPage.tsx:133-140 | the attendance request sends the dates, the class filter, and the status only when one is chosen |
| ReportPage.PendingLeaveQuery | frontend/src/pages/ReportPage.tsx:141-143 | the pending-leave request sends ageFilter unless it is 'all' or empty, followed by the class filter |
| ReportPage.ClassFilterRoundTrip | frontend/src/pages/ReportPage.tsx:133-139 | the selected ids survive the query string and the server's split |
| AcademicTermsTab.FormatSeasonType | frontend/src/pages/admin/AcademicTermsTab.tsx:384-401 | known types get a two-character label; unknown ones pass through |
| AcademicTermsTab.SemesterForSeason | frontend/src/pages/admin/AcademicTermsTab.tsx:384-401 | fall and winter are the first semester, every other type the second |
| AcademicTermsTab.FallWindow | frontend/src/pages/admin/AcademicTermsTab.tsx:211-215 | fall runs from day 153 to day 274 after 1 March of the year (1 August to 30 November) |
| AcademicTermsTab.WinterWindow | frontend/src/pages/admin/AcademicTermsTab.tsx:216-220 | winter runs from day 275 to day 364 after 1 March (1 December to 28 February) |
| AcademicTermsTab.SpringWindow | frontend/src/pages/admin/AcademicTermsTab.tsx:221-225 | spring runs from 1 March of the next year to 91 days later (31 May) |
| AcademicTermsTab.SummerWindow | frontend/src/pages/admin/AcademicTermsTab.tsx:226-230 | summer runs from day 92 to day 152 after 1 March of the next year (1 June to 31 July) |
| AcademicTermsTab.DefaultWindowsOrdered | frontend/src/pages/admin/AcademicTermsTab.tsx:210-231 | the windows are ordered fall, winter, spring, summer, disjoint and non-empty |
| AcademicTermsTab.CreateYearSeasons | frontend/src/pages/admin/AcademicTermsTab.tsx:288-329 | exactly four seasons, one per type in order, tied to the new year |
| AcademicTermsTab.GroupedSeasons | frontend/src/pages/admin/AcademicTermsTab.tsx:107-118 | one group per year, each holding the first season of each type |
| AcademicTermsTab.NewYearGroup | frontend/src/pages/admin/AcademicTermsTab.tsx:288-329 | a new year's group holds its four created seasons |
| AcademicTermsTab.SetYearActive | frontend/src/pages/admin/AcademicTermsTab.tsx:268-270 | the list keeps its length and every field but isActive; the edited year gets the new flag, every other year keeps its own |
| AcademicTermsTab.YearEditNeverApplied | frontend/src/services/api.ts:100 | as written, the edit is sent with PUT, which the server does not route: the years, the dialog and the success message stay, and the error 提交失敗 is shown |
| AcademicTermsTab.PatchedYearEditApplied | frontend/src/pages/admin/AcademicTermsTab.tsx:255-335 | sent with PATCH, the edited year gets the new flag with every other field and year kept, the dialog closes and the new state is reported |
| AcademicTermsTab.KeepYears | frontend/src/pages/admin/AcademicTermsTab.tsx:375 | exactly the other years remain |
| AcademicTermsTab.KeepYearsConcat | frontend/src/pages/admin/AcademicTermsTab.tsx:375 | filtering a joined list filters each part |
| AcademicTermsTab.KeepYearsOne | frontend/src/pages/admin/AcademicTermsTab.tsx:375 | one year stays exactly when it is not the deleted one |
| AcademicTermsTab.KeepSeasons | frontend/src/pages/admin/AcademicTermsTab.tsx:376 | exactly the seasons of other years remain |
| AcademicTermsTab.DeleteKeepsOtherGroups | frontend/src/pages/admin/AcademicTermsTab.tsx:375-376 | deleting a year leaves other years' groups unchanged |
| AcademicTermsTab.DeletedYearHasNoGroup | frontend/src/pages/admin/AcademicTermsTab.tsx:375-376 | the deleted year has no seasons left |
| AcademicTermsTab.ChangeYearField | frontend/src/pages/admin/AcademicTermsTab.tsx:124-134 | a numeric year sets the name to its ROC label; other input is kept raw |
| AcademicTermsTab.TypedYearNamesRoc | frontend/src/pages/admin/AcademicTermsTab.tsx:124-162 | typing year y names it y - 1911 followed by 學年 |
| DateUtils.ToRocYear | frontend/src/utils/dateUtils.ts:8-10 | the ROC year plus 1911 is the Gregorian year |
| DateUtils.ToGregorianYear | frontend/src/utils/dateUtils.ts:17-19 | the Gregorian year minus 1911 is the ROC year |
| DateUtils.Roc2025 | frontend/src/utils/dateUtils.ts:3-10 | 2025 is ROC year 114 |
| DateUtils.FormatAcademicYear | frontend/src/utils/dateUtils.ts:26-32 | the ROC year followed by 學年; NaN for unparsable text |
| DateUtils.TextYearAsNumber | frontend/src/utils/dateUtils.ts:27-29 | a decimal string gives the same label as the number |
| DateUtils.LabelGivesYear | frontend/src/utils/dateUtils.ts:26-32 | the label's number is the ROC year |
| Api.BuildQueryParams | frontend/src/services/api.ts:19-29 | the loop yields the specified entries |
| Api.EntrySent | frontend/src/services/api.ts:19-29 | an entry is sent exactly for a key whose value is truthy or a non-empty list |
| Api.OmittedKey | frontend/src/services/api.ts:21 | a falsy value or empty list sends nothing for its key |
| Api.KeysOnce | frontend/src/services/api.ts:19-29 | each key appears at most once |
| Api.EntryAtPosition | frontend/src/services/api.ts:19-29 | entries keep the key iteration order |
| Api.ListRoundTrip | frontend/src/services/api.ts:22-23 | a list of comma-free strings is recovered by splitting at commas |

## Left out

- Persistence is not modelled: the Prisma queries, raw SQL and transactions. Tables are sequences or maps passed in or held by a class. HTTP controllers, modules, DTO decorators and authentication are not part of this model.
- Clocks are parameters: `new Date()` for "today", the current year and the default report windows. Timezones are out: `toISOString` day shifts and local weekday versus UTC year are not modelled.
- Async ordering is not modelled. `Promise.all` and every awaited call are one sequential step.
- Floating point is not modelled. Fractional hours are whole minutes, and rates are exact reals.
- Statistics.Rate: omits the `toFixed(2)` rounding of the attendance rate, which is floating-point formatting.
- Statistics.AttendanceStatistics: omits the same rounding. The default date window comes from the clock and is a parameter.
- Statistics.DateRow: omits the same rounding. Grouping by formatted date is grouping by day number.
- Statistics.StatisticsByDate: the total student count is a parameter, because it comes from a database count.
- StatisticsPage.EffectiveAttendanceRate: omits the `toFixed` rounding of the displayed percentage.
- StatisticsPage.FormatSubData: how JavaScript renders a fractional hour count is a parameter, `hoursText`, and not modelled.
- Leaves.NumberOf: accepts digit strings only. `Number` also accepts surrounding blanks, signs and decimal points, and those forms are not modelled.
- Leaves.TimeField: the `InvalidTime` error stands for the database rejecting an invalid date built from an unparsable time. The code itself has no such branch.
- getAttendanceStatisticsByClass, getAttendanceStatisticsByStudent and getPendingLeavesReport are not part of this model. They are further groupings of the same counts.
- HolidaysTab's calendar styling, observers and timers are not modelled. They are DOM work. Only the state they display is modelled.
- Academic: removeAcademicYear, updateEnrollment and the year lookups are plain table operations and are not part of this model.
- Classes: getClassTeachers is not part of this model. It is a plain query.
- HolidaysTab.ParseMonth: looks names up in the listed aliases only. The source indexes a plain object, so an inherited key such as `constructor` yields a function rather than -1. JavaScript's `trim` and `toLowerCase` also cover all Unicode white space and letters, for example an ideographic space before `一月`; the model trims ASCII spaces and lower-cases ASCII letters.
- Academic.AcademicStore.PromoteStudents: `createMany` with `skipDuplicates` is a plain append. The database's uniqueness rules are not part of this model, so when two active enrollments of one student both yield a new enrollment, the model stores two rows where the database may keep one. `promoted` counts the planned rows in both.
- Attendance.UpsertRecord: a note is either given or omitted. An explicit `null` note, which the optional check lets through and which clears the stored note, is not modelled.
- HolidaysTab: dates are day numbers, and a row's date reaches the page as a midnight timestamp. The model takes the texts of different days to differ, which holds for the four-digit years the calendar shows. Rows stored at another time of day also render with a `T`, so they are not found either; the model gives every row the midnight time.
- AcademicTermsTab.SubmitYearEdit: the three-second timer that clears the success message is not modelled, nor the create branch of the same handler, which is modelled by CreateYearSeasons.
- The current semester lookup in statistics.service.ts is not modelled. It sets a default window from the clock, and the window is a parameter.

## Findings

| source | as written | input that shows it | evidently intended | confidence | as-written member | corrected member |
|---|---|---|---|---|---|---|
| frontend/src/pages/admin/HolidaysTab.tsx:277 | stored rows are looked up with `h.date === dateString`, but the list comes from the API as JSON, where a row's date is a timestamp such as 2025-06-02T00:00:00.000Z, so no row is ever found | mark Monday 2025-06-02 a holiday, submit, then reload: the date reads as a school day, and toggling it twice sends no delete | rows should be found by the date part of their timestamp, so every submitted mark reads back unchanged after reload | not executed | HolidaysTab.WeekdayHolidayReadsAsSchoolDay | HolidaysTab.CorrectedMarksSurviveReload |
| frontend/src/pages/admin/HolidaysTab.tsx:277-347 | marking a weekend as a working day stores a row described as a working day, but after reload the Saturday reads as a holiday again: the row is not found and the weekend rule applies; found by date part, the row would count as a listed holiday | mark Saturday 2025-05-31 a school day, submit, then reload | a stored working-day row should make its weekend a school day; the corrected lookup is proved to achieve this for a first submit over holiday rows only, with no modified weekend already listed, and beyond that the calls would need correcting too (HolidaysTab.StoredWorkingDayKeepsSchoolDay) | not executed | HolidaysTab.WorkingDayMarkReadsAsHoliday | HolidaysTab.CorrectedMarksSurviveReload |
| frontend/src/services/api.ts:100 | the year edit is sent as PUT `/academic/years/:id`, but the server declares that route with PATCH (backend/src/academic/academic.controller.ts:53) | open an existing year, switch it to active and submit: the request is refused and the dialog shows 提交失敗 | the request should be sent with PATCH, so the list takes the new flag | not executed | AcademicTermsTab.YearEditNeverApplied | AcademicTermsTab.PatchedYearEditApplied |
