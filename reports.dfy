/** The reports service: the daily disposition of every student in scope (present by default,
    an attendance record overriding that, a covering approved or pending leave request
    overriding both), the report assembled over a window, and the unresolved absences. */
module Reports {
  import opened Wrappers
  import opened Calendar
  import opened Schema
  import opened Text
  import opened Sorting

  const MillisPerDay: int := 86400000

  /** Which table a row came from: `virtual-<studentId>-<time>`, `att-<id>` or `leave-<id>`. */
  datatype RowId = Virtual(studentId: int, time: int) | Att(recordId: int) | Leave(leaveId: int)

  function RowIdText(id: RowId): string
  {
    match id
    case Virtual(sid, time) => "virtual-" + IntText(sid) + "-" + IntText(time)
    case Att(rid) => "att-" + IntText(rid)
    case Leave(lid) => "leave-" + IntText(lid)
  }

  datatype ReportRow = ReportRow(
    id: RowId, date: Date, grade: string, className: string, studentName: string,
    status: AttendanceStatus, leaveTypeName: Option<string>, leaveStatus: Option<LeaveStatus>,
    note: Option<string>)

  /** The class-or-grade scope of a query: class ids win when any are given. */
  predicate InScope(s: Student, classIds: seq<int>, grades: seq<int>)
  {
    if classIds != [] then exists e :: e in s.enrollments && e.classId in classIds
    else if grades != [] then exists e :: e in s.enrollments && e.gradeId in grades
    else true
  }

  function StudentsInScope(students: seq<Student>, classIds: seq<int>, grades: seq<int>): (r: seq<Student>)
    ensures forall s :: s in r <==> s in students && InScope(s, classIds, grades)
  {
    if students == [] then []
    else
      var r := StudentsInScope(students[..|students| - 1], classIds, grades);
      var s := students[|students| - 1];
      assert students == students[..|students| - 1] + [s];
      if InScope(s, classIds, grades) then r + [s] else r
  }

  predicate HasStudent(students: seq<Student>, sid: int)
  {
    exists s :: s in students && s.id == sid
  }

  /** The approved and pending requests of students in scope whose span meets the window. */
  function LeaveExceptions(ls: seq<LeaveRequest>, students: seq<Student>, start: Date, end: Date): (r: seq<LeaveRequest>)
    ensures forall l :: l in r <==> l in ls && HasStudent(students, l.studentId) && Blocks(l) && l.startDate <= end && l.endDate >= start
  {
    if ls == [] then []
    else
      var r := LeaveExceptions(ls[..|ls| - 1], students, start, end);
      var l := ls[|ls| - 1];
      assert ls == ls[..|ls| - 1] + [l];
      if HasStudent(students, l.studentId) && Blocks(l) && l.startDate <= end && l.endDate >= start then r + [l] else r
  }

  /** The attendance records of students in scope inside the window. */
  function AttendanceExceptions(rs: seq<AttendanceRecord>, students: seq<Student>, start: Date, end: Date): (r: seq<AttendanceRecord>)
    ensures forall a :: a in r <==> a in rs && HasStudent(students, a.studentId) && start <= a.date <= end
  {
    if rs == [] then []
    else
      var r := AttendanceExceptions(rs[..|rs| - 1], students, start, end);
      var a := rs[|rs| - 1];
      assert rs == rs[..|rs| - 1] + [a];
      if HasStudent(students, a.studentId) && start <= a.date <= end then r + [a] else r
  }

  /** `find` of the student's record for the date: the first one in list order. */
  function FirstAttendance(rs: seq<AttendanceRecord>, sid: int, d: Date): Option<AttendanceRecord>
  {
    if rs == [] then None
    else if rs[0].studentId == sid && rs[0].date == d then Some(rs[0])
    else FirstAttendance(rs[1..], sid, d)
  }

  /** The record found is the first of the student for the date; none is found only when
      the student has no record for the date. */
  lemma {:induction false} FirstAttendanceSpec(rs: seq<AttendanceRecord>, sid: int, d: Date)
    ensures var r := FirstAttendance(rs, sid, d);
            && (r.Some? ==> exists i :: 0 <= i < |rs| && rs[i] == r.value && rs[i].studentId == sid && rs[i].date == d
                              && forall j :: 0 <= j < i ==> !(rs[j].studentId == sid && rs[j].date == d))
            && (r.None? <==> forall i :: 0 <= i < |rs| ==> !(rs[i].studentId == sid && rs[i].date == d))
  {
    if rs != [] && !(rs[0].studentId == sid && rs[0].date == d) {
      FirstAttendanceSpec(rs[1..], sid, d);
      assert forall i :: 1 <= i < |rs| ==> rs[i] == rs[1..][i - 1];
      var r := FirstAttendance(rs[1..], sid, d);
      if r.Some? {
        var i :| 0 <= i < |rs[1..]| && rs[1..][i] == r.value && rs[1..][i].studentId == sid && rs[1..][i].date == d
                 && forall j :: 0 <= j < i ==> !(rs[1..][j].studentId == sid && rs[1..][j].date == d);
        assert rs[i + 1] == r.value;
      }
    }
  }

  /** `find` of a request of the student covering the date: the first one in list order. */
  function FirstCoveringLeave(ls: seq<LeaveRequest>, sid: int, d: Date): Option<LeaveRequest>
  {
    if ls == [] then None
    else if ls[0].studentId == sid && Covers(ls[0], d) then Some(ls[0])
    else FirstCoveringLeave(ls[1..], sid, d)
  }

  /** The request found is the student's first covering the date; none is found only when
      no request of the student covers the date. */
  lemma {:induction false} FirstCoveringLeaveSpec(ls: seq<LeaveRequest>, sid: int, d: Date)
    ensures var r := FirstCoveringLeave(ls, sid, d);
            && (r.Some? ==> exists i :: 0 <= i < |ls| && ls[i] == r.value && ls[i].studentId == sid && Covers(ls[i], d)
                              && forall j :: 0 <= j < i ==> !(ls[j].studentId == sid && Covers(ls[j], d)))
            && (r.None? <==> forall i :: 0 <= i < |ls| ==> !(ls[i].studentId == sid && Covers(ls[i], d)))
  {
    if ls != [] && !(ls[0].studentId == sid && Covers(ls[0], d)) {
      FirstCoveringLeaveSpec(ls[1..], sid, d);
      assert forall i :: 1 <= i < |ls| ==> ls[i] == ls[1..][i - 1];
      var r := FirstCoveringLeave(ls[1..], sid, d);
      if r.Some? {
        var i :| 0 <= i < |ls[1..]| && ls[1..][i] == r.value && ls[1..][i].studentId == sid && Covers(ls[1..][i], d)
                 && forall j :: 0 <= j < i ==> !(ls[1..][j].studentId == sid && Covers(ls[1..][j], d));
        assert ls[i + 1] == r.value;
      }
    }
  }

  /** `attendance.leaveType?.name || null`: an empty name counts as none. */
  function NonEmptyName(n: Option<string>): (r: Option<string>)
    ensures r.Some? <==> n.Some? && n.value != ""
    ensures r.Some? ==> r == n
  {
    if n.Some? && n.value != "" then n else None
  }

  /** The `find(e => e.schoolYear === reportYear)` of the row's enrollment. */
  function EnrollmentFor(es: seq<Enrollment>, year: int): Option<Enrollment>
  {
    if es == [] then None
    else if es[0].schoolYear == year then Some(es[0])
    else EnrollmentFor(es[1..], year)
  }

  /** The enrollment found belongs to the year; none is found only when no enrollment does. */
  lemma {:induction false} EnrollmentForSpec(es: seq<Enrollment>, year: int)
    ensures var r := EnrollmentFor(es, year);
            && (r.Some? ==> r.value in es && r.value.schoolYear == year)
            && (r.None? <==> forall e :: e in es ==> e.schoolYear != year)
  {
    if es != [] && es[0].schoolYear != year {
      EnrollmentForSpec(es[1..], year);
      assert forall e :: e in es ==> e == es[0] || e in es[1..];
    }
  }

  /** The disposition of one student on one date. */
  function Resolve(s: Student, e: Enrollment, d: Date, rs: seq<AttendanceRecord>, ls: seq<LeaveRequest>): ReportRow
  {
    var base := ReportRow(Virtual(s.id, d * MillisPerDay), d, e.gradeName, e.className, s.name, Present, None, None, None);
    var withRecord :=
      match FirstAttendance(rs, s.id, d)
      case None => base
      case Some(a) => base.(status := a.status, leaveTypeName := NonEmptyName(a.leaveType), note := a.note, id := Att(a.id));
    match FirstCoveringLeave(ls, s.id, d)
    case None => withRecord
    case Some(l) => withRecord.(status := OnLeave, leaveTypeName := Some(l.leaveType), id := Leave(l.id), leaveStatus := Some(l.status))
  }

  /** The rows of one date, one per student with an enrollment in the date's UTC year. */
  function DayRows(students: seq<Student>, d: Date, rs: seq<AttendanceRecord>, ls: seq<LeaveRequest>): seq<ReportRow>
  {
    if students == [] then []
    else
      var r := DayRows(students[..|students| - 1], d, rs, ls);
      var s := students[|students| - 1];
      match EnrollmentFor(s.enrollments, CivilYear(d))
      case None => r
      case Some(e) => r + [Resolve(s, e, d, rs, ls)]
  }

  /** The rows of the first `n` dates from `start`, in date order. */
  function WindowRows(students: seq<Student>, start: Date, n: nat, rs: seq<AttendanceRecord>, ls: seq<LeaveRequest>): seq<ReportRow>
  {
    if n == 0 then []
    else WindowRows(students, start, n - 1, rs, ls) + DayRows(students, start + n - 1, rs, ls)
  }

  /** Every row of a date carries that date. */
  lemma {:induction false} DayRowsDates(students: seq<Student>, d: Date, rs: seq<AttendanceRecord>, ls: seq<LeaveRequest>)
    ensures forall row :: row in DayRows(students, d, rs, ls) ==> row.date == d
  {
    if students != [] {
      DayRowsDates(students[..|students| - 1], d, rs, ls);
    }
  }

  /** Every row of the window lies in the window. */
  lemma {:induction false} WindowRowsDates(students: seq<Student>, start: Date, n: nat, rs: seq<AttendanceRecord>, ls: seq<LeaveRequest>)
    ensures forall row :: row in WindowRows(students, start, n, rs, ls) ==> start <= row.date < start + n
  {
    if n > 0 {
      var prev := WindowRows(students, start, n - 1, rs, ls);
      var day := DayRows(students, start + n - 1, rs, ls);
      assert WindowRows(students, start, n, rs, ls) == prev + day;
      WindowRowsDates(students, start, n - 1, rs, ls);
      DayRowsDates(students, start + n - 1, rs, ls);
      forall row: ReportRow | row in prev + day
        ensures start <= row.date < start + n
      {
        if row in prev {
          assert start <= row.date < start + n - 1;
        } else {
          assert row in day;
        }
      }
    }
  }

  /** The students having an enrollment for `year`. */
  function EnrolledCount(students: seq<Student>, year: int): (n: nat)
    ensures n <= |students|
  {
    if students == [] then 0
    else
      var s := students[|students| - 1];
      EnrolledCount(students[..|students| - 1], year) + (if EnrollmentFor(s.enrollments, year).Some? then 1 else 0)
  }

  function WindowCount(students: seq<Student>, start: Date, n: nat): nat
  {
    if n == 0 then 0 else WindowCount(students, start, n - 1) + EnrolledCount(students, CivilYear(start + n - 1))
  }

  /** Exactly one row per date and per student enrolled in that date's year. */
  lemma {:induction false} DayRowsCount(students: seq<Student>, d: Date, rs: seq<AttendanceRecord>, ls: seq<LeaveRequest>)
    ensures |DayRows(students, d, rs, ls)| == EnrolledCount(students, CivilYear(d))
  {
    if students != [] {
      DayRowsCount(students[..|students| - 1], d, rs, ls);
    }
  }

  lemma {:induction false} WindowRowsCount(students: seq<Student>, start: Date, n: nat, rs: seq<AttendanceRecord>, ls: seq<LeaveRequest>)
    ensures |WindowRows(students, start, n, rs, ls)| == WindowCount(students, start, n)
  {
    if n > 0 {
      var prev := WindowRows(students, start, n - 1, rs, ls);
      var day := DayRows(students, start + n - 1, rs, ls);
      assert WindowRows(students, start, n, rs, ls) == prev + day;
      WindowRowsCount(students, start, n - 1, rs, ls);
      DayRowsCount(students, start + n - 1, rs, ls);
      assert |prev + day| == |prev| + |day|;
    }
  }

  /** The statuses filter keeps exactly the rows whose status name is listed, in order. */
  function FilterStatuses(rows: seq<ReportRow>, statuses: seq<string>): (r: seq<ReportRow>)
    ensures |r| <= |rows|
    ensures forall x :: x in r <==> x in rows && AttendanceStatusName(x.status) in statuses
  {
    if rows == [] then []
    else
      var r := FilterStatuses(rows[..|rows| - 1], statuses);
      var x := rows[|rows| - 1];
      assert rows == rows[..|rows| - 1] + [x];
      if AttendanceStatusName(x.status) in statuses then r + [x] else r
  }

  /** The filter works row by row: filtering a concatenation concatenates the filtered
      parts, so the kept rows stay in their original order. */
  lemma {:induction false} FilterStatusesConcat(a: seq<ReportRow>, b: seq<ReportRow>, statuses: seq<string>)
    ensures FilterStatuses(a + b, statuses) == FilterStatuses(a, statuses) + FilterStatuses(b, statuses)
    decreases |b|
  {
    if b == [] {
      assert a + b == a;
    } else {
      var front := b[..|b| - 1];
      var x := b[|b| - 1];
      var tail := if AttendanceStatusName(x.status) in statuses then [x] else [];
      FilterStatusesConcat(a, front, statuses);
      assert (a + b)[..|a + b| - 1] == a + front;
      assert (a + b)[|a + b| - 1] == x;
      assert FilterStatuses(a + b, statuses) == FilterStatuses(a + front, statuses) + tail;
      assert FilterStatuses(b, statuses) == FilterStatuses(front, statuses) + tail;
    }
  }

  /** A single row is kept exactly when its status name is listed. */
  lemma FilterStatusesOne(x: ReportRow, statuses: seq<string>)
    ensures FilterStatuses([x], statuses) == if AttendanceStatusName(x.status) in statuses then [x] else []
  {
    assert [x][..0] == [];
  }

  function RowDate(r: ReportRow): int { r.date }

  /** One student's row on one date, built the way the report loop builds it. */
  method ResolveRow(student: Student, enrollment: Enrollment, d: Date,
                    attendanceExceptions: seq<AttendanceRecord>, leaveExceptions: seq<LeaveRequest>)
    returns (row: ReportRow)
    ensures row == Resolve(student, enrollment, d, attendanceExceptions, leaveExceptions)
  {
    var finalStatus := Present;
    var leaveTypeName: Option<string> := None;
    var note: Option<string> := None;
    var id := Virtual(student.id, d * MillisPerDay);
    var attendance := FirstAttendance(attendanceExceptions, student.id, d);
    if attendance.Some? {
      finalStatus := attendance.value.status;
      leaveTypeName := NonEmptyName(attendance.value.leaveType);
      note := attendance.value.note;
      id := Att(attendance.value.id);
    }
    var leave := FirstCoveringLeave(leaveExceptions, student.id, d);
    if leave.Some? {
      finalStatus := OnLeave;
      leaveTypeName := Some(leave.value.leaveType);
      id := Leave(leave.value.id);
    }
    var leaveStatus: Option<LeaveStatus> := None;
    if finalStatus == OnLeave {
      var again := FirstCoveringLeave(leaveExceptions, student.id, d);
      if again.Some? {
        leaveStatus := Some(again.value.status);
      }
    }
    row := ReportRow(id, d, enrollment.gradeName, enrollment.className, student.name,
                     finalStatus, leaveTypeName, leaveStatus, note);
  }

  /** The inner loop of the report: the rows of one date. */
  method ResolveDay(studentsInScope: seq<Student>, d: Date,
                    attendanceExceptions: seq<AttendanceRecord>, leaveExceptions: seq<LeaveRequest>)
    returns (rows: seq<ReportRow>)
    ensures rows == DayRows(studentsInScope, d, attendanceExceptions, leaveExceptions)
  {
    var reportYear := CivilYear(d);
    rows := [];
    for i := 0 to |studentsInScope|
      invariant rows == DayRows(studentsInScope[..i], d, attendanceExceptions, leaveExceptions)
    {
      assert studentsInScope[..i + 1][..i] == studentsInScope[..i];
      var student := studentsInScope[i];
      var enrollment := EnrollmentFor(student.enrollments, reportYear);
      if enrollment.None? {
        continue;
      }
      var row := ResolveRow(student, enrollment.value, d, attendanceExceptions, leaveExceptions);
      rows := rows + [row];
    }
    assert studentsInScope[..|studentsInScope|] == studentsInScope;
  }

  /** The outer loop of the report: the rows of every date from `start` to `end`. */
  method ResolveWindow(studentsInScope: seq<Student>, start: Date, end: Date,
                       attendanceExceptions: seq<AttendanceRecord>, leaveExceptions: seq<LeaveRequest>)
    returns (fullReport: seq<ReportRow>)
    ensures fullReport == WindowRows(studentsInScope, start, SpanLength(start, end), attendanceExceptions, leaveExceptions)
  {
    fullReport := [];
    var d := start;
    while d <= end
      invariant start <= d && (d <= end + 1 || d == start)
      invariant fullReport == WindowRows(studentsInScope, start, d - start, attendanceExceptions, leaveExceptions)
      decreases end - d
    {
      var dayRows := ResolveDay(studentsInScope, d, attendanceExceptions, leaveExceptions);
      assert WindowRows(studentsInScope, start, d + 1 - start, attendanceExceptions, leaveExceptions)
          == fullReport + dayRows;
      fullReport := fullReport + dayRows;
      d := d + 1;
    }
  }

  /** `getAttendanceReport` for the window `start..end`. */
  method GetAttendanceReport(students: seq<Student>, records: seq<AttendanceRecord>, leaves: seq<LeaveRequest>,
                             start: Date, end: Date, classIds: seq<int>, grades: seq<int>, statuses: seq<string>)
    returns (report: seq<ReportRow>)
    ensures var scope := StudentsInScope(students, classIds, grades);
            var all := WindowRows(scope, start, SpanLength(start, end), AttendanceExceptions(records, scope, start, end),
                                  LeaveExceptions(leaves, scope, start, end));
            report == if scope == [] then [] else if statuses != [] then FilterStatuses(all, statuses) else SortDesc(all, RowDate)
  {
    var studentsInScope := StudentsInScope(students, classIds, grades);
    if |studentsInScope| == 0 {
      return [];
    }
    var attendanceExceptions := AttendanceExceptions(records, studentsInScope, start, end);
    var leaveExceptions := LeaveExceptions(leaves, studentsInScope, start, end);
    var fullReport := ResolveWindow(studentsInScope, start, end, attendanceExceptions, leaveExceptions);
    if |statuses| > 0 {
      return FilterStatuses(fullReport, statuses);
    }
    return SortDesc(fullReport, RowDate);
  }

  // ---------------------------------------------------------------------------
  // The precedence of a row.

  /** No record and no covering request: a virtual `present` row with nothing else set. */
  lemma DefaultIsPresent(s: Student, e: Enrollment, d: Date, rs: seq<AttendanceRecord>, ls: seq<LeaveRequest>)
    requires forall i :: 0 <= i < |rs| ==> !(rs[i].studentId == s.id && rs[i].date == d)
    requires forall i :: 0 <= i < |ls| ==> !(ls[i].studentId == s.id && Covers(ls[i], d))
    ensures var r := Resolve(s, e, d, rs, ls);
            r.status == Present && r.leaveTypeName.None? && r.leaveStatus.None? && r.note.None?
            && r.id == Virtual(s.id, d * MillisPerDay)
  {
    FirstAttendanceSpec(rs, s.id, d);
    FirstCoveringLeaveSpec(ls, s.id, d);
  }

  /** The student's first record for the date sets status, type and note, with no covering request. */
  lemma RecordOverridesDefault(s: Student, e: Enrollment, d: Date, rs: seq<AttendanceRecord>, ls: seq<LeaveRequest>, i: nat)
    requires i < |rs| && rs[i].studentId == s.id && rs[i].date == d
    requires forall j :: 0 <= j < i ==> !(rs[j].studentId == s.id && rs[j].date == d)
    requires forall k :: 0 <= k < |ls| ==> !(ls[k].studentId == s.id && Covers(ls[k], d))
    ensures var r := Resolve(s, e, d, rs, ls);
            r.status == rs[i].status && r.note == rs[i].note && r.id == Att(rs[i].id)
            && r.leaveTypeName == NonEmptyName(rs[i].leaveType) && r.leaveStatus.None?
  {
    FirstCoveringLeaveSpec(ls, s.id, d);
    FirstAttendanceIsFirst(rs, s.id, d, i);
  }

  lemma {:induction false} FirstAttendanceIsFirst(rs: seq<AttendanceRecord>, sid: int, d: Date, i: nat)
    requires i < |rs| && rs[i].studentId == sid && rs[i].date == d
    requires forall j :: 0 <= j < i ==> !(rs[j].studentId == sid && rs[j].date == d)
    ensures FirstAttendance(rs, sid, d) == Some(rs[i])
  {
    if i > 0 {
      FirstAttendanceIsFirst(rs[1..], sid, d, i - 1);
    }
  }

  lemma {:induction false} FirstLeaveIsFirst(ls: seq<LeaveRequest>, sid: int, d: Date, i: nat)
    requires i < |ls| && ls[i].studentId == sid && Covers(ls[i], d)
    requires forall j :: 0 <= j < i ==> !(ls[j].studentId == sid && Covers(ls[j], d))
    ensures FirstCoveringLeave(ls, sid, d) == Some(ls[i])
  {
    if i > 0 {
      FirstLeaveIsFirst(ls[1..], sid, d, i - 1);
    }
  }

  /** The first covering request in list order decides status, type, id and leave status
      alike, whatever the record says; the record's note is kept. */
  lemma LeaveOverridesRecord(s: Student, e: Enrollment, d: Date, rs: seq<AttendanceRecord>, ls: seq<LeaveRequest>, i: nat)
    requires i < |ls| && ls[i].studentId == s.id && Covers(ls[i], d)
    requires forall j :: 0 <= j < i ==> !(ls[j].studentId == s.id && Covers(ls[j], d))
    ensures var r := Resolve(s, e, d, rs, ls);
            && r.status == OnLeave && r.leaveTypeName == Some(ls[i].leaveType)
            && r.id == Leave(ls[i].id) && r.leaveStatus == Some(ls[i].status)
            && r.note == (match FirstAttendance(rs, s.id, d) case Some(a) => a.note case None => None)
  {
    FirstLeaveIsFirst(ls, s.id, d, i);
  }

  /** A leave status appears exactly when a covering request exists, and then the row is on
      leave; a record marked on leave with no covering request has none. */
  lemma LeaveStatusOnlyFromRequest(s: Student, e: Enrollment, d: Date, rs: seq<AttendanceRecord>, ls: seq<LeaveRequest>)
    ensures var r := Resolve(s, e, d, rs, ls);
            && (r.leaveStatus.Some? <==> exists i :: 0 <= i < |ls| && ls[i].studentId == s.id && Covers(ls[i], d))
            && (r.leaveStatus.Some? ==> r.status == OnLeave)
  {
    FirstCoveringLeaveSpec(ls, s.id, d);
  }

  /** Requests that are neither approved nor pending never reach a row. */
  lemma RejectedRequestIgnored(ls: seq<LeaveRequest>, l: LeaveRequest, students: seq<Student>, start: Date, end: Date)
    requires l.status == Rejected
    ensures LeaveExceptions(ls + [l], students, start, end) == LeaveExceptions(ls, students, start, end)
  {
    assert (ls + [l])[..|ls + [l]| - 1] == ls;
  }

  /** Without a statuses filter the report is in descending date order and holds every row. */
  lemma UnfilteredReportSorted(rows: seq<ReportRow>)
    ensures var r := SortDesc(rows, RowDate);
            multiset(r) == multiset(rows) && forall i, j :: 0 <= i < j < |r| ==> r[i].date >= r[j].date
  {
    var r := SortDesc(rows, RowDate);
    assert SortedDesc(r, RowDate);
    forall i, j | 0 <= i < j < |r| ensures r[i].date >= r[j].date {
      assert RowDate(r[i]) >= RowDate(r[j]);
    }
  }

  // ---------------------------------------------------------------------------
  // Unresolved absences.

  /** Some request of the same student, of any status, covers the date. */
  predicate Explained(a: AttendanceRecord, ls: seq<LeaveRequest>)
  {
    exists l :: l in ls && l.studentId == a.studentId && Covers(l, a.date)
  }

  /** Records are in scope when their student is listed and in the class-or-grade scope. */
  predicate RecordInScope(a: AttendanceRecord, students: seq<Student>, classIds: seq<int>, grades: seq<int>)
  {
    exists s :: s in students && s.id == a.studentId && InScope(s, classIds, grades)
  }

  function UnresolvedFilter(rs: seq<AttendanceRecord>, ls: seq<LeaveRequest>, students: seq<Student>,
                            classIds: seq<int>, grades: seq<int>): (r: seq<AttendanceRecord>)
    ensures forall a :: a in r <==> a in rs && a.status == Absent && RecordInScope(a, students, classIds, grades) && !Explained(a, ls)
  {
    if rs == [] then []
    else
      var r := UnresolvedFilter(rs[..|rs| - 1], ls, students, classIds, grades);
      var a := rs[|rs| - 1];
      assert rs == rs[..|rs| - 1] + [a];
      if a.status == Absent && RecordInScope(a, students, classIds, grades) && !Explained(a, ls) then r + [a] else r
  }

  function RecordDate(a: AttendanceRecord): int { a.date }

  lemma SameMembers<T>(a: seq<T>, b: seq<T>)
    requires multiset(a) == multiset(b)
    ensures forall x :: x in a <==> x in b
  {
    forall x ensures x in a <==> x in b {
      assert x in a <==> x in multiset(a);
      assert x in b <==> x in multiset(b);
    }
  }

  /** `getUnresolvedAbsencesReport`: the absent records in scope that no request covers,
      latest date first. */
  function UnresolvedAbsences(rs: seq<AttendanceRecord>, ls: seq<LeaveRequest>, students: seq<Student>,
                              classIds: seq<int>, grades: seq<int>): (r: seq<AttendanceRecord>)
    ensures forall a :: a in r <==> a in rs && a.status == Absent && RecordInScope(a, students, classIds, grades) && !Explained(a, ls)
    ensures forall i, j :: 0 <= i < j < |r| ==> r[i].date >= r[j].date
    ensures multiset(r) == multiset(UnresolvedFilter(rs, ls, students, classIds, grades))
  {
    var u := UnresolvedFilter(rs, ls, students, classIds, grades);
    SameMembers(SortDesc(u, RecordDate), u);
    SortDesc(u, RecordDate)
  }
}
