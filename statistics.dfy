/** The statistics service: per-student leave ledgers with the 8-hour carry, the late /
    leave-early / absent counters, school-day counting, and the status counts per window
    and per date. */
module Statistics {
  import opened Wrappers
  import opened Calendar
  import opened Schema

  /** Eight hours make one standard day. Ledger hours are kept in minutes. */
  const DayMinutes: int := 480
  const MinutesPerCalendarDay: int := 1440

  datatype Bucket = Bucket(days: int, minutes: int)

  /** The four buckets kept per leave-type name. */
  datatype Ledger = Ledger(approved: Bucket, pending: Bucket, rejected: Bucket, total: Bucket)

  const Zero := Bucket(0, 0)
  const EmptyLedger := Ledger(Zero, Zero, Zero, Zero)

  /** What a bucket is worth in minutes: `days * 8 hours + hours`. */
  function Value(b: Bucket): int { b.days * DayMinutes + b.minutes }

  function StatusBucket(l: Ledger, s: LeaveStatus): Bucket
  {
    match s
    case Approved => l.approved
    case Pending => l.pending
    case Rejected => l.rejected
  }

  /** The total is worth exactly what the three status buckets are worth together. */
  predicate Balanced(l: Ledger)
  {
    Value(l.total) == Value(l.approved) + Value(l.pending) + Value(l.rejected)
  }

  predicate AllBalanced(counts: map<string, Ledger>)
  {
    forall k :: k in counts ==> Balanced(counts[k])
  }

  function Plus(b: Bucket, days: int, minutes: int): Bucket
  {
    Bucket(b.days + days, b.minutes + minutes)
  }

  /** Adds to the bucket of status `s` and to `total`; the other two buckets keep their value. */
  function AddTo(l: Ledger, s: LeaveStatus, days: int, minutes: int): (r: Ledger)
    ensures Value(StatusBucket(r, s)) == Value(StatusBucket(l, s)) + days * DayMinutes + minutes
    ensures Value(r.total) == Value(l.total) + days * DayMinutes + minutes
    ensures forall o: LeaveStatus :: o != s ==> StatusBucket(r, o) == StatusBucket(l, o)
    ensures Balanced(l) ==> Balanced(r)
  {
    match s
    case Approved => l.(approved := Plus(l.approved, days, minutes), total := Plus(l.total, days, minutes))
    case Pending => l.(pending := Plus(l.pending, days, minutes), total := Plus(l.total, days, minutes))
    case Rejected => l.(rejected := Plus(l.rejected, days, minutes), total := Plus(l.total, days, minutes))
  }

  /** The hour-to-day carry of one bucket: whole 8-hour blocks become days. */
  function Carry(b: Bucket): (r: Bucket)
    ensures Value(r) == Value(b)
    ensures b.minutes >= 0 ==> 0 <= r.minutes < DayMinutes
    ensures b.minutes < DayMinutes ==> r == b
  {
    var extra := b.minutes / DayMinutes;
    if extra > 0 then Bucket(b.days + extra, b.minutes % DayMinutes) else b
  }

  /** The carry applied to each of the four buckets independently. */
  function CarryLedger(l: Ledger): (r: Ledger)
    ensures forall s: LeaveStatus :: Value(StatusBucket(r, s)) == Value(StatusBucket(l, s))
    ensures Value(r.total) == Value(l.total)
    ensures Balanced(l) ==> Balanced(r)
  {
    Ledger(Carry(l.approved), Carry(l.pending), Carry(l.rejected), Carry(l.total))
  }

  /** `calculateLeaveHours`, in minutes: minute of day of the end time minus that of the start time. */
  function LeaveMinutes(startTime: int, endTime: int): (m: int)
    ensures -MinutesPerCalendarDay < m < MinutesPerCalendarDay
    ensures startTime / MinutesPerCalendarDay == endTime / MinutesPerCalendarDay ==> m == endTime - startTime
  {
    endTime % MinutesPerCalendarDay - startTime % MinutesPerCalendarDay
  }

  /** `calculateLeaveDays` and `calculateTotalDays` (the two are the same loop). */
  method CountSchoolDays(start: Date, end: Date, holidays: set<Date>) returns (days: nat)
    ensures days == SchoolDaysBetween(start, end, holidays)
  {
    days := 0;
    var current := start;
    while current <= end
      invariant start <= current && (current <= end + 1 || current == start)
      invariant days == SchoolDaysBetween(start, current - 1, holidays)
      decreases end - current
    {
      var dayOfWeek := Weekday(current);
      if current !in holidays && dayOfWeek != 0 && dayOfWeek != 6 {
        days := days + 1;
      }
      current := current + 1;
    }
  }

  // ---------------------------------------------------------------------------
  // The per-student ledger of getStatisticsReport, as a specification.

  /** Ledgers by leave-type name and the three raw counters. */
  datatype Tally = Tally(counts: map<string, Ledger>, late: nat, leaveEarly: nat, absent: nat)

  const EmptyTally := Tally(map[], 0, 0, 0)

  /** Makes sure a leave type has its four buckets. */
  function WithType(counts: map<string, Ledger>, name: string): (r: map<string, Ledger>)
    ensures r.Keys == counts.Keys + {name}
    ensures forall k :: k in counts ==> r[k] == counts[k]
    ensures name !in counts ==> r[name] == EmptyLedger
  {
    if name in counts then counts else counts[name := EmptyLedger]
  }

  /** One step of the attendance-record loop. */
  function CountRecord(t: Tally, r: AttendanceRecord, holidays: set<Date>): (u: Tally)
    ensures r.date in holidays ==> u == t
    ensures u.late == t.late + (if r.status == Late && r.date !in holidays then 1 else 0)
    ensures u.leaveEarly == t.leaveEarly + (if r.status == LeaveEarly && r.date !in holidays then 1 else 0)
    ensures u.absent == t.absent + (if r.status == Absent && r.date !in holidays then 1 else 0)
    ensures AllBalanced(t.counts) ==> AllBalanced(u.counts)
  {
    if r.date in holidays then t
    else
      match r.status
      case Late => t.(late := t.late + 1)
      case LeaveEarly => t.(leaveEarly := t.leaveEarly + 1)
      case Absent => t.(absent := t.absent + 1)
      case OnLeave =>
        if r.leaveType.Some? then
          var c := WithType(t.counts, r.leaveType.value);
          t.(counts := c[r.leaveType.value := AddTo(c[r.leaveType.value], Approved, 1, 0)])
        else t
      case Present => t
  }

  /** The attendance-record loop over the records of student `sid`. */
  function CountRecords(rs: seq<AttendanceRecord>, sid: int, holidays: set<Date>): Tally
  {
    if rs == [] then EmptyTally
    else
      var t := CountRecords(rs[..|rs| - 1], sid, holidays);
      var r := rs[|rs| - 1];
      if r.studentId == sid then CountRecord(t, r, holidays) else t
  }

  /** One step of the leave-request loop. The day count runs over the request's own
      span, not clipped to the report window. The carry runs only for a partial-day
      request with both times. */
  function CountLeave(counts: map<string, Ledger>, l: LeaveRequest, holidays: set<Date>): (r: map<string, Ledger>)
    ensures r.Keys == counts.Keys + {l.leaveType}
    ensures forall k :: k in counts && k != l.leaveType ==> r[k] == counts[k]
    ensures AllBalanced(counts) ==> AllBalanced(r)
  {
    var c := WithType(counts, l.leaveType);
    var g := c[l.leaveType];
    var leaveDays := SchoolDaysBetween(l.startDate, l.endDate, holidays);
    var u :=
      if l.isFullDay then AddTo(g, l.status, leaveDays, 0)
      else if l.startTime.Some? && l.endTime.Some? then
        CarryLedger(AddTo(g, l.status, 0, LeaveMinutes(l.startTime.value, l.endTime.value) * leaveDays))
      else g;
    BalancedUpdate(counts, l.leaveType, u);
    c[l.leaveType := u]
  }

  /** Replacing one ledger by a balanced one keeps every ledger balanced. */
  lemma BalancedUpdate(counts: map<string, Ledger>, name: string, u: Ledger)
    ensures AllBalanced(counts) && Balanced(u) ==> AllBalanced(WithType(counts, name)[name := u])
  {
  }

  function CountLeaves(counts: map<string, Ledger>, ls: seq<LeaveRequest>, sid: int, holidays: set<Date>): map<string, Ledger>
  {
    if ls == [] then counts
    else
      var c := CountLeaves(counts, ls[..|ls| - 1], sid, holidays);
      var l := ls[|ls| - 1];
      if l.studentId == sid then CountLeave(c, l, holidays) else c
  }

  function StudentTally(sid: int, records: seq<AttendanceRecord>, leaves: seq<LeaveRequest>, holidays: set<Date>): Tally
  {
    var t := CountRecords(records, sid, holidays);
    t.(counts := CountLeaves(t.counts, leaves, sid, holidays))
  }

  /** The two per-student loops of getStatisticsReport. */
  method StudentLedger(sid: int, records: seq<AttendanceRecord>, leaves: seq<LeaveRequest>, holidays: set<Date>)
    returns (t: Tally)
    ensures t == StudentTally(sid, records, leaves, holidays)
  {
    t := RecordLoop(sid, records, holidays);
    var counts := LeaveLoop(t.counts, sid, leaves, holidays);
    t := t.(counts := counts);
  }

  /** The attendance-record loop: counters and `on_leave` days, holidays skipped. */
  method RecordLoop(sid: int, records: seq<AttendanceRecord>, holidays: set<Date>) returns (t: Tally)
    ensures t == CountRecords(records, sid, holidays)
  {
    t := EmptyTally;
    for i := 0 to |records|
      invariant t == CountRecords(records[..i], sid, holidays)
    {
      assert records[..i + 1][..i] == records[..i];
      if records[i].studentId == sid {
        t := RecordStep(t, records[i], holidays);
      }
    }
    assert records[..|records|] == records;
  }

  /** The body of the attendance-record loop for one record of the student. */
  method RecordStep(t: Tally, record: AttendanceRecord, holidays: set<Date>) returns (u: Tally)
    ensures u == CountRecord(t, record, holidays)
  {
    var counts := t.counts;
    var lateDays, leaveEarlyDays, absentDays := t.late, t.leaveEarly, t.absent;
    if record.date !in holidays {
      match record.status {
        case Late => lateDays := lateDays + 1;
        case LeaveEarly => leaveEarlyDays := leaveEarlyDays + 1;
        case Absent => absentDays := absentDays + 1;
        case OnLeave =>
          if record.leaveType.Some? {
            var name := record.leaveType.value;
            if name !in counts {
              counts := counts[name := EmptyLedger];
            }
            var g := counts[name];
            g := g.(approved := Bucket(g.approved.days + 1, g.approved.minutes));
            g := g.(total := Bucket(g.total.days + 1, g.total.minutes));
            counts := counts[name := g];
          }
        case Present =>
      }
    }
    u := Tally(counts, lateDays, leaveEarlyDays, absentDays);
  }

  /** The leave-request loop over the requests of student `sid`. */
  method LeaveLoop(base: map<string, Ledger>, sid: int, leaves: seq<LeaveRequest>, holidays: set<Date>)
    returns (counts: map<string, Ledger>)
    ensures counts == CountLeaves(base, leaves, sid, holidays)
  {
    counts := base;
    for j := 0 to |leaves|
      invariant counts == CountLeaves(base, leaves[..j], sid, holidays)
    {
      assert leaves[..j + 1][..j] == leaves[..j];
      if leaves[j].studentId == sid {
        counts := LeaveStep(counts, leaves[j], holidays);
      }
    }
    assert leaves[..|leaves|] == leaves;
  }

  /** Adds to the bucket of the request's status and to the total, field by field. */
  method AddToBucket(g: Ledger, s: LeaveStatus, days: int, minutes: int) returns (r: Ledger)
    ensures r == AddTo(g, s, days, minutes)
  {
    r := g;
    match s {
      case Approved => r := r.(approved := Plus(r.approved, days, minutes));
      case Pending => r := r.(pending := Plus(r.pending, days, minutes));
      case Rejected => r := r.(rejected := Plus(r.rejected, days, minutes));
    }
    r := r.(total := Plus(r.total, days, minutes));
  }

  /** The body of the leave-request loop for one request: the buckets updated in place. */
  method LeaveStep(counts: map<string, Ledger>, leave: LeaveRequest, holidays: set<Date>)
    returns (r: map<string, Ledger>)
    ensures r == CountLeave(counts, leave, holidays)
  {
    r := counts;
    var name := leave.leaveType;
    if name !in r {
      r := r[name := EmptyLedger];
    }
    var leaveDays := CountSchoolDays(leave.startDate, leave.endDate, holidays);
    var g := r[name];
    assert r == WithType(counts, name);
    if leave.isFullDay {
      g := AddToBucket(g, leave.status, leaveDays, 0);
      r := r[name := g];
    } else if leave.startTime.Some? && leave.endTime.Some? {
      var minutes := LeaveMinutes(leave.startTime.value, leave.endTime.value) * leaveDays;
      g := AddToBucket(g, leave.status, 0, minutes);
      g := g.(approved := Carry(g.approved));
      g := g.(pending := Carry(g.pending));
      g := g.(rejected := Carry(g.rejected));
      g := g.(total := Carry(g.total));
      r := r[name := g];
    } else {
      assert r == WithType(counts, name)[name := g];
    }
  }

  // ---------------------------------------------------------------------------
  // Properties of the ledger.

  lemma {:induction false} CountRecordsBalanced(rs: seq<AttendanceRecord>, sid: int, holidays: set<Date>)
    ensures AllBalanced(CountRecords(rs, sid, holidays).counts)
  {
    if rs != [] {
      CountRecordsBalanced(rs[..|rs| - 1], sid, holidays);
    }
  }

  lemma {:induction false} CountLeavesBalanced(counts: map<string, Ledger>, ls: seq<LeaveRequest>, sid: int, holidays: set<Date>)
    requires AllBalanced(counts)
    ensures AllBalanced(CountLeaves(counts, ls, sid, holidays))
  {
    if ls != [] {
      CountLeavesBalanced(counts, ls[..|ls| - 1], sid, holidays);
    }
  }

  /** Every ledger of a student's report row is balanced: its total is worth exactly the
      approved, pending and rejected buckets together, carries included. */
  lemma StudentTallyBalanced(sid: int, records: seq<AttendanceRecord>, leaves: seq<LeaveRequest>, holidays: set<Date>)
    ensures AllBalanced(StudentTally(sid, records, leaves, holidays).counts)
  {
    CountRecordsBalanced(records, sid, holidays);
    CountLeavesBalanced(CountRecords(records, sid, holidays).counts, leaves, sid, holidays);
  }

  /** The ledger a leave type has before a request of that type is counted. */
  function Before(counts: map<string, Ledger>, name: string): Ledger
  {
    if name in counts then counts[name] else EmptyLedger
  }

  /** A full-day request adds its school-day count to exactly one status bucket and to the
      total, in days, and touches no hours. */
  lemma FullDayLeaveEffect(counts: map<string, Ledger>, l: LeaveRequest, holidays: set<Date>)
    requires l.isFullDay
    ensures var n := SchoolDaysBetween(l.startDate, l.endDate, holidays);
            var b := Before(counts, l.leaveType);
            var a := CountLeave(counts, l, holidays)[l.leaveType];
            && StatusBucket(a, l.status) == Bucket(StatusBucket(b, l.status).days + n, StatusBucket(b, l.status).minutes)
            && a.total == Bucket(b.total.days + n, b.total.minutes)
            && (forall o: LeaveStatus :: o != l.status ==> StatusBucket(a, o) == StatusBucket(b, o))
  {
  }

  /** A partial-day request with both times adds `(end - start) * days` to its status bucket
      and to the total, in value; after the carry every bucket with non-negative hours holds
      fewer than eight hours. */
  lemma PartialLeaveEffect(counts: map<string, Ledger>, l: LeaveRequest, holidays: set<Date>)
    requires !l.isFullDay && l.startTime.Some? && l.endTime.Some?
    ensures var m := LeaveMinutes(l.startTime.value, l.endTime.value) * SchoolDaysBetween(l.startDate, l.endDate, holidays);
            var b := Before(counts, l.leaveType);
            var a := CountLeave(counts, l, holidays)[l.leaveType];
            && Value(StatusBucket(a, l.status)) == Value(StatusBucket(b, l.status)) + m
            && Value(a.total) == Value(b.total) + m
            && (forall o: LeaveStatus :: o != l.status ==> Value(StatusBucket(a, o)) == Value(StatusBucket(b, o)))
            && (forall o: LeaveStatus :: StatusBucket(a, o).minutes >= 0 ==> StatusBucket(a, o).minutes < DayMinutes)
            && (a.total.minutes >= 0 ==> a.total.minutes < DayMinutes)
  {
    var m := LeaveMinutes(l.startTime.value, l.endTime.value) * SchoolDaysBetween(l.startDate, l.endDate, holidays);
    var b := Before(counts, l.leaveType);
    var added := AddTo(b, l.status, 0, m);
    assert CountLeave(counts, l, holidays)[l.leaveType] == CarryLedger(added);
    forall o: LeaveStatus
      ensures StatusBucket(CarryLedger(added), o).minutes >= 0 ==> StatusBucket(CarryLedger(added), o).minutes < DayMinutes
    {
      match o {
        case Approved =>
        case Pending =>
        case Rejected =>
      }
    }
  }

  /** A partial-day request missing a time adds nothing, but its type still gets its buckets. */
  lemma MissingTimeOnlyInitialises(counts: map<string, Ledger>, l: LeaveRequest, holidays: set<Date>)
    requires !l.isFullDay && (l.startTime.None? || l.endTime.None?)
    ensures CountLeave(counts, l, holidays) == WithType(counts, l.leaveType)
    ensures l.leaveType !in counts ==> CountLeave(counts, l, holidays)[l.leaveType] == EmptyLedger
  {
  }

  /** An `on_leave` record with a leave type, off the holiday list, adds one approved day and
      one total day to that type. */
  lemma OnLeaveRecordEffect(t: Tally, r: AttendanceRecord, holidays: set<Date>)
    requires r.status == OnLeave && r.leaveType.Some? && r.date !in holidays
    ensures var b := Before(t.counts, r.leaveType.value);
            var a := CountRecord(t, r, holidays).counts[r.leaveType.value];
            && a.approved == Bucket(b.approved.days + 1, b.approved.minutes)
            && a.total == Bucket(b.total.days + 1, b.total.minutes)
            && a.pending == b.pending && a.rejected == b.rejected
  {
  }

  /** Hours are never recorded when all of a student's requests are full-day; the total days
      are then the sum of the three status days. */
  predicate DaysOnly(l: Ledger)
  {
    && l.approved.minutes == 0 && l.pending.minutes == 0 && l.rejected.minutes == 0 && l.total.minutes == 0
    && l.total.days == l.approved.days + l.pending.days + l.rejected.days
  }

  predicate AllDaysOnly(counts: map<string, Ledger>)
  {
    forall k :: k in counts ==> DaysOnly(counts[k])
  }

  predicate FullDayOnly(ls: seq<LeaveRequest>, sid: int)
  {
    forall i :: 0 <= i < |ls| && ls[i].studentId == sid ==> ls[i].isFullDay
  }

  lemma {:induction false} CountRecordsDaysOnly(rs: seq<AttendanceRecord>, sid: int, holidays: set<Date>)
    ensures AllDaysOnly(CountRecords(rs, sid, holidays).counts)
  {
    if rs != [] {
      CountRecordsDaysOnly(rs[..|rs| - 1], sid, holidays);
    }
  }

  lemma {:induction false} CountLeavesDaysOnly(counts: map<string, Ledger>, ls: seq<LeaveRequest>, sid: int, holidays: set<Date>)
    requires AllDaysOnly(counts) && FullDayOnly(ls, sid)
    ensures AllDaysOnly(CountLeaves(counts, ls, sid, holidays))
  {
    if ls != [] {
      CountLeavesDaysOnly(counts, ls[..|ls| - 1], sid, holidays);
      var l := ls[|ls| - 1];
      if l.studentId == sid {
        CountLeaveDaysOnly(CountLeaves(counts, ls[..|ls| - 1], sid, holidays), l, holidays);
      }
    }
  }

  /** A full-day request adds whole days only. */
  lemma CountLeaveDaysOnly(counts: map<string, Ledger>, l: LeaveRequest, holidays: set<Date>)
    requires AllDaysOnly(counts) && l.isFullDay
    ensures AllDaysOnly(CountLeave(counts, l, holidays))
  {
    var c := WithType(counts, l.leaveType);
    var g := c[l.leaveType];
    assert DaysOnly(g);
    var u := AddTo(g, l.status, SchoolDaysBetween(l.startDate, l.endDate, holidays), 0);
    assert DaysOnly(u);
    assert CountLeave(counts, l, holidays) == c[l.leaveType := u];
  }

  lemma FullDayOnlyTotals(sid: int, records: seq<AttendanceRecord>, leaves: seq<LeaveRequest>, holidays: set<Date>)
    requires FullDayOnly(leaves, sid)
    ensures AllDaysOnly(StudentTally(sid, records, leaves, holidays).counts)
  {
    CountRecordsDaysOnly(records, sid, holidays);
    CountLeavesDaysOnly(CountRecords(records, sid, holidays).counts, leaves, sid, holidays);
  }

  /** The records of student `sid` with status `s` whose date is not a holiday. */
  function Matching(rs: seq<AttendanceRecord>, sid: int, holidays: set<Date>, s: AttendanceStatus): (m: seq<AttendanceRecord>)
    ensures forall r :: r in m <==> r in rs && r.studentId == sid && r.date !in holidays && r.status == s
  {
    if rs == [] then []
    else
      var m := Matching(rs[..|rs| - 1], sid, holidays, s);
      var r := rs[|rs| - 1];
      assert rs == rs[..|rs| - 1] + [r];
      if r.studentId == sid && r.date !in holidays && r.status == s then m + [r] else m
  }

  /** Each of the three counters counts exactly the student's non-holiday records of its
      status; weekend dates are not skipped. */
  lemma {:induction false} CountersCountMatching(rs: seq<AttendanceRecord>, sid: int, holidays: set<Date>)
    ensures CountRecords(rs, sid, holidays).late == |Matching(rs, sid, holidays, Late)|
    ensures CountRecords(rs, sid, holidays).leaveEarly == |Matching(rs, sid, holidays, LeaveEarly)|
    ensures CountRecords(rs, sid, holidays).absent == |Matching(rs, sid, holidays, Absent)|
  {
    if rs != [] {
      CountersCountMatching(rs[..|rs| - 1], sid, holidays);
    }
  }

  // ---------------------------------------------------------------------------
  // Concrete cases.

  /** 2025-06-01 is a Sunday; a full-day approved "Sick" request over 2025-06-01..03 counts
      two school days. */
  lemma SundayToTuesdayCountsTwo()
    ensures var l := LeaveRequest(1, 7, 1, "Sick", DaysFromCivil(2025, 6, 1), DaysFromCivil(2025, 6, 3),
                                  true, None, None, Approved, None, None, 1);
            var a := CountLeaves(map[], [l], 7, {})["Sick"];
            a.approved.days == 2 && a.total.days == 2 && a.pending == Zero
  {
    var d := DaysFromCivil(2025, 6, 1);
    assert d == 20240;
    assert Weekday(d) == 0;
    assert SchoolDaysBetween(d, d, {}) == 0;
    assert SchoolDaysBetween(d, d + 1, {}) == 1;
    assert SchoolDaysBetween(d, d + 2, {}) == 2;
  }

  /** A request longer than the window is counted over its own span: a Monday..Friday request
      read through a one-day window still counts five days. */
  lemma LeaveSpanNotClipped()
    ensures var mon := DaysFromCivil(2025, 6, 2);
            var l := LeaveRequest(1, 7, 1, "Sick", mon, mon + 4, true, None, None, Pending, None, None, 1);
            CountLeaves(map[], LeavesOverlapping([l], mon, mon), 7, WindowHolidays([], mon, mon))["Sick"].pending.days == 5
  {
    var mon := DaysFromCivil(2025, 6, 2);
    assert mon == 20241;
    assert Weekday(mon) == 1;
    assert SchoolDaysBetween(mon, mon, {}) == 1;
    assert SchoolDaysBetween(mon, mon + 1, {}) == 2;
    assert SchoolDaysBetween(mon, mon + 2, {}) == 3;
    assert SchoolDaysBetween(mon, mon + 3, {}) == 4;
    assert SchoolDaysBetween(mon, mon + 4, {}) == 5;
    var l := LeaveRequest(1, 7, 1, "Sick", mon, mon + 4, true, None, None, Pending, None, None, 1);
    assert LeavesOverlapping([l], mon, mon) == [l];
    assert WindowHolidays([], mon, mon) == {};
  }

  /** A nine-hour partial-day request on one school day becomes one day and one hour. */
  lemma NineHoursCarryToOneDay()
    ensures var mon := DaysFromCivil(2025, 6, 2);
            var l := LeaveRequest(1, 7, 1, "Personal", mon, mon, false,
                                  Some(mon * 1440 + 8 * 60), Some(mon * 1440 + 17 * 60), Approved, None, None, 1);
            var a := CountLeaves(map[], [l], 7, {})["Personal"];
            a.approved == Bucket(1, 60) && a.total == Bucket(1, 60)
  {
    var mon := DaysFromCivil(2025, 6, 2);
    assert mon == 20241;
    assert Weekday(mon) == 1;
    assert SchoolDaysBetween(mon, mon, {}) == 1;
    assert LeaveMinutes(mon * 1440 + 8 * 60, mon * 1440 + 17 * 60) == 540;
  }

  // ---------------------------------------------------------------------------
  // The report over a window.

  datatype StatsRow = StatsRow(
    studentId: int, studentName: string, grade: string, className: string,
    leaveTypeCounts: map<string, Ledger>, lateDays: nat, leaveEarlyDays: nat, absentDays: nat, totalDays: nat)

  /** `find(e => e.schoolYear === currentYear)`. */
  function FirstOfYear(es: seq<Enrollment>, year: int): (r: Option<Enrollment>)
    ensures r.Some? ==> r.value in es && r.value.schoolYear == year
    ensures r.None? <==> forall e :: e in es ==> e.schoolYear != year
  {
    if es == [] then None
    else if es[0].schoolYear == year then Some(es[0])
    else FirstOfYear(es[1..], year)
  }

  /** The enrollment a row reports: the first one of the current year, else the first one. */
  function ReportEnrollment(es: seq<Enrollment>, currentYear: int): (r: Option<Enrollment>)
    ensures r.None? <==> es == []
    ensures r.Some? ==> r.value in es
    ensures (exists e :: e in es && e.schoolYear == currentYear) ==> r.Some? && r.value.schoolYear == currentYear
  {
    match FirstOfYear(es, currentYear)
    case Some(e) => Some(e)
    case None => if es == [] then None else Some(es[0])
  }

  /** The holiday table read for a window: only dates inside it. */
  function WindowHolidays(holidayDates: seq<Date>, start: Date, end: Date): (h: set<Date>)
    ensures forall d :: d in h <==> d in holidayDates && start <= d <= end
  {
    set d | d in holidayDates && start <= d <= end
  }

  function RecordsInWindow(rs: seq<AttendanceRecord>, start: Date, end: Date): (w: seq<AttendanceRecord>)
    ensures forall r :: r in w <==> r in rs && start <= r.date <= end
  {
    if rs == [] then []
    else
      var w := RecordsInWindow(rs[..|rs| - 1], start, end);
      var r := rs[|rs| - 1];
      assert rs == rs[..|rs| - 1] + [r];
      if start <= r.date <= end then w + [r] else w
  }

  /** Requests of every status whose span meets the window. */
  function LeavesOverlapping(ls: seq<LeaveRequest>, start: Date, end: Date): (w: seq<LeaveRequest>)
    ensures forall l :: l in w <==> l in ls && l.startDate <= end && l.endDate >= start
  {
    if ls == [] then []
    else
      var w := LeavesOverlapping(ls[..|ls| - 1], start, end);
      var l := ls[|ls| - 1];
      assert ls == ls[..|ls| - 1] + [l];
      if l.startDate <= end && l.endDate >= start then w + [l] else w
  }

  /** The student query: an optional student id, and grade ids any enrollment must match. */
  predicate Selected(s: Student, studentId: Option<int>, grades: seq<int>)
  {
    && (studentId.Some? ==> s.id == studentId.value)
    && (grades != [] ==> exists e :: e in s.enrollments && e.gradeId in grades)
  }

  function SelectStudents(students: seq<Student>, studentId: Option<int>, grades: seq<int>): (r: seq<Student>)
    ensures forall s :: s in r <==> s in students && Selected(s, studentId, grades)
  {
    if students == [] then []
    else
      var r := SelectStudents(students[..|students| - 1], studentId, grades);
      var s := students[|students| - 1];
      assert students == students[..|students| - 1] + [s];
      if Selected(s, studentId, grades) then r + [s] else r
  }

  /** The rows for `students`, in order; students without any enrollment get none. */
  function StatisticsRows(students: seq<Student>, records: seq<AttendanceRecord>, leaves: seq<LeaveRequest>,
                          holidays: set<Date>, start: Date, end: Date, currentYear: int): seq<StatsRow>
  {
    if students == [] then []
    else
      var rows := StatisticsRows(students[..|students| - 1], records, leaves, holidays, start, end, currentYear);
      var s := students[|students| - 1];
      match ReportEnrollment(s.enrollments, currentYear)
      case None => rows
      case Some(e) =>
        var t := StudentTally(s.id, records, leaves, holidays);
        rows + [StatsRow(s.id, s.name, e.gradeName, e.className, t.counts, t.late, t.leaveEarly, t.absent,
                         SchoolDaysBetween(start, end, holidays))]
  }

  /** `getStatisticsReport` for the window `start..end`; the window, the current year and the
      tables are parameters. */
  method GetStatisticsReport(students: seq<Student>, records: seq<AttendanceRecord>, leaves: seq<LeaveRequest>,
                             holidayDates: seq<Date>, start: Date, end: Date, currentYear: int,
                             studentId: Option<int>, grades: seq<int>)
    returns (rows: seq<StatsRow>)
    ensures rows == StatisticsRows(SelectStudents(students, studentId, grades), RecordsInWindow(records, start, end),
                                   LeavesOverlapping(leaves, start, end), WindowHolidays(holidayDates, start, end),
                                   start, end, currentYear)
  {
    var selected := SelectStudents(students, studentId, grades);
    rows := [];
    if |selected| == 0 {
      return;
    }
    var holidays := WindowHolidays(holidayDates, start, end);
    var windowRecords := RecordsInWindow(records, start, end);
    var windowLeaves := LeavesOverlapping(leaves, start, end);
    for i := 0 to |selected|
      invariant rows == StatisticsRows(selected[..i], windowRecords, windowLeaves, holidays, start, end, currentYear)
    {
      assert selected[..i + 1][..i] == selected[..i];
      var student := selected[i];
      var enrollment := ReportEnrollment(student.enrollments, currentYear);
      if enrollment.None? {
        continue;
      }
      var t := StudentLedger(student.id, windowRecords, windowLeaves, holidays);
      var totalDays := CountSchoolDays(start, end, holidays);
      rows := rows + [StatsRow(student.id, student.name, enrollment.value.gradeName, enrollment.value.className,
                               t.counts, t.late, t.leaveEarly, t.absent, totalDays)];
    }
    assert selected[..|selected|] == selected;
  }

  /** Every row belongs to a listed student, reports the window's school days, and carries
      balanced ledgers; there are no more rows than students. */
  lemma {:induction false} StatisticsRowsFacts(students: seq<Student>, records: seq<AttendanceRecord>, leaves: seq<LeaveRequest>,
                                               holidays: set<Date>, start: Date, end: Date, currentYear: int)
    ensures var rows := StatisticsRows(students, records, leaves, holidays, start, end, currentYear);
            && |rows| <= |students|
            && forall i :: 0 <= i < |rows| ==>
                 && (exists s :: s in students && s.id == rows[i].studentId && s.enrollments != [])
                 && rows[i].totalDays == SchoolDaysBetween(start, end, holidays)
                 && AllBalanced(rows[i].leaveTypeCounts)
  {
    if students != [] {
      var prefix := students[..|students| - 1];
      StatisticsRowsFacts(prefix, records, leaves, holidays, start, end, currentYear);
      var s := students[|students| - 1];
      StudentTallyBalanced(s.id, records, leaves, holidays);
      forall x | x in prefix ensures x in students {
        assert students == prefix + [s];
      }
    }
  }

  /** No student has two rows: students are listed once each, their ids being the table's
      primary key. */
  lemma {:induction false} StatisticsRowsDistinct(students: seq<Student>, records: seq<AttendanceRecord>, leaves: seq<LeaveRequest>,
                                                  holidays: set<Date>, start: Date, end: Date, currentYear: int)
    requires forall i, j :: 0 <= i < j < |students| ==> students[i].id != students[j].id
    ensures var rows := StatisticsRows(students, records, leaves, holidays, start, end, currentYear);
            forall i, j :: 0 <= i < j < |rows| ==> rows[i].studentId != rows[j].studentId
  {
    if students != [] {
      var prefix := students[..|students| - 1];
      var s := students[|students| - 1];
      StatisticsRowsDistinct(prefix, records, leaves, holidays, start, end, currentYear);
      StatisticsRowsFacts(prefix, records, leaves, holidays, start, end, currentYear);
      var before := StatisticsRows(prefix, records, leaves, holidays, start, end, currentYear);
      forall i | 0 <= i < |before|
        ensures before[i].studentId != s.id
      {
        var t :| t in prefix && t.id == before[i].studentId && t.enrollments != [];
        var k :| 0 <= k < |prefix| && prefix[k] == t;
        assert students[k] == t;
      }
    }
  }

  // ---------------------------------------------------------------------------
  // Status counts per window and per date.

  /** `records.filter(r => r.status === s).length`. */
  function CountStatus(rs: seq<AttendanceRecord>, s: AttendanceStatus): (n: nat)
    ensures n <= |rs|
  {
    if rs == [] then 0
    else CountStatus(rs[..|rs| - 1], s) + (if rs[|rs| - 1].status == s then 1 else 0)
  }

  /** Every record has exactly one of the five statuses. */
  lemma {:induction false} StatusCountsSum(rs: seq<AttendanceRecord>)
    ensures CountStatus(rs, Present) + CountStatus(rs, Absent) + CountStatus(rs, Late)
          + CountStatus(rs, LeaveEarly) + CountStatus(rs, OnLeave) == |rs|
  {
    if rs != [] {
      StatusCountsSum(rs[..|rs| - 1]);
    }
  }

  datatype AttendanceStats = AttendanceStats(
    totalDays: nat, presentDays: nat, absentDays: nat, lateDays: nat, leaveEarlyDays: nat,
    onLeaveDays: nat, attendanceRate: real)

  /** `present / n * 100`, and 0 for `n == 0` (without the two-decimal rounding). */
  function Rate(present: nat, n: nat): (r: real)
    ensures n == 0 ==> r == 0.0
    ensures n > 0 ==> r * (n as real) == (present as real) * 100.0
    ensures present <= n ==> 0.0 <= r <= 100.0
  {
    if n > 0 then (present as real) / (n as real) * 100.0 else 0.0
  }

  /** The record query of `getAttendanceStatistics`. */
  predicate InQuery(r: AttendanceRecord, start: Date, end: Date, classId: Option<int>, studentId: Option<int>)
  {
    && start <= r.date <= end
    && (classId.Some? ==> r.classId == classId.value)
    && (studentId.Some? ==> r.studentId == studentId.value)
  }

  function QueryRecords(rs: seq<AttendanceRecord>, start: Date, end: Date, classId: Option<int>, studentId: Option<int>): (w: seq<AttendanceRecord>)
    ensures forall r :: r in w <==> r in rs && InQuery(r, start, end, classId, studentId)
    ensures |w| <= |rs|
  {
    if rs == [] then []
    else
      var w := QueryRecords(rs[..|rs| - 1], start, end, classId, studentId);
      var r := rs[|rs| - 1];
      assert rs == rs[..|rs| - 1] + [r];
      if InQuery(r, start, end, classId, studentId) then w + [r] else w
  }

  /** `getAttendanceStatistics`: the five status counts over the queried records, which sum to
      the number of records, and the share of `present` among them. */
  function AttendanceStatistics(rs: seq<AttendanceRecord>, start: Date, end: Date, classId: Option<int>, studentId: Option<int>): (r: AttendanceStats)
    ensures r.totalDays == |QueryRecords(rs, start, end, classId, studentId)|
    ensures r.presentDays + r.absentDays + r.lateDays + r.leaveEarlyDays + r.onLeaveDays == r.totalDays
    ensures r.totalDays == 0 ==> r.attendanceRate == 0.0
    ensures 0.0 <= r.attendanceRate <= 100.0
  {
    var q := QueryRecords(rs, start, end, classId, studentId);
    StatusCountsSum(q);
    AttendanceStats(|q|, CountStatus(q, Present), CountStatus(q, Absent), CountStatus(q, Late),
                    CountStatus(q, LeaveEarly), CountStatus(q, OnLeave), Rate(CountStatus(q, Present), |q|))
  }

  /** `generateDateRange`: consecutive dates from `start` to `end` inclusive. */
  method GenerateDateRange(start: Date, end: Date) returns (dates: seq<Date>)
    ensures |dates| == SpanLength(start, end)
    ensures forall i :: 0 <= i < |dates| ==> dates[i] == start + i
  {
    dates := [];
    var current := start;
    while current <= end
      invariant start <= current && (current <= end + 1 || current == start)
      invariant |dates| == current - start
      invariant forall i :: 0 <= i < |dates| ==> dates[i] == start + i
      decreases end - current
    {
      dates := dates + [current];
      current := current + 1;
    }
  }

  function RecordsOn(rs: seq<AttendanceRecord>, d: Date): (w: seq<AttendanceRecord>)
    ensures forall r :: r in w <==> r in rs && r.date == d
  {
    if rs == [] then []
    else
      var w := RecordsOn(rs[..|rs| - 1], d);
      var r := rs[|rs| - 1];
      assert rs == rs[..|rs| - 1] + [r];
      if r.date == d then w + [r] else w
  }

  datatype DateStats = DateStats(
    date: Date, totalStudents: nat, presentCount: nat, absentCount: nat, lateCount: nat,
    leaveEarlyCount: nat, onLeaveCount: nat, attendanceRate: real)

  /** The row of one date; the rate divides by the number of students, not of records. */
  function DateRow(rs: seq<AttendanceRecord>, d: Date, totalStudents: nat): (r: DateStats)
    ensures r.date == d && r.totalStudents == totalStudents
    ensures r.presentCount + r.absentCount + r.lateCount + r.leaveEarlyCount + r.onLeaveCount == |RecordsOn(rs, d)|
    ensures totalStudents == 0 ==> r.attendanceRate == 0.0
    ensures r.presentCount <= totalStudents ==> 0.0 <= r.attendanceRate <= 100.0
  {
    var day := RecordsOn(rs, d);
    StatusCountsSum(day);
    DateStats(d, totalStudents, CountStatus(day, Present), CountStatus(day, Absent), CountStatus(day, Late),
              CountStatus(day, LeaveEarly), CountStatus(day, OnLeave), Rate(CountStatus(day, Present), totalStudents))
  }

  /** `getAttendanceStatisticsByDate`: one row per date of the window, in date order. The
      records are those of the window (and class, when one is given); the student count is a
      parameter. */
  method StatisticsByDate(records: seq<AttendanceRecord>, start: Date, end: Date, classId: Option<int>, totalStudents: nat)
    returns (rows: seq<DateStats>)
    ensures |rows| == SpanLength(start, end)
    ensures forall i :: 0 <= i < |rows| ==> rows[i] == DateRow(QueryRecords(records, start, end, classId, None), start + i, totalStudents)
  {
    var dates := GenerateDateRange(start, end);
    var selected := QueryRecords(records, start, end, classId, None);
    rows := [];
    for i := 0 to |dates|
      invariant |rows| == i
      invariant forall j :: 0 <= j < i ==> rows[j] == DateRow(selected, start + j, totalStudents)
    {
      var date := dates[i];
      var recordsForDate := RecordsOn(selected, date);
      var presentCount := CountStatus(recordsForDate, Present);
      var absentCount := CountStatus(recordsForDate, Absent);
      var lateCount := CountStatus(recordsForDate, Late);
      var leaveEarlyCount := CountStatus(recordsForDate, LeaveEarly);
      var onLeaveCount := CountStatus(recordsForDate, OnLeave);
      var attendanceRate := if totalStudents > 0 then (presentCount as real) / (totalStudents as real) * 100.0 else 0.0;
      rows := rows + [DateStats(date, totalStudents, presentCount, absentCount, lateCount, leaveEarlyCount, onLeaveCount, attendanceRate)];
    }
  }
}
