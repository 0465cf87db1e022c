/** The stored records the services read: attendance overrides, leave requests, students
    and their enrollments, with the status enums of the database schema. */
module Schema {
  import opened Wrappers
  import opened Calendar

  datatype AttendanceStatus = Present | Absent | Late | LeaveEarly | OnLeave

  /** The enum values as they appear on the wire. */
  function AttendanceStatusName(s: AttendanceStatus): string
  {
    match s
    case Present => "present"
    case Absent => "absent"
    case Late => "late"
    case LeaveEarly => "leave_early"
    case OnLeave => "on_leave"
  }

  datatype LeaveStatus = Pending | Approved | Rejected

  function LeaveStatusName(s: LeaveStatus): string
  {
    match s
    case Pending => "pending"
    case Approved => "approved"
    case Rejected => "rejected"
  }

  /** One attendance override: at most one per (studentId, date) in the table.
      `leaveType` is the name of the linked leave type, when there is one. */
  datatype AttendanceRecord = AttendanceRecord(
    id: int, studentId: int, classId: int, date: Date, status: AttendanceStatus,
    leaveType: Option<string>, note: Option<string>, createdById: int)

  /** A leave request over the inclusive span `startDate..endDate`. The optional
      `startTime`/`endTime` are local timestamps in minutes since the epoch
      (`date * 1440 + hours * 60 + minutes`); `leaveType` is the type's name. */
  datatype LeaveRequest = LeaveRequest(
    id: int, studentId: int, leaveTypeId: int, leaveType: string,
    startDate: Date, endDate: Date, isFullDay: bool,
    startTime: Option<int>, endTime: Option<int>,
    status: LeaveStatus, reason: Option<string>, approvedById: Option<int>, createdById: int)

  datatype Enrollment = Enrollment(
    id: int, studentId: int, classId: int, className: string,
    gradeId: int, gradeName: string, schoolYear: int)

  datatype Student = Student(id: int, name: string, enrollments: seq<Enrollment>)

  predicate Covers(l: LeaveRequest, d: Date) { l.startDate <= d <= l.endDate }

  /** Approved and pending requests put a student on leave; rejected ones do not. */
  predicate Blocks(l: LeaveRequest) { l.status == Approved || l.status == Pending }
}
