/** The classes service: which classes a user may see, and the administrator-only changes
    to the class and teacher-assignment tables. */
module Classes {
  import opened Wrappers
  import opened Calendar
  import opened Sorting
  import Academic
  import opened Text

  datatype ClassRow = ClassRow(id: int, name: string)

  /** The caller; `None` is a request without a user. */
  datatype Caller = Caller(userId: int, role: string)

  datatype UserRow = UserRow(id: int, name: string, role: string)

  datatype Assignment = Assignment(
    id: int, teacherId: int, classId: int, schoolYear: string,
    startDate: Option<Date>, endDate: Option<Date>, isActive: bool, notes: Option<string>)

  datatype ClassError = Forbidden | NotFound(id: int) | ClassInUse(students: nat)

  const GASpecialist: string := "GA_specialist"
  const Teacher: string := "teacher"

  /** `findFirst({ where: { isActive: true } })`: the first active year in table order. */
  function ActiveYear(years: seq<Academic.AcademicYear>): (r: Option<int>)
    ensures r.None? <==> forall i :: 0 <= i < |years| ==> !years[i].isActive
    ensures r.Some? ==> exists i :: 0 <= i < |years| && years[i].isActive && years[i].year == r.value
  {
    if years == [] then None
    else if years[0].isActive then Some(years[0].year)
    else
      var r := ActiveYear(years[1..]);
      assert forall i :: 1 <= i < |years| ==> years[i] == years[1..][i - 1];
      r
  }

  function ClassKey(c: ClassRow): int { -c.id }

  /** `class.findMany({ where: { id: { in: ids } }, orderBy: { id: 'asc' } })`. */
  function ClassesIn(classes: seq<ClassRow>, ids: set<int>): (r: seq<ClassRow>)
    ensures forall c :: c in r <==> c in classes && c.id in ids
    ensures forall i, j :: 0 <= i < j < |r| ==> r[i].id <= r[j].id
  {
    var matching := Matching(classes, ids);
    var sorted := SortDesc(matching, ClassKey);
    assert forall c :: c in sorted <==> c in multiset(sorted);
    assert forall c :: c in matching <==> c in multiset(matching);
    assert forall i, j :: 0 <= i < j < |sorted| ==> ClassKey(sorted[i]) >= ClassKey(sorted[j]);
    sorted
  }

  function Matching(classes: seq<ClassRow>, ids: set<int>): (r: seq<ClassRow>)
    ensures forall c :: c in r <==> c in classes && c.id in ids
  {
    if classes == [] then []
    else
      var r := Matching(classes[..|classes| - 1], ids);
      var c := classes[|classes| - 1];
      assert classes == classes[..|classes| - 1] + [c];
      if c.id in ids then r + [c] else r
  }

  function AllIds(classes: seq<ClassRow>): (r: set<int>)
    ensures forall c :: c in classes ==> c.id in r
  {
    set c | c in classes :: c.id
  }

  /** The classes of a teacher's active assignments, for one school year when one is given. */
  function AssignedIds(assignments: seq<Assignment>, teacherId: int, schoolYear: Option<string>): (r: set<int>)
    ensures forall id :: id in r <==> exists a :: a in assignments && a.teacherId == teacherId && a.isActive
                                                 && (schoolYear.Some? ==> a.schoolYear == schoolYear.value) && a.classId == id
  {
    set a | a in assignments && a.teacherId == teacherId && a.isActive && (schoolYear.Some? ==> a.schoolYear == schoolYear.value) :: a.classId
  }

  function EnrolledIds(enrollments: seq<Academic.EnrollmentRow>, year: int): (r: set<int>)
    ensures forall id :: id in r <==> exists e :: e in enrollments && e.schoolYear == year && e.classId == id
  {
    set e | e in enrollments && e.schoolYear == year :: e.classId
  }

  /** `findAll`. With no active year a specialist sees every class and a teacher the classes
      of their active assignments (or the class with id 0 when they have none); with an active
      year a specialist sees the classes with enrollments that year (every class when there
      are none) and a teacher the classes of active assignments of that year. */
  function FindAll(caller: Option<Caller>, classes: seq<ClassRow>, years: seq<Academic.AcademicYear>,
                   assignments: seq<Assignment>, enrollments: seq<Academic.EnrollmentRow>): (r: seq<ClassRow>)
    ensures caller.None? || caller.value.role == "" ==> r == []
    ensures caller.Some? && caller.value.role != GASpecialist && caller.value.role != Teacher ==> r == []
    ensures forall c :: c in r ==> c in classes
    ensures forall i, j :: 0 <= i < j < |r| ==> r[i].id <= r[j].id
  {
    if caller.None? || caller.value.role == "" then []
    else
      var user := caller.value;
      match ActiveYear(years)
      case None =>
        (if user.role == GASpecialist then ClassesIn(classes, AllIds(classes))
         else if user.role == Teacher then
           (var ids := AssignedIds(assignments, user.userId, None);
            ClassesIn(classes, if ids == {} then {0} else ids))
         else [])
      case Some(activeYear) =>
        (var enrolled := EnrolledIds(enrollments, activeYear);
         if user.role == GASpecialist then
           (if enrolled == {} then ClassesIn(classes, AllIds(classes)) else ClassesIn(classes, enrolled))
         else if user.role == Teacher then
           (var assignedIds := AssignedIds(assignments, user.userId, Some(IntText(activeYear)));
            if assignedIds == {} then [] else ClassesIn(classes, assignedIds))
         else [])
  }

  /** With an active year, a teacher sees exactly the classes of their active assignments
      for that year; a specialist sees every class only when nobody is enrolled that year. */
  lemma FindAllWithActiveYear(caller: Caller, classes: seq<ClassRow>, years: seq<Academic.AcademicYear>,
                              assignments: seq<Assignment>, enrollments: seq<Academic.EnrollmentRow>, year: int)
    requires ActiveYear(years) == Some(year)
    ensures caller.role == Teacher ==>
              forall c :: c in FindAll(Some(caller), classes, years, assignments, enrollments) <==>
                c in classes && exists a :: a in assignments && a.teacherId == caller.userId && a.isActive
                                          && a.schoolYear == IntText(year) && a.classId == c.id
    ensures caller.role == GASpecialist ==>
              forall c :: c in FindAll(Some(caller), classes, years, assignments, enrollments) <==>
                c in classes && ((exists e :: e in enrollments && e.schoolYear == year && e.classId == c.id)
                                 || forall e :: e in enrollments ==> e.schoolYear != year)
  {
    var r := FindAll(Some(caller), classes, years, assignments, enrollments);
    if caller.role == Teacher {
      var ids := AssignedIds(assignments, caller.userId, Some(IntText(year)));
      assert ids == {} ==> r == [];
      assert ids != {} ==> r == ClassesIn(classes, ids);
      forall c
        ensures c in r <==> c in classes && exists a :: a in assignments && a.teacherId == caller.userId && a.isActive
                                                      && a.schoolYear == IntText(year) && a.classId == c.id
      {
        if ids == {} {
          assert c.id !in ids;
        }
      }
    }
    if caller.role == GASpecialist {
      var enrolled := EnrolledIds(enrollments, year);
      if enrolled != {} {
        var id :| id in enrolled;
        assert exists e :: e in enrollments && e.schoolYear == year;
        assert r == ClassesIn(classes, enrolled);
      } else {
        assert r == ClassesIn(classes, AllIds(classes));
        forall e | e in enrollments ensures e.schoolYear != year {
          assert e.schoolYear == year ==> e.classId in enrolled;
        }
      }
    }
  }

  /** Without an active year a specialist sees every class and a teacher the classes of
      their active assignments in any year. */
  lemma FindAllWithoutActiveYear(caller: Caller, classes: seq<ClassRow>, years: seq<Academic.AcademicYear>,
                                 assignments: seq<Assignment>, enrollments: seq<Academic.EnrollmentRow>)
    requires ActiveYear(years).None?
    requires forall c :: c in classes ==> c.id != 0
    ensures caller.role == GASpecialist ==>
              forall c :: c in FindAll(Some(caller), classes, years, assignments, enrollments) <==> c in classes
    ensures caller.role == Teacher ==>
              forall c :: c in FindAll(Some(caller), classes, years, assignments, enrollments) <==>
                c in classes && exists a :: a in assignments && a.teacherId == caller.userId && a.isActive && a.classId == c.id
  {
  }

  /** `checkIsAdmin`. */
  function CheckIsAdmin(caller: Option<Caller>): (r: Result<(), ClassError>)
    ensures r.Ok? <==> caller.Some? && caller.value.role == GASpecialist
  {
    if caller.None? || caller.value.role != GASpecialist then Err(Forbidden) else Ok(())
  }

  datatype AssignInput = AssignInput(
    classId: int, teacherId: int, schoolYear: string, startDate: Option<Date>, endDate: Option<Date>,
    isActive: Option<bool>, notes: Option<string>)

  class ClassStore {
    var classes: seq<ClassRow>
    var assignments: seq<Assignment>
    var users: seq<UserRow>
    var enrollments: seq<Academic.EnrollmentRow>
    var nextClassId: int
    var nextAssignmentId: int

    constructor (users: seq<UserRow>, enrollments: seq<Academic.EnrollmentRow>)
      ensures this.users == users && this.enrollments == enrollments
      ensures classes == [] && assignments == [] && nextClassId == 1 && nextAssignmentId == 1
    {
      this.users := users;
      this.enrollments := enrollments;
      classes := [];
      assignments := [];
      nextClassId := 1;
      nextAssignmentId := 1;
    }

    function IndexOf(id: int): (r: Option<nat>)
      reads this
      ensures r.Some? ==> r.value < |classes| && classes[r.value].id == id
      ensures r.None? <==> forall i :: 0 <= i < |classes| ==> classes[i].id != id
    {
      FindClass(classes, id)
    }

    /** `create`: administrators only. */
    method Create(name: string, caller: Option<Caller>) returns (r: Result<ClassRow, ClassError>)
      modifies this
      ensures CheckIsAdmin(caller).Err? ==> r == Err(Forbidden) && classes == old(classes) && nextClassId == old(nextClassId)
      ensures CheckIsAdmin(caller).Ok? ==>
                r == Ok(ClassRow(old(nextClassId), name)) && classes == old(classes) + [r.value] && nextClassId == old(nextClassId) + 1
      ensures assignments == old(assignments) && users == old(users) && enrollments == old(enrollments)
      ensures nextAssignmentId == old(nextAssignmentId)
    {
      if CheckIsAdmin(caller).Err? {
        return Err(Forbidden);
      }
      var created := ClassRow(nextClassId, name);
      classes := classes + [created];
      nextClassId := nextClassId + 1;
      r := Ok(created);
    }

    /** `update`: administrators only; an unknown class is NotFound; an absent name keeps the
        old one. */
    method Update(id: int, name: Option<string>, caller: Option<Caller>) returns (r: Result<ClassRow, ClassError>)
      modifies this
      ensures CheckIsAdmin(caller).Err? ==> r == Err(Forbidden) && classes == old(classes)
      ensures CheckIsAdmin(caller).Ok? ==>
                match FindClass(old(classes), id)
                case None => r == Err(NotFound(id)) && classes == old(classes)
                case Some(k) => r == Ok(ClassRow(id, name.GetOr(old(classes)[k].name))) && classes == old(classes)[k := r.value]
      ensures assignments == old(assignments) && users == old(users) && enrollments == old(enrollments)
      ensures nextClassId == old(nextClassId) && nextAssignmentId == old(nextAssignmentId)
    {
      if CheckIsAdmin(caller).Err? {
        return Err(Forbidden);
      }
      var k := IndexOf(id);
      if k.None? {
        return Err(NotFound(id));
      }
      var updated := classes[k.value].(name := name.GetOr(classes[k.value].name));
      classes := classes[k.value := updated];
      r := Ok(updated);
    }

    /** `remove`: administrators only; an unknown class is NotFound; a class with any
        enrollment in any year is refused. */
    method Remove(id: int, caller: Option<Caller>) returns (r: Result<ClassRow, ClassError>)
      modifies this
      ensures r.Err? ==> classes == old(classes)
      ensures CheckIsAdmin(caller).Err? ==> r == Err(Forbidden)
      ensures CheckIsAdmin(caller).Ok? && FindClass(old(classes), id).None? ==> r == Err(NotFound(id))
      ensures CheckIsAdmin(caller).Ok? && FindClass(old(classes), id).Some? ==>
                (r.Err? <==> exists e :: e in enrollments && e.classId == id)
      ensures r.Ok? ==> && FindClass(old(classes), id).Some? && r.value == old(classes)[FindClass(old(classes), id).value]
                        && classes == old(classes)[..FindClass(old(classes), id).value] + old(classes)[FindClass(old(classes), id).value + 1..]
      ensures assignments == old(assignments) && users == old(users) && enrollments == old(enrollments)
      ensures nextClassId == old(nextClassId) && nextAssignmentId == old(nextAssignmentId)
    {
      if CheckIsAdmin(caller).Err? {
        return Err(Forbidden);
      }
      var k := IndexOf(id);
      if k.None? {
        return Err(NotFound(id));
      }
      var studentCount := CountInClass(enrollments, id);
      if studentCount > 0 {
        return Err(ClassInUse(studentCount));
      }
      r := Ok(classes[k.value]);
      classes := classes[..k.value] + classes[k.value + 1..];
    }

    /** `assignTeacher`: administrators only; the class must exist and the teacher must be a
        user with role teacher; `isActive` defaults to true and empty notes are stored as none. */
    method AssignTeacher(input: AssignInput, caller: Option<Caller>) returns (r: Result<Assignment, ClassError>)
      modifies this
      ensures r.Err? ==> assignments == old(assignments) && nextAssignmentId == old(nextAssignmentId)
      ensures CheckIsAdmin(caller).Err? ==> r == Err(Forbidden)
      ensures CheckIsAdmin(caller).Ok? && FindClass(old(classes), input.classId).None? ==> r == Err(NotFound(input.classId))
      ensures (CheckIsAdmin(caller).Ok? && FindClass(old(classes), input.classId).Some?
               && !exists u :: u in users && u.id == input.teacherId && u.role == Teacher)
              ==> r == Err(NotFound(input.teacherId))
      ensures r.Ok? <==> && CheckIsAdmin(caller).Ok? && FindClass(old(classes), input.classId).Some?
                         && exists u :: u in users && u.id == input.teacherId && u.role == Teacher
      ensures r.Ok? ==> && r.value.isActive == input.isActive.GetOr(true)
                        && r.value.startDate == input.startDate && r.value.endDate == input.endDate
                        && r.value.notes == (if input.notes.Some? && input.notes.value != "" then input.notes else None)
                        && r.value.teacherId == input.teacherId && r.value.classId == input.classId
                        && r.value.schoolYear == input.schoolYear && r.value.id == old(nextAssignmentId)
                        && assignments == old(assignments) + [r.value]
      ensures classes == old(classes) && users == old(users) && enrollments == old(enrollments)
      ensures nextClassId == old(nextClassId)
    {
      if CheckIsAdmin(caller).Err? {
        return Err(Forbidden);
      }
      if IndexOf(input.classId).None? {
        return Err(NotFound(input.classId));
      }
      if !exists u :: u in users && u.id == input.teacherId && u.role == Teacher {
        return Err(NotFound(input.teacherId));
      }
      var notes := if input.notes.Some? && input.notes.value != "" then input.notes else None;
      var created := Assignment(nextAssignmentId, input.teacherId, input.classId, input.schoolYear,
                                input.startDate, input.endDate, input.isActive.GetOr(true), notes);
      assignments := assignments + [created];
      nextAssignmentId := nextAssignmentId + 1;
      r := Ok(created);
    }
  }

  function FindClass(classes: seq<ClassRow>, id: int): (r: Option<nat>)
    ensures r.Some? ==> r.value < |classes| && classes[r.value].id == id
    ensures r.None? <==> forall i :: 0 <= i < |classes| ==> classes[i].id != id
  {
    if classes == [] then None
    else if classes[|classes| - 1].id == id then Some(|classes| - 1)
    else FindClass(classes[..|classes| - 1], id)
  }

  /** `enrollment.count({ where: { classId } })`. */
  function CountInClass(es: seq<Academic.EnrollmentRow>, classId: int): (n: nat)
    ensures n == 0 <==> forall e :: e in es ==> e.classId != classId
  {
    if es == [] then 0
    else
      var n := CountInClass(es[..|es| - 1], classId);
      assert es == es[..|es| - 1] + [es[|es| - 1]];
      n + (if es[|es| - 1].classId == classId then 1 else 0)
  }
}
