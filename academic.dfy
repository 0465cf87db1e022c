/** The academic service: academic years with a single active one, the yearly grade
    promotion over the enrollment table, and the manual nursery assignment. */
module Academic {
  import opened Wrappers
  import opened Calendar

  datatype GradeName = Nursery | K1 | K2 | K3
  datatype Grade = Grade(id: int, name: GradeName, level: int)

  datatype AcademicYear = AcademicYear(id: int, year: int, name: string, startDate: Date, endDate: Date, isActive: bool)
  datatype YearInput = YearInput(year: int, name: string, startDate: Date, endDate: Date, isActive: bool)

  datatype StudentStatus = Active | TransferredOut | Graduated | Suspended
  datatype StudentRow = StudentRow(id: int, name: string, status: StudentStatus,
                                   departureDate: Option<Date>, departureReason: Option<string>)

  datatype EnrollmentRow = EnrollmentRow(id: int, studentId: int, classId: int, gradeId: int, schoolYear: int)

  datatype AcademicError =
    | Conflict(year: int)
    | DuplicateYear(year: int)    // the database refuses a second row with the same `year`
    | YearNotFound(id: int)
    | StudentNotFound(studentId: int)
    | ClassNotFound(classId: int)
    | GradeNotFound(gradeId: int)
    | GradeNotAllowed

  const GraduationReason: string := "畢業"

  // ---------------------------------------------------------------------------
  // Academic years.

  predicate AtMostOneActive(ys: seq<AcademicYear>)
  {
    forall i, j :: 0 <= i < |ys| && 0 <= j < |ys| && ys[i].isActive && ys[j].isActive ==> i == j
  }

  predicate UniqueYearIds(ys: seq<AcademicYear>)
  {
    forall i, j :: 0 <= i < |ys| && 0 <= j < |ys| && ys[i].id == ys[j].id ==> i == j
  }

  /** `updateMany({ where: { id: { not: keep } }, data: { isActive: false } })`. */
  function Deactivate(ys: seq<AcademicYear>, keep: Option<int>): (r: seq<AcademicYear>)
    ensures |r| == |ys|
    ensures forall i :: 0 <= i < |r| ==> r[i] == (if keep == Some(ys[i].id) then ys[i] else ys[i].(isActive := false))
  {
    seq(|ys|, i requires 0 <= i < |ys| => if keep == Some(ys[i].id) then ys[i] else ys[i].(isActive := false))
  }

  function YearIndex(ys: seq<AcademicYear>, id: int): (r: Option<nat>)
    ensures r.Some? ==> r.value < |ys| && ys[r.value].id == id
    ensures r.None? ==> forall i :: 0 <= i < |ys| ==> ys[i].id != id
  {
    if ys == [] then None
    else if ys[|ys| - 1].id == id then Some(|ys| - 1)
    else YearIndex(ys[..|ys| - 1], id)
  }

  /** Deactivating keeps every row's id and year, so it keeps both unique and finds the same
      row for an id. */
  lemma DeactivateKeepsKeys(ys: seq<AcademicYear>, keep: Option<int>, id: int, year: int)
    ensures UniqueYearIds(ys) ==> UniqueYearIds(Deactivate(ys, keep))
    ensures UniqueYears(ys) ==> UniqueYears(Deactivate(ys, keep))
    ensures YearIndex(Deactivate(ys, keep), id) == YearIndex(ys, id)
    ensures YearTakenByOther(Deactivate(ys, keep), id, year) == YearTakenByOther(ys, id, year)
  {
    var d := Deactivate(ys, keep);
    assert SameKeys(d, ys);
    SameKeysKeepUniqueness(d, ys, id, year);
    SameKeysSameIndex(d, ys, id);
  }

  /** Row by row, `a` and `b` hold the same ids and years. */
  predicate SameKeys(a: seq<AcademicYear>, b: seq<AcademicYear>)
  {
    |a| == |b| && forall i :: 0 <= i < |a| ==> a[i].id == b[i].id && a[i].year == b[i].year
  }

  lemma SameKeysKeepUniqueness(a: seq<AcademicYear>, b: seq<AcademicYear>, id: int, year: int)
    requires SameKeys(a, b)
    ensures UniqueYearIds(b) ==> UniqueYearIds(a)
    ensures UniqueYears(b) ==> UniqueYears(a)
    ensures YearTakenByOther(a, id, year) == YearTakenByOther(b, id, year)
  {
  }

  lemma {:induction false} SameKeysSameIndex(a: seq<AcademicYear>, b: seq<AcademicYear>, id: int)
    requires SameKeys(a, b)
    ensures YearIndex(a, id) == YearIndex(b, id)
  {
    if a != [] {
      SameKeysSameIndex(a[..|a| - 1], b[..|b| - 1], id);
    }
  }

  /** Appending a year no row holds keeps years unique. */
  lemma AppendKeepsUniqueYears(ys: seq<AcademicYear>, y: AcademicYear)
    requires UniqueYears(ys) && !YearExists(ys, y.year)
    ensures UniqueYears(ys + [y])
  {
  }

  /** Giving row `k` a year no other row holds keeps years unique. */
  lemma UpdateKeepsUniqueYears(ys: seq<AcademicYear>, k: nat, y: AcademicYear)
    requires k < |ys| && UniqueYears(ys) && UniqueYearIds(ys) && y.id == ys[k].id
    requires !YearTakenByOther(ys, y.id, y.year)
    ensures UniqueYears(ys[k := y])
  {
  }

  predicate YearExists(ys: seq<AcademicYear>, year: int)
  {
    exists i :: 0 <= i < |ys| && ys[i].year == year
  }

  /** The `year` column is unique. */
  predicate UniqueYears(ys: seq<AcademicYear>)
  {
    forall i, j :: 0 <= i < |ys| && 0 <= j < |ys| && ys[i].year == ys[j].year ==> i == j
  }

  /** A row other than `id` holds `year`. */
  predicate YearTakenByOther(ys: seq<AcademicYear>, id: int, year: int)
  {
    exists i :: 0 <= i < |ys| && ys[i].year == year && ys[i].id != id
  }

  // ---------------------------------------------------------------------------
  // Promotion, as a specification.

  datatype NewEnrollment = NewEnrollment(studentId: int, classId: int, gradeId: int, schoolYear: int)

  /** What one pass of the promotion loop decides. */
  datatype Plan = Plan(toCreate: seq<NewEnrollment>, graduated: seq<int>, nursery: seq<int>, k2: seq<int>)

  datatype PromotionResult = PromotionResult(
    promoted: nat, graduated: nat, manualNursery: nat, manualK2: nat,
    nurseryStudentIds: seq<int>, k2StudentIds: seq<int>)

  /** `new Map(grades.map(g => [g.name, g.level])).get(name)`: a later grade of the same name wins. */
  function LevelOf(grades: seq<Grade>, name: GradeName): (r: Option<int>)
    ensures r.Some? ==> exists g :: g in grades && g.name == name && g.level == r.value
    ensures r.None? <==> forall g :: g in grades ==> g.name != name
  {
    if grades == [] then None
    else if grades[|grades| - 1].name == name then Some(grades[|grades| - 1].level)
    else
      var r := LevelOf(grades[..|grades| - 1], name);
      assert forall g :: g in grades[..|grades| - 1] ==> g in grades;
      assert grades == grades[..|grades| - 1] + [grades[|grades| - 1]];
      r
  }

  /** `new Map(grades.map(g => [g.level, g])).get(level)`: a later grade of the same level wins. */
  function GradeAtLevel(grades: seq<Grade>, level: int): (r: Option<Grade>)
    ensures r.Some? ==> r.value in grades && r.value.level == level
  {
    if grades == [] then None
    else if grades[|grades| - 1].level == level then Some(grades[|grades| - 1])
    else GradeAtLevel(grades[..|grades| - 1], level)
  }

  /** The grade row of an enrollment (`enrollment.grade`). */
  function GradeById(grades: seq<Grade>, id: int): (r: Option<Grade>)
    ensures r.Some? ==> r.value in grades && r.value.id == id
  {
    if grades == [] then None
    else if grades[0].id == id then Some(grades[0])
    else GradeById(grades[1..], id)
  }

  /** A lookup finds nothing only when no grade has the id or the level. */
  lemma {:induction false} GradeLookupsMiss(grades: seq<Grade>, id: int, level: int)
    ensures GradeById(grades, id).None? ==> forall g :: g in grades ==> g.id != id
    ensures GradeAtLevel(grades, level).None? ==> forall g :: g in grades ==> g.level != level
  {
    if grades != [] {
      GradeLookupsMiss(grades[1..], id, level);
      GradeLookupsMiss(grades[..|grades| - 1], id, level);
      assert grades == [grades[0]] + grades[1..];
      assert grades == grades[..|grades| - 1] + [grades[|grades| - 1]];
    }
  }

  predicate HasEnrollmentIn(es: seq<EnrollmentRow>, sid: int, year: int)
  {
    exists i :: 0 <= i < |es| && es[i].studentId == sid && es[i].schoolYear == year
  }

  predicate StudentExists(students: seq<StudentRow>, sid: int)
  {
    exists i :: 0 <= i < |students| && students[i].id == sid
  }

  predicate ActiveStudent(students: seq<StudentRow>, sid: int)
  {
    exists i :: 0 <= i < |students| && students[i].id == sid && students[i].status == Active
  }

  /** The enrollments of `year` whose student is active, in table order. */
  function ActiveEnrollments(es: seq<EnrollmentRow>, students: seq<StudentRow>, year: int): (r: seq<EnrollmentRow>)
    ensures forall e :: e in r <==> e in es && e.schoolYear == year && ActiveStudent(students, e.studentId)
  {
    if es == [] then []
    else
      var r := ActiveEnrollments(es[..|es| - 1], students, year);
      var e := es[|es| - 1];
      assert es == es[..|es| - 1] + [e];
      if e.schoolYear == year && ActiveStudent(students, e.studentId) then r + [e] else r
  }

  /** One step of the promotion loop. `existing` is the table as it stood before the loop:
      the new enrollments are only written after it. */
  function PlanStep(p: Plan, e: EnrollmentRow, grades: seq<Grade>, existing: seq<EnrollmentRow>, newSchoolYear: int): Plan
  {
    var current := GradeById(grades, e.gradeId);
    if current.None? || HasEnrollmentIn(existing, e.studentId, newSchoolYear) then p
    else
      var level := current.value.level;
      var next := GradeAtLevel(grades, level + 1);
      if LevelOf(grades, K1) == Some(level) then
        if next.Some? then p.(toCreate := p.toCreate + [NewEnrollment(e.studentId, e.classId, next.value.id, newSchoolYear)]) else p
      else if LevelOf(grades, K2) == Some(level) then
        if next.Some? then
          p.(toCreate := p.toCreate + [NewEnrollment(e.studentId, e.classId, next.value.id, newSchoolYear)], k2 := p.k2 + [e.studentId])
        else p
      else if LevelOf(grades, Nursery) == Some(level) then p.(nursery := p.nursery + [e.studentId])
      else if LevelOf(grades, K3) == Some(level) then p.(graduated := p.graduated + [e.studentId])
      else p
  }

  /** The body of the promotion loop for one enrollment. The levels of K1, K2, K3 and
      NURSERY are looked up once, before the loop. */
  method PromoteOne(p: Plan, enrollment: EnrollmentRow, grades: seq<Grade>, existing: seq<EnrollmentRow>, newSchoolYear: int,
                    k1Level: Option<int>, k2Level: Option<int>, k3Level: Option<int>, nurseryLevel: Option<int>)
    returns (q: Plan)
    requires k1Level == LevelOf(grades, K1) && k2Level == LevelOf(grades, K2)
    requires k3Level == LevelOf(grades, K3) && nurseryLevel == LevelOf(grades, Nursery)
    ensures q == PlanStep(p, enrollment, grades, existing, newSchoolYear)
    ensures q.graduated == p.graduated || q.graduated == p.graduated + [enrollment.studentId]
  {
    q := p;
    var grade := GradeById(grades, enrollment.gradeId);
    if grade.None? {
      return;
    }
    var currentLevel := grade.value.level;
    var nextGrade := GradeAtLevel(grades, currentLevel + 1);
    if HasEnrollmentIn(existing, enrollment.studentId, newSchoolYear) {
      return;
    }
    if k1Level == Some(currentLevel) {
      if nextGrade.Some? {
        q := q.(toCreate := q.toCreate + [NewEnrollment(enrollment.studentId, enrollment.classId, nextGrade.value.id, newSchoolYear)]);
      }
    } else if k2Level == Some(currentLevel) {
      if nextGrade.Some? {
        q := q.(toCreate := q.toCreate + [NewEnrollment(enrollment.studentId, enrollment.classId, nextGrade.value.id, newSchoolYear)]);
        q := q.(k2 := q.k2 + [enrollment.studentId]);
      }
    } else if nurseryLevel == Some(currentLevel) {
      q := q.(nursery := q.nursery + [enrollment.studentId]);
    } else if k3Level == Some(currentLevel) {
      q := q.(graduated := q.graduated + [enrollment.studentId]);
    }
  }

  /** The promotion loop: the plan of every active enrollment, in order, and the student
      table after each K3 student has graduated. */
  method PlanPromotions(activeEnrollments: seq<EnrollmentRow>, grades: seq<Grade>, existing: seq<EnrollmentRow>,
                        newSchoolYear: int, students: seq<StudentRow>, today: Date,
                        k1Level: Option<int>, k2Level: Option<int>, k3Level: Option<int>, nurseryLevel: Option<int>)
    returns (plan: Plan, graduated: seq<StudentRow>)
    requires k1Level == LevelOf(grades, K1) && k2Level == LevelOf(grades, K2)
    requires k3Level == LevelOf(grades, K3) && nurseryLevel == LevelOf(grades, Nursery)
    ensures plan == PlanAll(activeEnrollments, grades, existing, newSchoolYear)
    ensures graduated == GraduateAll(students, plan.graduated, today)
  {
    plan := Plan([], [], [], []);
    graduated := students;
    for i := 0 to |activeEnrollments|
      invariant plan == PlanAll(activeEnrollments[..i], grades, existing, newSchoolYear)
      invariant graduated == GraduateAll(students, plan.graduated, today)
    {
      assert activeEnrollments[..i + 1][..i] == activeEnrollments[..i];
      var enrollment := activeEnrollments[i];
      var next := PromoteOne(plan, enrollment, grades, existing, newSchoolYear, k1Level, k2Level, k3Level, nurseryLevel);
      if |next.graduated| > |plan.graduated| {
        assert next.graduated[..|next.graduated| - 1] == plan.graduated;
        graduated := Graduate(graduated, enrollment.studentId, today);
      }
      plan := next;
    }
    assert activeEnrollments[..|activeEnrollments|] == activeEnrollments;
  }

  function PlanAll(active: seq<EnrollmentRow>, grades: seq<Grade>, existing: seq<EnrollmentRow>, newSchoolYear: int): Plan
  {
    if active == [] then Plan([], [], [], [])
    else PlanStep(PlanAll(active[..|active| - 1], grades, existing, newSchoolYear), active[|active| - 1], grades, existing, newSchoolYear)
  }

  /** `student.update({ status: 'graduated', departureDate, departureReason: '畢業' })`. */
  function Graduate(students: seq<StudentRow>, sid: int, today: Date): (r: seq<StudentRow>)
    ensures |r| == |students|
    ensures forall i :: 0 <= i < |r| && students[i].id == sid ==>
              r[i].status == Graduated && r[i].departureReason == Some(GraduationReason) && r[i].id == sid
    ensures forall i :: 0 <= i < |r| && students[i].id != sid ==> r[i] == students[i]
  {
    seq(|students|, i requires 0 <= i < |students| =>
      if students[i].id == sid
      then students[i].(status := Graduated, departureDate := Some(today), departureReason := Some(GraduationReason))
      else students[i])
  }

  function GraduateAll(students: seq<StudentRow>, ids: seq<int>, today: Date): (r: seq<StudentRow>)
    ensures |r| == |students|
  {
    if ids == [] then students else Graduate(GraduateAll(students, ids[..|ids| - 1], today), ids[|ids| - 1], today)
  }

  /** `createMany(enrollmentsToCreate)`: the rows get consecutive ids. */
  function Created(nextId: int, cs: seq<NewEnrollment>): (r: seq<EnrollmentRow>)
    ensures |r| == |cs|
    ensures forall i :: 0 <= i < |r| ==> r[i] == EnrollmentRow(nextId + i, cs[i].studentId, cs[i].classId, cs[i].gradeId, cs[i].schoolYear)
  {
    seq(|cs|, i requires 0 <= i < |cs| => EnrollmentRow(nextId + i, cs[i].studentId, cs[i].classId, cs[i].gradeId, cs[i].schoolYear))
  }

  /** The number of enrollments of a student for a year. */
  function CountFor(es: seq<EnrollmentRow>, sid: int, year: int): nat
  {
    if es == [] then 0
    else CountFor(es[..|es| - 1], sid, year) + (if es[|es| - 1].studentId == sid && es[|es| - 1].schoolYear == year then 1 else 0)
  }

  /** `findFirst({ where: { studentId, schoolYear } })`. */
  function FirstEnrollment(es: seq<EnrollmentRow>, sid: int, year: int): (r: Option<nat>)
    ensures r.Some? ==> r.value < |es| && es[r.value].studentId == sid && es[r.value].schoolYear == year
    ensures r.None? <==> CountFor(es, sid, year) == 0
  {
    if es == [] then None
    else
      var r := FirstEnrollment(es[..|es| - 1], sid, year);
      if r.Some? then r
      else if es[|es| - 1].studentId == sid && es[|es| - 1].schoolYear == year then Some(|es| - 1)
      else None
  }

  /** The enrollment found is the first one of the student for the year, and none is found
      only when the student has none for the year. */
  lemma {:induction false} FirstEnrollmentIsFirst(es: seq<EnrollmentRow>, sid: int, year: int)
    ensures var r := FirstEnrollment(es, sid, year);
            forall i :: 0 <= i < |es| && (r.None? || i < r.value) ==> !(es[i].studentId == sid && es[i].schoolYear == year)
  {
    if es != [] {
      var prefix := es[..|es| - 1];
      FirstEnrollmentIsFirst(prefix, sid, year);
      assert forall i :: 0 <= i < |prefix| ==> prefix[i] == es[i];
    }
  }

  /** The checks of `manualAssignNursery`, in order: the student, the class and the grade
      must exist, and the grade must be NURSERY or K1. The first that fails names the error. */
  function AssignmentError(students: seq<StudentRow>, classIds: set<int>, grades: seq<Grade>,
                           studentId: int, gradeId: int, classId: int): (r: Option<AcademicError>)
    ensures r == Some(StudentNotFound(studentId)) <==> !StudentExists(students, studentId)
    ensures StudentExists(students, studentId) && classId !in classIds ==> r == Some(ClassNotFound(classId))
    ensures StudentExists(students, studentId) && classId in classIds && GradeById(grades, gradeId).None?
            ==> r == Some(GradeNotFound(gradeId))
    ensures (StudentExists(students, studentId) && classId in classIds && GradeById(grades, gradeId).Some?
             && GradeById(grades, gradeId).value.name !in {Nursery, K1})
            ==> r == Some(GradeNotAllowed)
    ensures r.None? <==> && StudentExists(students, studentId) && classId in classIds
                         && GradeById(grades, gradeId).Some? && GradeById(grades, gradeId).value.name in {Nursery, K1}
  {
    if !StudentExists(students, studentId) then Some(StudentNotFound(studentId))
    else if classId !in classIds then Some(ClassNotFound(classId))
    else
      var targetGrade := GradeById(grades, gradeId);
      if targetGrade.None? then Some(GradeNotFound(gradeId))
      else if targetGrade.value.name != Nursery && targetGrade.value.name != K1 then Some(GradeNotAllowed)
      else None
  }

  class AcademicStore {
    var years: seq<AcademicYear>
    var grades: seq<Grade>
    var students: seq<StudentRow>
    var enrollments: seq<EnrollmentRow>
    var classIds: set<int>
    var nextYearId: int
    var nextEnrollmentId: int

    predicate Valid()
      reads this
    {
      && UniqueYearIds(years)
      && UniqueYears(years)
      && (forall i :: 0 <= i < |years| ==> years[i].id < nextYearId)
      && (forall i :: 0 <= i < |enrollments| ==> enrollments[i].id < nextEnrollmentId)
    }

    constructor (grades: seq<Grade>, students: seq<StudentRow>, classIds: set<int>)
      ensures Valid()
      ensures this.grades == grades && this.students == students && this.classIds == classIds
      ensures years == [] && enrollments == [] && nextYearId == 1 && nextEnrollmentId == 1
    {
      this.grades := grades;
      this.students := students;
      this.classIds := classIds;
      years := [];
      enrollments := [];
      nextYearId := 1;
      nextEnrollmentId := 1;
    }

    /** `createAcademicYear`: a duplicate `year` is a Conflict that changes nothing; an active
        new year first deactivates every other one. */
    method CreateAcademicYear(input: YearInput) returns (r: Result<AcademicYear, AcademicError>)
      requires Valid()
      modifies this
      ensures Valid()
      ensures grades == old(grades) && students == old(students) && enrollments == old(enrollments)
      ensures classIds == old(classIds) && nextEnrollmentId == old(nextEnrollmentId)
      ensures YearExists(old(years), input.year) ==> r == Err(Conflict(input.year)) && years == old(years) && nextYearId == old(nextYearId)
      ensures !YearExists(old(years), input.year) ==>
                && r == Ok(AcademicYear(old(nextYearId), input.year, input.name, input.startDate, input.endDate, input.isActive))
                && years == (if input.isActive then Deactivate(old(years), None) else old(years)) + [r.value]
                && nextYearId == old(nextYearId) + 1
      ensures r.Ok? && input.isActive ==> forall i :: 0 <= i < |years| ==> (years[i].isActive <==> years[i].id == r.value.id)
      ensures AtMostOneActive(old(years)) ==> AtMostOneActive(years)
    {
      if YearExists(years, input.year) {
        return Err(Conflict(input.year));
      }
      if input.isActive {
        years := Deactivate(years, None);
      }
      var newYear := AcademicYear(nextYearId, input.year, input.name, input.startDate, input.endDate, input.isActive);
      AppendKeepsUniqueYears(years, newYear);
      years := years + [newYear];
      nextYearId := nextYearId + 1;
      r := Ok(newYear);
    }

    /** `updateAcademicYear`: an active update first deactivates every other year, and that
        happens even when the update then fails, because `id` is not found or because
        another year already holds the new `year`. */
    method UpdateAcademicYear(id: int, input: YearInput) returns (r: Result<AcademicYear, AcademicError>)
      requires Valid()
      modifies this
      ensures Valid()
      ensures grades == old(grades) && students == old(students) && enrollments == old(enrollments)
      ensures classIds == old(classIds) && nextYearId == old(nextYearId) && nextEnrollmentId == old(nextEnrollmentId)
      ensures var base := if input.isActive then Deactivate(old(years), Some(id)) else old(years);
              match YearIndex(old(years), id)
              case None => r == Err(YearNotFound(id)) && years == base
              case Some(k) =>
                if YearTakenByOther(old(years), id, input.year) then
                  r == Err(DuplicateYear(input.year)) && years == base
                else
                  && r == Ok(AcademicYear(id, input.year, input.name, input.startDate, input.endDate, input.isActive))
                  && years == base[k := r.value]
      ensures r.Ok? && input.isActive ==> forall i :: 0 <= i < |years| ==> (years[i].isActive <==> years[i].id == id)
      ensures !input.isActive && AtMostOneActive(old(years)) ==> AtMostOneActive(years)
    {
      var taken := YearTakenByOther(years, id, input.year);
      DeactivateKeepsKeys(years, Some(id), id, input.year);
      if input.isActive {
        years := Deactivate(years, Some(id));
      }
      var k := YearIndex(years, id);
      if k.None? {
        return Err(YearNotFound(id));
      }
      if taken {
        return Err(DuplicateYear(input.year));
      }
      var updated := AcademicYear(id, input.year, input.name, input.startDate, input.endDate, input.isActive);
      UpdateKeepsUniqueYears(years, k.value, updated);
      years := years[k.value := updated];
      r := Ok(updated);
    }

    /** `promoteStudents`: K1 and K2 move up one level in the same class, K2 students are
        also listed for a class assignment, NURSERY students are listed for a manual
        decision, K3 students graduate; students already enrolled in `newSchoolYear` are
        skipped. */
    method PromoteStudents(newSchoolYear: int, today: Date) returns (res: PromotionResult)
      requires Valid()
      modifies this
      ensures Valid()
      ensures years == old(years) && grades == old(grades) && classIds == old(classIds) && nextYearId == old(nextYearId)
      ensures var p := PlanAll(ActiveEnrollments(old(enrollments), old(students), newSchoolYear - 1), old(grades), old(enrollments), newSchoolYear);
              && res == PromotionResult(|p.toCreate|, |p.graduated|, |p.nursery|, |p.k2|, p.nursery, p.k2)
              && students == GraduateAll(old(students), p.graduated, today)
              && enrollments == old(enrollments) + Created(old(nextEnrollmentId), p.toCreate)
              && nextEnrollmentId == old(nextEnrollmentId) + |p.toCreate|
    {
      var previousSchoolYear := newSchoolYear - 1;
      var k1Level := LevelOf(grades, K1);
      var k2Level := LevelOf(grades, K2);
      var k3Level := LevelOf(grades, K3);
      var nurseryLevel := LevelOf(grades, Nursery);
      var activeEnrollments := ActiveEnrollments(enrollments, students, previousSchoolYear);
      var plan, graduatedStudents := PlanPromotions(activeEnrollments, grades, enrollments, newSchoolYear, students, today,
                                                    k1Level, k2Level, k3Level, nurseryLevel);
      students := graduatedStudents;
      var enrollmentsToCreate := plan.toCreate;
      if |enrollmentsToCreate| > 0 {
        enrollments := enrollments + Created(nextEnrollmentId, enrollmentsToCreate);
        nextEnrollmentId := nextEnrollmentId + |enrollmentsToCreate|;
      } else {
        assert Created(nextEnrollmentId, enrollmentsToCreate) == [];
      }
      res := PromotionResult(|enrollmentsToCreate|, |plan.graduated|, |plan.nursery|, |plan.k2|,
                             plan.nursery, plan.k2);
    }

    /** `manualAssignNursery`: the student, the class and the grade must exist, and the
        grade must be NURSERY or K1; then the student's enrollment for the year is updated,
        or created when there is none. */
    method ManualAssignNursery(studentId: int, schoolYear: int, gradeId: int, classId: int)
      returns (r: Result<EnrollmentRow, AcademicError>)
      requires Valid()
      modifies this
      ensures Valid()
      ensures years == old(years) && grades == old(grades) && students == old(students) && classIds == old(classIds)
      ensures nextYearId == old(nextYearId)
      ensures r.Err? ==> enrollments == old(enrollments) && nextEnrollmentId == old(nextEnrollmentId)
      ensures AssignmentError(students, classIds, grades, studentId, gradeId, classId).Some? ==>
                r == Err(AssignmentError(students, classIds, grades, studentId, gradeId, classId).value)
      ensures r.Ok? <==> AssignmentError(students, classIds, grades, studentId, gradeId, classId).None?
      ensures r.Ok? ==> && GradeById(grades, gradeId).Some? && GradeById(grades, gradeId).value.name in {Nursery, K1}
                        && classId in classIds
                        && r.value.studentId == studentId && r.value.schoolYear == schoolYear
                        && r.value.gradeId == gradeId && r.value.classId == classId
      ensures r.Ok? ==> match FirstEnrollment(old(enrollments), studentId, schoolYear)
                        case Some(k) => enrollments == old(enrollments)[k := r.value] && r.value.id == old(enrollments)[k].id
                        case None => enrollments == old(enrollments) + [r.value] && r.value.id == old(nextEnrollmentId)
      ensures r.Ok? && CountFor(old(enrollments), studentId, schoolYear) <= 1 ==> CountFor(enrollments, studentId, schoolYear) == 1
    {
      var failed := AssignmentError(students, classIds, grades, studentId, gradeId, classId);
      if failed.Some? {
        return Err(failed.value);
      }
      var existing := FirstEnrollment(enrollments, studentId, schoolYear);
      if existing.Some? {
        var updated := enrollments[existing.value].(gradeId := gradeId, classId := classId);
        CountAfterUpdate(enrollments, existing.value, updated, studentId, schoolYear);
        enrollments := enrollments[existing.value := updated];
        return Ok(updated);
      }
      var created := EnrollmentRow(nextEnrollmentId, studentId, classId, gradeId, schoolYear);
      CountAfterAppend(enrollments, created, studentId, schoolYear);
      enrollments := enrollments + [created];
      nextEnrollmentId := nextEnrollmentId + 1;
      r := Ok(created);
    }
  }

  // ---------------------------------------------------------------------------
  // Properties.

  lemma {:induction false} CountAfterUpdate(es: seq<EnrollmentRow>, k: nat, e: EnrollmentRow, sid: int, year: int)
    requires k < |es| && es[k].studentId == sid && es[k].schoolYear == year
    requires e.studentId == sid && e.schoolYear == year
    ensures CountFor(es[k := e], sid, year) == CountFor(es, sid, year)
  {
    if k < |es| - 1 {
      CountAfterUpdate(es[..|es| - 1], k, e, sid, year);
      assert es[k := e][..|es| - 1] == es[..|es| - 1][k := e];
    } else {
      assert es[k := e][..|es| - 1] == es[..|es| - 1];
    }
  }

  lemma CountAfterAppend(es: seq<EnrollmentRow>, e: EnrollmentRow, sid: int, year: int)
    requires e.studentId == sid && e.schoolYear == year
    ensures CountFor(es + [e], sid, year) == CountFor(es, sid, year) + 1
  {
    assert (es + [e])[..|es|] == es;
  }

  /** The three counters and the two lists agree: `promoted` counts the created enrollments,
      the K2 students are among them, and the lists have the counted lengths. */
  lemma {:induction false} PlanCounts(active: seq<EnrollmentRow>, grades: seq<Grade>, existing: seq<EnrollmentRow>, y: int)
    ensures var p := PlanAll(active, grades, existing, y);
            && |p.k2| <= |p.toCreate| && |p.toCreate| + |p.graduated| + |p.nursery| <= |active|
            && forall sid :: sid in p.k2 ==> exists c :: c in p.toCreate && c.studentId == sid
  {
    if active != [] {
      PlanCounts(active[..|active| - 1], grades, existing, y);
    }
  }

  /** Every created enrollment comes from an enrollment of a K1 or K2 student without an
      enrollment in the new year, keeps its class, moves up exactly one level, and is for
      the new year. */
  lemma {:induction false} PlanCreatesPromotions(active: seq<EnrollmentRow>, grades: seq<Grade>, existing: seq<EnrollmentRow>, y: int)
    ensures var p := PlanAll(active, grades, existing, y);
            forall c :: c in p.toCreate ==>
              && c.schoolYear == y
              && !HasEnrollmentIn(existing, c.studentId, y)
              && exists e, g, n :: e in active && e.studentId == c.studentId && e.classId == c.classId
                                   && GradeById(grades, e.gradeId) == Some(g) && (LevelOf(grades, K1) == Some(g.level) || LevelOf(grades, K2) == Some(g.level))
                                   && n in grades && n.id == c.gradeId && n.level == g.level + 1
  {
    if active != [] {
      var prefix := active[..|active| - 1];
      PlanCreatesPromotions(prefix, grades, existing, y);
      assert forall e :: e in prefix ==> e in active;
      var e := active[|active| - 1];
      assert e in active;
      StepCreatesPromotion(PlanAll(prefix, grades, existing, y), e, grades, existing, y);
    }
  }

  /** The enrollment one step of the loop creates, if any, is the promotion of that step's
      enrollment. */
  lemma StepCreatesPromotion(p0: Plan, e: EnrollmentRow, grades: seq<Grade>, existing: seq<EnrollmentRow>, y: int)
    ensures var p := PlanStep(p0, e, grades, existing, y);
            && p0.toCreate <= p.toCreate
            && forall c :: c in p.toCreate && c !in p0.toCreate ==>
                 && c.schoolYear == y && c.studentId == e.studentId && c.classId == e.classId
                 && !HasEnrollmentIn(existing, c.studentId, y)
                 && exists g, n :: GradeById(grades, e.gradeId) == Some(g)
                                   && (LevelOf(grades, K1) == Some(g.level) || LevelOf(grades, K2) == Some(g.level))
                                   && n in grades && n.id == c.gradeId && n.level == g.level + 1
  {
    var p := PlanStep(p0, e, grades, existing, y);
    forall c | c in p.toCreate && c !in p0.toCreate
      ensures exists g, n :: GradeById(grades, e.gradeId) == Some(g)
                             && (LevelOf(grades, K1) == Some(g.level) || LevelOf(grades, K2) == Some(g.level))
                             && n in grades && n.id == c.gradeId && n.level == g.level + 1
    {
      var g := GradeById(grades, e.gradeId).value;
      var n := GradeAtLevel(grades, g.level + 1).value;
    }
  }

  /** NURSERY students are listed for a manual decision only when they have no enrollment in
      the new year. */
  lemma {:induction false} PlanListsNursery(active: seq<EnrollmentRow>, grades: seq<Grade>, existing: seq<EnrollmentRow>, y: int)
    ensures var p := PlanAll(active, grades, existing, y);
            forall sid :: sid in p.nursery ==>
              && (exists e, g :: e in active && e.studentId == sid
                    && GradeById(grades, e.gradeId) == Some(g) && LevelOf(grades, Nursery) == Some(g.level))
              && !HasEnrollmentIn(existing, sid, y)
  {
    if active != [] {
      var prefix := active[..|active| - 1];
      PlanListsNursery(prefix, grades, existing, y);
      var e := active[|active| - 1];
      var p0 := PlanAll(prefix, grades, existing, y);
      var p := PlanAll(active, grades, existing, y);
      assert p == PlanStep(p0, e, grades, existing, y);
      assert e in active;
      forall sid | sid in p.nursery
        ensures exists e, g :: e in active && e.studentId == sid
                  && GradeById(grades, e.gradeId) == Some(g) && LevelOf(grades, Nursery) == Some(g.level)
        ensures !HasEnrollmentIn(existing, sid, y)
      {
        if sid in p0.nursery {
          assert !HasEnrollmentIn(existing, sid, y);
          assert exists e, g :: e in prefix && e.studentId == sid
                  && GradeById(grades, e.gradeId) == Some(g) && LevelOf(grades, Nursery) == Some(g.level);
          var e', g' :| e' in prefix && e'.studentId == sid
                  && GradeById(grades, e'.gradeId) == Some(g') && LevelOf(grades, Nursery) == Some(g'.level);
          assert e' in active;
        } else {
          assert GradeById(grades, e.gradeId).Some?;
        }
      }
    }
  }

  /** The graduates are exactly K3 students without an enrollment in the new year. */
  lemma {:induction false} PlanListsGraduates(active: seq<EnrollmentRow>, grades: seq<Grade>, existing: seq<EnrollmentRow>, y: int)
    ensures var p := PlanAll(active, grades, existing, y);
            forall sid :: sid in p.graduated ==>
              && (exists e, g :: e in active && e.studentId == sid
                    && GradeById(grades, e.gradeId) == Some(g) && LevelOf(grades, K3) == Some(g.level))
              && !HasEnrollmentIn(existing, sid, y)
  {
    if active != [] {
      var prefix := active[..|active| - 1];
      PlanListsGraduates(prefix, grades, existing, y);
      var e := active[|active| - 1];
      var p0 := PlanAll(prefix, grades, existing, y);
      var p := PlanAll(active, grades, existing, y);
      assert p == PlanStep(p0, e, grades, existing, y);
      assert e in active;
      forall sid | sid in p.graduated
        ensures exists e, g :: e in active && e.studentId == sid
                  && GradeById(grades, e.gradeId) == Some(g) && LevelOf(grades, K3) == Some(g.level)
        ensures !HasEnrollmentIn(existing, sid, y)
      {
        if sid in p0.graduated {
          assert !HasEnrollmentIn(existing, sid, y);
          assert exists e, g :: e in prefix && e.studentId == sid
                  && GradeById(grades, e.gradeId) == Some(g) && LevelOf(grades, K3) == Some(g.level);
          var e', g' :| e' in prefix && e'.studentId == sid
                  && GradeById(grades, e'.gradeId) == Some(g') && LevelOf(grades, K3) == Some(g'.level);
          assert e' in active;
        } else {
          assert GradeById(grades, e.gradeId).Some?;
        }
      }
    }
  }

  /** A plan `q` continues `p`: each of its lists starts with the corresponding list of `p`. */
  predicate PlanExtends(p: Plan, q: Plan)
  {
    p.toCreate <= q.toCreate && p.graduated <= q.graduated && p.nursery <= q.nursery && p.k2 <= q.k2
  }

  /** The plan only ever grows: the plan of a prefix of the enrollments is continued by the plan
      of all of them. */
  lemma {:induction false} PlanPrefix(active: seq<EnrollmentRow>, grades: seq<Grade>, existing: seq<EnrollmentRow>, y: int, k: nat)
    requires k <= |active|
    ensures PlanExtends(PlanAll(active[..k], grades, existing, y), PlanAll(active, grades, existing, y))
    decreases |active| - k
  {
    if k == |active| {
      assert active[..k] == active;
    } else {
      var prefix := active[..|active| - 1];
      PlanPrefix(prefix, grades, existing, y, k);
      assert prefix[..k] == active[..k];
    }
  }

  /** The plan of the first `k + 1` enrollments is one step of the loop after the plan of the
      first `k`. */
  lemma PlanAt(active: seq<EnrollmentRow>, grades: seq<Grade>, existing: seq<EnrollmentRow>, y: int, k: nat)
    requires k < |active|
    ensures PlanAll(active[..k + 1], grades, existing, y)
         == PlanStep(PlanAll(active[..k], grades, existing, y), active[k], grades, existing, y)
  {
    assert active[..k + 1][..k] == active[..k];
  }

  /** Conversely, every enrollment of a K1 or K2 student without an enrollment in the new year
      whose grade has a next level gives a new enrollment in the same class, at that next
      grade, for the new year; a K2 student is also listed for a class assignment. */
  lemma {:induction false} PlanPromotesEligible(active: seq<EnrollmentRow>, grades: seq<Grade>, existing: seq<EnrollmentRow>, y: int, k: nat, g: Grade, n: Grade)
    requires k < |active| && GradeById(grades, active[k].gradeId) == Some(g)
    requires !HasEnrollmentIn(existing, active[k].studentId, y)
    requires LevelOf(grades, K1) == Some(g.level) || LevelOf(grades, K2) == Some(g.level)
    requires GradeAtLevel(grades, g.level + 1) == Some(n)
    ensures var p := PlanAll(active, grades, existing, y);
            && NewEnrollment(active[k].studentId, active[k].classId, n.id, y) in p.toCreate
            && (LevelOf(grades, K1) != Some(g.level) ==> active[k].studentId in p.k2)
  {
    PlanAt(active, grades, existing, y, k);
    PlanPrefix(active, grades, existing, y, k + 1);
    var q := PlanAll(active[..k + 1], grades, existing, y);
    var p := PlanAll(active, grades, existing, y);
    var c := NewEnrollment(active[k].studentId, active[k].classId, n.id, y);
    assert c == q.toCreate[|q.toCreate| - 1];
    InPrefix(c, q.toCreate, p.toCreate);
    if LevelOf(grades, K1) != Some(g.level) {
      assert active[k].studentId == q.k2[|q.k2| - 1];
      InPrefix(active[k].studentId, q.k2, p.k2);
    }
  }

  /** An element of a list is an element of every list that continues it. */
  lemma InPrefix<T>(x: T, a: seq<T>, b: seq<T>)
    requires x in a && a <= b
    ensures x in b
  {
    var i :| 0 <= i < |a| && a[i] == x;
    assert b[i] == x;
  }

  /** Conversely, every NURSERY enrollment (a level no earlier branch claims) of a student
      without an enrollment in the new year is listed for a manual decision. */
  lemma {:induction false} PlanListsAllNursery(active: seq<EnrollmentRow>, grades: seq<Grade>, existing: seq<EnrollmentRow>, y: int, k: nat, g: Grade)
    requires k < |active| && GradeById(grades, active[k].gradeId) == Some(g)
    requires !HasEnrollmentIn(existing, active[k].studentId, y)
    requires LevelOf(grades, K1) != Some(g.level) && LevelOf(grades, K2) != Some(g.level)
    requires LevelOf(grades, Nursery) == Some(g.level)
    ensures active[k].studentId in PlanAll(active, grades, existing, y).nursery
  {
    PlanAt(active, grades, existing, y, k);
    PlanPrefix(active, grades, existing, y, k + 1);
    var q := PlanAll(active[..k + 1], grades, existing, y);
    assert active[k].studentId == q.nursery[|q.nursery| - 1];
    InPrefix(active[k].studentId, q.nursery, PlanAll(active, grades, existing, y).nursery);
  }

  /** Conversely, every K3 enrollment (a level no earlier branch claims) of a student without an
      enrollment in the new year makes the student a graduate. */
  lemma {:induction false} PlanGraduatesAllK3(active: seq<EnrollmentRow>, grades: seq<Grade>, existing: seq<EnrollmentRow>, y: int, k: nat, g: Grade)
    requires k < |active| && GradeById(grades, active[k].gradeId) == Some(g)
    requires !HasEnrollmentIn(existing, active[k].studentId, y)
    requires LevelOf(grades, K1) != Some(g.level) && LevelOf(grades, K2) != Some(g.level)
    requires LevelOf(grades, Nursery) != Some(g.level) && LevelOf(grades, K3) == Some(g.level)
    ensures active[k].studentId in PlanAll(active, grades, existing, y).graduated
  {
    PlanAt(active, grades, existing, y, k);
    PlanPrefix(active, grades, existing, y, k + 1);
    var q := PlanAll(active[..k + 1], grades, existing, y);
    assert active[k].studentId == q.graduated[|q.graduated| - 1];
    InPrefix(active[k].studentId, q.graduated, PlanAll(active, grades, existing, y).graduated);
  }

  /** Graduating a list of students: every row whose id is listed becomes a graduate with the
      graduation reason, and every other row is unchanged. */
  lemma {:induction false} GraduateAllSpec(students: seq<StudentRow>, ids: seq<int>, today: Date)
    ensures var r := GraduateAll(students, ids, today);
            && (forall i :: 0 <= i < |r| ==> r[i].id == students[i].id)
            && (forall i :: 0 <= i < |r| && students[i].id in ids ==>
                  r[i].status == Graduated && r[i].departureReason == Some(GraduationReason))
            && (forall i :: 0 <= i < |r| && students[i].id !in ids ==> r[i] == students[i])
  {
    if ids != [] {
      var front := ids[..|ids| - 1];
      GraduateAllSpec(students, front, today);
      assert ids == front + [ids[|ids| - 1]];
    }
  }

}
