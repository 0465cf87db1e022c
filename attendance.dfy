/** The attendance service: the roll call of a class on a date, and the submitted roll call
    written back as upserts keyed by (student, date). */
module Attendance {
  import opened Wrappers
  import opened Calendar
  import opened Schema

  datatype RollEntry = RollEntry(studentId: int, studentName: string, status: AttendanceStatus)

  /** Students having an enrollment in the class (any year). */
  predicate InClass(s: Student, classId: int)
  {
    exists e :: e in s.enrollments && e.classId == classId
  }

  function StudentsOfClass(students: seq<Student>, classId: int): (r: seq<Student>)
    ensures forall s :: s in r <==> s in students && InClass(s, classId)
  {
    if students == [] then []
    else
      var r := StudentsOfClass(students[..|students| - 1], classId);
      var s := students[|students| - 1];
      assert students == students[..|students| - 1] + [s];
      if InClass(s, classId) then r + [s] else r
  }

  /** Some approved or pending request of the student covers the date. */
  predicate OnLeave(sid: int, d: Date, leaves: seq<LeaveRequest>)
  {
    exists l :: l in leaves && l.studentId == sid && Blocks(l) && Covers(l, d)
  }

  /** `new Map(records.map(r => [r.studentId, r.status]))`: a later pair for the same
      student replaces an earlier one. */
  function StatusMap(rs: seq<AttendanceRecord>, d: Date): (m: map<int, AttendanceStatus>)
    ensures forall sid :: sid in m <==> exists r :: r in rs && r.studentId == sid && r.date == d
  {
    if rs == [] then map[]
    else
      var m := StatusMap(rs[..|rs| - 1], d);
      var r := rs[|rs| - 1];
      assert rs == rs[..|rs| - 1] + [r];
      if r.date == d then m[r.studentId := r.status] else m
  }

  /** The status of one student: on leave first, else the stored status, else present. */
  function RollStatus(sid: int, d: Date, records: seq<AttendanceRecord>, leaves: seq<LeaveRequest>): AttendanceStatus
  {
    var m := StatusMap(records, d);
    if OnLeave(sid, d, leaves) then Schema.OnLeave
    else if sid in m then m[sid]
    else Present
  }

  /** `getAttendanceForClass`: one entry per student of the class, in student order. */
  function GetAttendanceForClass(students: seq<Student>, classId: int, d: Date,
                                 records: seq<AttendanceRecord>, leaves: seq<LeaveRequest>): (r: seq<RollEntry>)
    ensures var cls := StudentsOfClass(students, classId);
            && |r| == |cls|
            && forall i :: 0 <= i < |r| ==> r[i].studentId == cls[i].id && r[i].studentName == cls[i].name
    ensures forall i :: 0 <= i < |r| && OnLeave(r[i].studentId, d, leaves) ==> r[i].status == Schema.OnLeave
    ensures forall i :: (0 <= i < |r| && !OnLeave(r[i].studentId, d, leaves)
                         && forall a :: a in records ==> !(a.studentId == r[i].studentId && a.date == d))
                        ==> r[i].status == Present
  {
    var cls := StudentsOfClass(students, classId);
    seq(|cls|, i requires 0 <= i < |cls| => RollEntry(cls[i].id, cls[i].name, RollStatus(cls[i].id, d, records, leaves)))
  }

  /** With at most one record per (student, date), a stored record decides the status of a
      student who is not on leave. */
  lemma StoredStatusWins(sid: int, d: Date, records: seq<AttendanceRecord>, leaves: seq<LeaveRequest>, a: AttendanceRecord)
    requires UniqueKeys(records)
    requires a in records && a.studentId == sid && a.date == d
    requires !OnLeave(sid, d, leaves)
    ensures RollStatus(sid, d, records, leaves) == a.status
  {
    StatusMapUnique(records, d, a);
  }

  lemma {:induction false} StatusMapUnique(rs: seq<AttendanceRecord>, d: Date, a: AttendanceRecord)
    requires UniqueKeys(rs)
    requires a in rs && a.date == d
    ensures a.studentId in StatusMap(rs, d) && StatusMap(rs, d)[a.studentId] == a.status
  {
    var r := rs[|rs| - 1];
    var prefix := rs[..|rs| - 1];
    assert rs == prefix + [r];
    if a != r {
      assert a in prefix;
      StatusMapUnique(prefix, d, a);
    }
  }

  // ---------------------------------------------------------------------------
  // The attendance table.

  /** At most one record per (student, date). */
  predicate UniqueKeys(rs: seq<AttendanceRecord>)
  {
    forall i, j :: 0 <= i < j < |rs| ==> !(rs[i].studentId == rs[j].studentId && rs[i].date == rs[j].date)
  }

  /** A submitted roll-call entry. */
  datatype Submission = Submission(studentId: int, status: AttendanceStatus, note: Option<string>)

  function IndexOfKey(rs: seq<AttendanceRecord>, sid: int, d: Date): (r: Option<nat>)
    ensures r.Some? ==> r.value < |rs| && rs[r.value].studentId == sid && rs[r.value].date == d
    ensures r.None? ==> forall i :: 0 <= i < |rs| ==> !(rs[i].studentId == sid && rs[i].date == d)
  {
    if rs == [] then None
    else if rs[|rs| - 1].studentId == sid && rs[|rs| - 1].date == d then Some(|rs| - 1)
    else IndexOfKey(rs[..|rs| - 1], sid, d)
  }

  /** The note stored for the student and date, `None` when there is no record. */
  function StoredNote(rs: seq<AttendanceRecord>, sid: int, d: Date): Option<string>
  {
    match IndexOfKey(rs, sid, d)
    case Some(i) => rs[i].note
    case None => None
  }

  /** An update that leaves a field undefined does not touch it: an omitted note keeps the
      stored one, a given note replaces it. */
  function MergedNote(stored: Option<string>, submitted: Option<string>): Option<string>
  {
    if submitted.Some? then submitted else stored
  }

  /** One upsert: an existing record gets its status replaced and its note replaced when one
      is submitted; otherwise a new record is appended with the class, the date and the creator. */
  function UpsertRecord(rs: seq<AttendanceRecord>, nextId: int, s: Submission, classId: int, creatorId: int, d: Date): seq<AttendanceRecord>
  {
    match IndexOfKey(rs, s.studentId, d)
    case Some(i) => rs[i := rs[i].(status := s.status, note := MergedNote(rs[i].note, s.note))]
    case None => rs + [AttendanceRecord(nextId, s.studentId, classId, d, s.status, None, s.note, creatorId)]
  }

  function UpsertAll(rs: seq<AttendanceRecord>, nextId: int, subs: seq<Submission>, classId: int, creatorId: int, d: Date): seq<AttendanceRecord>
    decreases |subs|
  {
    if subs == [] then rs
    else
      var r := UpsertRecord(rs, nextId, subs[0], classId, creatorId, d);
      UpsertAll(r, nextId + (|r| - |rs|), subs[1..], classId, creatorId, d)
  }

  /** `records.filter(record => !onLeaveStudentIds.has(record.studentId))`. */
  function NotOnLeave(subs: seq<Submission>, onLeave: set<int>): (r: seq<Submission>)
    ensures forall s :: s in r <==> s in subs && s.studentId !in onLeave
  {
    if subs == [] then []
    else
      var r := NotOnLeave(subs[..|subs| - 1], onLeave);
      var s := subs[|subs| - 1];
      assert subs == subs[..|subs| - 1] + [s];
      if s.studentId !in onLeave then r + [s] else r
  }

  /** The ids of students of the class with an approved or pending request covering the date. */
  function OnLeaveIds(leaves: seq<LeaveRequest>, students: seq<Student>, classId: int, d: Date): (r: set<int>)
    ensures forall sid :: sid in r <==> exists l :: l in leaves && l.studentId == sid && Blocks(l) && Covers(l, d)
                                                   && exists s :: s in students && s.id == sid && InClass(s, classId)
  {
    set l, s | l in leaves && s in students && l.studentId == s.id && Blocks(l) && Covers(l, d) && InClass(s, classId) :: l.studentId
  }

  class AttendanceTable {
    var records: seq<AttendanceRecord>
    var nextId: int

    predicate Valid()
      reads this
    {
      UniqueKeys(records)
    }

    constructor ()
      ensures Valid() && records == [] && nextId == 1
    {
      records := [];
      nextId := 1;
    }

    /** The upsert of one record keyed by (student, date). */
    method Upsert(s: Submission, classId: int, creatorId: int, d: Date)
      requires Valid()
      modifies this
      ensures Valid()
      ensures records == UpsertRecord(old(records), old(nextId), s, classId, creatorId, d)
      ensures nextId == old(nextId) + (|records| - |old(records)|)
      ensures exists i :: 0 <= i < |records| && records[i].studentId == s.studentId && records[i].date == d
                          && records[i].status == s.status
                          && records[i].note == MergedNote(StoredNote(old(records), s.studentId, d), s.note)
    {
      var k := |records|;
      while k > 0 && !(records[k - 1].studentId == s.studentId && records[k - 1].date == d)
        invariant 0 <= k <= |records|
        invariant IndexOfKey(records, s.studentId, d) == IndexOfKey(records[..k], s.studentId, d)
      {
        assert records[..k][..k - 1] == records[..k - 1];
        k := k - 1;
      }
      if k > 0 {
        assert records[..k][k - 1] == records[k - 1];
        var r := records[k - 1];
        records := records[k - 1 := r.(status := s.status, note := MergedNote(r.note, s.note))];
        assert records[k - 1].studentId == s.studentId && records[k - 1].date == d;
      } else {
        assert records[..0] == [];
        records := records + [AttendanceRecord(nextId, s.studentId, classId, d, s.status, None, s.note, creatorId)];
        nextId := nextId + 1;
        assert records[|records| - 1].studentId == s.studentId;
      }
    }

    /** `recordClassAttendance`: drops the submissions of students on leave that day and
        upserts the rest in order. */
    method RecordClassAttendance(classId: int, creatorId: int, d: Date, subs: seq<Submission>,
                                 leaves: seq<LeaveRequest>, students: seq<Student>)
      requires Valid()
      modifies this
      ensures Valid()
      ensures records == UpsertAll(old(records), old(nextId), NotOnLeave(subs, OnLeaveIds(leaves, students, classId, d)), classId, creatorId, d)
    {
      var onLeaveStudentIds := OnLeaveIds(leaves, students, classId, d);
      var recordsToUpsert := NotOnLeave(subs, onLeaveStudentIds);
      ghost var start := records;
      ghost var startId := nextId;
      for i := 0 to |recordsToUpsert|
        invariant Valid()
        invariant UpsertAll(start, startId, recordsToUpsert, classId, creatorId, d)
               == UpsertAll(records, nextId, recordsToUpsert[i..], classId, creatorId, d)
      {
        assert recordsToUpsert[i..][1..] == recordsToUpsert[i + 1..];
        Upsert(recordsToUpsert[i], classId, creatorId, d);
      }
    }
  }

  // ---------------------------------------------------------------------------
  // Properties of the upserts.

  /** An upsert keeps at most one record per (student, date). */
  lemma UpsertUnique(rs: seq<AttendanceRecord>, nextId: int, s: Submission, classId: int, creatorId: int, d: Date)
    requires UniqueKeys(rs)
    ensures UniqueKeys(UpsertRecord(rs, nextId, s, classId, creatorId, d))
  {
  }

  /** An upsert changes only the status and note of the record it hits, and everything
      already stored keeps its id, student, class, date and creator. */
  lemma UpsertKeepsIdentity(rs: seq<AttendanceRecord>, nextId: int, s: Submission, classId: int, creatorId: int, d: Date)
    ensures var r := UpsertRecord(rs, nextId, s, classId, creatorId, d);
            && |rs| <= |r| <= |rs| + 1
            && forall i :: 0 <= i < |rs| ==>
                 r[i].(status := rs[i].status, note := rs[i].note) == rs[i]
                 && (r[i] != rs[i] ==> r[i].studentId == s.studentId && r[i].date == d)
  {
  }

  /** After one upsert the record for the student and date carries the submitted status, and
      the submitted note or, when none was submitted, the note stored before. */
  lemma UpsertStoresSubmission(rs: seq<AttendanceRecord>, nextId: int, s: Submission, classId: int, creatorId: int, d: Date)
    requires UniqueKeys(rs)
    ensures var r := UpsertRecord(rs, nextId, s, classId, creatorId, d);
            && IndexOfKey(r, s.studentId, d).Some?
            && r[IndexOfKey(r, s.studentId, d).value].status == s.status
            && r[IndexOfKey(r, s.studentId, d).value].note == MergedNote(StoredNote(rs, s.studentId, d), s.note)
  {
    var r := UpsertRecord(rs, nextId, s, classId, creatorId, d);
    UpsertUnique(rs, nextId, s, classId, creatorId, d);
    var i := match IndexOfKey(rs, s.studentId, d) case Some(j) => j case None => |rs|;
    assert r[i].studentId == s.studentId && r[i].date == d;
    match IndexOfKey(r, s.studentId, d)
    case Some(j) => assert j == i;
    case None => assert false;
  }

  /** After the writes, every submission of a student not on leave has a record for the date. */
  lemma {:induction false} UpsertAllStores(rs: seq<AttendanceRecord>, nextId: int, subs: seq<Submission>, classId: int, creatorId: int, d: Date, k: nat)
    requires k < |subs|
    ensures exists i :: 0 <= i < |UpsertAll(rs, nextId, subs, classId, creatorId, d)|
                        && UpsertAll(rs, nextId, subs, classId, creatorId, d)[i].studentId == subs[k].studentId
                        && UpsertAll(rs, nextId, subs, classId, creatorId, d)[i].date == d
    decreases |subs|
  {
    var r := UpsertRecord(rs, nextId, subs[0], classId, creatorId, d);
    if k == 0 {
      var i :| 0 <= i < |r| && r[i].studentId == subs[0].studentId && r[i].date == d by {
        match IndexOfKey(rs, subs[0].studentId, d)
        case Some(j) => assert r[j].studentId == subs[0].studentId && r[j].date == d;
        case None => assert r[|rs|].studentId == subs[0].studentId && r[|rs|].date == d;
      }
      UpsertAllKeepsKeys(r, nextId + (|r| - |rs|), subs[1..], classId, creatorId, d, i);
      var after := UpsertAll(rs, nextId, subs, classId, creatorId, d);
      assert after == UpsertAll(r, nextId + (|r| - |rs|), subs[1..], classId, creatorId, d);
      assert after[i].studentId == subs[0].studentId && after[i].date == d;
    } else {
      UpsertAllStores(r, nextId + (|r| - |rs|), subs[1..], classId, creatorId, d, k - 1);
      assert subs[1..][k - 1] == subs[k];
      assert UpsertAll(rs, nextId, subs, classId, creatorId, d) == UpsertAll(r, nextId + (|r| - |rs|), subs[1..], classId, creatorId, d);
    }
  }

  /** Record `i` holds the submission for date `d`: same student, same status, and the
      submitted note when one was given. */
  predicate StoresSubmission(rs: seq<AttendanceRecord>, i: int, s: Submission, d: Date)
  {
    0 <= i < |rs| && rs[i].studentId == s.studentId && rs[i].date == d && rs[i].status == s.status
    && (s.note.Some? ==> rs[i].note == s.note)
  }

  /** When a student is submitted several times, the last submission wins: its status, and its
      note when it has one, is what the record holds after the writes. */
  lemma {:induction false} UpsertAllLastWins(rs: seq<AttendanceRecord>, nextId: int, subs: seq<Submission>, classId: int, creatorId: int, d: Date, k: nat)
    requires k < |subs|
    requires forall j :: k < j < |subs| ==> subs[j].studentId != subs[k].studentId
    ensures exists i :: StoresSubmission(UpsertAll(rs, nextId, subs, classId, creatorId, d), i, subs[k], d)
    decreases |subs|
  {
    var r := UpsertRecord(rs, nextId, subs[0], classId, creatorId, d);
    var after := UpsertAll(rs, nextId, subs, classId, creatorId, d);
    assert after == UpsertAll(r, nextId + (|r| - |rs|), subs[1..], classId, creatorId, d);
    if k == 0 {
      var i :| 0 <= i < |r| && r[i].studentId == subs[0].studentId && r[i].date == d && r[i].status == subs[0].status
               && (subs[0].note.Some? ==> r[i].note == subs[0].note) by {
        match IndexOfKey(rs, subs[0].studentId, d)
        case Some(j) => assert r[j].studentId == subs[0].studentId && r[j].date == d;
        case None => assert r[|rs|].studentId == subs[0].studentId && r[|rs|].date == d;
      }
      forall t | t in subs[1..]
        ensures t.studentId != r[i].studentId
      {
        var j :| 0 <= j < |subs[1..]| && subs[1..][j] == t;
        assert subs[j + 1] == t;
      }
      UpsertAllUntouched(r, nextId + (|r| - |rs|), subs[1..], classId, creatorId, d, i);
      assert after[i] == r[i];
      assert StoresSubmission(after, i, subs[k], d);
    } else {
      assert subs[1..][k - 1] == subs[k];
      forall j | k - 1 < j < |subs[1..]|
        ensures subs[1..][j].studentId != subs[1..][k - 1].studentId
      {
        assert subs[1..][j] == subs[j + 1];
      }
      UpsertAllLastWins(r, nextId + (|r| - |rs|), subs[1..], classId, creatorId, d, k - 1);
    }
  }

  /** A record present before the writes is still there, in the same place and with the same
      key, afterwards. */
  lemma {:induction false} UpsertAllKeepsKeys(rs: seq<AttendanceRecord>, nextId: int, subs: seq<Submission>, classId: int, creatorId: int, d: Date, i: nat)
    requires i < |rs|
    ensures var r := UpsertAll(rs, nextId, subs, classId, creatorId, d);
            i < |r| && r[i].studentId == rs[i].studentId && r[i].date == rs[i].date && r[i].id == rs[i].id
    decreases |subs|
  {
    if subs != [] {
      var r := UpsertRecord(rs, nextId, subs[0], classId, creatorId, d);
      UpsertKeepsIdentity(rs, nextId, subs[0], classId, creatorId, d);
      UpsertAllKeepsKeys(r, nextId + (|r| - |rs|), subs[1..], classId, creatorId, d, i);
    }
  }

  /** Records of other dates, and of students with no submission, are left exactly as they were. */
  lemma {:induction false} UpsertAllUntouched(rs: seq<AttendanceRecord>, nextId: int, subs: seq<Submission>, classId: int, creatorId: int, d: Date, i: nat)
    requires i < |rs|
    requires rs[i].date != d || forall s :: s in subs ==> s.studentId != rs[i].studentId
    ensures var r := UpsertAll(rs, nextId, subs, classId, creatorId, d);
            i < |r| && r[i] == rs[i]
    decreases |subs|
  {
    if subs != [] {
      var r := UpsertRecord(rs, nextId, subs[0], classId, creatorId, d);
      UpsertKeepsIdentity(rs, nextId, subs[0], classId, creatorId, d);
      assert subs[0] in subs;
      assert forall s :: s in subs[1..] ==> s in subs;
      UpsertAllUntouched(r, nextId + (|r| - |rs|), subs[1..], classId, creatorId, d, i);
    }
  }

  /** Every record the writes add belongs to a student with a submission. */
  lemma {:induction false} UpsertAllNewRecords(rs: seq<AttendanceRecord>, nextId: int, subs: seq<Submission>, classId: int, creatorId: int, d: Date)
    ensures var r := UpsertAll(rs, nextId, subs, classId, creatorId, d);
            |rs| <= |r| && forall i :: |rs| <= i < |r| ==> exists s :: s in subs && s.studentId == r[i].studentId
    decreases |subs|
  {
    if subs != [] {
      var r1 := UpsertRecord(rs, nextId, subs[0], classId, creatorId, d);
      var n1 := nextId + (|r1| - |rs|);
      UpsertKeepsIdentity(rs, nextId, subs[0], classId, creatorId, d);
      UpsertAllNewRecords(r1, n1, subs[1..], classId, creatorId, d);
      var r := UpsertAll(r1, n1, subs[1..], classId, creatorId, d);
      forall i | |rs| <= i < |r|
        ensures exists s :: s in subs && s.studentId == r[i].studentId
      {
        if i < |r1| {
          UpsertAllKeepsKeys(r1, n1, subs[1..], classId, creatorId, d, i);
          assert r1[i].studentId == subs[0].studentId;
          assert subs[0] in subs;
        } else {
          var t :| t in subs[1..] && t.studentId == r[i].studentId;
          assert t in subs;
        }
      }
    }
  }

  /** The writes of `recordClassAttendance` leave the records of students on leave as they
      were, and add none for them. */
  lemma OnLeaveStudentsUntouched(rs: seq<AttendanceRecord>, nextId: int, subs: seq<Submission>, onLeave: set<int>,
                                 classId: int, creatorId: int, d: Date)
    ensures var r := UpsertAll(rs, nextId, NotOnLeave(subs, onLeave), classId, creatorId, d);
            && |rs| <= |r|
            && (forall i :: 0 <= i < |rs| && rs[i].studentId in onLeave ==> r[i] == rs[i])
            && (forall i :: |rs| <= i < |r| ==> r[i].studentId !in onLeave)
  {
    var w := NotOnLeave(subs, onLeave);
    UpsertAllNewRecords(rs, nextId, w, classId, creatorId, d);
    forall i | 0 <= i < |rs| && rs[i].studentId in onLeave
      ensures UpsertAll(rs, nextId, w, classId, creatorId, d)[i] == rs[i]
    {
      UpsertAllUntouched(rs, nextId, w, classId, creatorId, d, i);
    }
  }
}
