// The class roll-call page: editing statuses in the table and choosing which
// rows are sent back on submit.

module AttendancePage {

  /** One table row as loaded from the class attendance endpoint. */
  datatype Row = Row(studentId: int, studentName: string, status: string)

  /** One submitted record: only the student id and the new status travel. */
  datatype Submitted = Submitted(studentId: int, status: string)

  const Present: string := "present"
  const OnLeave: string := "on_leave"

  /** The snapshot taken when the table loads: a map from student id to status,
      where a later row with the same id overwrites an earlier one. */
  function Snapshot(rows: seq<Row>): map<int, string>
    decreases |rows|
  {
    if rows == [] then map[]
    else Snapshot(rows[..|rows| - 1])[rows[|rows| - 1].studentId := rows[|rows| - 1].status]
  }

  /** The snapshot holds exactly the ids of the table. */
  lemma {:induction false} SnapshotKeys(rows: seq<Row>, k: int)
    ensures k in Snapshot(rows) <==> exists i :: 0 <= i < |rows| && rows[i].studentId == k
    decreases |rows|
  {
    if rows != [] {
      var n := |rows| - 1;
      SnapshotKeys(rows[..n], k);
      assert forall i :: 0 <= i < n ==> rows[..n][i] == rows[i];
      if k in Snapshot(rows[..n]) {
        var i :| 0 <= i < n && rows[..n][i].studentId == k;
        assert rows[i].studentId == k;
      }
    }
  }

  /** For each id the snapshot keeps the status of the last row with that id. */
  lemma {:induction false} SnapshotLastWins(rows: seq<Row>, i: nat)
    requires i < |rows|
    requires forall j :: i < j < |rows| ==> rows[j].studentId != rows[i].studentId
    ensures rows[i].studentId in Snapshot(rows) && Snapshot(rows)[rows[i].studentId] == rows[i].status
    decreases |rows|
  {
    var n := |rows| - 1;
    if i < n {
      assert rows[..n][i] == rows[i];
      SnapshotLastWins(rows[..n], i);
    }
  }

  /** The original status a row is compared with: the snapshot value, or
      "present" when the student is missing or the stored value is empty. */
  function Original(snapshot: map<int, string>, studentId: int): (s: string)
    ensures s != ""
    ensures studentId in snapshot && snapshot[studentId] != "" ==> s == snapshot[studentId]
    ensures studentId !in snapshot ==> s == Present
  {
    if studentId in snapshot && snapshot[studentId] != "" then snapshot[studentId] else Present
  }

  /** A row is sent when its status differs from the original and is not "on_leave". */
  predicate ShouldSubmit(snapshot: map<int, string>, r: Row)
  {
    r.status != Original(snapshot, r.studentId) && r.status != OnLeave
  }

  /** Changing the status of one student in the table. */
  function HandleStatusChange(rows: seq<Row>, studentId: int, newStatus: string): (r: seq<Row>)
    ensures |r| == |rows|
    ensures forall i :: 0 <= i < |rows| ==> r[i].studentId == rows[i].studentId && r[i].studentName == rows[i].studentName
    ensures forall i :: 0 <= i < |rows| && rows[i].studentId != studentId ==> r[i] == rows[i]
    ensures forall i :: 0 <= i < |rows| && rows[i].studentId == studentId ==> r[i].status == newStatus
  {
    seq(|rows|, i requires 0 <= i < |rows| =>
      if rows[i].studentId == studentId then rows[i].(status := newStatus) else rows[i])
  }

  /** The records sent on submit, in table order. */
  function RecordsToSubmit(rows: seq<Row>, snapshot: map<int, string>): (r: seq<Submitted>)
    ensures |r| <= |rows|
    ensures forall k :: 0 <= k < |r| ==> r[k].status != OnLeave && r[k].status != Original(snapshot, r[k].studentId)
    decreases |rows|
  {
    if rows == [] then []
    else
      var last := rows[|rows| - 1];
      RecordsToSubmit(rows[..|rows| - 1], snapshot)
        + (if ShouldSubmit(snapshot, last) then [Submitted(last.studentId, last.status)] else [])
  }

  /** A record is submitted exactly when some row carries that id and status and
      its status differs from the original and is not "on_leave". */
  lemma {:induction false} SubmittedExactlyChanged(rows: seq<Row>, snapshot: map<int, string>, s: Submitted)
    ensures s in RecordsToSubmit(rows, snapshot) <==>
      exists i :: 0 <= i < |rows| && rows[i].studentId == s.studentId && rows[i].status == s.status
                  && ShouldSubmit(snapshot, rows[i])
    decreases |rows|
  {
    if rows != [] {
      var n := |rows| - 1;
      var front := rows[..n];
      SubmittedExactlyChanged(front, snapshot, s);
      assert forall i :: 0 <= i < n ==> front[i] == rows[i];
      if s in RecordsToSubmit(rows, snapshot) {
        if s !in RecordsToSubmit(front, snapshot) {
          assert rows[n].studentId == s.studentId && rows[n].status == s.status && ShouldSubmit(snapshot, rows[n]);
        }
      }
      if exists i :: 0 <= i < |rows| && rows[i].studentId == s.studentId && rows[i].status == s.status
                     && ShouldSubmit(snapshot, rows[i]) {
        var i :| 0 <= i < |rows| && rows[i].studentId == s.studentId && rows[i].status == s.status
                 && ShouldSubmit(snapshot, rows[i]);
        if i == n {
          assert RecordsToSubmit(rows, snapshot)[|RecordsToSubmit(rows, snapshot)| - 1] == s;
        } else {
          assert front[i] == rows[i];
        }
      }
    }
  }

  /** Each student appears at most once in the table. */
  predicate UniqueIds(rows: seq<Row>)
  {
    forall i, j :: 0 <= i < j < |rows| ==> rows[i].studentId != rows[j].studentId
  }

  /** Every row's status equals its original in the snapshot. */
  predicate Unchanged(rows: seq<Row>, snapshot: map<int, string>)
  {
    forall i :: 0 <= i < |rows| ==> rows[i].status == Original(snapshot, rows[i].studentId)
  }

  lemma {:induction false} UnchangedSendsNothing(rows: seq<Row>, snapshot: map<int, string>)
    requires Unchanged(rows, snapshot)
    ensures RecordsToSubmit(rows, snapshot) == []
    decreases |rows|
  {
    if rows != [] {
      var n := |rows| - 1;
      assert forall i :: 0 <= i < n ==> rows[..n][i] == rows[i];
      UnchangedSendsNothing(rows[..n], snapshot);
    }
  }

  /** Submitting a freshly loaded table (one row per student, every status
      filled in) sends nothing. */
  lemma LoadedTableSendsNothing(rows: seq<Row>)
    requires UniqueIds(rows)
    requires forall i :: 0 <= i < |rows| ==> rows[i].status != ""
    ensures RecordsToSubmit(rows, Snapshot(rows)) == []
  {
    var m := Snapshot(rows);
    forall i | 0 <= i < |rows|
      ensures rows[i].status == Original(m, rows[i].studentId)
    {
      SnapshotLastWins(rows, i);
    }
    UnchangedSendsNothing(rows, m);
  }

  /** After one edit of a freshly loaded table, the submit carries exactly that
      student's new status, unless it equals the loaded status or is "on_leave". */
  lemma OneEditSendsOneRecord(rows: seq<Row>, studentId: int, newStatus: string, i: nat)
    requires UniqueIds(rows)
    requires forall k :: 0 <= k < |rows| ==> rows[k].status != ""
    requires i < |rows| && rows[i].studentId == studentId
    ensures RecordsToSubmit(HandleStatusChange(rows, studentId, newStatus), Snapshot(rows)) ==
              if newStatus != rows[i].status && newStatus != OnLeave then [Submitted(studentId, newStatus)] else []
  {
    OneEditParts(rows, studentId, newStatus, i);
    EditedAll(HandleStatusChange(rows, studentId, newStatus), Snapshot(rows), studentId, newStatus, rows[i].status, i);
  }

  /** The edited row carries the new status over the loaded one; every other row keeps its
      loaded status. */
  lemma OneEditParts(rows: seq<Row>, studentId: int, newStatus: string, i: nat)
    requires UniqueIds(rows)
    requires forall k :: 0 <= k < |rows| ==> rows[k].status != ""
    requires i < |rows| && rows[i].studentId == studentId
    ensures var e := HandleStatusChange(rows, studentId, newStatus);
            && i < |e| && e[i].studentId == studentId && e[i].status == newStatus
            && Original(Snapshot(rows), studentId) == rows[i].status
            && OthersAsOriginal(e, Snapshot(rows), studentId, i)
  {
    SnapshotLastWins(rows, i);
    OthersKeepOriginal(rows, studentId, newStatus, i);
  }

  /** Every row other than row `i` is for another student and keeps its original status. */
  predicate OthersAsOriginal(e: seq<Row>, m: map<int, string>, studentId: int, i: nat)
  {
    forall k :: 0 <= k < |e| && k != i ==> e[k].studentId != studentId && e[k].status == Original(m, e[k].studentId)
  }

  lemma OthersKeepOriginal(rows: seq<Row>, studentId: int, newStatus: string, i: nat)
    requires UniqueIds(rows)
    requires forall k :: 0 <= k < |rows| ==> rows[k].status != ""
    requires i < |rows| && rows[i].studentId == studentId
    ensures OthersAsOriginal(HandleStatusChange(rows, studentId, newStatus), Snapshot(rows), studentId, i)
  {
    var edited := HandleStatusChange(rows, studentId, newStatus);
    forall k | 0 <= k < |rows| && k != i
      ensures edited[k].studentId != studentId && edited[k].status == Original(Snapshot(rows), edited[k].studentId)
    {
      assert rows[k].studentId != studentId by {
        if k < i { assert rows[k].studentId != rows[i].studentId; }
        else { assert rows[i].studentId != rows[k].studentId; }
      }
      assert edited[k] == rows[k];
      SnapshotLastWins(rows, k);
    }
  }

  /** A table that differs from its originals only at row `i` sends at most that row. */
  lemma EditedAll(e: seq<Row>, m: map<int, string>, studentId: int, newStatus: string, orig: string, i: nat)
    requires i < |e|
    requires e[i].studentId == studentId && e[i].status == newStatus && Original(m, studentId) == orig
    requires OthersAsOriginal(e, m, studentId, i)
    ensures RecordsToSubmit(e, m) == if newStatus != orig && newStatus != OnLeave then [Submitted(studentId, newStatus)] else []
  {
    EditedPrefix(e, m, studentId, newStatus, orig, i, |e|);
    assert e[..|e|] == e;
  }

  lemma {:induction false} EditedPrefix(e: seq<Row>, m: map<int, string>, studentId: int, newStatus: string, orig: string,
                                        i: nat, n: nat)
    requires i < |e| && n <= |e|
    requires e[i].studentId == studentId && e[i].status == newStatus && Original(m, studentId) == orig
    requires forall k :: 0 <= k < |e| && k != i ==> e[k].studentId != studentId && e[k].status == Original(m, e[k].studentId)
    ensures RecordsToSubmit(e[..n], m) ==
              if i < n && newStatus != orig && newStatus != OnLeave then [Submitted(studentId, newStatus)] else []
    decreases n
  {
    if n > 0 {
      EditedPrefix(e, m, studentId, newStatus, orig, i, n - 1);
      assert e[..n][..n - 1] == e[..n - 1];
      assert e[..n][n - 1] == e[n - 1];
    }
  }
}
