// The report page of the web client: status labels, the class filter with its
// "all" entry, and the parameters each report request sends.

module ReportPage {
  import opened Wrappers
  import opened Text
  import opened Api

  /** A nullable text argument is usable when it is present and non-empty. */
  predicate Given(o: Option<string>)
  {
    o.Some? && o.value != ""
  }

  /** Label of a leave request status; unknown statuses are shown as they are. */
  function LeaveStatusLabel(s: string): (shown: string)
    ensures s !in {"pending", "approved", "rejected"} ==> shown == s
  {
    if s == "pending" then "待審核"
    else if s == "approved" then "已核准"
    else if s == "rejected" then "已駁回"
    else s
  }

  /** Label of an attendance status; unknown statuses are shown as they are. */
  function StatusLabel(s: string): (shown: string)
    ensures s !in {"present", "absent", "late", "leave_early"} ==> shown == s
  {
    if s == "present" then "出席"
    else if s == "absent" then "缺席"
    else if s == "late" then "遲到"
    else if s == "leave_early" then "早退"
    else s
  }

  const LeavePrefix: string := "請假 ("

  /** The text shown in the status column of a report row. */
  function FormatStatus(status: string, leaveTypeName: Option<string>, leaveStatus: Option<string>): (r: string)
    ensures status == "on_leave" && Given(leaveTypeName) ==>
              |r| > |LeavePrefix| + |leaveTypeName.value| && r[..|LeavePrefix|] == LeavePrefix
              && r[|LeavePrefix|..|LeavePrefix| + |leaveTypeName.value| + 1] == leaveTypeName.value + ")"
    ensures status == "on_leave" && Given(leaveTypeName) && !Given(leaveStatus) ==>
              r == LeavePrefix + leaveTypeName.value + ")"
    ensures status == "on_leave" && Given(leaveTypeName) && Given(leaveStatus) ==>
              r == LeavePrefix + leaveTypeName.value + ") - " + LeaveStatusLabel(leaveStatus.value)
    ensures !(status == "on_leave" && Given(leaveTypeName)) ==> r == StatusLabel(status)
  {
    if status == "on_leave" && Given(leaveTypeName) then
      var text := LeavePrefix + leaveTypeName.value + ")";
      if Given(leaveStatus) then text + " - " + LeaveStatusLabel(leaveStatus.value) else text
    else StatusLabel(status)
  }

  /** The statuses offered by the status filter. */
  const StatusOptions: seq<string> := ["present", "absent", "late", "leave_early", "on_leave"]

  /** The offered statuses are told apart by their labels, and no plain label
      looks like a leave label. */
  lemma LabelsDistinct(a: string, b: string, t: string, ls: Option<string>)
    requires a in StatusOptions && b in StatusOptions && a != b
    requires Given(Some(t))
    ensures FormatStatus(a, None, None) != FormatStatus(b, None, None)
    ensures a != "on_leave" ==> FormatStatus(a, None, None) != FormatStatus("on_leave", Some(t), ls)
  {
    var r := FormatStatus("on_leave", Some(t), ls);
    assert r[..|LeavePrefix|] == LeavePrefix;
  }

  /** The value handed over by the class selector: a comma-separated string or a list. */
  datatype SelectValue = Text(s: string) | List(xs: seq<string>)

  function Values(v: SelectValue): seq<string>
  {
    match v
    case Text(s) => Split(s, ',')
    case List(xs) => xs
  }

  /** The class id list shown when every class is chosen. */
  function AllClassIds(classIds: seq<int>): (r: seq<string>)
    ensures |r| == |classIds|
  {
    seq(|classIds|, i requires 0 <= i < |classIds| => IntText(classIds[i]))
  }

  /** Every id of the "all" selection reads back as its class id. */
  lemma AllClassIdsParse(classIds: seq<int>)
    ensures forall i :: 0 <= i < |classIds| ==> ParseInt10(AllClassIds(classIds)[i]) == Some(classIds[i])
  {
    forall i | 0 <= i < |classIds|
      ensures ParseInt10(AllClassIds(classIds)[i]) == Some(classIds[i])
    {
      ParseIntText(classIds[i]);
    }
  }

  /** The new class selection after the selector changes. */
  function HandleClassChange(selected: seq<string>, classIds: seq<int>, value: SelectValue): (r: seq<string>)
    ensures "all" !in Values(value) ==> r == Values(value)
    ensures "all" in Values(value) && |selected| == |classIds| ==> r == []
    ensures "all" in Values(value) && |selected| != |classIds| ==> r == AllClassIds(classIds)
  {
    var newVals := Values(value);
    if "all" in newVals then
      if |selected| == |classIds| then [] else AllClassIds(classIds)
    else newVals
  }

  /** Choosing "all" twice from an empty selection selects every class, then none. */
  lemma AllTogglesBack(classIds: seq<int>)
    requires |classIds| > 0
    ensures HandleClassChange([], classIds, List(["all"])) == AllClassIds(classIds)
    ensures HandleClassChange(AllClassIds(classIds), classIds, List(AllClassIds(classIds) + ["all"])) == []
  {
    assert "all" in ["all"];
    var all := AllClassIds(classIds);
    assert (all + ["all"])[|all|] == "all";
  }

  /** The class filter sent with a report: none when no class or every class is chosen. */
  function ClassParams(selected: seq<string>, classCount: nat): (p: Params)
    ensures |selected| == 0 || |selected| == classCount ==> p == []
    ensures |selected| != 0 && |selected| != classCount ==> p == [("classIds", Arr(selected))]
  {
    if |selected| == 0 || |selected| == classCount then [] else [("classIds", Arr(selected))]
  }

  datatype ReportType = Attendance | PendingLeave | UnresolvedAbsence

  /** The parameter object of each report request, in key order. */
  function ReportParams(kind: ReportType, startDate: string, endDate: string, selected: seq<string>,
                        classCount: nat, status: string, ageFilter: string): Params
  {
    match kind
    case Attendance =>
      [("startDate", Str(startDate)), ("endDate", Str(endDate))] + ClassParams(selected, classCount)
        + (if status != "" then [("statuses", Arr([status]))] else [])
    case PendingLeave =>
      [("ageFilter", if ageFilter == "all" then Undefined else Str(ageFilter))] + ClassParams(selected, classCount)
    case UnresolvedAbsence =>
      ClassParams(selected, classCount)
  }

  /** What the attendance report query carries: the dates when they are set,
      the class ids only for a partial class selection, and the status only
      when one is chosen, as a one-element list. */
  lemma AttendanceQuery(startDate: string, endDate: string, selected: seq<string>, classCount: nat, status: string)
    requires startDate != "" && endDate != ""
    ensures QueryEntries(ReportParams(Attendance, startDate, endDate, selected, classCount, status, "")) ==
              [("startDate", startDate), ("endDate", endDate)] + ClassQuery(selected, classCount)
              + (if status != "" then [("statuses", status)] else [])
  {
    var dates: Params := [("startDate", Str(startDate)), ("endDate", Str(endDate))];
    var cls := ClassParams(selected, classCount);
    var st: Params := if status != "" then [("statuses", Arr([status]))] else [];
    QueryEntriesAppend(dates, cls);
    QueryEntriesAppend(dates + cls, st);
    QueryEntriesAppend([dates[0]], [dates[1]]);
    assert [dates[0]] + [dates[1]] == dates;
    SingleEntry("startDate", Str(startDate));
    SingleEntry("endDate", Str(endDate));
    ClassQueryEntries(selected, classCount);
    if status != "" {
      SingleEntry("statuses", Arr([status]));
    }
  }

  /** The class filter entries of a query. */
  function ClassQuery(selected: seq<string>, classCount: nat): seq<(string, string)>
  {
    if |selected| != 0 && |selected| != classCount then [("classIds", Join(selected, ','))] else []
  }

  lemma ClassQueryEntries(selected: seq<string>, classCount: nat)
    ensures QueryEntries(ClassParams(selected, classCount)) == ClassQuery(selected, classCount)
  {
    if |selected| != 0 && |selected| != classCount {
      SingleEntry("classIds", Arr(selected));
    }
  }

  /** A one-key parameter object sends its key exactly when the value is sent. */
  lemma SingleEntry(k: string, v: JsValue)
    ensures QueryEntries([(k, v)]) == if Sent(v) then [(k, Render(v))] else []
  {
    assert [(k, v)][..0] == [];
  }

  /** The pending-leave query sends the age filter unless it is "all" or empty. */
  lemma PendingLeaveQuery(selected: seq<string>, classCount: nat, ageFilter: string)
    ensures QueryEntries(ReportParams(PendingLeave, "", "", selected, classCount, "", ageFilter)) ==
              (if ageFilter != "all" && ageFilter != "" then [("ageFilter", ageFilter)] else [])
              + ClassQuery(selected, classCount)
  {
    var age: Params := [("ageFilter", if ageFilter == "all" then Undefined else Str(ageFilter))];
    QueryEntriesAppend(age, ClassParams(selected, classCount));
    SingleEntry("ageFilter", age[0].1);
    ClassQueryEntries(selected, classCount);
  }

  /** Serialising two parameter lists one after the other. */
  lemma {:induction false} QueryEntriesAppend(a: Params, b: Params)
    ensures QueryEntries(a + b) == QueryEntries(a) + QueryEntries(b)
    decreases |b|
  {
    if b == [] {
      assert a + b == a;
    } else {
      var n := |b| - 1;
      QueryEntriesAppend(a, b[..n]);
      assert (a + b)[..|a + b| - 1] == a + b[..n];
    }
  }

  /** A partial class selection of comma-free ids reaches the server unchanged. */
  lemma ClassFilterRoundTrip(selected: seq<string>, classCount: nat)
    requires |selected| != 0 && |selected| != classCount
    requires forall i :: 0 <= i < |selected| ==> ',' !in selected[i]
    ensures ClassParams(selected, classCount) == [("classIds", Arr(selected))]
    ensures Split(Render(Arr(selected)), ',') == selected
  {
    ListRoundTrip(selected);
  }
}
