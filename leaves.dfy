/** The leave-request service: creating a request (with `HH:MM` times turned into
    timestamps on the request's dates) and the approve / reject transitions. */
module Leaves {
  import opened Wrappers
  import opened Calendar
  import opened Schema
  import opened Text

  datatype LeaveError = NotFound(id: int) | InvalidTime

  /** `Number(part)` for the strings a time field is made of: digits only (the empty string is
      0); anything else is `NaN`, here `None`. */
  function NumberOf(part: string): (r: Option<nat>)
    ensures r.Some? <==> AllDigits(part)
  {
    if AllDigits(part) then Some(DigitsValue(part)) else None
  }

  /** `time.split(':').map(Number)` destructured into hours and minutes; a missing or
      non-numeric part makes the time invalid. */
  function ParseHHMM(t: string): (r: Option<(nat, nat)>)
    ensures r.Some? ==> |Split(t, ':')| >= 2
  {
    var parts := Split(t, ':');
    if |parts| < 2 then None
    else
      match (NumberOf(parts[0]), NumberOf(parts[1]))
      case (Some(h), Some(m)) => Some((h, m))
      case _ => None
  }

  /** `setHours(hours, minutes, 0)` on the day `d`, in minutes; hours past 23 roll into the
      next days as they do in JavaScript. */
  function Timestamp(d: Date, hours: nat, minutes: nat): (t: int)
    ensures hours < 24 && minutes < 60 ==> t / MinutesPerDay == d && t % MinutesPerDay == hours * 60 + minutes
  {
    d * MinutesPerDay + hours * 60 + minutes
  }

  const MinutesPerDay: int := 1440

  lemma {:induction false} LeadingZeros(z: nat, s: string)
    requires AllDigits(s)
    ensures AllDigits(seq(z, _ => '0') + s)
    ensures DigitsValue(seq(z, _ => '0') + s) == DigitsValue(s)
    decreases |s|
  {
    var p := seq(z, _ => '0') + s;
    if s == [] {
      assert p == seq(z, _ => '0');
      ZerosValue(z);
    } else {
      LeadingZeros(z, s[..|s| - 1]);
      assert p[..|p| - 1] == seq(z, _ => '0') + s[..|s| - 1];
    }
  }

  lemma {:induction false} ZerosValue(z: nat)
    ensures AllDigits(seq(z, _ => '0')) && DigitsValue(seq(z, _ => '0')) == 0
  {
    if z > 0 {
      ZerosValue(z - 1);
      assert seq(z, _ => '0')[..z - 1] == seq(z - 1, _ => '0');
    }
  }

  /** The two-digit rendering of a clock value, as a time input gives it. */
  function TwoDigits(n: nat): string { PadStart2(NatText(n)) }

  lemma TwoDigitsValue(n: nat)
    ensures AllDigits(TwoDigits(n)) && ':' !in TwoDigits(n) && DigitsValue(TwoDigits(n)) == n
  {
    DigitsValueOfNatText(n);
    var s := NatText(n);
    if |s| < 2 {
      LeadingZeros(2 - |s|, s);
    }
    assert forall i :: 0 <= i < |TwoDigits(n)| ==> TwoDigits(n)[i] != ':';
  }

  /** Every `HH:MM` rendering of a clock time parses back to that time. */
  lemma ParseHHMMRoundTrip(h: nat, m: nat)
    ensures ParseHHMM(TwoDigits(h) + ":" + TwoDigits(m)) == Some((h, m))
  {
    TwoDigitsValue(h);
    TwoDigitsValue(m);
    SplitAtSep(TwoDigits(h), ':', TwoDigits(m));
    SplitNoSep(TwoDigits(m), ':');
    assert TwoDigits(h) + ":" + TwoDigits(m) == TwoDigits(h) + [':'] + TwoDigits(m);
  }

  /** The request as submitted. An absent `isFullDay` is `None`. */
  datatype CreateLeave = CreateLeave(
    studentId: int, leaveTypeId: int, leaveType: string, startDate: Date, endDate: Date,
    startTime: Option<string>, endTime: Option<string>, isFullDay: Option<bool>, reason: Option<string>)

  /** `dto.time && !dto.isFullDay`: a non-empty time is parsed unless the flag is `true`. */
  function TimeField(t: Option<string>, isFullDay: Option<bool>, d: Date): (r: Result<Option<int>, LeaveError>)
    ensures r == Ok(None) <== t.None? || t == Some("") || isFullDay == Some(true)
    ensures r.Ok? && r.value.Some? ==> exists h: nat, m: nat :: ParseHHMM(t.value) == Some((h, m)) && r.value.value == Timestamp(d, h, m)
    ensures r.Err? <==> t.Some? && t.value != "" && isFullDay != Some(true) && ParseHHMM(t.value).None?
  {
    if t.Some? && t.value != "" && isFullDay != Some(true) then
      match ParseHHMM(t.value)
      case None => Err(InvalidTime)
      case Some((h, m)) => Ok(Some(Timestamp(d, h, m)))
    else Ok(None)
  }

  /** The stored request of `create`: pending, not approved, `isFullDay` defaulting to true. */
  function NewLeave(id: int, creatorId: int, dto: CreateLeave): (r: Result<LeaveRequest, LeaveError>)
    ensures r.Ok? ==> && r.value.id == id && r.value.status == Pending && r.value.approvedById.None?
                      && r.value.isFullDay == dto.isFullDay.GetOr(true)
                      && r.value.studentId == dto.studentId && r.value.startDate == dto.startDate
                      && r.value.endDate == dto.endDate && r.value.reason == dto.reason
                      && r.value.createdById == creatorId
    ensures r.Ok? <==> TimeField(dto.startTime, dto.isFullDay, dto.startDate).Ok? && TimeField(dto.endTime, dto.isFullDay, dto.endDate).Ok?
    ensures r.Err? ==> r == Err(InvalidTime)
    ensures r.Ok? ==> && r.value.startTime == TimeField(dto.startTime, dto.isFullDay, dto.startDate).value
                      && r.value.endTime == TimeField(dto.endTime, dto.isFullDay, dto.endDate).value
                      && r.value.leaveTypeId == dto.leaveTypeId && r.value.leaveType == dto.leaveType
    ensures r.Ok? && (r.value.startTime.Some? || r.value.endTime.Some?) ==> dto.isFullDay != Some(true)
  {
    match (TimeField(dto.startTime, dto.isFullDay, dto.startDate), TimeField(dto.endTime, dto.isFullDay, dto.endDate))
    case (Ok(st), Ok(et)) =>
      Ok(LeaveRequest(id, dto.studentId, dto.leaveTypeId, dto.leaveType, dto.startDate, dto.endDate,
                      dto.isFullDay.GetOr(true), st, et, Pending, dto.reason, None, creatorId))
    case _ => Err(InvalidTime)
  }

  /** How `isFullDay` appears in a request body. */
  datatype FlagInBody = FlagOmitted | FlagNull | FlagGiven(value: bool)

  /** The flag the service sees after the validation pipe: the class default `true` fills an
      omitted field, while an explicit `null` passes the optional check and replaces it. */
  function ServiceFlag(f: FlagInBody): (r: Option<bool>)
    ensures r.None? <==> f == FlagNull
    ensures f.FlagGiven? ==> r == Some(f.value)
  {
    match f
    case FlagOmitted => Some(true)
    case FlagNull => None
    case FlagGiven(b) => Some(b)
  }

  /** A request body without the flag is full-day and keeps no times, whatever times it carries. */
  lemma OmittedInBodyDropsTimes(id: int, creatorId: int, dto: CreateLeave)
    requires dto.isFullDay == ServiceFlag(FlagOmitted)
    ensures NewLeave(id, creatorId, dto).Ok?
    ensures NewLeave(id, creatorId, dto).value.isFullDay
    ensures NewLeave(id, creatorId, dto).value.startTime.None? && NewLeave(id, creatorId, dto).value.endTime.None?
  {
  }

  /** A flag that reaches the service as absent (a `null` in the request body, or a direct call
      without it) stores a full-day request that nevertheless carries the parsed times. */
  lemma OmittedFlagKeepsTimes(id: int, creatorId: int, dto: CreateLeave, h: nat, m: nat)
    requires dto.isFullDay.None?
    requires dto.startTime == Some(TwoDigits(h) + ":" + TwoDigits(m)) && dto.endTime.None?
    ensures NewLeave(id, creatorId, dto).Ok?
    ensures NewLeave(id, creatorId, dto).value.isFullDay
    ensures NewLeave(id, creatorId, dto).value.startTime == Some(Timestamp(dto.startDate, h, m))
  {
    ParseHHMMRoundTrip(h, m);
  }

  /** `approve`: the status and the approver change, nothing else. */
  function ApplyApprove(l: LeaveRequest, approverId: int): (r: LeaveRequest)
    ensures r.status == Approved && r.approvedById == Some(approverId)
    ensures r.(status := l.status, approvedById := l.approvedById) == l
  {
    l.(status := Approved, approvedById := Some(approverId))
  }

  /** `reject`: the status and the approver change; the reason is replaced only by a
      non-empty one. */
  function ApplyReject(l: LeaveRequest, approverId: int, reason: Option<string>): (r: LeaveRequest)
    ensures r.status == Rejected && r.approvedById == Some(approverId)
    ensures r.reason == (if reason.Some? && reason.value != "" then reason else l.reason)
    ensures r.(status := l.status, approvedById := l.approvedById, reason := l.reason) == l
  {
    l.(status := Rejected, approvedById := Some(approverId),
       reason := if reason.Some? && reason.value != "" then reason else l.reason)
  }

  /** Neither transition looks at the current status, and both are idempotent. */
  lemma TransitionsIgnoreStatusAndRepeat(l: LeaveRequest, s: LeaveStatus, approverId: int, reason: Option<string>)
    ensures ApplyApprove(l.(status := s), approverId) == ApplyApprove(l, approverId)
    ensures ApplyReject(l.(status := s), approverId, reason) == ApplyReject(l, approverId, reason)
    ensures ApplyApprove(ApplyApprove(l, approverId), approverId) == ApplyApprove(l, approverId)
    ensures ApplyReject(ApplyReject(l, approverId, reason), approverId, reason) == ApplyReject(l, approverId, reason)
  {
  }

  /** The leave-request table, keyed by id. */
  class LeaveTable {
    var leaves: map<int, LeaveRequest>
    var nextId: int

    predicate Valid()
      reads this
    {
      forall id :: id in leaves ==> leaves[id].id == id && id < nextId
    }

    constructor ()
      ensures Valid() && leaves == map[] && nextId == 1
    {
      leaves := map[];
      nextId := 1;
    }

    /** `create`: a request that fails to parse stores nothing. */
    method Create(creatorId: int, dto: CreateLeave) returns (r: Result<LeaveRequest, LeaveError>)
      requires Valid()
      modifies this
      ensures Valid()
      ensures r == NewLeave(old(nextId), creatorId, dto)
      ensures r.Ok? ==> leaves == old(leaves)[old(nextId) := r.value] && nextId == old(nextId) + 1
      ensures r.Err? ==> leaves == old(leaves) && nextId == old(nextId)
    {
      r := NewLeave(nextId, creatorId, dto);
      if r.Ok? {
        leaves := leaves[nextId := r.value];
        nextId := nextId + 1;
      }
    }

    /** `approve`: an unknown id is NotFound and changes nothing. */
    method Approve(id: int, approverId: int) returns (r: Result<LeaveRequest, LeaveError>)
      requires Valid()
      modifies this
      ensures Valid() && nextId == old(nextId)
      ensures id !in old(leaves) ==> r == Err(NotFound(id)) && leaves == old(leaves)
      ensures id in old(leaves) ==> r == Ok(ApplyApprove(old(leaves)[id], approverId)) && leaves == old(leaves)[id := r.value]
    {
      if id !in leaves {
        return Err(NotFound(id));
      }
      var updated := ApplyApprove(leaves[id], approverId);
      leaves := leaves[id := updated];
      r := Ok(updated);
    }

    /** `reject`: an unknown id is NotFound and changes nothing. */
    method Reject(id: int, approverId: int, reason: Option<string>) returns (r: Result<LeaveRequest, LeaveError>)
      requires Valid()
      modifies this
      ensures Valid() && nextId == old(nextId)
      ensures id !in old(leaves) ==> r == Err(NotFound(id)) && leaves == old(leaves)
      ensures id in old(leaves) ==> r == Ok(ApplyReject(old(leaves)[id], approverId, reason)) && leaves == old(leaves)[id := r.value]
    {
      if id !in leaves {
        return Err(NotFound(id));
      }
      var updated := ApplyReject(leaves[id], approverId, reason);
      leaves := leaves[id := updated];
      r := Ok(updated);
    }
  }
}
