/** The statistics report page: the effective attendance rate of a row, the text of a
    leave cell, the leave-type columns, and the summary cards that add the ledgers of all
    rows. Ledger hours travel as minutes, as in the statistics service; a bucket holding
    `m` minutes shows `m / 60` hours. */
module StatisticsPage {
  import opened Wrappers
  import opened Text
  import opened Statistics

  /** A bucket's worth in days: `days + hours / 8`. */
  function BucketDays(b: Bucket): (r: real)
    ensures r == Value(b) as real / DayMinutes as real
  {
    b.days as real + (b.minutes as real / 60.0) / 8.0
  }

  /** Σ over the leave types of `total.days + total.hours / 8`. The order of the sum does
      not matter (see TotalLeaveDaysRemove). */
  ghost function TotalLeaveDays(counts: map<string, Ledger>): real
    decreases |counts|
  {
    if |counts| == 0 then 0.0
    else
      var k :| k in counts;
      BucketDays(counts[k].total) + TotalLeaveDays(counts - {k})
  }

  lemma {:induction false} TotalLeaveDaysRemove(counts: map<string, Ledger>, k: string)
    requires k in counts
    ensures TotalLeaveDays(counts) == BucketDays(counts[k].total) + TotalLeaveDays(counts - {k})
    decreases |counts|
  {
    var j :| j in counts && TotalLeaveDays(counts) == BucketDays(counts[j].total) + TotalLeaveDays(counts - {j});
    if j != k {
      var a, b := counts - {j}, counts - {k};
      assert a - {k} == b - {j};
      assert |a| == |counts| - 1 == |b|;
      TotalLeaveDaysRemove(a, k);
      TotalLeaveDaysRemove(b, j);
      var dj, dk, rest := BucketDays(counts[j].total), BucketDays(counts[k].total), TotalLeaveDays(a - {k});
      assert a[k] == counts[k] && b[j] == counts[j];
      assert TotalLeaveDays(a) == dk + rest;
      assert TotalLeaveDays(b) == dj + rest;
    }
  }

  /** With no negative bucket, the total leave days are not negative. */
  lemma {:induction false} TotalLeaveDaysNonNegative(counts: map<string, Ledger>)
    requires forall k :: k in counts ==> Value(counts[k].total) >= 0
    ensures TotalLeaveDays(counts) >= 0.0
    decreases |counts|
  {
    if |counts| != 0 {
      var k :| k in counts && TotalLeaveDays(counts) == BucketDays(counts[k].total) + TotalLeaveDays(counts - {k});
      TotalLeaveDaysNonNegative(counts - {k});
      assert Value(counts[k].total) as real >= 0.0;
      assert BucketDays(counts[k].total) >= 0.0;
    }
  }

  /** The rate before `toFixed(2)`: `None` is the 'N/A' of a row without school days. */
  ghost function EffectiveRate(row: StatsRow): (r: Option<real>)
  {
    if row.totalDays <= 0 then None
    else
      var effective := row.totalDays as real - row.absentDays as real - TotalLeaveDays(row.leaveTypeCounts);
      var rate := effective / row.totalDays as real * 100.0;
      Some(if rate < 0.0 then 0.0 else rate)
  }

  /** `calculateEffectiveAttendanceRate`. */
  method EffectiveAttendanceRate(row: StatsRow) returns (r: Option<real>)
    ensures r == EffectiveRate(row)
    ensures r.None? <==> row.totalDays == 0
    ensures r.Some? ==> r.value >= 0.0
  {
    if row.totalDays <= 0 {
      return None;
    }
    var totalLeaveDays := 0.0;
    var rest := row.leaveTypeCounts;
    while rest != map[]
      invariant totalLeaveDays + TotalLeaveDays(rest) == TotalLeaveDays(row.leaveTypeCounts)
      decreases |rest|
    {
      var k :| k in rest;
      TotalLeaveDaysRemove(rest, k);
      totalLeaveDays := totalLeaveDays + BucketDays(rest[k].total);
      rest := rest - {k};
    }
    var effective := row.totalDays as real - row.absentDays as real - totalLeaveDays;
    var rate := effective / row.totalDays as real * 100.0;
    r := Some(if rate < 0.0 then 0.0 else rate);
  }

  /** With no absences and no leave the rate is 100; with nothing negative it never exceeds
      100. */
  lemma RateBounds(row: StatsRow)
    requires row.totalDays > 0
    requires forall k :: k in row.leaveTypeCounts ==> Value(row.leaveTypeCounts[k].total) >= 0
    ensures 0.0 <= EffectiveRate(row).value <= 100.0
    ensures row.absentDays == 0 && row.leaveTypeCounts == map[] ==> EffectiveRate(row) == Some(100.0)
  {
    TotalLeaveDaysNonNegative(row.leaveTypeCounts);
    var t := row.totalDays as real;
    var x := t - row.absentDays as real - TotalLeaveDays(row.leaveTypeCounts);
    assert x <= t;
    PercentAtMostHundred(x, t);
    if row.absentDays == 0 && row.leaveTypeCounts == map[] {
      assert x == t;
      assert x / t == 1.0;
    }
  }

  lemma PercentAtMostHundred(x: real, t: real)
    requires t > 0.0 && x <= t
    ensures x / t * 100.0 <= 100.0
  {
    var q := x / t;
    assert q * t == x;
  }

  /** The rate is clamped below only: a negative leave total (an end time before the start
      time) lifts it above 100. */
  lemma RateNotClampedAbove()
    ensures var row := StatsRow(1, "A", "K1", "C", map["Personal" := Ledger(Zero, Zero, Zero, Bucket(-1, 0))], 0, 0, 0, 10);
            EffectiveRate(row) == Some(110.0)
  {
    var counts := map["Personal" := Ledger(Zero, Zero, Zero, Bucket(-1, 0))];
    TotalLeaveDaysRemove(counts, "Personal");
    assert counts - {"Personal"} == map[];
  }

  /** `formatSubData`: `N天` for positive days, then the hours with one space between only
      when both are positive, and "0" when neither is. `hoursText` is the page's rendering
      of a number of hours. */
  function FormatSubData(b: Bucket, hoursText: string): (r: string)
    ensures r == "0" <==> b.days <= 0 && b.minutes <= 0
    ensures b.days > 0 && b.minutes <= 0 ==> r == IntText(b.days) + "天"
    ensures b.days <= 0 && b.minutes > 0 ==> r == hoursText + "小時"
    ensures b.days > 0 && b.minutes > 0 ==> r == IntText(b.days) + "天" + " " + hoursText + "小時"
  {
    var daysPart := if b.days > 0 then IntText(b.days) + "天" else "";
    var hoursPart := if b.minutes > 0 then (if b.days > 0 then " " else "") + hoursText + "小時" else "";
    var result := daysPart + hoursPart;
    if result == "" then "0" else result
  }

  /** The lines of one leave cell (`formatLeaveHours`): total and approved always, pending
      and rejected only when that bucket is nonzero. `hoursText` renders minutes as hours. */
  function LeaveCellLines(l: Ledger, hoursText: int -> string): (r: seq<string>)
    ensures var hasPending := l.pending.days > 0 || l.pending.minutes > 0;
            var hasRejected := l.rejected.days > 0 || l.rejected.minutes > 0;
            && |r| == 2 + (if hasPending then 1 else 0) + (if hasRejected then 1 else 0)
            && r[0] == "總計：" + FormatSubData(l.total, hoursText(l.total.minutes))
            && r[1] == "已核准：" + FormatSubData(l.approved, hoursText(l.approved.minutes))
            && (hasPending ==> r[2] == "待審核：" + FormatSubData(l.pending, hoursText(l.pending.minutes)))
            && (hasRejected ==> r[|r| - 1] == "已拒絕：" + FormatSubData(l.rejected, hoursText(l.rejected.minutes)))
  {
    var pending := "待審核：" + FormatSubData(l.pending, hoursText(l.pending.minutes));
    var rejected := "已拒絕：" + FormatSubData(l.rejected, hoursText(l.rejected.minutes));
    ["總計：" + FormatSubData(l.total, hoursText(l.total.minutes)),
     "已核准：" + FormatSubData(l.approved, hoursText(l.approved.minutes))]
    + (if l.pending.days > 0 || l.pending.minutes > 0 then [pending] else [])
    + (if l.rejected.days > 0 || l.rejected.minutes > 0 then [rejected] else [])
  }

  /** The leave-type columns: every type any row has a ledger for. */
  function LeaveTypeColumns(rows: seq<StatsRow>): (r: set<string>)
    ensures forall t :: t in r <==> exists i :: 0 <= i < |rows| && t in rows[i].leaveTypeCounts
  {
    if rows == [] then {}
    else
      var r := LeaveTypeColumns(rows[..|rows| - 1]);
      assert forall i :: 0 <= i < |rows| - 1 ==> rows[..|rows| - 1][i] == rows[i];
      r + rows[|rows| - 1].leaveTypeCounts.Keys
  }

  /** Total lates over the rows. */
  function TotalLates(rows: seq<StatsRow>): (n: nat)
    ensures rows == [] ==> n == 0
    ensures forall i :: 0 <= i < |rows| ==> rows[i].lateDays <= n
  {
    if rows == [] then 0
    else
      var n := TotalLates(rows[..|rows| - 1]);
      assert forall i :: 0 <= i < |rows| - 1 ==> rows[..|rows| - 1][i] == rows[i];
      n + rows[|rows| - 1].lateDays
  }

  /** Total absences over the rows. */
  function TotalAbsents(rows: seq<StatsRow>): (n: nat)
    ensures rows == [] ==> n == 0
    ensures forall i :: 0 <= i < |rows| ==> rows[i].absentDays <= n
  {
    if rows == [] then 0
    else
      var n := TotalAbsents(rows[..|rows| - 1]);
      assert forall i :: 0 <= i < |rows| - 1 ==> rows[..|rows| - 1][i] == rows[i];
      n + rows[|rows| - 1].absentDays
  }

  /** The totals add up over a split of the rows, and one row contributes its own count. */
  lemma {:induction false} TotalsConcat(a: seq<StatsRow>, b: seq<StatsRow>)
    ensures TotalLates(a + b) == TotalLates(a) + TotalLates(b)
    ensures TotalAbsents(a + b) == TotalAbsents(a) + TotalAbsents(b)
    decreases |b|
  {
    if b == [] {
      assert a + b == a;
    } else {
      var front := b[..|b| - 1];
      TotalsConcat(a, front);
      assert (a + b)[..|a + b| - 1] == a + front;
    }
  }

  lemma TotalsOfOne(row: StatsRow)
    ensures TotalLates([row]) == row.lateDays && TotalAbsents([row]) == row.absentDays
  {
    assert [row][..0] == [];
  }

  /** The four buckets of a ledger, by name. */
  datatype Slot = ApprovedSlot | PendingSlot | RejectedSlot | TotalSlot

  function Pick(l: Ledger, s: Slot): Bucket
  {
    match s
    case ApprovedSlot => l.approved
    case PendingSlot => l.pending
    case RejectedSlot => l.rejected
    case TotalSlot => l.total
  }

  function LedgerOf(counts: map<string, Ledger>, t: string): Ledger
  {
    if t in counts then counts[t] else EmptyLedger
  }

  /** What the rows hold together, in minutes, for one type and one bucket. */
  function ColumnValue(rows: seq<StatsRow>, t: string, s: Slot): int
  {
    if rows == [] then 0
    else ColumnValue(rows[..|rows| - 1], t, s) + Value(Pick(LedgerOf(rows[|rows| - 1].leaveTypeCounts, t), s))
  }

  /** One card step: add a row's bucket, then carry whole 8-hour blocks into days. */
  function AddBucket(acc: Bucket, data: Bucket): (r: Bucket)
    ensures Value(r) == Value(acc) + Value(data)
    ensures acc.minutes < DayMinutes && data.minutes < DayMinutes ==> r.minutes < DayMinutes
    ensures acc.minutes >= 0 && data.minutes >= 0 ==> r.minutes >= 0
  {
    Carry(Bucket(acc.days + data.days, acc.minutes + data.minutes))
  }

  function AddLedger(acc: Ledger, data: Ledger): (r: Ledger)
  {
    Ledger(AddBucket(acc.approved, data.approved), AddBucket(acc.pending, data.pending),
           AddBucket(acc.rejected, data.rejected), AddBucket(acc.total, data.total))
  }

  /** Every bucket holds fewer than 8 hours. */
  predicate Below8(l: Ledger)
  {
    forall s :: Pick(l, s).minutes < DayMinutes
  }

  /** No bucket holds negative minutes. */
  predicate NoNegative(l: Ledger)
  {
    forall s :: Pick(l, s).minutes >= 0
  }

  predicate AllBelow8(counts: map<string, Ledger>)
  {
    forall t :: t in counts ==> Below8(counts[t])
  }

  predicate AllNoNegative(counts: map<string, Ledger>)
  {
    forall t :: t in counts ==> NoNegative(counts[t])
  }

  predicate RowsBelow8(rows: seq<StatsRow>)
  {
    forall i :: 0 <= i < |rows| ==> AllBelow8(rows[i].leaveTypeCounts)
  }

  predicate RowsNoNegative(rows: seq<StatsRow>)
  {
    forall i :: 0 <= i < |rows| ==> AllNoNegative(rows[i].leaveTypeCounts)
  }

  /** Each bucket of the sum is worth what the two buckets are worth together. */
  lemma AddLedgerValue(acc: Ledger, data: Ledger, s: Slot)
    ensures Value(Pick(AddLedger(acc, data), s)) == Value(Pick(acc, s)) + Value(Pick(data, s))
  {
    assert Pick(AddLedger(acc, data), s) == AddBucket(Pick(acc, s), Pick(data, s));
  }

  lemma AddLedgerNormal(acc: Ledger, data: Ledger)
    ensures Below8(acc) && Below8(data) ==> Below8(AddLedger(acc, data))
    ensures NoNegative(acc) && NoNegative(data) ==> NoNegative(AddLedger(acc, data))
  {
    var r := AddLedger(acc, data);
    forall s ensures Pick(r, s) == AddBucket(Pick(acc, s), Pick(data, s)) {
    }
  }

  /** The leave-type summary of `renderStatisticsCards`: each type's four buckets summed over
      the rows, keeping their worth and carrying after every step. */
  method AggregateCards(rows: seq<StatsRow>) returns (stats: map<string, Ledger>)
    ensures stats.Keys == LeaveTypeColumns(rows)
    ensures forall t, s :: t in stats ==> Value(Pick(stats[t], s)) == ColumnValue(rows, t, s)
    ensures RowsBelow8(rows) ==> AllBelow8(stats)
    ensures RowsNoNegative(rows) ==> AllNoNegative(stats)
  {
    stats := map[];
    for i := 0 to |rows|
      invariant stats.Keys == LeaveTypeColumns(rows[..i])
      invariant forall t, s :: Value(Pick(LedgerOf(stats, t), s)) == ColumnValue(rows[..i], t, s)
      invariant RowsBelow8(rows) ==> AllBelow8(stats)
      invariant RowsNoNegative(rows) ==> AllNoNegative(stats)
    {
      assert rows[..i + 1][..i] == rows[..i];
      assert rows[..i + 1][i] == rows[i];
      var before := stats;
      stats := AddRow(stats, rows[i].leaveTypeCounts);
      AddRowFacts(before, rows[i].leaveTypeCounts, stats);
    }
    assert rows[..|rows|] == rows;
  }

  /** A row's ledgers added into the summary for the types in `done`. */
  function Merge(stats: map<string, Ledger>, counts: map<string, Ledger>, done: set<string>): (r: map<string, Ledger>)
    ensures r.Keys == stats.Keys + (counts.Keys * done)
  {
    map t | t in stats.Keys + (counts.Keys * done) ::
      if t in counts && t in done then AddLedger(LedgerOf(stats, t), counts[t]) else stats[t]
  }

  /** The inner loop of the card summary: one row's ledgers, type by type. */
  method AddRow(stats: map<string, Ledger>, counts: map<string, Ledger>) returns (r: map<string, Ledger>)
    ensures r == Merge(stats, counts, counts.Keys)
  {
    r := stats;
    var rest := counts.Keys;
    MergeNothing(stats, counts);
    while rest != {}
      invariant rest <= counts.Keys
      invariant r == Merge(stats, counts, counts.Keys - rest)
      decreases |rest|
    {
      var t :| t in rest;
      MergeStep(stats, counts, counts.Keys - rest, t);
      assert counts.Keys - (rest - {t}) == (counts.Keys - rest) + {t};
      r := r[t := AddLedger(LedgerOf(r, t), counts[t])];
      rest := rest - {t};
    }
    assert counts.Keys - rest == counts.Keys;
  }

  lemma MergeNothing(stats: map<string, Ledger>, counts: map<string, Ledger>)
    ensures Merge(stats, counts, counts.Keys - counts.Keys) == stats
  {
    assert counts.Keys - counts.Keys == {};
    assert Merge(stats, counts, {}).Keys == stats.Keys;
  }

  lemma MergeStep(stats: map<string, Ledger>, counts: map<string, Ledger>, done: set<string>, t: string)
    requires t in counts && t !in done
    ensures LedgerOf(Merge(stats, counts, done), t) == LedgerOf(stats, t)
    ensures Merge(stats, counts, done + {t})
            == Merge(stats, counts, done)[t := AddLedger(LedgerOf(Merge(stats, counts, done), t), counts[t])]
  {
    var m := Merge(stats, counts, done);
    var m' := Merge(stats, counts, done + {t});
    assert LedgerOf(m, t) == LedgerOf(stats, t);
    assert m'.Keys == m[t := AddLedger(LedgerOf(m, t), counts[t])].Keys;
  }

  /** Adding a row keeps every bucket's worth as the sum of the two, and keeps buckets
      below 8 hours (and non-negative) when both sides are. */
  lemma AddRowFacts(stats: map<string, Ledger>, counts: map<string, Ledger>, r: map<string, Ledger>)
    requires r == Merge(stats, counts, counts.Keys)
    ensures r.Keys == stats.Keys + counts.Keys
    ensures forall t, s :: Value(Pick(LedgerOf(r, t), s)) == Value(Pick(LedgerOf(stats, t), s)) + Value(Pick(LedgerOf(counts, t), s))
    ensures AllBelow8(stats) && AllBelow8(counts) ==> AllBelow8(r)
    ensures AllNoNegative(stats) && AllNoNegative(counts) ==> AllNoNegative(r)
  {
    forall t, s
      ensures Value(Pick(LedgerOf(r, t), s)) == Value(Pick(LedgerOf(stats, t), s)) + Value(Pick(LedgerOf(counts, t), s))
    {
      AddRowValue(stats, counts, r, t, s);
    }
    forall t | t in r
      ensures AllBelow8(stats) && AllBelow8(counts) ==> Below8(r[t])
      ensures AllNoNegative(stats) && AllNoNegative(counts) ==> NoNegative(r[t])
    {
      AddRowNormal(stats, counts, r, t);
    }
  }

  lemma AddRowValue(stats: map<string, Ledger>, counts: map<string, Ledger>, r: map<string, Ledger>, t: string, s: Slot)
    requires r == Merge(stats, counts, counts.Keys)
    ensures Value(Pick(LedgerOf(r, t), s)) == Value(Pick(LedgerOf(stats, t), s)) + Value(Pick(LedgerOf(counts, t), s))
  {
    if t !in counts {
      assert Pick(LedgerOf(counts, t), s) == Zero;
      assert LedgerOf(r, t) == LedgerOf(stats, t);
    } else {
      assert LedgerOf(r, t) == AddLedger(LedgerOf(stats, t), counts[t]);
      AddLedgerValue(LedgerOf(stats, t), counts[t], s);
    }
  }

  lemma AddRowNormal(stats: map<string, Ledger>, counts: map<string, Ledger>, r: map<string, Ledger>, t: string)
    requires r == Merge(stats, counts, counts.Keys) && t in r
    ensures AllBelow8(stats) && AllBelow8(counts) ==> Below8(r[t])
    ensures AllNoNegative(stats) && AllNoNegative(counts) ==> NoNegative(r[t])
  {
    if t in counts {
      var a := LedgerOf(stats, t);
      assert r[t] == AddLedger(a, counts[t]);
      if t !in stats {
        assert a == EmptyLedger;
        assert forall s :: Pick(a, s) == Zero;
      }
      AddLedgerNormal(a, counts[t]);
    } else {
      assert r[t] == stats[t];
    }
  }
}
