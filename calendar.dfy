/** Calendar days. A date is a day number counted from 1970-01-01 (UTC); its weekday
    follows JavaScript's `getDay` convention (0 = Sunday, 6 = Saturday). */
module Calendar {

  type Date = int

  /** 1970-01-01 was a Thursday. */
  function Weekday(d: Date): (w: int)
    ensures 0 <= w < 7
  {
    (d + 4) % 7
  }

  predicate IsWeekend(d: Date) { Weekday(d) == 0 || Weekday(d) == 6 }

  /** A school day is neither a Saturday nor a Sunday nor a listed holiday. */
  predicate IsSchoolDay(d: Date, holidays: set<Date>) { !IsWeekend(d) && d !in holidays }

  /** Number of dates in the inclusive span `start..end`; 0 when the span is inverted. */
  function SpanLength(start: Date, end: Date): nat
  {
    if end < start then 0 else end - start + 1
  }

  /** The number of school days `d` with `start <= d <= end`. */
  function SchoolDaysBetween(start: Date, end: Date, holidays: set<Date>): (n: nat)
    ensures n <= SpanLength(start, end)
    ensures end < start ==> n == 0
    decreases end - start
  {
    if end < start then 0
    else SchoolDaysBetween(start, end - 1, holidays) + (if IsSchoolDay(end, holidays) then 1 else 0)
  }

  /** The consecutive dates `start, start + 1, ..., end`; empty when `end < start`. */
  ghost function DateRange(start: Date, end: Date): seq<Date>
  {
    seq(SpanLength(start, end), i => start + i)
  }

  /** Any seven consecutive days without holidays hold exactly five school days. */
  lemma WeekHasFiveSchoolDays(d: Date)
    ensures SchoolDaysBetween(d, d + 6, {}) == 5
  {
    var w := Weekday(d);
    var n0 := SchoolDaysBetween(d, d - 1, {});
    var n1 := SchoolDaysBetween(d, d, {});
    var n2 := SchoolDaysBetween(d, d + 1, {});
    var n3 := SchoolDaysBetween(d, d + 2, {});
    var n4 := SchoolDaysBetween(d, d + 3, {});
    var n5 := SchoolDaysBetween(d, d + 4, {});
    var n6 := SchoolDaysBetween(d, d + 5, {});
    var n7 := SchoolDaysBetween(d, d + 6, {});
    assert n7 == n0 + Tick(d) + Tick(d + 1) + Tick(d + 2) + Tick(d + 3) + Tick(d + 4) + Tick(d + 5) + Tick(d + 6);
    WeekdayShift(d, w);
  }

  function Tick(d: Date): nat { if IsSchoolDay(d, {}) then 1 else 0 }

  lemma WeekdayShift(d: Date, w: int)
    requires w == Weekday(d)
    ensures Tick(d) + Tick(d + 1) + Tick(d + 2) + Tick(d + 3) + Tick(d + 4) + Tick(d + 5) + Tick(d + 6) == 5
  {
    assert Weekday(d + 1) == (w + 1) % 7;
    assert Weekday(d + 2) == (w + 2) % 7;
    assert Weekday(d + 3) == (w + 3) % 7;
    assert Weekday(d + 4) == (w + 4) % 7;
    assert Weekday(d + 5) == (w + 5) % 7;
    assert Weekday(d + 6) == (w + 6) % 7;
  }

  /** More holidays never give more school days. */
  lemma {:induction false} MoreHolidaysFewerDays(start: Date, end: Date, h1: set<Date>, h2: set<Date>)
    requires h1 <= h2
    ensures SchoolDaysBetween(start, end, h2) <= SchoolDaysBetween(start, end, h1)
    decreases end - start
  {
    if start <= end {
      MoreHolidaysFewerDays(start, end - 1, h1, h2);
    }
  }

  /** Holidays outside the span do not change the count. */
  lemma {:induction false} OnlyHolidaysInSpanCount(start: Date, end: Date, holidays: set<Date>)
    ensures SchoolDaysBetween(start, end, holidays)
         == SchoolDaysBetween(start, end, set h | h in holidays && start <= h <= end)
    decreases end - start
  {
    if start <= end {
      OnlyHolidaysInSpanCount(start, end - 1, holidays);
      var inner := set h | h in holidays && start <= h <= end - 1;
      var outer := set h | h in holidays && start <= h <= end;
      assert SchoolDaysBetween(start, end - 1, inner) == SchoolDaysBetween(start, end - 1, outer) by {
        SameHolidaysInSpan(start, end - 1, inner, outer);
      }
    }
  }

  lemma {:induction false} SameHolidaysInSpan(start: Date, end: Date, h1: set<Date>, h2: set<Date>)
    requires forall d :: start <= d <= end ==> (d in h1 <==> d in h2)
    ensures SchoolDaysBetween(start, end, h1) == SchoolDaysBetween(start, end, h2)
    decreases end - start
  {
    if start <= end {
      SameHolidaysInSpan(start, end - 1, h1, h2);
    }
  }

  /** The day number of the proleptic Gregorian date `year-month-day`
      (Hinnant's days-from-civil; month 1..12). */
  function DaysFromCivil(year: int, month: int, day: int): Date
    requires 1 <= month <= 12
  {
    var y := if month <= 2 then year - 1 else year;
    var era := y / 400;
    var yoe := y - era * 400;
    var mp := (month + 9) % 12;
    var doy := (153 * mp + 2) / 5 + day - 1;
    var doe := yoe * 365 + yoe / 4 - yoe / 100 + doy;
    era * 146097 + doe - 719468
  }

  /** The UTC calendar year of a day number (`getUTCFullYear`). */
  function CivilYear(d: Date): int
  {
    var z := d + 719468;
    var era := z / 146097;
    var doe := z - era * 146097;
    var yoe := (doe - doe / 1460 + doe / 36524 - doe / 146096) / 365;
    var y := yoe + era * 400;
    var doy := doe - (365 * yoe + yoe / 4 - yoe / 100);
    var mp := (5 * doy + 2) / 153;
    var month := if mp < 10 then mp + 3 else mp - 9;
    if month <= 2 then y + 1 else y
  }
}
