/** The holiday calendar editor of the administration page: a date's effective holiday
    status, the per-date overrides the user toggles, and the create/delete calls a submit
    sends. The page's dates are its `YYYY-MM-DD` strings, modelled as day numbers (two such
    strings are equal exactly when their day numbers are). A stored holiday row reaches the
    page as JSON, so its `date` is a timestamp text (WireDate), and the page's comparisons
    `h.date === dateString` are made on those texts. */
module HolidaysTab {
  import opened Wrappers
  import opened Calendar
  import opened Text

  /** A stored holiday row; `day` is the date of its `DateTime` column. */
  datatype Holiday = Holiday(id: int, day: Date, description: string, seasonId: int)

  /** `modifiedDates`: an object keyed by date, in insertion order. */
  type Overrides = seq<(Date, bool)>

  predicate UniqueDates(o: Overrides)
  {
    forall i, j :: 0 <= i < j < |o| ==> o[i].0 != o[j].0
  }

  /** `dateString in modifiedDates ? modifiedDates[dateString] : null`. */
  function Lookup(o: Overrides, d: Date): (r: Option<bool>)
    ensures r.None? <==> forall i :: 0 <= i < |o| ==> o[i].0 != d
    ensures r.Some? ==> exists i :: 0 <= i < |o| && o[i] == (d, r.value)
    ensures UniqueDates(o) ==> forall i :: 0 <= i < |o| && o[i].0 == d ==> r == Some(o[i].1)
  {
    if o == [] then None
    else if o[0].0 == d then Some(o[0].1)
    else
      var r := Lookup(o[1..], d);
      assert forall i :: 1 <= i < |o| ==> o[i] == o[1..][i - 1];
      r
  }

  /** `date.format('YYYY-MM-DD')` of the year, month and day of a date. */
  function YmdText(year: int, month: int, day: int): string
  {
    IntText(year) + "-" + PadStart2(IntText(month)) + "-" + PadStart2(IntText(day))
  }

  /** The proleptic Gregorian year, month (1..12) and day of the month of a day number. */
  function CivilDate(d: Date): (int, int, int)
  {
    var z := d + 719468;
    var era := z / 146097;
    var doe := z - era * 146097;
    var yoe := (doe - doe / 1460 + doe / 36524 - doe / 146096) / 365;
    var doy := doe - (365 * yoe + yoe / 4 - yoe / 100);
    var mp := (5 * doy + 2) / 153;
    var day := doy - (153 * mp + 2) / 5 + 1;
    var month := if mp < 10 then mp + 3 else mp - 9;
    (yoe + era * 400 + (if month <= 2 then 1 else 0), month, day)
  }

  /** `YYYY-MM-DD` of a day number (years before 1000 are not padded here). */
  function IsoDate(d: Date): string
  {
    var (year, month, day) := CivilDate(d);
    YmdText(year, month, day)
  }

  /** A date as text: the page's `YYYY-MM-DD` of a day, or a timestamp `YYYY-MM-DDT<clock>`
      as JSON renders a `DateTime`. Two texts are equal exactly when their strings are
      (RenderedStampIsNoDay; day texts of different days are taken to differ). */
  datatype DateText = DayText(day: Date) | Stamp(day: Date, clock: string)

  function Render(t: DateText): string
  {
    match t
    case DayText(d) => IsoDate(d)
    case Stamp(d, clock) => IsoDate(d) + "T" + clock
  }

  /** `h.date` as the page holds it. The column is a `DateTime` set by `new Date(dateString)`,
      which is midnight UTC, and the list is the API's JSON, which renders it with
      `toISOString`. */
  function WireDate(h: Holiday): DateText
  {
    Stamp(h.day, "00:00:00.000Z")
  }

  /** `t.split('T')[0]` (DatePartRendered). */
  function DatePartOf(t: DateText): DateText
  {
    DayText(t.day)
  }

  /** How a stored row is matched against a page date. */
  datatype RowMatch =
    | WholeText  // `h.date === dateString`, as the page compares
    | DatePart   // `h.date.split('T')[0] === dateString`

  predicate Matches(m: RowMatch, h: Holiday, d: Date)
  {
    match m
    case WholeText => WireDate(h) == DayText(d)
    case DatePart => DatePartOf(WireDate(h)) == DayText(d)
  }

  /** A date text holds only digits and dashes. */
  predicate DateChars(s: string)
  {
    forall i :: 0 <= i < |s| ==> IsDigit(s[i]) || s[i] == '-'
  }

  lemma IntTextDateChars(n: int)
    ensures DateChars(IntText(n)) && DateChars(PadStart2(IntText(n)))
  {
    var t := IntText(n);
    if n < 0 {
      assert forall i :: 1 <= i < |t| ==> t[i] == NatText(-n)[i - 1];
    }
    if |t| < 2 {
      var p := PadStart2(t);
      assert p == seq(2 - |t|, _ => '0') + t;
      assert forall i :: 2 - |t| <= i < 2 ==> p[i] == t[i - (2 - |t|)];
    }
  }

  lemma DateCharsConcat(a: string, b: string)
    requires DateChars(a) && DateChars(b)
    ensures DateChars(a + b)
  {
    assert forall i :: |a| <= i < |a + b| ==> (a + b)[i] == b[i - |a|];
  }

  lemma YmdDateChars(year: int, month: int, day: int)
    ensures DateChars(YmdText(year, month, day))
  {
    IntTextDateChars(year);
    IntTextDateChars(month);
    IntTextDateChars(day);
    var a, b, c := IntText(year), PadStart2(IntText(month)), PadStart2(IntText(day));
    DateCharsConcat(a, "-");
    DateCharsConcat(a + "-", b);
    DateCharsConcat(a + "-" + b, "-");
    DateCharsConcat(a + "-" + b + "-", c);
  }

  /** A page date has no `T`. */
  lemma IsoDateHasNoT(d: Date)
    ensures 'T' !in IsoDate(d)
  {
    var (year, month, day) := CivilDate(d);
    YmdDateChars(year, month, day);
  }

  /** A timestamp's string never equals a page date's: it holds a `T` and the date does not. */
  lemma RenderedStampIsNoDay(e: Date, clock: string, d: Date)
    ensures Render(Stamp(e, clock)) != Render(DayText(d))
  {
    IsoDateHasNoT(d);
    assert Render(Stamp(e, clock))[|IsoDate(e)|] == 'T';
  }

  /** The part of a date text before its first `T` is the text of its day. */
  lemma DatePartRendered(t: DateText)
    ensures Render(DatePartOf(t)) == Split(Render(t), 'T')[0]
  {
    IsoDateHasNoT(t.day);
    match t
    case DayText(d) =>
      SplitNoSep(IsoDate(d), 'T');
    case Stamp(d, clock) =>
      assert Render(t) == IsoDate(d) + ['T'] + clock;
      SplitAtSep(IsoDate(d), 'T', clock);
  }

  /** `holidays.some(h => h.date === dateString)`, or its date-part form. */
  predicate Listed(m: RowMatch, holidays: seq<Holiday>, d: Date)
  {
    exists h :: h in holidays && Matches(m, h, d)
  }

  /** As written, no row of the API's list is ever found for a page date: a row's date is a
      timestamp, and no timestamp equals a day's text (RenderedStampIsNoDay). */
  lemma NeverListed(holidays: seq<Holiday>, d: Date)
    ensures !Listed(WholeText, holidays, d)
  {
  }

  /** `holidays.find(h => h.date === dateString)`, or its date-part form. */
  function FirstListed(m: RowMatch, holidays: seq<Holiday>, d: Date): (r: Option<Holiday>)
    ensures r.None? <==> !Listed(m, holidays, d)
    ensures r.Some? ==> r.value in holidays && Matches(m, r.value, d)
  {
    if holidays == [] then None
    else if Matches(m, holidays[0], d) then Some(holidays[0])
    else
      var r := FirstListed(m, holidays[1..], d);
      assert forall h :: h in holidays[1..] ==> h in holidays;
      assert forall h :: h in holidays && h != holidays[0] ==> h in holidays[1..];
      r
  }

  /** `isHolidayDate` (and the same rule in the date selection and the calendar styling):
      the user's override if there is one, otherwise listed dates and weekends are holidays.
      Since no row is ever listed, that leaves the weekends. */
  function IsHolidayDate(o: Overrides, holidays: seq<Holiday>, d: Date): (r: bool)
    ensures Lookup(o, d).Some? ==> r == Lookup(o, d).value
    ensures Lookup(o, d).None? ==> (r <==> Listed(WholeText, holidays, d) || IsWeekend(d))
    ensures Lookup(o, d).None? ==> r == IsWeekend(d)
  {
    match Lookup(o, d)
    case Some(b) => b
    case None =>
      NeverListed(holidays, d);
      Listed(WholeText, holidays, d) || IsWeekend(d)
  }

  /** `{ ...prev, [d]: b }`: an existing key keeps its place, a new one goes last. */
  function SetOverride(o: Overrides, d: Date, b: bool): (r: Overrides)
    ensures Lookup(o, d).None? ==> r == o + [(d, b)]
    ensures Lookup(o, d).Some? ==> |r| == |o|
    ensures |r| >= |o| && forall i :: 0 <= i < |o| ==> r[i] == (if o[i].0 == d then (d, b) else o[i])
  {
    if Lookup(o, d).None? then o + [(d, b)] else Replace(o, d, b)
  }

  function Replace(o: Overrides, d: Date, b: bool): (r: Overrides)
    ensures |r| == |o| && forall i :: 0 <= i < |o| ==> r[i] == (if o[i].0 == d then (d, b) else o[i])
  {
    if o == [] then []
    else
      var rest := Replace(o[1..], d, b);
      assert forall i :: 1 <= i < |o| ==> o[i] == o[1..][i - 1];
      [if o[0].0 == d then (d, b) else o[0]] + rest
  }

  lemma {:induction false} LookupAppend(o: Overrides, d: Date, b: bool, e: Date)
    ensures Lookup(o + [(d, b)], e) == if Lookup(o, e).Some? then Lookup(o, e) else if e == d then Some(b) else None
  {
    if o != [] {
      assert (o + [(d, b)])[1..] == o[1..] + [(d, b)];
      LookupAppend(o[1..], d, b, e);
    }
  }

  lemma {:induction false} LookupReplace(o: Overrides, d: Date, b: bool, e: Date)
    ensures Lookup(Replace(o, d, b), e) == if e == d && Lookup(o, d).Some? then Some(b) else Lookup(o, e)
  {
    if o != [] {
      assert Replace(o, d, b)[1..] == Replace(o[1..], d, b);
      LookupReplace(o[1..], d, b, e);
    }
  }

  /** Setting an override changes the lookup of that date only, and keeps keys unique. */
  lemma SetOverrideLookup(o: Overrides, d: Date, b: bool)
    ensures Lookup(SetOverride(o, d, b), d) == Some(b)
    ensures forall e :: e != d ==> Lookup(SetOverride(o, d, b), e) == Lookup(o, e)
    ensures UniqueDates(o) ==> UniqueDates(SetOverride(o, d, b))
  {
    forall e
      ensures Lookup(SetOverride(o, d, b), e) == if e == d then Some(b) else Lookup(o, e)
    {
      if Lookup(o, d).None? {
        LookupAppend(o, d, b, e);
      } else {
        LookupReplace(o, d, b, e);
      }
    }
  }

  /** `handleToggleHolidayStatus`: nothing without a selected date; otherwise the selected
      date's override becomes the negation of its effective status. */
  function Toggle(o: Overrides, holidays: seq<Holiday>, selected: Option<Date>): (r: Overrides)
    ensures selected.None? ==> r == o
    ensures selected.Some? ==> IsHolidayDate(r, holidays, selected.value) == !IsHolidayDate(o, holidays, selected.value)
    ensures forall e :: selected != Some(e) ==> Lookup(r, e) == Lookup(o, e)
    ensures UniqueDates(o) ==> UniqueDates(r)
  {
    match selected
    case None => o
    case Some(d) =>
      var b := !IsHolidayDate(o, holidays, d);
      SetOverrideLookup(o, d, b);
      SetOverride(o, d, b)
  }

  /** Toggling the same date twice restores every date's effective status. */
  lemma ToggleTwice(o: Overrides, holidays: seq<Holiday>, d: Date, e: Date)
    ensures IsHolidayDate(Toggle(Toggle(o, holidays, Some(d)), holidays, Some(d)), holidays, e) == IsHolidayDate(o, holidays, e)
  {
    var once := Toggle(o, holidays, Some(d));
    var twice := Toggle(once, holidays, Some(d));
    if e != d {
      assert Lookup(twice, e) == Lookup(once, e) == Lookup(o, e);
    }
  }

  /** Normalisation of `MM/DD/YYYY` input to `YYYY-MM-DD`; other text is kept. */
  function NormalizeDate(s: string): (r: string)
  {
    if '/' in s then
      var parts := Split(s, '/');
      (if |parts| > 2 then parts[2] else "undefined") + "-" + PadStart2(parts[0]) + "-"
        + PadStart2(if |parts| > 1 then parts[1] else "undefined")
    else s
  }

  lemma NormalizeSlashDate(month: string, day: string, year: string)
    requires '/' !in month && '/' !in day && '/' !in year
    ensures NormalizeDate(month + "/" + day + "/" + year) == year + "-" + PadStart2(month) + "-" + PadStart2(day)
  {
    var s := month + "/" + day + "/" + year;
    assert s == month + ['/'] + (day + ['/'] + year);
    SplitAtSep(month, '/', day + ['/'] + year);
    SplitAtSep(day, '/', year);
    SplitNoSep(year, '/');
    assert Split(s, '/') == [month, day, year];
    assert s[|month|] == '/';
    assert '/' in s;
  }

  lemma NormalizeKeepsIso(s: string)
    requires '/' !in s
    ensures NormalizeDate(s) == s
  {
  }

  const WorkingDayNote: string := "工作日（原為週末）"

  /** The calls a submit sends. */
  datatype Action =
    | CreateHoliday(date: Date, seasonId: int)      // description `假日 <date>`
    | CreateWorkingDay(date: Date, seasonId: int)   // description WorkingDayNote
    | DeleteHoliday(holidayId: int)

  /** The call for one modified date: a holiday for a marked weekday that is not listed,
      a delete for an unmarked listed date, a working-day record for an unmarked weekend
      that is not listed, and nothing otherwise. */
  function ActionFor(m: RowMatch, holidays: seq<Holiday>, d: Date, isHoliday: bool, seasonId: int): (r: Option<Action>)
    ensures r.Some? && r.value.CreateHoliday? <==> isHoliday && !Listed(m, holidays, d) && !IsWeekend(d)
    ensures r.Some? && r.value.CreateWorkingDay? <==> !isHoliday && !Listed(m, holidays, d) && IsWeekend(d)
    ensures r.Some? && r.value.DeleteHoliday? <==> !isHoliday && Listed(m, holidays, d)
    ensures r.Some? && !r.value.DeleteHoliday? ==> r.value.date == d && r.value.seasonId == seasonId
    ensures r.Some? && r.value.DeleteHoliday? ==> r.value.holidayId == FirstListed(m, holidays, d).value.id
  {
    var existing := FirstListed(m, holidays, d);
    if isHoliday then
      if existing.None? && !IsWeekend(d) then Some(CreateHoliday(d, seasonId)) else None
    else if existing.Some? then Some(DeleteHoliday(existing.value.id))
    else if IsWeekend(d) then Some(CreateWorkingDay(d, seasonId))
    else None
  }

  /** As written, whatever the list holds: a weekday marked as a holiday gets a holiday row,
      a weekend marked as a school day gets a working-day row, and nothing is ever deleted. */
  lemma WholeTextActions(holidays: seq<Holiday>, d: Date, isHoliday: bool, seasonId: int)
    ensures ActionFor(WholeText, holidays, d, isHoliday, seasonId) ==
              if isHoliday && !IsWeekend(d) then Some(CreateHoliday(d, seasonId))
              else if !isHoliday && IsWeekend(d) then Some(CreateWorkingDay(d, seasonId))
              else None
  {
    NeverListed(holidays, d);
  }

  function OptionSeq<T>(x: Option<T>): seq<T>
  {
    if x.Some? then [x.value] else []
  }

  /** The create calls of a submit, in override order. */
  function PlannedCreates(m: RowMatch, o: Overrides, holidays: seq<Holiday>, seasonId: int): (r: seq<Action>)
    ensures |r| <= |o|
    ensures forall a :: a in r ==> !a.DeleteHoliday? && exists i :: 0 <= i < |o| && o[i].0 == a.date && ActionFor(m, holidays, o[i].0, o[i].1, seasonId) == Some(a)
    ensures forall i :: 0 <= i < |o| && ActionFor(m, holidays, o[i].0, o[i].1, seasonId).Some? && !ActionFor(m, holidays, o[i].0, o[i].1, seasonId).value.DeleteHoliday?
               ==> ActionFor(m, holidays, o[i].0, o[i].1, seasonId).value in r
  {
    if o == [] then []
    else
      var last := o[|o| - 1];
      var a := ActionFor(m, holidays, last.0, last.1, seasonId);
      var r := PlannedCreates(m, o[..|o| - 1], holidays, seasonId);
      assert forall i :: 0 <= i < |o| - 1 ==> o[..|o| - 1][i] == o[i];
      r + (if a.Some? && !a.value.DeleteHoliday? then [a.value] else [])
  }

  /** The delete calls of a submit, in override order. */
  function PlannedDeletes(m: RowMatch, o: Overrides, holidays: seq<Holiday>, seasonId: int): (r: seq<Action>)
    ensures |r| <= |o|
    ensures forall a :: a in r ==> a.DeleteHoliday? && exists i :: 0 <= i < |o| && ActionFor(m, holidays, o[i].0, o[i].1, seasonId) == Some(a)
    ensures forall i :: 0 <= i < |o| && ActionFor(m, holidays, o[i].0, o[i].1, seasonId).Some? && ActionFor(m, holidays, o[i].0, o[i].1, seasonId).value.DeleteHoliday?
               ==> ActionFor(m, holidays, o[i].0, o[i].1, seasonId).value in r
  {
    if o == [] then []
    else
      var last := o[|o| - 1];
      var a := ActionFor(m, holidays, last.0, last.1, seasonId);
      var r := PlannedDeletes(m, o[..|o| - 1], holidays, seasonId);
      assert forall i :: 0 <= i < |o| - 1 ==> o[..|o| - 1][i] == o[i];
      r + (if a.Some? && a.value.DeleteHoliday? then [a.value] else [])
  }

  /** Every modified date yields at most one call. */
  lemma {:induction false} AtMostOneActionPerDate(m: RowMatch, o: Overrides, holidays: seq<Holiday>, seasonId: int)
    ensures |PlannedCreates(m, o, holidays, seasonId)| + |PlannedDeletes(m, o, holidays, seasonId)| <= |o|
  {
    if o != [] {
      AtMostOneActionPerDate(m, o[..|o| - 1], holidays, seasonId);
    }
  }

  /** A weekend date marked as a holiday never produces a record. */
  lemma WeekendHolidayNeedsNoRecord(m: RowMatch, o: Overrides, holidays: seq<Holiday>, seasonId: int, d: Date)
    requires UniqueDates(o) && IsWeekend(d) && Lookup(o, d) == Some(true)
    ensures forall a :: a in PlannedCreates(m, o, holidays, seasonId) ==> a.date != d
  {
  }

  /** As written, a submit sends no delete call. */
  lemma NoDeleteSent(o: Overrides, holidays: seq<Holiday>, seasonId: int)
    ensures PlannedDeletes(WholeText, o, holidays, seasonId) == []
  {
  }

  /** The loop of `handleSubmitHolidays` over the modified dates: each date's call is queued
      as a create or a delete. */
  method PlanCalls(m: RowMatch, overrides: Overrides, holidays: seq<Holiday>, seasonId: int) returns (creates: seq<Action>, deletes: seq<Action>)
    ensures creates == PlannedCreates(m, overrides, holidays, seasonId)
    ensures deletes == PlannedDeletes(m, overrides, holidays, seasonId)
  {
    creates, deletes := [], [];
    for i := 0 to |overrides|
      invariant creates == PlannedCreates(m, overrides[..i], holidays, seasonId)
      invariant deletes == PlannedDeletes(m, overrides[..i], holidays, seasonId)
    {
      assert overrides[..i + 1][..i] == overrides[..i];
      var a := ActionFor(m, holidays, overrides[i].0, overrides[i].1, seasonId);
      if a.Some? {
        if a.value.DeleteHoliday? {
          deletes := deletes + [a.value];
        } else {
          creates := creates + [a.value];
        }
      }
    }
    assert overrides[..|overrides|] == overrides;
  }

  /** The fields of the page that the editor changes. */
  class HolidayEditor {
    var holidays: seq<Holiday>
    var seasonIds: seq<int>
    var currentSeason: int
    var overrides: Overrides
    var dialogOpen: bool
    var error: Option<string>

    constructor (holidays: seq<Holiday>, seasonIds: seq<int>)
      ensures this.holidays == holidays && this.seasonIds == seasonIds
      ensures currentSeason == (if seasonIds == [] then 0 else seasonIds[0])
      ensures overrides == [] && !dialogOpen && error.None?
    {
      this.holidays := holidays;
      this.seasonIds := seasonIds;
      currentSeason := if seasonIds == [] then 0 else seasonIds[0];
      overrides := [];
      dialogOpen := false;
      error := None;
    }

    /** `openHolidayCalendar`. */
    method Open()
      modifies this
      ensures overrides == [] && dialogOpen
      ensures holidays == old(holidays) && seasonIds == old(seasonIds) && currentSeason == old(currentSeason) && error == old(error)
    {
      overrides := [];
      dialogOpen := true;
    }

    method ToggleSelected(selected: Option<Date>)
      modifies this
      ensures overrides == Toggle(old(overrides), holidays, selected)
      ensures holidays == old(holidays) && seasonIds == old(seasonIds) && currentSeason == old(currentSeason)
      ensures dialogOpen == old(dialogOpen) && error == old(error)
    {
      overrides := Toggle(overrides, holidays, selected);
    }

    /** `handleSubmitHolidays`: without a current season only the error is set; otherwise the
        calls are planned date by date, the list is reloaded when there was any call, and the
        dialog closes with the overrides cleared. `callsSucceed` says whether the calls and the
        reload went through, and `reloaded` is the server's list after them; when they fail,
        the error is set and the list, the marks and the dialog stay as they were. */
    method Submit(callsSucceed: bool, reloaded: seq<Holiday>) returns (creates: seq<Action>, deletes: seq<Action>)
      modifies this
      ensures currentSeason !in old(seasonIds) ==>
                creates == [] && deletes == [] && error == Some("請先選擇學季")
                && overrides == old(overrides) && holidays == old(holidays) && dialogOpen == old(dialogOpen)
      ensures currentSeason in old(seasonIds) ==>
                && creates == PlannedCreates(WholeText, old(overrides), old(holidays), currentSeason)
                && deletes == PlannedDeletes(WholeText, old(overrides), old(holidays), currentSeason)
                && ((creates == [] && deletes == []) || callsSucceed ==>
                      && holidays == (if creates == [] && deletes == [] then old(holidays) else reloaded)
                      && overrides == [] && !dialogOpen && error == old(error))
                && (creates + deletes != [] && !callsSucceed ==>
                      && holidays == old(holidays) && overrides == old(overrides) && dialogOpen == old(dialogOpen)
                      && error == Some("保存假日設定失敗"))
      ensures deletes == []
      ensures seasonIds == old(seasonIds) && currentSeason == old(currentSeason)
    {
      if currentSeason !in seasonIds {
        error := Some("請先選擇學季");
        return [], [];
      }
      creates, deletes := PlanCalls(WholeText, overrides, holidays, currentSeason);
      NoDeleteSent(overrides, holidays, currentSeason);
      if creates != [] || deletes != [] {
        if !callsSucceed {
          error := Some("保存假日設定失敗");
          return;
        }
        holidays := reloaded;
      }
      dialogOpen := false;
      overrides := [];
    }
  }

  /** `holidaysInCurrentSeason`: season 0 shows every holiday, any other season exactly
      the holidays of that season. */
  function HolidaysInSeason(holidays: seq<Holiday>, season: int): (r: seq<Holiday>)
    ensures season == 0 ==> r == holidays
    ensures season != 0 ==> forall h :: h in r <==> h in holidays && h.seasonId == season
    ensures |r| <= |holidays|
  {
    if season == 0 then holidays
    else if holidays == [] then []
    else
      var rest := HolidaysInSeason(holidays[1..], season);
      assert forall h :: h in holidays <==> h == holidays[0] || h in holidays[1..];
      if holidays[0].seasonId == season then [holidays[0]] + rest else rest
  }

  /** The names `parseMonth` recognises, by month index 0..11. */
  const MonthAliases: seq<seq<string>> := [
    ["january", "jan", "一月"],
    ["february", "feb", "二月"],
    ["march", "mar", "三月"],
    ["april", "apr", "四月"],
    ["may", "五月"],
    ["june", "jun", "六月"],
    ["july", "jul", "七月"],
    ["august", "aug", "八月"],
    ["september", "sep", "sept", "九月"],
    ["october", "oct", "十月"],
    ["november", "nov", "十一月"],
    ["december", "dec", "十二月"]
  ]

  /** The first month from `from` on that has `key` among its names, or -1. */
  function MonthLookup(key: string, from: nat): (r: int)
    requires from <= |MonthAliases|
    ensures r == -1 || from <= r < |MonthAliases|
    ensures r == -1 <==> forall m :: from <= m < |MonthAliases| ==> key !in MonthAliases[m]
    ensures r != -1 ==> key in MonthAliases[r]
    decreases |MonthAliases| - from
  {
    if from == |MonthAliases| then -1
    else if key in MonthAliases[from] then from
    else MonthLookup(key, from + 1)
  }

  /** `parseMonth`: lower-cased and trimmed, then looked up; -1 for an unknown name. */
  function ParseMonth(name: string): (r: int)
    ensures r == -1 || 0 <= r < 12
    ensures r == -1 <==> forall m :: 0 <= m < 12 ==> Trim(LowerAscii(name)) !in MonthAliases[m]
    ensures r != -1 ==> Trim(LowerAscii(name)) in MonthAliases[r]
  {
    MonthLookup(Trim(LowerAscii(name)), 0)
  }

  /** Lower-casing twice is lower-casing once. */
  lemma LowerAsciiIdempotent(s: string)
    ensures LowerAscii(LowerAscii(s)) == LowerAscii(s)
  {
  }

  /** `parseMonth` ignores the case of ASCII letters. */
  lemma ParseMonthIgnoresCase(name: string)
    ensures ParseMonth(LowerAscii(name)) == ParseMonth(name)
  {
    LowerAsciiIdempotent(name);
  }

  /** `parseMonth` ignores surrounding white space. */
  lemma ParseMonthIgnoresSpace(name: string)
    ensures ParseMonth(" " + name + " ") == ParseMonth(name)
  {
    var l := LowerAscii(name);
    LowerAsciiConcat(" ", name);
    LowerAsciiConcat(" " + name, " ");
    assert LowerAscii(" ") == " ";
    assert LowerAscii(" " + name + " ") == " " + l + " ";
    assert (" " + l + " ")[1..] == l + " ";
    assert TrimStart(" " + l + " ") == TrimStart(l + " ");
    TrimStartAppend(l, " ");
  }

  lemma LowerAsciiConcat(a: string, b: string)
    ensures LowerAscii(a + b) == LowerAscii(a) + LowerAscii(b)
  {
    assert forall i :: 0 <= i < |a| ==> (a + b)[i] == a[i];
    assert forall i :: |a| <= i < |a + b| ==> (a + b)[i] == b[i - |a|];
  }

  lemma {:induction false} TrimStartAppend(s: string, t: string)
    requires forall i :: 0 <= i < |t| ==> IsSpace(t[i])
    ensures TrimEnd(TrimStart(s + t)) == TrimEnd(TrimStart(s))
  {
    if s == [] {
      assert s + t == t;
      TrimStartSpaces(t);
    } else if IsSpace(s[0]) {
      assert (s + t)[0] == s[0];
      assert (s + t)[1..] == s[1..] + t;
      TrimStartAppend(s[1..], t);
    } else {
      assert (s + t)[0] == s[0];
      assert TrimStart(s + t) == s + t;
      assert TrimStart(s) == s;
      TrimEndSpaces(s, t);
    }
  }

  lemma {:induction false} TrimStartSpaces(t: string)
    requires forall i :: 0 <= i < |t| ==> IsSpace(t[i])
    ensures TrimStart(t) == []
  {
    if t != [] {
      TrimStartSpaces(t[1..]);
    }
  }

  lemma {:induction false} TrimEndSpaces(s: string, t: string)
    requires forall i :: 0 <= i < |t| ==> IsSpace(t[i])
    ensures TrimEnd(s + t) == TrimEnd(s)
    decreases |t|
  {
    if t != [] {
      assert (s + t)[|s + t| - 1] == t[|t| - 1];
      assert (s + t)[..|s + t| - 1] == s + t[..|t| - 1];
      TrimEndSpaces(s, t[..|t| - 1]);
    } else {
      assert s + t == s;
    }
  }

  /** The description a create call stores. */
  function Description(a: Action): string
    requires !a.DeleteHoliday?
  {
    if a.CreateWorkingDay? then WorkingDayNote else "假日 " + IsoDate(a.date)
  }

  /** The rows a submit's create calls add, with ids from `nextId` on. */
  function CreatedRows(creates: seq<Action>, nextId: int): (r: seq<Holiday>)
    requires forall a :: a in creates ==> !a.DeleteHoliday?
    ensures |r| == |creates|
    ensures forall i :: 0 <= i < |r| ==> r[i].day == creates[i].date && r[i].description == Description(creates[i])
  {
    seq(|creates|, i requires 0 <= i < |creates| =>
        Holiday(nextId + i, creates[i].date, Description(creates[i]), creates[i].seasonId))
  }

  /** The rows that survive a submit's delete calls. */
  function RemainingRows(holidays: seq<Holiday>, deletes: seq<Action>): (r: seq<Holiday>)
    requires forall a :: a in deletes ==> a.DeleteHoliday?
    ensures forall h :: h in r <==> h in holidays && forall a :: a in deletes ==> a.holidayId != h.id
  {
    if holidays == [] then []
    else
      var rest := RemainingRows(holidays[1..], deletes);
      assert forall h :: h in holidays <==> h == holidays[0] || h in holidays[1..];
      if forall a :: a in deletes ==> a.holidayId != holidays[0].id then [holidays[0]] + rest else rest
  }

  /** The list `getHolidays` returns after a submit's calls have been carried out. */
  function AfterCalls(m: RowMatch, holidays: seq<Holiday>, o: Overrides, seasonId: int, nextId: int): seq<Holiday>
  {
    RemainingRows(holidays, PlannedDeletes(m, o, holidays, seasonId)) + CreatedRows(PlannedCreates(m, o, holidays, seasonId), nextId)
  }

  /** No delete call leaves the list as it was. */
  lemma {:induction false} RemainingRowsNoDeletes(holidays: seq<Holiday>)
    ensures RemainingRows(holidays, []) == holidays
  {
    if holidays != [] {
      RemainingRowsNoDeletes(holidays[1..]);
    }
  }

  /** As written, a weekday marked as a holiday gets a row, but once the list is reloaded it
      reads as a school day again: no stored row is ever found, so only the weekend rule is
      left. */
  lemma WeekdayHolidayReadsAsSchoolDay(holidays: seq<Holiday>, d: Date, seasonId: int, nextId: int)
    requires !IsWeekend(d)
    ensures var o := [(d, true)];
            var after := AfterCalls(WholeText, holidays, o, seasonId, nextId);
            && IsHolidayDate(o, holidays, d)
            && PlannedCreates(WholeText, o, holidays, seasonId) == [CreateHoliday(d, seasonId)]
            && PlannedDeletes(WholeText, o, holidays, seasonId) == []
            && after == holidays + [Holiday(nextId, d, Description(CreateHoliday(d, seasonId)), seasonId)]
            && !IsHolidayDate([], after, d)
  {
    var o := [(d, true)];
    assert o[..0] == [];
    WholeTextActions(holidays, d, true, seasonId);
    RemainingRowsNoDeletes(holidays);
  }

  /** As written, a stored weekday holiday cannot be removed from the dialog. It reads as a
      school day, so one toggle marks it a holiday, and the submit stores one more row for
      that day; a second toggle marks it a school day, and the submit sends nothing. */
  lemma ListedWeekdayIsNeverDeleted(holidays: seq<Holiday>, d: Date, seasonId: int, nextId: int)
    requires !IsWeekend(d)
    ensures var once := Toggle([], holidays, Some(d));
            var twice := Toggle(once, holidays, Some(d));
            && !IsHolidayDate([], holidays, d)
            && once == [(d, true)]
            && AfterCalls(WholeText, holidays, once, seasonId, nextId)
                 == holidays + [Holiday(nextId, d, Description(CreateHoliday(d, seasonId)), seasonId)]
            && twice == [(d, false)]
            && PlannedCreates(WholeText, twice, holidays, seasonId) == []
            && PlannedDeletes(WholeText, twice, holidays, seasonId) == []
            && AfterCalls(WholeText, holidays, twice, seasonId, nextId) == holidays
  {
    var once := [(d, true)];
    var twice := [(d, false)];
    assert Toggle([], holidays, Some(d)) == once;
    assert Toggle(once, holidays, Some(d)) == twice;
    WeekdayHolidayReadsAsSchoolDay(holidays, d, seasonId, nextId);
    assert twice[..0] == [];
    WholeTextActions(holidays, d, false, seasonId);
    RemainingRowsNoDeletes(holidays);
  }

  /** As written, marking a weekend as a working day stores a row described as a working day,
      but once the list is reloaded that Saturday reads as a holiday again: the row is never
      found and the weekend rule applies. Found by its date part, the row would be a listed
      holiday, which reads as a holiday too. */
  lemma WorkingDayMarkReadsAsHoliday()
    ensures var saturday := 20239;
            var o := [(saturday, false)];
            var after := AfterCalls(WholeText, [], o, 1, 1);
            && IsWeekend(saturday)
            && !IsHolidayDate(o, [], saturday)
            && PlannedCreates(WholeText, o, [], 1) == [CreateWorkingDay(saturday, 1)]
            && after == [Holiday(1, saturday, WorkingDayNote, 1)]
            && !Listed(WholeText, after, saturday)
            && IsHolidayDate([], after, saturday)
            && Listed(DatePart, after, saturday)
  {
    var saturday := 20239;
    var o := [(saturday, false)];
    assert o[..0] == [];
    assert PlannedCreates(WholeText, o, [], 1) == [CreateWorkingDay(saturday, 1)];
    var row := Holiday(1, saturday, WorkingDayNote, 1);
    assert AfterCalls(WholeText, [], o, 1, 1) == [row];
    assert Matches(DatePart, row, saturday) && row in [row];
  }

  /** A row holding the working-day note. */
  predicate WorkingListed(holidays: seq<Holiday>, d: Date)
  {
    exists h :: h in holidays && h.day == d && h.description == WorkingDayNote
  }

  predicate HolidayListed(holidays: seq<Holiday>, d: Date)
  {
    exists h :: h in holidays && h.day == d && h.description != WorkingDayNote
  }

  /** The effective status as evidently intended: rows are found by the date part of their
      timestamp, and a working-day row makes its date a school day. */
  function CorrectedIsHolidayDate(o: Overrides, holidays: seq<Holiday>, d: Date): (r: bool)
    ensures Lookup(o, d).Some? ==> r == Lookup(o, d).value
    ensures Lookup(o, d).None? && WorkingListed(holidays, d) && !HolidayListed(holidays, d) ==> !r
    ensures Lookup(o, d).None? && !WorkingListed(holidays, d) ==> (r <==> Listed(DatePart, holidays, d) || IsWeekend(d))
  {
    match Lookup(o, d)
    case Some(b) => b
    case None => HolidayListed(holidays, d) || (IsWeekend(d) && !WorkingListed(holidays, d))
  }

  predicate UniqueRows(holidays: seq<Holiday>)
  {
    forall i, j :: 0 <= i < j < |holidays| ==> holidays[i].day != holidays[j].day && holidays[i].id != holidays[j].id
  }

  /** With rows found by their date part, in the lookup and in the submit, and working-day
      rows read as school days, a submit followed by a reload shows every modified date as it
      was marked and leaves every other date as it was, starting from a
      list of holiday rows, one per date, with no listed weekend among the modified dates. */
  lemma CorrectedMarksSurviveReload(o: Overrides, holidays: seq<Holiday>, seasonId: int, nextId: int)
    requires UniqueDates(o) && UniqueRows(holidays)
    requires forall h :: h in holidays ==> h.description != WorkingDayNote
    requires forall i :: 0 <= i < |o| && IsWeekend(o[i].0) ==> !Listed(DatePart, holidays, o[i].0)
    ensures forall i :: 0 <= i < |o| ==> CorrectedIsHolidayDate([], AfterCalls(DatePart, holidays, o, seasonId, nextId), o[i].0) == o[i].1
    ensures forall e :: Lookup(o, e).None? ==>
              CorrectedIsHolidayDate([], AfterCalls(DatePart, holidays, o, seasonId, nextId), e) == CorrectedIsHolidayDate([], holidays, e)
  {
    forall i | 0 <= i < |o|
      ensures CorrectedIsHolidayDate([], AfterCalls(DatePart, holidays, o, seasonId, nextId), o[i].0) == o[i].1
    {
      MarkedDateAfterCalls(o, holidays, seasonId, nextId, i);
    }
    forall e | Lookup(o, e).None?
      ensures CorrectedIsHolidayDate([], AfterCalls(DatePart, holidays, o, seasonId, nextId), e) == CorrectedIsHolidayDate([], holidays, e)
    {
      UnmarkedDateAfterCalls(o, holidays, seasonId, nextId, e);
    }
  }

  /** The restriction above is needed: the calls, not only the lookup, would have to change
      for a weekend that already has a working-day row. Marking it a holiday again sends no
      call, so even the corrected lookup keeps reading it as a school day. */
  lemma StoredWorkingDayKeepsSchoolDay()
    ensures var saturday := 20239;
            var holidays := [Holiday(1, saturday, WorkingDayNote, 1)];
            var o := [(saturday, true)];
            && IsWeekend(saturday)
            && PlannedCreates(DatePart, o, holidays, 1) == [] && PlannedDeletes(DatePart, o, holidays, 1) == []
            && !CorrectedIsHolidayDate([], AfterCalls(DatePart, holidays, o, 1, 1), saturday)
  {
    var saturday := 20239;
    var holidays := [Holiday(1, saturday, WorkingDayNote, 1)];
    var o := [(saturday, true)];
    assert o[..0] == [];
    assert holidays[0] in holidays;
    assert PlannedCreates(DatePart, o, holidays, 1) == [] && PlannedDeletes(DatePart, o, holidays, 1) == [];
    assert holidays[1..] == [];
    assert RemainingRows(holidays, []) == holidays;
    var after := AfterCalls(DatePart, holidays, o, 1, 1);
    assert after == holidays;
    assert after[0] in after;
  }

  lemma UnmarkedDateAfterCalls(o: Overrides, holidays: seq<Holiday>, seasonId: int, nextId: int, e: Date)
    requires UniqueRows(holidays) && Lookup(o, e).None?
    ensures forall h :: h in AfterCalls(DatePart, holidays, o, seasonId, nextId) && h.day == e <==> h in holidays && h.day == e
  {
    var creates := PlannedCreates(DatePart, o, holidays, seasonId);
    var deletes := PlannedDeletes(DatePart, o, holidays, seasonId);
    var after := AfterCalls(DatePart, holidays, o, seasonId, nextId);
    var remaining := RemainingRows(holidays, deletes);
    var created := CreatedRows(creates, nextId);
    assert forall h :: h in after <==> h in remaining || h in created;
    forall h | h in created ensures h.day != e {
      var k :| 0 <= k < |created| && created[k] == h;
      assert creates[k] in creates;
    }
    forall h | h in holidays && h.day == e
      ensures h in remaining
    {
      forall a | a in deletes ensures a.holidayId != h.id {
        var i :| 0 <= i < |o| && ActionFor(DatePart, holidays, o[i].0, o[i].1, seasonId) == Some(a);
        var g := FirstListed(DatePart, holidays, o[i].0).value;
        assert g.day == o[i].0 != e;
        RowIdsUnique(holidays, g, h);
      }
    }
  }

  lemma RowIdsUnique(holidays: seq<Holiday>, g: Holiday, h: Holiday)
    requires UniqueRows(holidays) && g in holidays && h in holidays
    ensures g.id == h.id ==> g == h
    ensures g.day == h.day ==> g == h
  {
    var i :| 0 <= i < |holidays| && holidays[i] == g;
    var j :| 0 <= j < |holidays| && holidays[j] == h;
    if i < j {
      assert holidays[i].day != holidays[j].day && holidays[i].id != holidays[j].id;
    } else if j < i {
      assert holidays[j].day != holidays[i].day && holidays[j].id != holidays[i].id;
    }
  }

  /** The only create call for a date of the overrides is that date's own. */
  lemma OwnCreateOnly(o: Overrides, holidays: seq<Holiday>, seasonId: int, i: nat)
    requires UniqueDates(o) && i < |o|
    ensures forall a :: a in PlannedCreates(DatePart, o, holidays, seasonId) && a.date == o[i].0 ==>
              ActionFor(DatePart, holidays, o[i].0, o[i].1, seasonId) == Some(a)
  {
    var creates := PlannedCreates(DatePart, o, holidays, seasonId);
    forall a | a in creates && a.date == o[i].0
      ensures ActionFor(DatePart, holidays, o[i].0, o[i].1, seasonId) == Some(a)
    {
      var j :| 0 <= j < |o| && o[j].0 == a.date && ActionFor(DatePart, holidays, o[j].0, o[j].1, seasonId) == Some(a);
      assert j == i;
    }
  }

  /** A listed row for a date of the overrides survives the delete calls exactly when that
      date's own call is not a delete. */
  lemma OwnDeleteOnly(o: Overrides, holidays: seq<Holiday>, seasonId: int, i: nat)
    requires UniqueDates(o) && UniqueRows(holidays) && i < |o|
    ensures var act := ActionFor(DatePart, holidays, o[i].0, o[i].1, seasonId);
            forall h :: h in holidays && h.day == o[i].0 ==>
              (h in RemainingRows(holidays, PlannedDeletes(DatePart, o, holidays, seasonId)) <==> !(act.Some? && act.value.DeleteHoliday?))
  {
    var (d, b) := o[i];
    var deletes := PlannedDeletes(DatePart, o, holidays, seasonId);
    var remaining := RemainingRows(holidays, deletes);
    var act := ActionFor(DatePart, holidays, d, b, seasonId);
    forall h | h in holidays && h.day == d
      ensures h in remaining <==> !(act.Some? && act.value.DeleteHoliday?)
    {
      if act.Some? && act.value.DeleteHoliday? {
        RowIdsUnique(holidays, FirstListed(DatePart, holidays, d).value, h);
        assert act.value in deletes;
      } else {
        forall a | a in deletes ensures a.holidayId != h.id {
          var j :| 0 <= j < |o| && ActionFor(DatePart, holidays, o[j].0, o[j].1, seasonId) == Some(a);
          var g := FirstListed(DatePart, holidays, o[j].0).value;
          RowIdsUnique(holidays, g, h);
          if j != i {
            assert o[j].0 != o[i].0;
          }
        }
      }
    }
  }

  /** The created rows for a date of the overrides are those of that date's own create
      call, and there is one when the call is a create. */
  lemma CreatedRowsOfDate(o: Overrides, holidays: seq<Holiday>, seasonId: int, nextId: int, i: nat)
    requires UniqueDates(o) && i < |o|
    ensures var act := ActionFor(DatePart, holidays, o[i].0, o[i].1, seasonId);
            var created := CreatedRows(PlannedCreates(DatePart, o, holidays, seasonId), nextId);
            && (forall h :: h in created && h.day == o[i].0 ==>
                  act.Some? && !act.value.DeleteHoliday? && h.description == Description(act.value))
            && (act.Some? && !act.value.DeleteHoliday? ==>
                  exists h :: h in created && h.day == o[i].0 && h.description == Description(act.value))
  {
    var creates := PlannedCreates(DatePart, o, holidays, seasonId);
    var created := CreatedRows(creates, nextId);
    var act := ActionFor(DatePart, holidays, o[i].0, o[i].1, seasonId);
    OwnCreateOnly(o, holidays, seasonId, i);
    forall h | h in created && h.day == o[i].0
      ensures act.Some? && !act.value.DeleteHoliday? && h.description == Description(act.value)
    {
      var k :| 0 <= k < |created| && created[k] == h;
      assert creates[k] in creates;
    }
    if act.Some? && !act.value.DeleteHoliday? {
      var k :| 0 <= k < |creates| && creates[k] == act.value;
      assert created[k] in created;
    }
  }

  /** The listed rows for a date of the overrides that survive are those of a date whose
      own call is not a delete. */
  lemma RemainingRowsOfDate(o: Overrides, holidays: seq<Holiday>, seasonId: int, i: nat)
    requires UniqueDates(o) && UniqueRows(holidays) && i < |o|
    ensures var act := ActionFor(DatePart, holidays, o[i].0, o[i].1, seasonId);
            var remaining := RemainingRows(holidays, PlannedDeletes(DatePart, o, holidays, seasonId));
            && (forall h :: h in remaining && h.day == o[i].0 ==> h in holidays && !(act.Some? && act.value.DeleteHoliday?))
            && (Listed(DatePart, holidays, o[i].0) && !(act.Some? && act.value.DeleteHoliday?) ==>
                  exists h :: h in remaining && h in holidays && h.day == o[i].0)
  {
    OwnDeleteOnly(o, holidays, seasonId, i);
    var remaining := RemainingRows(holidays, PlannedDeletes(DatePart, o, holidays, seasonId));
    if Listed(DatePart, holidays, o[i].0) {
      var g := FirstListed(DatePart, holidays, o[i].0).value;
      assert g in holidays && g.day == o[i].0;
    }
  }

  lemma MarkedDateAfterCalls(o: Overrides, holidays: seq<Holiday>, seasonId: int, nextId: int, i: nat)
    requires UniqueDates(o) && UniqueRows(holidays) && i < |o|
    requires forall h :: h in holidays ==> h.description != WorkingDayNote
    requires IsWeekend(o[i].0) ==> !Listed(DatePart, holidays, o[i].0)
    ensures CorrectedIsHolidayDate([], AfterCalls(DatePart, holidays, o, seasonId, nextId), o[i].0) == o[i].1
  {
    CreatedRowsOfDate(o, holidays, seasonId, nextId, i);
    RemainingRowsOfDate(o, holidays, seasonId, i);
    AfterCallsOfDate(o, holidays, seasonId, nextId, i);
  }

  /** The rows of the reloaded list for a date of the overrides, by the date's own call. */
  lemma AfterCallsOfDate(o: Overrides, holidays: seq<Holiday>, seasonId: int, nextId: int, i: nat)
    requires i < |o|
    requires forall h :: h in holidays ==> h.description != WorkingDayNote
    requires IsWeekend(o[i].0) ==> !Listed(DatePart, holidays, o[i].0)
    requires var act := ActionFor(DatePart, holidays, o[i].0, o[i].1, seasonId);
             var created := CreatedRows(PlannedCreates(DatePart, o, holidays, seasonId), nextId);
             && (forall h :: h in created && h.day == o[i].0 ==>
                   act.Some? && !act.value.DeleteHoliday? && h.description == Description(act.value))
             && (act.Some? && !act.value.DeleteHoliday? ==>
                   exists h :: h in created && h.day == o[i].0 && h.description == Description(act.value))
    requires var act := ActionFor(DatePart, holidays, o[i].0, o[i].1, seasonId);
             var remaining := RemainingRows(holidays, PlannedDeletes(DatePart, o, holidays, seasonId));
             && (forall h :: h in remaining && h.day == o[i].0 ==> h in holidays && !(act.Some? && act.value.DeleteHoliday?))
             && (Listed(DatePart, holidays, o[i].0) && !(act.Some? && act.value.DeleteHoliday?) ==>
                   exists h :: h in remaining && h in holidays && h.day == o[i].0)
    ensures CorrectedIsHolidayDate([], AfterCalls(DatePart, holidays, o, seasonId, nextId), o[i].0) == o[i].1
  {
    var d := o[i].0;
    var act := ActionFor(DatePart, holidays, d, o[i].1, seasonId);
    var remaining := RemainingRows(holidays, PlannedDeletes(DatePart, o, holidays, seasonId));
    var created := CreatedRows(PlannedCreates(DatePart, o, holidays, seasonId), nextId);
    var after := AfterCalls(DatePart, holidays, o, seasonId, nextId);
    assert after == remaining + created;
    if act.Some? && act.value.CreateHoliday? {
      assert Description(act.value)[0] == '假';
    }
    assert WorkingListed(after, d) <==> act.Some? && act.value.CreateWorkingDay?;
    assert HolidayListed(after, d) <==> (act.Some? && act.value.CreateHoliday?) || (Listed(DatePart, holidays, d) && act.None?);
  }
}
