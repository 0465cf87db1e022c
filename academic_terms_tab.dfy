// The academic terms tab of the administration page: academic years with their
// four seasons (fall, winter, spring, summer), default season windows, the
// grouping of seasons under their year, and the list updates after a year is
// created or deleted.

module AcademicTermsTab {
  import opened Wrappers
  import opened Text
  import opened Calendar
  import opened DateUtils

  datatype AcademicYear = AcademicYear(id: int, year: int, name: string, startDate: Date, endDate: Date, isActive: bool)

  /** A season; its type is one of "fall", "winter", "spring", "summer" as sent
      by the server, kept as text. */
  datatype Season = Season(id: int, name: string, kind: string, startDate: Date, endDate: Date,
                           academicYearId: int, isActive: bool)

  const SeasonTypes: seq<string> := ["fall", "winter", "spring", "summer"]

  /** The Chinese name of a season type; other text passes through. */
  function FormatSeasonType(kind: string): (r: string)
    ensures kind !in SeasonTypes ==> r == kind
    ensures kind in SeasonTypes ==> r != kind && |r| == 2
  {
    if kind == "fall" then "秋季"
    else if kind == "winter" then "冬季"
    else if kind == "spring" then "春季"
    else if kind == "summer" then "夏季"
    else kind
  }

  const FirstSemester: string := "上學期 (第一學期)"
  const SecondSemester: string := "下學期 (第二學期)"

  /** Fall and winter belong to the first semester; everything else to the second. */
  function SemesterForSeason(kind: string): (r: string)
    ensures r == FirstSemester <==> kind == "fall" || kind == "winter"
    ensures r == FirstSemester || r == SecondSemester
  {
    if kind == "fall" || kind == "winter" then FirstSemester else SecondSemester
  }

  /** The default first and last day of a season of the academic year starting
      in `year`. */
  function DefaultWindow(year: int, kind: string): (Date, Date)
    requires kind in SeasonTypes
  {
    if kind == "fall" then (DaysFromCivil(year, 8, 1), DaysFromCivil(year, 11, 30))
    else if kind == "winter" then (DaysFromCivil(year, 12, 1), DaysFromCivil(year + 1, 2, 28))
    else if kind == "spring" then (DaysFromCivil(year + 1, 3, 1), DaysFromCivil(year + 1, 5, 31))
    else (DaysFromCivil(year + 1, 6, 1), DaysFromCivil(year + 1, 7, 31))
  }

  /** Day number of March 1 of `year`: the days of a March-to-February year
      are counted from it. */
  function MarchFirst(year: int): Date
  {
    DaysFromCivil(year, 3, 1)
  }

  /** A March-to-February year has 365 or 366 days. */
  lemma YearLength(year: int)
    ensures MarchFirst(year + 1) - MarchFirst(year) == 365 || MarchFirst(year + 1) - MarchFirst(year) == 366
  {
    var era := year / 400;
    var yoe := year - era * 400;
    if yoe == 399 {
      assert (year + 1) / 400 == era + 1;
    } else {
      assert (year + 1) / 400 == era;
      assert (yoe + 1) / 4 - yoe / 4 <= 1;
      assert (yoe + 1) / 100 - yoe / 100 <= (yoe + 1) / 4 - yoe / 4;
    }
  }

  /** A day from March to December lies (153 * (month - 3) + 2) / 5 + day - 1
      days after March 1 of its year. */
  lemma MarchToDecember(year: int, month: int, day: int)
    requires 3 <= month <= 12
    ensures DaysFromCivil(year, month, day) == MarchFirst(year) + (153 * (month - 3) + 2) / 5 + day - 1
  {
    assert (month + 9) % 12 == month - 3;
  }

  /** A day of January or February lies (153 * (month + 9) + 2) / 5 + day - 1
      days after March 1 of the previous year. */
  lemma JanuaryFebruary(year: int, month: int, day: int)
    requires 1 <= month <= 2
    ensures DaysFromCivil(year + 1, month, day) == MarchFirst(year) + (153 * (month + 9) + 2) / 5 + day - 1
  {
    assert (month + 9) % 12 == month + 9;
  }

  /** The default fall window, as offsets from March 1 of its year. */
  lemma FallWindow(year: int)
    ensures DefaultWindow(year, "fall") == (MarchFirst(year) + 153, MarchFirst(year) + 274)
  {
    MarchToDecember(year, 8, 1);
    MarchToDecember(year, 11, 30);
  }

  /** The default winter window, as offsets from March 1 of the year it starts in. */
  lemma WinterWindow(year: int)
    ensures DefaultWindow(year, "winter") == (MarchFirst(year) + 275, MarchFirst(year) + 364)
  {
    MarchToDecember(year, 12, 1);
    JanuaryFebruary(year, 2, 28);
  }

  /** The default spring window, as offsets from March 1 of the following year. */
  lemma SpringWindow(year: int)
    ensures DefaultWindow(year, "spring") == (MarchFirst(year + 1), MarchFirst(year + 1) + 91)
  {
    MarchToDecember(year + 1, 3, 1);
    MarchToDecember(year + 1, 5, 31);
  }

  /** The default summer window, as offsets from March 1 of the following year. */
  lemma SummerWindow(year: int)
    ensures DefaultWindow(year, "summer") == (MarchFirst(year + 1) + 92, MarchFirst(year + 1) + 152)
  {
    MarchToDecember(year + 1, 6, 1);
    MarchToDecember(year + 1, 7, 31);
  }

  /** The four default windows follow each other in the order fall, winter,
      spring, summer without overlapping: fall ends the day before winter
      starts, spring the day before summer, and between winter and spring lies
      at most February 29. The summer window ends the day before the next
      year's fall window starts. */
  lemma DefaultWindowsOrdered(year: int)
    ensures forall k :: k in SeasonTypes ==> DefaultWindow(year, k).0 <= DefaultWindow(year, k).1
    ensures DefaultWindow(year, "fall").1 + 1 == DefaultWindow(year, "winter").0
    ensures DefaultWindow(year, "winter").1 < DefaultWindow(year, "spring").0 <= DefaultWindow(year, "winter").1 + 2
    ensures DefaultWindow(year, "spring").1 + 1 == DefaultWindow(year, "summer").0
    ensures DefaultWindow(year, "summer").1 + 1 == DefaultWindow(year + 1, "fall").0
  {
    FallWindow(year);
    WinterWindow(year);
    SpringWindow(year);
    SummerWindow(year);
    FallWindow(year + 1);
    YearLength(year);
  }

  /** The name a default season gets, such as "2025 秋季學期". */
  function DefaultSeasonName(year: int, kind: string): string
  {
    IntText(year) + " " + FormatSeasonType(kind) + "學期"
  }

  /** Creating a year creates its four seasons in the order fall, winter,
      spring, summer, with the default windows; the server hands out the ids
      `firstId`, `firstId + 1`, ... */
  method CreateYearSeasons(year: int, yearId: int, firstId: int) returns (created: seq<Season>)
    ensures |created| == |SeasonTypes|
    ensures forall i :: 0 <= i < |created| ==>
              created[i] == Season(firstId + i, DefaultSeasonName(year, SeasonTypes[i]), SeasonTypes[i],
                                   DefaultWindow(year, SeasonTypes[i]).0, DefaultWindow(year, SeasonTypes[i]).1,
                                   yearId, true)
  {
    created := [];
    for i := 0 to |SeasonTypes|
      invariant |created| == i
      invariant forall j :: 0 <= j < i ==>
                  created[j] == Season(firstId + j, DefaultSeasonName(year, SeasonTypes[j]), SeasonTypes[j],
                                       DefaultWindow(year, SeasonTypes[j]).0, DefaultWindow(year, SeasonTypes[j]).1,
                                       yearId, true)
    {
      var kind := SeasonTypes[i];
      var window := DefaultWindow(year, kind);
      created := created + [Season(firstId + i, DefaultSeasonName(year, kind), kind, window.0, window.1, yearId, true)];
    }
  }

  /** The first season of a year with a given type (`find`). */
  function FirstOfType(seasons: seq<Season>, yearId: int, kind: string): (r: Option<Season>)
    ensures r.Some? ==> r.value in seasons && r.value.academicYearId == yearId && r.value.kind == kind
    ensures r.None? <==> forall s :: s in seasons ==> !(s.academicYearId == yearId && s.kind == kind)
    decreases |seasons|
  {
    if seasons == [] then None
    else if seasons[0].academicYearId == yearId && seasons[0].kind == kind then Some(seasons[0])
    else FirstOfType(seasons[1..], yearId, kind)
  }

  /** The seasons of one year, one slot per type. */
  datatype SeasonGroup = SeasonGroup(fall: Option<Season>, winter: Option<Season>, spring: Option<Season>,
                                     summer: Option<Season>)

  function GroupFor(seasons: seq<Season>, yearId: int): SeasonGroup
  {
    SeasonGroup(FirstOfType(seasons, yearId, "fall"), FirstOfType(seasons, yearId, "winter"),
                FirstOfType(seasons, yearId, "spring"), FirstOfType(seasons, yearId, "summer"))
  }

  /** The group of every listed year, keyed by year id. */
  method GroupedSeasons(years: seq<AcademicYear>, seasons: seq<Season>) returns (groups: map<int, SeasonGroup>)
    ensures forall id :: id in groups <==> exists y :: y in years && y.id == id
    ensures forall id :: id in groups ==> groups[id] == GroupFor(seasons, id)
  {
    groups := map[];
    for i := 0 to |years|
      invariant forall id :: id in groups <==> exists j :: 0 <= j < i && years[j].id == id
      invariant forall id :: id in groups ==> groups[id] == GroupFor(seasons, id)
    {
      groups := groups[years[i].id := GroupFor(seasons, years[i].id)];
    }
  }

  /** Adding the seasons of a new year: when no season belonged to that year
      before, each slot of its group holds the season created for it. */
  lemma NewYearGroup(seasons: seq<Season>, year: int, yearId: int, firstId: int, created: seq<Season>)
    requires forall s :: s in seasons ==> s.academicYearId != yearId
    requires |created| == 4
    requires forall i :: 0 <= i < 4 ==>
               created[i] == Season(firstId + i, DefaultSeasonName(year, SeasonTypes[i]), SeasonTypes[i],
                                    DefaultWindow(year, SeasonTypes[i]).0, DefaultWindow(year, SeasonTypes[i]).1,
                                    yearId, true)
    ensures GroupFor(seasons + created, yearId) ==
              SeasonGroup(Some(created[0]), Some(created[1]), Some(created[2]), Some(created[3]))
  {
    FirstOfTypeSkip(seasons, created, yearId, "fall");
    FirstOfTypeSkip(seasons, created, yearId, "winter");
    FirstOfTypeSkip(seasons, created, yearId, "spring");
    FirstOfTypeSkip(seasons, created, yearId, "summer");
    CreatedGroup(created, yearId);
  }

  lemma CreatedGroup(created: seq<Season>, yearId: int)
    requires |created| == 4
    requires forall i :: 0 <= i < 4 ==> created[i].kind == SeasonTypes[i] && created[i].academicYearId == yearId
    ensures FirstOfType(created, yearId, "fall") == Some(created[0])
    ensures FirstOfType(created, yearId, "winter") == Some(created[1])
    ensures FirstOfType(created, yearId, "spring") == Some(created[2])
    ensures FirstOfType(created, yearId, "summer") == Some(created[3])
  {
    var c1 := created[1..];
    var c2 := c1[1..];
    var c3 := c2[1..];
    assert c1[0] == created[1] && c2[0] == created[2] && c3[0] == created[3];
    assert FirstOfType(c3, yearId, "summer") == Some(created[3]);
    assert FirstOfType(c2, yearId, "spring") == Some(created[2]);
    assert FirstOfType(c2, yearId, "summer") == Some(created[3]);
    assert FirstOfType(c1, yearId, "winter") == Some(created[1]);
  }

  lemma {:induction false} FirstOfTypeSkip(a: seq<Season>, b: seq<Season>, yearId: int, kind: string)
    requires forall s :: s in a ==> s.academicYearId != yearId
    ensures FirstOfType(a + b, yearId, kind) == FirstOfType(b, yearId, kind)
    decreases |a|
  {
    if a != [] {
      assert a[0] in a;
      assert forall s :: s in a[1..] ==> s in a;
      assert (a + b)[0] == a[0] && (a + b)[1..] == a[1..] + b;
      FirstOfTypeSkip(a[1..], b, yearId, kind);
    } else {
      assert a + b == b;
    }
  }

  /** The year list after a year is deleted. */
  function KeepYears(years: seq<AcademicYear>, id: int): (r: seq<AcademicYear>)
    ensures forall y :: y in r <==> y in years && y.id != id
    decreases |years|
  {
    if years == [] then []
    else (if years[0].id != id then [years[0]] else []) + KeepYears(years[1..], id)
  }

  /** The filter keeps the remaining years in their order, each as often as it was listed. */
  lemma {:induction false} KeepYearsConcat(a: seq<AcademicYear>, b: seq<AcademicYear>, id: int)
    ensures KeepYears(a + b, id) == KeepYears(a, id) + KeepYears(b, id)
    decreases |a|
  {
    if a == [] {
      assert a + b == b;
    } else {
      assert (a + b)[0] == a[0] && (a + b)[1..] == a[1..] + b;
      KeepYearsConcat(a[1..], b, id);
    }
  }

  lemma KeepYearsOne(y: AcademicYear, id: int)
    ensures KeepYears([y], id) == if y.id != id then [y] else []
  {
  }

  /** The season list after a year is deleted. */
  function KeepSeasons(seasons: seq<Season>, id: int): (r: seq<Season>)
    ensures forall s :: s in r <==> s in seasons && s.academicYearId != id
    decreases |seasons|
  {
    if seasons == [] then []
    else (if seasons[0].academicYearId != id then [seasons[0]] else []) + KeepSeasons(seasons[1..], id)
  }

  /** Deleting a year leaves the groups of all other years as they were: their
      seasons keep their relative order. */
  lemma {:induction false} DeleteKeepsOtherGroups(seasons: seq<Season>, id: int, other: int, kind: string)
    requires other != id
    ensures FirstOfType(KeepSeasons(seasons, id), other, kind) == FirstOfType(seasons, other, kind)
    decreases |seasons|
  {
    if seasons != [] {
      DeleteKeepsOtherGroups(seasons[1..], id, other, kind);
      var rest := KeepSeasons(seasons[1..], id);
      if seasons[0].academicYearId != id {
        assert ([seasons[0]] + rest)[1..] == rest;
      } else {
        assert KeepSeasons(seasons, id) == rest;
      }
    }
  }

  /** After a year is deleted its group is empty. */
  lemma DeletedYearHasNoGroup(seasons: seq<Season>, id: int)
    ensures GroupFor(KeepSeasons(seasons, id), id) == SeasonGroup(None, None, None, None)
  {
  }

  /** Editing a year only changes the active flag of that year in the list. */
  function SetYearActive(years: seq<AcademicYear>, id: int, active: bool): (r: seq<AcademicYear>)
    ensures |r| == |years|
    ensures forall i :: 0 <= i < |years| ==> r[i].(isActive := years[i].isActive) == years[i]
    ensures forall i :: 0 <= i < |years| ==> r[i].isActive == (if years[i].id == id then active else years[i].isActive)
  {
    seq(|years|, i requires 0 <= i < |years| => if years[i].id == id then years[i].(isActive := active) else years[i])
  }

  /** The HTTP method of a request. */
  datatype Verb = Put | Patch

  /** `api.updateAcademicYear` sends `PUT /academic/years/:id`. */
  const EditYearVerb: Verb := Put

  /** The server declares the year edit as `@Patch('years/:id')`; any other method on that
      path is answered with an error. */
  predicate YearEditRouted(v: Verb)
  {
    v == Patch
  }

  /** The parts of the tab that submitting the year dialog for an existing year changes. */
  datatype YearTab = YearTab(years: seq<AcademicYear>, dialogOpen: bool, error: Option<string>, success: Option<string>)

  /** `handleSubmitYear` for an existing year, sent with `verb`: when the request is served,
      the list takes the new flag, a success message names it and the dialog closes; when it
      fails, only the error is set. */
  function SubmitYearEdit(tab: YearTab, id: int, active: bool, verb: Verb): YearTab
  {
    if YearEditRouted(verb) then
      YearTab(SetYearActive(tab.years, id, active), false, tab.error,
              Some(if active then "學年已設為啟用狀態" else "學年已設為停用狀態"))
    else
      tab.(error := Some("提交失敗"))
  }

  /** As written, editing a year never reaches the server's route, so the list keeps every
      year's flag, the dialog stays open and the error "提交失敗" is shown. */
  lemma YearEditNeverApplied(tab: YearTab, id: int, active: bool)
    ensures var r := SubmitYearEdit(tab, id, active, EditYearVerb);
            && r.years == tab.years && r.dialogOpen == tab.dialogOpen && r.success == tab.success
            && r.error == Some("提交失敗")
  {
  }

  /** Sent with PATCH, the edit sets the edited year's flag, keeps every other field and
      every other year, closes the dialog and reports the new state. */
  lemma PatchedYearEditApplied(tab: YearTab, id: int, active: bool)
    ensures var r := SubmitYearEdit(tab, id, active, Patch);
            && |r.years| == |tab.years|
            && (forall i :: 0 <= i < |tab.years| ==>
                  && r.years[i].(isActive := tab.years[i].isActive) == tab.years[i]
                  && r.years[i].isActive == (if tab.years[i].id == id then active else tab.years[i].isActive))
            && !r.dialogOpen && r.error == tab.error
            && r.success == Some(if active then "學年已設為啟用狀態" else "學年已設為停用狀態")
  {
  }

  /** The year field of the year form: a number, or the raw text when it does
      not start with a number. */
  datatype YearField = Typed(n: int) | Raw(s: string)

  datatype YearForm = YearForm(year: YearField, name: string, startDate: string, endDate: string, isActive: bool)

  /** Typing into the year field: a number also renames the year to its ROC label. */
  function ChangeYearField(form: YearForm, value: string): (r: YearForm)
    ensures ParseInt10(value).Some? ==>
              r == form.(year := Typed(ParseInt10(value).value),
                         name := FormatAcademicYear(DateUtils.Number(ParseInt10(value).value)))
    ensures ParseInt10(value).None? ==> r == form.(year := Raw(value))
  {
    match ParseInt10(value)
    case Some(y) => form.(year := Typed(y), name := IntText(ToRocYear(y)) + "學年")
    case None => form.(year := Raw(value))
  }

  /** Typing a year's digits sets the year and the name "<ROC year>學年". */
  lemma TypedYearNamesRoc(form: YearForm, year: int)
    ensures ChangeYearField(form, IntText(year)).year == Typed(year)
    ensures ChangeYearField(form, IntText(year)).name == IntText(year - 1911) + "學年"
  {
    ParseIntText(year);
  }
}
