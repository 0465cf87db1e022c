// Conversions between Gregorian years and years of the Republic of China
// (民國) calendar, and the academic-year label built from them.

module DateUtils {
  import opened Wrappers
  import opened Text

  /** The first year of the ROC calendar is Gregorian 1912. */
  const RocOffset: int := 1911

  function ToRocYear(year: int): (roc: int)
    ensures roc + RocOffset == year
  {
    year - RocOffset
  }

  function ToGregorianYear(roc: int): (year: int)
    ensures year - RocOffset == roc
  {
    roc + RocOffset
  }

  /** Gregorian 2025 is ROC 114. */
  lemma Roc2025()
    ensures ToRocYear(2025) == 114
  {
  }

  /** The argument of `formatAcademicYear`: a number or a decimal string. */
  datatype YearInput = Number(n: int) | Text(s: string)

  const YearSuffix: string := "學年"

  /** The label of an academic year, such as "114學年"; a string that does not
      start with a number gives "NaN學年". */
  function FormatAcademicYear(y: YearInput): (r: string)
    ensures y.Number? ==> r == IntText(ToRocYear(y.n)) + YearSuffix
    ensures y.Text? && ParseInt10(y.s).Some? ==> r == IntText(ToRocYear(ParseInt10(y.s).value)) + YearSuffix
    ensures y.Text? && ParseInt10(y.s).None? ==> r == "NaN" + YearSuffix
  {
    match y
    case Number(n) => IntText(ToRocYear(n)) + YearSuffix
    case Text(s) =>
      match ParseInt10(s)
      case Some(n) => IntText(ToRocYear(n)) + YearSuffix
      case None => "NaN" + YearSuffix
  }

  /** The label of the decimal text of a year equals the label of the year itself. */
  lemma TextYearAsNumber(year: int)
    ensures FormatAcademicYear(Text(IntText(year))) == FormatAcademicYear(Number(year))
  {
    ParseIntText(year);
  }

  /** The ROC year can be read back from the label. */
  lemma LabelGivesYear(year: int)
    ensures var r := FormatAcademicYear(Number(year));
            |r| > |YearSuffix| && ParseInt10(r[..|r| - |YearSuffix|]) == Some(ToRocYear(year))
  {
    var r := FormatAcademicYear(Number(year));
    assert r[..|r| - |YearSuffix|] == IntText(ToRocYear(year));
    ParseIntText(ToRocYear(year));
  }
}
