/**
 * The part of `java.time.LocalDate` the fetch service relies on: proleptic Gregorian dates,
 * month arithmetic (`withDayOfMonth`, `plusMonths`, `minusMonths`, `minusDays(1)`),
 * ordering (`isBefore`), ISO 8601 extended calendar-date text (`parse`, `toString`).
 */
module Calendar {
  import opened Options
  import opened DecimalText

  datatype Date = Date(year: int, month: int, day: int)

  /** Gregorian leap-year rule, as `IsoChronology.isLeapYear` applies it to every year. */
  predicate IsLeapYear(year: int) {
    year % 4 == 0 && (year % 100 != 0 || year % 400 == 0)
  }

  function LengthOfMonth(year: int, month: int): (n: int)
    requires 1 <= month <= 12
    ensures 28 <= n <= 31
  {
    if month == 2 then (if IsLeapYear(year) then 29 else 28)
    else if month == 4 || month == 6 || month == 9 || month == 11 then 30
    else 31
  }

  predicate Valid(d: Date) {
    1 <= d.month <= 12 && 1 <= d.day <= LengthOfMonth(d.year, d.month)
  }

  /** A `LocalDate`: a date that exists in the calendar. */
  type LocalDate = d: Date | Valid(d) witness Date(1970, 1, 1)

  /** Months elapsed since January of year 0. */
  function MonthIndex(d: Date): int {
    d.year * 12 + d.month - 1
  }

  /** `isBefore`: `a` comes strictly earlier than `b` (year, then month, then day). */
  predicate Before(a: Date, b: Date) {
    a.year < b.year || (a.year == b.year && (a.month < b.month || (a.month == b.month && a.day < b.day)))
  }

  /** `isBefore` is a strict total order: of two different dates exactly one comes first, and it is transitive. */
  lemma BeforeIsStrictTotalOrder(a: Date, b: Date, c: Date)
    ensures Before(a, b) ==> a != b && !Before(b, a)
    ensures a != b ==> Before(a, b) || Before(b, a)
    ensures Before(a, b) && Before(b, c) ==> Before(a, c)
  {
  }

  /** Two dates of the same month index lie in the same year and month. */
  lemma MonthIndexInjective(a: LocalDate, b: LocalDate)
    requires MonthIndex(a) == MonthIndex(b)
    ensures a.year == b.year && a.month == b.month
  {
  }

  /** For a first-of-month bound, "not before it" is a statement about month indices alone. */
  lemma NotBeforeFirstOfMonth(a: LocalDate, start: LocalDate)
    requires start.day == 1
    ensures !Before(a, start) <==> MonthIndex(a) >= MonthIndex(start)
  {
  }

  /** `withDayOfMonth(1)`. */
  function WithFirstDay(d: LocalDate): (r: LocalDate)
    ensures r.day == 1 && MonthIndex(r) == MonthIndex(d)
    ensures !Before(d, r)
  {
    Date(d.year, d.month, 1)
  }

  /**
   * `plusMonths(n)`: the month index moves by `n` (`Math.floorDiv`/`floorMod` by 12 on the
   * month count) and the day is clamped to the length of the month reached.
   */
  function PlusMonths(d: LocalDate, n: int): (r: LocalDate)
    ensures MonthIndex(r) == MonthIndex(d) + n
    ensures r.day == if d.day <= LengthOfMonth(r.year, r.month) then d.day else LengthOfMonth(r.year, r.month)
  {
    if n == 0 then d
    else
      var count := MonthIndex(d) + n;
      var year, month := count / 12, count % 12 + 1;
      var length := LengthOfMonth(year, month);
      Date(year, month, if d.day <= length then d.day else length)
  }

  /** `minusMonths(n)`, which `LocalDate` defines as `plusMonths(-n)`. */
  function MinusMonths(d: LocalDate, n: int): (r: LocalDate)
    ensures MonthIndex(r) == MonthIndex(d) - n
    ensures d.day == 1 ==> r.day == 1
  {
    PlusMonths(d, -n)
  }

  /** `minusDays(1)`. */
  function PreviousDay(d: LocalDate): (r: LocalDate)
    ensures Before(r, d)
  {
    if d.day > 1 then Date(d.year, d.month, d.day - 1)
    else if d.month > 1 then Date(d.year, d.month - 1, LengthOfMonth(d.year, d.month - 1))
    else Date(d.year - 1, 12, 31)
  }

  /** No date lies strictly between the previous day and the day itself. */
  lemma PreviousDayIsImmediate(d: LocalDate, x: LocalDate)
    requires Before(x, d)
    ensures !Before(PreviousDay(d), x)
  {
  }

  /** `withDayOfMonth(1).plusMonths(1).minusDays(1)`: the last day of the month of `d`. */
  function EndOfMonth(d: LocalDate): (r: LocalDate)
    ensures r.year == d.year && r.month == d.month
    ensures r.day == LengthOfMonth(d.year, d.month)
    ensures !Before(r, d)
  {
    var next := PlusMonths(WithFirstDay(d), 1);
    var r := PreviousDay(next);
    assert MonthIndex(r) == MonthIndex(d);
    MonthIndexInjective(r, d);
    r
  }

  // ISO 8601 extended calendar-date text (`YYYY-MM-DD`) and its reduced-precision month form (`YYYY-MM`).

  /** Text of the shape `\d{4}-\d{2}-\d{2}`. */
  predicate IsDayText(t: string) {
    |t| == 10 && IsDigit(t[0]) && IsDigit(t[1]) && IsDigit(t[2]) && IsDigit(t[3]) && t[4] == '-' &&
    IsDigit(t[5]) && IsDigit(t[6]) && t[7] == '-' && IsDigit(t[8]) && IsDigit(t[9])
  }

  /** Text of the shape `\d{4}-\d{2}`. */
  predicate IsMonthText(t: string) {
    |t| == 7 && IsDigit(t[0]) && IsDigit(t[1]) && IsDigit(t[2]) && IsDigit(t[3]) && t[4] == '-' &&
    IsDigit(t[5]) && IsDigit(t[6])
  }

  /**
   * `LocalDate.parse` on `YYYY-MM-DD` text: `ISO_LOCAL_DATE` resolves strictly, so a month
   * outside 1..12 or a day the month does not have is a parse error (`None`).
   */
  function ParseIsoDate(t: string): (r: Option<LocalDate>)
    requires IsDayText(t)
    ensures AllDigits(t[..4]) && AllDigits(t[5..7]) && AllDigits(t[8..])
    ensures r.Some? <==> 1 <= DigitsValue(t[5..7]) <= 12 && 1 <= DigitsValue(t[8..]) <= LengthOfMonth(DigitsValue(t[..4]), DigitsValue(t[5..7]))
    ensures r.Some? ==> r.value == Date(DigitsValue(t[..4]), DigitsValue(t[5..7]), DigitsValue(t[8..]))
  {
    assert AllDigits(t[..4]) && AllDigits(t[5..7]) && AllDigits(t[8..]);
    var year, month, day := DigitsValue(t[..4]), DigitsValue(t[5..7]), DigitsValue(t[8..]);
    if 1 <= month <= 12 && 1 <= day <= LengthOfMonth(year, month) then Some(Date(year, month, day))
    else None
  }

  /** The key the month parser builds: `LocalDate.parse(t + "-01")`. */
  function ParseYearMonth(t: string): (r: Option<LocalDate>)
    requires IsMonthText(t)
    ensures r.Some? ==> r.value.day == 1
    ensures AllDigits(t[..4]) && AllDigits(t[5..]) && (r.Some? <==> 1 <= DigitsValue(t[5..]) <= 12)
    ensures r.Some? ==> r.value == Date(DigitsValue(t[..4]), DigitsValue(t[5..]), 1)
  {
    var full := t + "-01";
    assert full[..4] == t[..4] && full[5..7] == t[5..] && full[8..] == "01";
    assert DigitsValue("01") == DigitsValue("0") * 10 + 1 && DigitsValue("0") == 0 by {
      assert "01"[..1] == "0" && "0"[..0] == "";
    }
    ParseIsoDate(full)
  }

  /** The year as `LocalDate.toString` writes it. */
  function YearText(year: int): string {
    if 0 <= year < 10000 then PadDigits(year, 4)
    else if year >= 10000 then "+" + NatText(year)
    else if year > -1000 then "-" + PadDigits(-year, 4)
    else "-" + NatText(-year)
  }

  /** `LocalDate.toString`: the ISO 8601 extended calendar date. */
  function FormatIsoDate(d: LocalDate): string {
    YearText(d.year) + "-" + PadDigits(d.month, 2) + "-" + PadDigits(d.day, 2)
  }

  /** A date of a four-digit year is written as `YYYY-MM-DD`, and parsing that text gives the date back. */
  lemma FormatThenParse(d: LocalDate)
    requires 0 <= d.year < 10000
    ensures IsDayText(FormatIsoDate(d))
    ensures ParseIsoDate(FormatIsoDate(d)) == Some(d)
  {
    var y, m, dd := PadDigits(d.year, 4), PadDigits(d.month, 2), PadDigits(d.day, 2);
    var t := FormatIsoDate(d);
    assert t == y + "-" + m + "-" + dd;
    assert t[..4] == y && t[5..7] == m && t[8..] == dd;
  }

  /** Text that parses is exactly the text the parsed date is written as. */
  lemma ParseThenFormat(t: string)
    requires IsDayText(t) && ParseIsoDate(t).Some?
    ensures FormatIsoDate(ParseIsoDate(t).value) == t
  {
    PadDigitsOfValue(t[..4]);
    PadDigitsOfValue(t[5..7]);
    PadDigitsOfValue(t[8..]);
    assert t == t[..4] + "-" + t[5..7] + "-" + t[8..];
  }
}
