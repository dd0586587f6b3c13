/**
 * Calendar dates as the bot reads and uses them: the `DD.MM` answer of the date
 * handlers, checked as `datetime.date` checks it, and the odd/even week of the
 * semester a date falls in.
 */
module Dates {
  import opened Wrappers
  import opened Text

  const MinYear: int := 1
  const MaxYear: int := 9999

  datatype Date = Date(year: int, month: int, day: int)

  predicate IsLeap(y: int) {
    y % 4 == 0 && (y % 100 != 0 || y % 400 == 0)
  }

  function DaysInMonth(y: int, m: int): (r: int)
    requires 1 <= m <= 12
    ensures 28 <= r <= 31
  {
    if m == 2 then (if IsLeap(y) then 29 else 28)
    else if m == 4 || m == 6 || m == 9 || m == 11 then 30
    else 31
  }

  /** The dates `datetime.date(year, month, day)` accepts. */
  predicate ValidDate(d: Date) {
    MinYear <= d.year <= MaxYear && 1 <= d.month <= 12 && 1 <= d.day <= DaysInMonth(d.year, d.month)
  }

  // ---------------------------------------------------------------------------
  // `DD.MM`

  /**
   * `day, month = map(int, text.split('.'))` followed by
   * `datetime.date(year, month, day)`: `None` where either raises the `ValueError` or
   * `IndexError` the handlers catch.
   */
  function ParseDayMonth(text: string, year: int): (r: Option<Date>)
    ensures r.Some? ==> ValidDate(r.value) && r.value.year == year
  {
    var pieces := SplitAll(text, ".");
    if |pieces| != 2 then None
    else
      match (ParseInt(pieces[0]), ParseInt(pieces[1]))
      case (Some(day), Some(month)) =>
        var d := Date(year, month, day);
        if ValidDate(d) then Some(d) else None
      case _ => None
  }

  /** `n` written with two digits, as `DD` and `MM` ask. */
  function TwoDigits(n: nat): (r: string)
    requires n < 100
    ensures IsDigits(r) && |r| == 2
  {
    [('0' as int + n / 10) as char, ('0' as int + n % 10) as char]
  }

  lemma TwoDigitsValue(n: nat)
    requires n < 100
    ensures ParseInt(TwoDigits(n)) == Some(n)
  {
    var s := TwoDigits(n);
    ParseIntOfDigits(s);
    assert s[..1][..0] == [];
    assert DigitsValue(s[..1]) == n / 10;
  }

  /**
   * `DD.MM` typed for a real date parses to that date in the given year; typed for a
   * day the month does not have, it is rejected.
   */
  lemma DayMonthRoundTrip(year: int, month: nat, day: nat)
    requires MinYear <= year <= MaxYear && 1 <= month <= 12 && 1 <= day <= 31
    ensures ParseDayMonth(TwoDigits(day) + "." + TwoDigits(month), year) ==
      if ValidDate(Date(year, month, day)) then Some(Date(year, month, day)) else None
  {
    var x, y := TwoDigits(day), TwoDigits(month);
    DigitsPlain(x, ".");
    DigitsPlain(y, ".");
    assert Join([x, y], ".") == x + "." + y;
    SplitAllJoin([x, y], ".");
    TwoDigitsValue(day);
    TwoDigitsValue(month);
  }

  /** `31.02` is never a date. */
  lemma NoThirtyFirstOfFebruary(year: int)
    requires MinYear <= year <= MaxYear
    ensures ParseDayMonth(TwoDigits(31) + "." + TwoDigits(2), year) == None
  {
    DayMonthRoundTrip(year, 2, 31);
  }

  /** `29.02` is a date exactly in leap years. */
  lemma LeapDay(year: int)
    requires MinYear <= year <= MaxYear
    ensures ParseDayMonth(TwoDigits(29) + "." + TwoDigits(2), year).Some? <==> IsLeap(year)
  {
    DayMonthRoundTrip(year, 2, 29);
  }

  // ---------------------------------------------------------------------------
  // Week parity

  /** Days before the first of each month in a common year, as Python's `_DAYS_BEFORE_MONTH`. */
  function DaysBeforeMonth(y: int, m: int): int
    requires 1 <= m <= 12
  {
    var common := [0, 0, 31, 59, 90, 120, 151, 181, 212, 243, 273, 304, 334][m];
    if m > 2 && IsLeap(y) then common + 1 else common
  }

  function DaysBeforeYear(y: int): int
    requires y >= 1
  {
    var p := y - 1;
    p * 365 + p / 4 - p / 100 + p / 400
  }

  /** `date.toordinal()`: 1 for 0001-01-01. */
  function Ordinal(d: Date): int
    requires d.year >= 1 && 1 <= d.month <= 12
  {
    DaysBeforeYear(d.year) + DaysBeforeMonth(d.year, d.month) + d.day
  }

  /** `date.weekday()` of the day with ordinal `o`: 0 for Monday. */
  function Weekday(o: int): int {
    (o + 6) % 7
  }

  /** The ordinal of the Monday starting the week of ordinal `o`. */
  function MondayOf(o: int): int {
    o - Weekday(o)
  }

  /** `semester_start_ref_date`: 1 September of this year from September on, of the previous year before. */
  function SemesterStart(d: Date): Date {
    if d.month >= 9 then Date(d.year, 9, 1) else Date(d.year - 1, 9, 1)
  }

  /** `weeks_diff`: whole weeks from the semester's first Monday to this date's Monday. */
  function WeeksIntoSemester(d: Date): int
    requires ValidDate(d) && SemesterStart(d).year >= MinYear
  {
    WeeksBetween(Ordinal(SemesterStart(d)), Ordinal(d))
  }

  /** Whole weeks from the Monday of ordinal `s` to the Monday of ordinal `o`. */
  function WeeksBetween(s: int, o: int): int {
    (MondayOf(o) - MondayOf(s)) / 7
  }

  datatype WeekKind = OddWeek | EvenWeek

  /** `week_type`: the semester's first week is odd, and the weeks alternate from there. */
  function WeekOf(d: Date): WeekKind
    requires ValidDate(d) && SemesterStart(d).year >= MinYear
  {
    KindOf(WeeksIntoSemester(d))
  }

  /** The kind of the week `w` whole weeks into the semester. */
  function KindOf(w: int): WeekKind {
    if w % 2 == 0 then OddWeek else EvenWeek
  }

  /** Mondays lie a whole number of weeks apart. */
  lemma MondaysAligned(o: int, o': int)
    ensures (MondayOf(o') - MondayOf(o)) % 7 == 0
  {
  }

  /** A year has 366 days exactly when it is a leap year. */
  lemma YearLength(y: int)
    requires y >= 1
    ensures DaysBeforeYear(y + 1) - DaysBeforeYear(y) == if IsLeap(y) then 366 else 365
  {
    Quarter(y);
    Century(y);
    FourCenturies(y);
  }

  /** One year more adds a leap day count exactly at a multiple of four. */
  lemma Quarter(y: int)
    ensures y / 4 == (y - 1) / 4 + (if y % 4 == 0 then 1 else 0)
  {
  }

  lemma Century(y: int)
    ensures y / 100 == (y - 1) / 100 + (if y % 100 == 0 then 1 else 0)
    ensures y % 100 == 0 ==> y % 4 == 0
  {
  }

  lemma FourCenturies(y: int)
    ensures y / 400 == (y - 1) / 400 + (if y % 400 == 0 then 1 else 0)
    ensures y % 400 == 0 ==> y % 100 == 0
  {
  }

  /** A date falls on or after the first day of its semester. */
  lemma SemesterStartsFirst(d: Date)
    requires ValidDate(d) && SemesterStart(d).year >= MinYear
    ensures Ordinal(SemesterStart(d)) <= Ordinal(d)
  {
    if d.month < 9 {
      YearLength(d.year - 1);
    }
  }

  /** The week count is never negative, so the parity is Python's `%` of a natural number. */
  lemma WeeksNonNegative(d: Date)
    requires ValidDate(d) && SemesterStart(d).year >= MinYear
    ensures WeeksIntoSemester(d) >= 0
    ensures 7 * WeeksIntoSemester(d) == MondayOf(Ordinal(d)) - MondayOf(Ordinal(SemesterStart(d)))
  {
    SemesterStartsFirst(d);
    MondaysAligned(Ordinal(SemesterStart(d)), Ordinal(d));
  }

  /** The semester's first day is in an odd week. */
  lemma FirstWeekOdd(d: Date)
    requires ValidDate(d) && SemesterStart(d).year >= MinYear
    ensures ValidDate(SemesterStart(d)) && WeekOf(SemesterStart(d)) == OddWeek
  {
  }

  /** Days of one Monday-to-Sunday week share their kind. */
  lemma SameWeekSameKind(d: Date, d': Date)
    requires ValidDate(d) && ValidDate(d') && SemesterStart(d).year >= MinYear
    requires SemesterStart(d) == SemesterStart(d') && MondayOf(Ordinal(d)) == MondayOf(Ordinal(d'))
    ensures WeekOf(d) == WeekOf(d')
  {
    var s := Ordinal(SemesterStart(d));
    assert Ordinal(SemesterStart(d')) == s;
    SameMonday(s, Ordinal(d), Ordinal(d'));
  }

  /** Ordinals with the same Monday are the same number of weeks into the semester. */
  lemma SameMonday(s: int, o: int, o': int)
    requires MondayOf(o) == MondayOf(o')
    ensures WeeksBetween(s, o) == WeeksBetween(s, o')
  {
  }

  /** Within one semester, the date a week later is in a week of the other kind. */
  lemma WeeksAlternate(d: Date, d': Date)
    requires ValidDate(d) && ValidDate(d') && SemesterStart(d).year >= MinYear
    requires SemesterStart(d) == SemesterStart(d') && Ordinal(d') == Ordinal(d) + 7
    ensures WeekOf(d') != WeekOf(d)
  {
    var s := Ordinal(SemesterStart(d));
    assert Ordinal(SemesterStart(d')) == s;
    NextWeekFlips(s, Ordinal(d), Ordinal(d'));
  }

  /** The ordinal a week later is in a week of the other kind. */
  lemma NextWeekFlips(s: int, o: int, o': int)
    requires o' == o + 7
    ensures KindOf(WeeksBetween(s, o')) != KindOf(WeeksBetween(s, o))
  {
    NextWeek(o, s);
  }

  /** A week later, one more week has passed since the semester's first Monday. */
  lemma NextWeek(o: int, s: int)
    ensures WeeksBetween(s, o + 7) == WeeksBetween(s, o) + 1
  {
    assert MondayOf(o + 7) == MondayOf(o) + 7;
    MondaysAligned(s, o);
    WholeWeekLater(MondayOf(o) - MondayOf(s));
  }

  /** A whole number of weeks, one week more. */
  lemma WholeWeekLater(x: int)
    requires x % 7 == 0
    ensures (x + 7) / 7 == x / 7 + 1
  {
  }
}
