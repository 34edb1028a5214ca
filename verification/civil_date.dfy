/**
 * The parts of Go's `time` package that contests/adt/family.go relies on:
 * `time.Parse` with the layout "20060102", `Format` with the same layout, and
 * `Weekday`, on the proleptic Gregorian calendar.
 */
module CivilDate {
  import opened Outcomes
  import opened Text

  datatype Date = Date(year: nat, month: nat, day: nat)

  /** Sunday is 0, as in `time.Weekday`. */
  datatype Weekday = Sunday | Monday | Tuesday | Wednesday | Thursday | Friday | Saturday

  predicate IsLeap(y: nat)
  {
    y % 4 == 0 && (y % 100 != 0 || y % 400 == 0)
  }

  /** `daysIn`: the length of month `m` of year `y`. */
  function DaysIn(m: nat, y: nat): (n: nat)
    requires 1 <= m <= 12
    ensures 28 <= n <= 31
  {
    if m == 2 then (if IsLeap(y) then 29 else 28)
    else if m == 4 || m == 6 || m == 9 || m == 11 then 30
    else 31
  }

  predicate IsValid(d: Date)
  {
    1 <= d.month <= 12 && 1 <= d.day <= DaysIn(d.month, d.year)
  }

  /** A date that exists on the calendar. */
  type CivilDate = d: Date | IsValid(d) witness Date(1, 1, 1)

  /** The errors `time.Parse` reports for this layout. */
  datatype DateError = BadValue | MonthOutOfRange | ExtraText | DayOutOfRange

  /**
   * `time.Parse("20060102", s)`: four year digits, two month digits with the month
   * checked at once, two day digits, nothing after them, and finally the day checked
   * against the month.
   */
  function ParseDate(s: string): Result<CivilDate, DateError>
  {
    if |s| < 4 || !AllDigits(s[..4]) then Failure(BadValue)
    else if |s| < 6 || !AllDigits(s[4..6]) then Failure(BadValue)
    else if !(1 <= DigitsValue(s[4..6]) <= 12) then Failure(MonthOutOfRange)
    else if |s| < 8 || !AllDigits(s[6..8]) then Failure(BadValue)
    else if |s| > 8 then Failure(ExtraText)
    else
      var date := Date(DigitsValue(s[..4]), DigitsValue(s[4..6]), DigitsValue(s[6..8]));
      if !IsValid(date) then Failure(DayOutOfRange) else Success(date)
  }

  /** `Format("20060102")`: the year in four digits, month and day in two. */
  function FormatDate(d: Date): string
  {
    PadZeros(d.year, 4) + PadZeros(d.month, 2) + PadZeros(d.day, 2)
  }

  /** A text parses exactly when it is eight digits naming a real date. */
  lemma ParseDateSpec(s: string)
    ensures ParseDate(s).Success? <==>
      |s| == 8 && AllDigits(s) && IsValid(Date(DigitsValue(s[..4]), DigitsValue(s[4..6]), DigitsValue(s[6..8])))
    ensures ParseDate(s).Success? ==>
      ParseDate(s).value == Date(DigitsValue(s[..4]), DigitsValue(s[4..6]), DigitsValue(s[6..8]))
  {
    if |s| == 8 && AllDigits(s) {
      assert AllDigits(s[..4]) && AllDigits(s[4..6]) && AllDigits(s[6..8]);
    }
    if ParseDate(s).Success? {
      forall i | 0 <= i < 8 ensures IsDigit(s[i]) {
        if i < 4 { assert s[i] == s[..4][i]; }
        else if i < 6 { assert s[i] == s[4..6][i - 4]; }
        else { assert s[i] == s[6..8][i - 6]; }
      }
    }
  }

  /** Formatting a parsed date gives back the text it was parsed from. */
  lemma FormatParsed(s: string)
    requires ParseDate(s).Success?
    ensures FormatDate(ParseDate(s).value) == s
  {
    ParseDateSpec(s);
    PadZerosDigits(s[..4]);
    PadZerosDigits(s[4..6]);
    PadZerosDigits(s[6..8]);
    assert s == s[..4] + s[4..6] + s[6..8];
  }

  /** Parsing a formatted date of a four-digit year gives the date back. */
  lemma ParseFormatted(d: CivilDate)
    requires d.year < 10000
    ensures ParseDate(FormatDate(d)) == Success(d)
  {
    var y, m, dd := PadZeros(d.year, 4), PadZeros(d.month, 2), PadZeros(d.day, 2);
    assert Pow10(4) == 10000 && Pow10(2) == 100;
    PadZerosWidth(d.year, 4);
    PadZerosWidth(d.month, 2);
    PadZerosWidth(d.day, 2);
    var s := FormatDate(d);
    assert s[..4] == y && s[4..6] == m && s[6..8] == dd;
  }

  /** Days from 0000-01-01 to January 1 of year `y`. */
  function DaysBeforeYear(y: nat): nat
  {
    365 * y + (y + 3) / 4 - (y + 99) / 100 + (y + 399) / 400
  }

  /** Days from January 1 to the first of month `m`. */
  function DaysBeforeMonth(m: nat, y: nat): nat
    requires 1 <= m <= 12
  {
    [0, 31, 59, 90, 120, 151, 181, 212, 243, 273, 304, 334][m - 1] + (if m > 2 && IsLeap(y) then 1 else 0)
  }

  /** Days from 0000-01-01 to `d`. */
  function DayNumber(d: CivilDate): nat
  {
    DaysBeforeYear(d.year) + DaysBeforeMonth(d.month, d.year) + d.day - 1
  }

  function WeekdayFrom(n: nat): Weekday
    requires n < 7
  {
    [Sunday, Monday, Tuesday, Wednesday, Thursday, Friday, Saturday][n]
  }

  /** `Weekday()`: 0000-01-01 was a Saturday. */
  function WeekdayOf(d: CivilDate): Weekday
  {
    WeekdayFrom((DayNumber(d) + 6) % 7)
  }

  /** The following day. */
  function NextDay(d: CivilDate): CivilDate
  {
    if d.day < DaysIn(d.month, d.year) then Date(d.year, d.month, d.day + 1)
    else if d.month < 12 then Date(d.year, d.month + 1, 1)
    else Date(d.year + 1, 1, 1)
  }

  function NextWeekday(w: Weekday): Weekday
  {
    match w
    case Sunday => Monday
    case Monday => Tuesday
    case Tuesday => Wednesday
    case Wednesday => Thursday
    case Thursday => Friday
    case Friday => Saturday
    case Saturday => Sunday
  }

  /** A year has 366 days exactly when it is a leap year. */
  lemma YearLength(y: nat)
    ensures DaysBeforeYear(y + 1) == DaysBeforeYear(y) + (if IsLeap(y) then 366 else 365)
  {
    MultiplesUpTo(y, 4);
    MultiplesUpTo(y, 100);
    MultiplesUpTo(y, 400);
    LeapDivisors(y);
  }

  lemma LeapDivisors(y: nat)
    ensures y % 400 == 0 ==> y % 100 == 0
    ensures y % 100 == 0 ==> y % 4 == 0
  {
    if y % 400 == 0 {
      var q := y / 400;
      assert y == 100 * (4 * q);
    }
    if y % 100 == 0 {
      var q := y / 100;
      assert y == 4 * (25 * q);
    }
  }

  /** `(y + k - 1) / k` counts the multiples of k below y; one more is below y + 1 exactly when k divides y. */
  lemma MultiplesUpTo(y: nat, k: nat)
    requires k == 4 || k == 100 || k == 400
    ensures (y + 1 + k - 1) / k == (y + k - 1) / k + (if y % k == 0 then 1 else 0)
  {
    var q, r := y / k, y % k;
    assert y == k * q + r;
    if r == 0 {
      assert (y + k - 1) / k == q;
      assert (y + k) / k == q + 1;
    } else {
      assert (y + k - 1) / k == q + 1;
      assert (y + k) / k == q + 1;
    }
  }

  /** Consecutive days have consecutive day numbers. */
  lemma DayNumberNext(d: CivilDate)
    ensures DayNumber(NextDay(d)) == DayNumber(d) + 1
  {
    if d.day == DaysIn(d.month, d.year) && d.month == 12 {
      YearLength(d.year);
    }
  }

  /** The weekday moves on by one each day. */
  lemma WeekdayNext(d: CivilDate)
    ensures WeekdayOf(NextDay(d)) == NextWeekday(WeekdayOf(d))
  {
    DayNumberNext(d);
    WeekdayStep(DayNumber(d));
  }

  lemma WeekdayStep(n: nat)
    ensures WeekdayFrom((n + 1 + 6) % 7) == NextWeekday(WeekdayFrom((n + 6) % 7))
  {
    var r := (n + 6) % 7;
    assert (n + 1 + 6) % 7 == (r + 1) % 7;
  }

  /** A known date fixes the cycle: 7 January 2025 was a Tuesday. */
  lemma WeekdayAnchor()
    ensures WeekdayOf(Date(2025, 1, 7)) == Tuesday
  {
    assert DaysBeforeYear(2025) == 739617;
  }
}
