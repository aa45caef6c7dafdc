/** Python's proleptic Gregorian dates and naive datetimes, as far as the archiver uses them:
    day arithmetic with timedelta (OverflowError outside years 1..9999), comparison, and
    strftime('%m.%d.%Y'). */
module Calendar {
  import opened Wrappers

  const MAX_YEAR := 9999
  const SECONDS_PER_DAY := 86400
  /** 23:59:59 in seconds after midnight. */
  const LAST_SECOND := 23 * 3600 + 59 * 60 + 59

  predicate IsLeapYear(y: int) {
    y % 4 == 0 && (y % 100 != 0 || y % 400 == 0)
  }

  function DaysInMonth(y: int, m: int): int
    requires 1 <= m <= 12
  {
    if m == 2 then (if IsLeapYear(y) then 29 else 28)
    else if m == 4 || m == 6 || m == 9 || m == 11 then 30
    else 31
  }

  function YearLength(y: int): int {
    if IsLeapYear(y) then 366 else 365
  }

  datatype CivilDate = CivilDate(year: int, month: int, day: int) {
    predicate Valid() {
      1 <= year <= MAX_YEAR && 1 <= month <= 12 && 1 <= day <= DaysInMonth(year, month)
    }
  }

  /** A value datetime.date can hold: 0001-01-01 through 9999-12-31. */
  type Date = d: CivilDate | d.Valid() witness CivilDate(1, 1, 1)

  const FIRST_DATE: Date := CivilDate(1, 1, 1)
  const LAST_DATE: Date := CivilDate(MAX_YEAR, 12, 31)

  /** Calendar order of dates. */
  predicate DateBefore(a: CivilDate, b: CivilDate) {
    || a.year < b.year
    || (a.year == b.year && (a.month < b.month || (a.month == b.month && a.day < b.day)))
  }

  function DaysBeforeYear(y: int): (n: int)
    requires y >= 1
    ensures n >= 0
    decreases y
  {
    if y == 1 then 0 else DaysBeforeYear(y - 1) + YearLength(y - 1)
  }

  /** How x / 4, x / 100 and x / 400 change from x - 1 to x. */
  lemma DivisionSteps(x: int)
    ensures x / 4 == (x - 1) / 4 + (if x % 4 == 0 then 1 else 0)
    ensures x / 100 == (x - 1) / 100 + (if x % 100 == 0 then 1 else 0)
    ensures x / 400 == (x - 1) / 400 + (if x % 400 == 0 then 1 else 0)
  {
  }

  /** Every fourth year is a leap year, except centuries, except every fourth century. */
  lemma LeapCount(x: int)
    ensures YearLength(x) == 365 + (if x % 4 == 0 then 1 else 0) - (if x % 100 == 0 then 1 else 0)
                                 + (if x % 400 == 0 then 1 else 0)
  {
    if x % 400 == 0 {
      assert x == 400 * (x / 400);
      assert x == 100 * (4 * (x / 400));
    }
    if x % 100 == 0 {
      assert x == 100 * (x / 100);
      assert x == 4 * (25 * (x / 100));
    }
  }

  /** The closed form Python's datetime module uses for the days before a year. */
  lemma {:induction false} DaysBeforeYearClosedForm(y: int)
    requires y >= 1
    ensures var x := y - 1; DaysBeforeYear(y) == 365 * x + x / 4 - x / 100 + x / 400
    decreases y
  {
    if y > 1 {
      DaysBeforeYearClosedForm(y - 1);
      DivisionSteps(y - 1);
      LeapCount(y - 1);
    }
  }

  function DaysBeforeMonth(y: int, m: int): (n: int)
    requires 1 <= m <= 12
    ensures n >= 0
    decreases m
  {
    if m == 1 then 0 else DaysBeforeMonth(y, m - 1) + DaysInMonth(y, m - 1)
  }

  /** date.toordinal(): the reference numbering of days, 0001-01-01 being day 1. */
  function Ordinal(d: Date): int {
    DaysBeforeYear(d.year) + DaysBeforeMonth(d.year, d.month) + d.day
  }

  lemma MonthsFillYear(y: int)
    ensures DaysBeforeMonth(y, 12) + 31 == YearLength(y)
  {
    assert DaysBeforeMonth(y, 2) == 31;
    assert DaysBeforeMonth(y, 3) == 31 + DaysInMonth(y, 2);
    assert DaysBeforeMonth(y, 4) == 62 + DaysInMonth(y, 2);
    assert DaysBeforeMonth(y, 5) == 92 + DaysInMonth(y, 2);
    assert DaysBeforeMonth(y, 6) == 123 + DaysInMonth(y, 2);
    assert DaysBeforeMonth(y, 7) == 153 + DaysInMonth(y, 2);
    assert DaysBeforeMonth(y, 8) == 184 + DaysInMonth(y, 2);
    assert DaysBeforeMonth(y, 9) == 215 + DaysInMonth(y, 2);
    assert DaysBeforeMonth(y, 10) == 245 + DaysInMonth(y, 2);
    assert DaysBeforeMonth(y, 11) == 276 + DaysInMonth(y, 2);
    assert DaysBeforeMonth(y, 12) == 306 + DaysInMonth(y, 2);
  }

  lemma {:induction false} MonthsIncrease(y: int, m1: int, m2: int)
    requires 1 <= m1 < m2 <= 12
    ensures DaysBeforeMonth(y, m1) + DaysInMonth(y, m1) <= DaysBeforeMonth(y, m2)
    decreases m2 - m1
  {
    if m2 > m1 + 1 {
      MonthsIncrease(y, m1, m2 - 1);
    }
  }

  lemma {:induction false} YearsIncrease(y1: int, y2: int)
    requires 1 <= y1 < y2
    ensures DaysBeforeYear(y1) + YearLength(y1) <= DaysBeforeYear(y2)
    decreases y2 - y1
  {
    if y2 > y1 + 1 {
      YearsIncrease(y1, y2 - 1);
    }
  }

  /** Calendar order and ordinal order agree. */
  lemma OrdinalMonotonic(a: Date, b: Date)
    requires DateBefore(a, b)
    ensures Ordinal(a) < Ordinal(b)
  {
    if a.year < b.year {
      if a.month < 12 {
        MonthsIncrease(a.year, a.month, 12);
      }
      MonthsFillYear(a.year);
      YearsIncrease(a.year, b.year);
    } else if a.month < b.month {
      MonthsIncrease(a.year, a.month, b.month);
    }
  }

  /** Distinct dates have distinct ordinals. */
  lemma OrdinalInjective(a: Date, b: Date)
    requires Ordinal(a) == Ordinal(b)
    ensures a == b
  {
    if DateBefore(a, b) {
      OrdinalMonotonic(a, b);
    } else if DateBefore(b, a) {
      OrdinalMonotonic(b, a);
    }
  }

  lemma OrdinalBounds(d: Date)
    ensures 1 <= Ordinal(d) <= Ordinal(LAST_DATE)
  {
    if d != LAST_DATE {
      OrdinalMonotonic(d, LAST_DATE);
    }
  }

  /** The next day within the same month. */
  lemma DayStep(d: Date)
    requires d.day < DaysInMonth(d.year, d.month)
    ensures var n := CivilDate(d.year, d.month, d.day + 1);
            n.Valid() && Ordinal(n) == Ordinal(d) + 1
  {
  }

  /** The first day of the next month of the same year. */
  lemma MonthStep(d: Date)
    requires d.month < 12 && d.day == DaysInMonth(d.year, d.month)
    ensures var n := CivilDate(d.year, d.month + 1, 1);
            n.Valid() && Ordinal(n) == Ordinal(d) + 1
  {
  }

  /** The first day of the next year. */
  lemma YearStep(d: Date)
    requires d.year < MAX_YEAR && d.month == 12 && d.day == 31
    ensures var n := CivilDate(d.year + 1, 1, 1);
            n.Valid() && Ordinal(n) == Ordinal(d) + 1
  {
    MonthsFillYear(d.year);
  }

  /** The day after d. */
  function NextDay(d: Date): (r: Date)
    requires d != LAST_DATE
    ensures Ordinal(r) == Ordinal(d) + 1
  {
    if d.day < DaysInMonth(d.year, d.month) then
      DayStep(d);
      CivilDate(d.year, d.month, d.day + 1)
    else if d.month < 12 then
      MonthStep(d);
      CivilDate(d.year, d.month + 1, 1)
    else
      YearStep(d);
      CivilDate(d.year + 1, 1, 1)
  }

  /** The day before d. */
  function PrevDay(d: Date): (r: Date)
    requires d != FIRST_DATE
    ensures Ordinal(r) == Ordinal(d) - 1
  {
    if d.day > 1 then
      var r: Date := CivilDate(d.year, d.month, d.day - 1);
      DayStep(r);
      r
    else if d.month > 1 then
      var r: Date := CivilDate(d.year, d.month - 1, DaysInMonth(d.year, d.month - 1));
      MonthStep(r);
      r
    else
      var r: Date := CivilDate(d.year - 1, 12, 31);
      YearStep(r);
      r
  }

  /** d + timedelta(days=n), stepping one day at a time; None where Python raises
      OverflowError. The result is the date whose ordinal is n more than d's, and it exists
      exactly when that ordinal is in range. */
  function ShiftDays(d: Date, n: int): (r: Option<Date>)
    ensures r.Some? <==> 1 <= Ordinal(d) + n <= Ordinal(LAST_DATE)
    ensures r.Some? ==> Ordinal(r.value) == Ordinal(d) + n
    decreases if n < 0 then -n else n
  {
    if n == 0 then
      OrdinalBounds(d);
      Some(d)
    else if n > 0 then
      if d == LAST_DATE then None else ShiftDays(NextDay(d), n - 1)
    else
      if d == FIRST_DATE then None else ShiftDays(PrevDay(d), n + 1)
  }

  type SecondOfDay = s: int | 0 <= s < SECONDS_PER_DAY
  type Microsecond = u: int | 0 <= u < 1000000

  /** A naive datetime.datetime: a date, the second of that day and the microsecond. */
  datatype Moment = Moment(date: Date, second: SecondOfDay, micro: Microsecond)

  /** Strict order of datetimes. */
  predicate Earlier(a: Moment, b: Moment) {
    || DateBefore(a.date, b.date)
    || (a.date == b.date && (a.second < b.second || (a.second == b.second && a.micro < b.micro)))
  }

  /** a <= b. */
  predicate NotLater(a: Moment, b: Moment) {
    !Earlier(b, a)
  }

  lemma EarlierTransitive(a: Moment, b: Moment, c: Moment)
    requires Earlier(a, b) && Earlier(b, c)
    ensures Earlier(a, c)
  {
  }

  /** datetime.combine(d, time(0, 0)). */
  function Midnight(d: Date): Moment {
    Moment(d, 0, 0)
  }

  /** A value read from a date or timestamp column: a datetime.date or a datetime.datetime. */
  datatype Stamp = OnDate(day: Date) | At(moment: Moment) {
    /** The calendar day, which is all strftime('%m.%d.%Y') shows. */
    function Day(): Date {
      match this
      case OnDate(d) => d
      case At(m) => m.date
    }

    /** The instant a comparison with a datetime sees: a plain date stands for its midnight. */
    function Instant(): Moment {
      match this
      case OnDate(d) => Midnight(d)
      case At(m) => m
    }
  }

  function Digit(n: int): char
    requires 0 <= n <= 9
  {
    ('0' as int + n) as char
  }

  predicate IsDigit(c: char) {
    '0' <= c <= '9'
  }

  function Pow10(w: nat): nat {
    if w == 0 then 1 else 10 * Pow10(w - 1)
  }

  /** n in decimal with exactly w digits, zero-padded on the left. */
  function Digits(n: nat, w: nat): (s: string)
    ensures |s| == w && forall i :: 0 <= i < w ==> IsDigit(s[i])
  {
    if w == 0 then [] else Digits(n / 10, w - 1) + [Digit(n % 10)]
  }

  /** The number a string of decimal digits denotes. */
  function DigitsValue(s: string): nat
    requires forall i :: 0 <= i < |s| ==> IsDigit(s[i])
  {
    if s == [] then 0
    else
      assert IsDigit(s[|s| - 1]);
      10 * DigitsValue(s[..|s| - 1]) + (s[|s| - 1] as int - '0' as int)
  }

  lemma {:induction false} DigitsRoundTrip(n: nat, w: nat)
    requires n < Pow10(w)
    ensures DigitsValue(Digits(n, w)) == n
  {
    if w > 0 {
      DigitsRoundTrip(n / 10, w - 1);
      var s := Digits(n, w);
      assert s[..|s| - 1] == Digits(n / 10, w - 1);
    }
  }

  /** '%d' % n for n >= 0: the decimal digits of n without leading zeros. */
  function NaturalDecimal(n: nat): (s: string)
    ensures s != [] && (s[0] != '0' || n == 0)
    ensures forall i :: 0 <= i < |s| ==> IsDigit(s[i])
    ensures DigitsValue(s) == n
  {
    if n < 10 then [Digit(n)]
    else
      var init := NaturalDecimal(n / 10);
      var s := init + [Digit(n % 10)];
      assert s[..|s| - 1] == init;
      s
  }

  /** '%d' % n: a '-' before the digits of a negative number. */
  function Decimal(n: int): string {
    if n < 0 then "-" + NaturalDecimal(-n) else NaturalDecimal(n)
  }

  /** date.strftime('%m.%d.%Y'). */
  function FormatDate(d: Date): (s: string)
    ensures |s| == 10 && s[2] == '.' && s[5] == '.'
    ensures forall i :: 0 <= i < |s| ==> s[i] == '.' || IsDigit(s[i])
  {
    Digits(d.month, 2) + "." + Digits(d.day, 2) + "." + Digits(d.year, 4)
  }

  /** Reads back a date written as MM.DD.YYYY. */
  function ParseDate(s: string): Option<Date> {
    if |s| != 10 || s[2] != '.' || s[5] != '.' then None
    else if !(forall i :: 0 <= i < 10 && i != 2 && i != 5 ==> IsDigit(s[i])) then None
    else
      var d := CivilDate(DigitsValue(s[6..10]), DigitsValue(s[0..2]), DigitsValue(s[3..5]));
      if d.Valid() then Some(d) else None
  }

  /** The formatted date reads back as the same date. */
  lemma ParseFormattedDate(d: Date)
    ensures ParseDate(FormatDate(d)) == Some(d)
  {
    var s := FormatDate(d);
    assert s[0..2] == Digits(d.month, 2);
    assert s[3..5] == Digits(d.day, 2);
    assert s[6..10] == Digits(d.year, 4);
    DigitsRoundTrip(d.month, 2);
    DigitsRoundTrip(d.day, 2);
    DigitsRoundTrip(d.year, 4);
  }

  /** Different dates are written differently. */
  lemma FormatDateInjective(a: Date, b: Date)
    requires FormatDate(a) == FormatDate(b)
    ensures a == b
  {
    ParseFormattedDate(a);
    ParseFormattedDate(b);
  }
}
