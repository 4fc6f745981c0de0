/** The proleptic Gregorian calendar the application gets from Python's
    `datetime`: day ordinals (0001-01-01 is day 1, a Monday), weekdays
    counted from Monday = 0, and timestamps as whole seconds on the same
    day scale, so that midnight of ordinal `d` is `d * SecondsPerDay`. */
module Calendar {

  const SecondsPerDay: int := 86400

  /** A civil date, as `datetime.date`. */
  datatype Date = Date(year: int, month: int, day: int)

  predicate IsLeap(year: int) {
    year % 4 == 0 && (year % 100 != 0 || year % 400 == 0)
  }

  function DaysInMonth(year: int, month: int): (n: int)
    requires 1 <= month <= 12
    ensures 28 <= n <= 31
    ensures n == 29 <==> month == 2 && IsLeap(year)
  {
    if month == 2 then (if IsLeap(year) then 29 else 28)
    else if month == 4 || month == 6 || month == 9 || month == 11 then 30
    else 31
  }

  /** The range `datetime.date` accepts. */
  predicate ValidDate(d: Date) {
    && 1 <= d.year <= 9999
    && 1 <= d.month <= 12
    && 1 <= d.day <= DaysInMonth(d.year, d.month)
  }

  /** Days in the years before `year`. */
  function DaysBeforeYear(year: int): (n: int)
    requires year >= 1
    ensures n >= 0
  {
    var y := year - 1;
    y * 365 + y / 4 - y / 100 + y / 400
  }

  /** Days in the months of `year` before `month`. */
  function DaysBeforeMonth(year: int, month: int): (n: int)
    requires 1 <= month <= 13
    ensures n >= 0
  {
    if month == 1 then 0 else DaysBeforeMonth(year, month - 1) + DaysInMonth(year, month - 1)
  }

  /** A year has 365 days, 366 when it is a leap year. */
  lemma YearLength(year: int)
    ensures DaysBeforeMonth(year, 13) == if IsLeap(year) then 366 else 365
  {
    var feb := DaysInMonth(year, 2);
    assert DaysBeforeMonth(year, 2) == 31;
    assert DaysBeforeMonth(year, 3) == 31 + feb;
    assert DaysBeforeMonth(year, 4) == 62 + feb;
    assert DaysBeforeMonth(year, 5) == 92 + feb;
    assert DaysBeforeMonth(year, 6) == 123 + feb;
    assert DaysBeforeMonth(year, 7) == 153 + feb;
    assert DaysBeforeMonth(year, 8) == 184 + feb;
    assert DaysBeforeMonth(year, 9) == 215 + feb;
    assert DaysBeforeMonth(year, 10) == 245 + feb;
    assert DaysBeforeMonth(year, 11) == 276 + feb;
    assert DaysBeforeMonth(year, 12) == 306 + feb;
    assert DaysBeforeMonth(year, 13) == 337 + feb;
  }

  /** Counting multiples of the leap-year divisors: one more of them is
      reached exactly when `y + 1` is one. */
  lemma QuotientStep(y: int, m: int)
    requires y >= 0 && (m == 4 || m == 100 || m == 400)
    ensures (y + 1) / m - y / m == if (y + 1) % m == 0 then 1 else 0
  {
    if m == 4 {
      assert (y + 1) / 4 - y / 4 == if (y + 1) % 4 == 0 then 1 else 0;
    } else if m == 100 {
      assert (y + 1) / 100 - y / 100 == if (y + 1) % 100 == 0 then 1 else 0;
    } else {
      assert (y + 1) / 400 - y / 400 == if (y + 1) % 400 == 0 then 1 else 0;
    }
  }

  /** A multiple of 400 is one of 100, and a multiple of 100 one of 4. */
  lemma DivisorChain(year: int)
    ensures year % 400 == 0 ==> year % 100 == 0
    ensures year % 100 == 0 ==> year % 4 == 0
  {
  }

  /** Each year adds its own length to the days before the next. */
  lemma DaysBeforeNextYear(year: int)
    requires year >= 1
    ensures DaysBeforeYear(year + 1) == DaysBeforeYear(year) + if IsLeap(year) then 366 else 365
  {
    var y := year - 1;
    QuotientStep(y, 4);
    QuotientStep(y, 100);
    QuotientStep(y, 400);
    DivisorChain(year);
    var a, b, c := (y + 1) / 4 - y / 4, (y + 1) / 100 - y / 100, (y + 1) / 400 - y / 400;
    assert DaysBeforeYear(year + 1) == DaysBeforeYear(year) + 365 + a - b + c;
  }

  /** `date.toordinal()`. */
  function Ordinal(d: Date): (n: int)
    requires ValidDate(d)
    ensures n >= 1
  {
    DaysBeforeYear(d.year) + DaysBeforeMonth(d.year, d.month) + d.day
  }

  /** The 1st of a month is the day after the last day of the month
      before it. */
  lemma MonthsAdjoin(year: int, month: int)
    requires 1 <= year <= 9999 && 1 <= month < 12
    ensures Ordinal(Date(year, month + 1, 1)) == Ordinal(Date(year, month, DaysInMonth(year, month))) + 1
  {
  }

  /** New Year's Day is the day after the 31st of December before it. */
  lemma YearsAdjoin(year: int)
    requires 1 <= year < 9999
    ensures Ordinal(Date(year + 1, 1, 1)) == Ordinal(Date(year, 12, 31)) + 1
  {
    DaysBeforeNextYear(year);
    YearLength(year);
  }

  /** `date.weekday()` of the date with ordinal `n`: Monday is 0. */
  function Weekday(n: int): (w: int)
    ensures 0 <= w < 7
  {
    (n + 6) % 7
  }

  /** The timestamp of midnight at the start of day `n`. */
  function Midnight(n: int): (t: int)
    ensures t % SecondsPerDay == 0
    ensures t / SecondsPerDay == n
  {
    n * SecondsPerDay
  }

  /** The day ordinal a timestamp falls on. */
  function DayOf(t: int): (n: int)
    ensures Midnight(n) <= t < Midnight(n) + SecondsPerDay
  {
    t / SecondsPerDay
  }

  /** Dates later in the same month have larger ordinals, one per day. */
  lemma OrdinalWithinMonth(d: Date, e: Date)
    requires ValidDate(d) && ValidDate(e)
    requires d.year == e.year && d.month == e.month
    ensures Ordinal(e) - Ordinal(d) == e.day - d.day
  {
  }

  /** Stepping back `Weekday(n)` days from day `n` lands on a Monday. */
  lemma BackToMonday(n: int)
    ensures Weekday(n - Weekday(n)) == 0
  {
    var q := (n + 6) / 7;
    assert n + 6 == 7 * q + Weekday(n);
    assert n - Weekday(n) + 6 == 7 * q;
  }
}
