/** Budget rules of the budget tab: the start of the current day, week
    and month, the limit in force for each period, the day/week/month
    totals compared against them, and setting a new limit. */
module Budgets {
  import opened Basics
  import opened Calendar
  import opened Repository
  import opened Models

  // ---------------------------------------------------------------------
  // Period anchors
  // ---------------------------------------------------------------------

  /** `start_date(dayss)` with today's date passed in: midnight of this
      week's Monday for 7, midnight of the 1st of this month for 28 to 31,
      midnight today for anything else. */
  function StartDate(days: int, today: Date): (t: int)
    requires ValidDate(today)
    ensures t % SecondsPerDay == 0
    ensures t <= Midnight(Ordinal(today))
    ensures days == 7 ==> && Weekday(DayOf(t)) == 0
                          && Midnight(Ordinal(today)) - t < 7 * SecondsPerDay
    ensures 28 <= days <= 31 ==> t == Midnight(Ordinal(Date(today.year, today.month, 1)))
    ensures days != 7 && !(28 <= days <= 31) ==> t == Midnight(Ordinal(today))
  {
    var n := Ordinal(today);
    if days == 7 then
      BackToMonday(n);
      Midnight(n - Weekday(n))
    else if 28 <= days <= 31 then
      OrdinalWithinMonth(Date(today.year, today.month, 1), today);
      Midnight(n - (today.day - 1))
    else Midnight(n)
  }

  /** The three anchors the totals are measured from. */
  datatype Anchors = Anchors(day: int, week: int, month: int)

  /** The anchors for `today`, as `start_date(1)`, `start_date(7)` and
      `start_date(30)`; the day anchor is never before the other two. */
  function AnchorsFor(today: Date): (a: Anchors)
    requires ValidDate(today)
    ensures a.week <= a.day && a.month <= a.day
    ensures a.day == Midnight(Ordinal(today))
  {
    Anchors(StartDate(1, today), StartDate(7, today), StartDate(30, today))
  }

  // ---------------------------------------------------------------------
  // Window sums
  // ---------------------------------------------------------------------

  /** Total amount of the expenses dated at or after `lo`. */
  function SumSince(rows: seq<Row<Expense>>, lo: int): int {
    if rows == [] then 0
    else (if rows[0].item.expenseDate >= lo then rows[0].item.amount else 0) + SumSince(rows[1..], lo)
  }

  /** Total amount of the expenses dated in `[lo, hi)`. */
  function SumBetween(rows: seq<Row<Expense>>, lo: int, hi: int): int {
    if rows == [] then 0
    else (if lo <= rows[0].item.expenseDate < hi then rows[0].item.amount else 0) + SumBetween(rows[1..], lo, hi)
  }

  predicate NonNegative(rows: seq<Row<Expense>>) {
    forall i :: 0 <= i < |rows| ==> rows[i].item.amount >= 0
  }

  /** Moving the start of a window earlier adds exactly the expenses in
      the stretch uncovered. */
  lemma {:induction false} SplitWindow(rows: seq<Row<Expense>>, lo: int, hi: int)
    requires lo <= hi
    ensures SumSince(rows, lo) == SumSince(rows, hi) + SumBetween(rows, lo, hi)
  {
    if rows != [] {
      SplitWindow(rows[1..], lo, hi);
    }
  }

  /** An empty stretch holds nothing. */
  lemma {:induction false} EmptyWindow(rows: seq<Row<Expense>>, lo: int, hi: int)
    requires hi <= lo
    ensures SumBetween(rows, lo, hi) == 0
  {
    if rows != [] {
      EmptyWindow(rows[1..], lo, hi);
    }
  }

  /** With no refunds, every window sum is non-negative. */
  lemma {:induction false} WindowNonNegative(rows: seq<Row<Expense>>, lo: int, hi: int)
    requires NonNegative(rows)
    ensures SumBetween(rows, lo, hi) >= 0
    ensures SumSince(rows, lo) >= 0
  {
    if rows != [] {
      assert rows[0].item.amount >= 0;
      WindowNonNegative(rows[1..], lo, hi);
    }
  }

  // ---------------------------------------------------------------------
  // Totals
  // ---------------------------------------------------------------------

  /** The accumulation in `ActiveBudgets.set_data`: newest expense first,
      an expense from today adds to all three totals, else one from this
      week to week and month, else one from this month to month. Because
      the branches are nested, the week total is everything since Monday
      and the month total everything since the earlier of Monday and the
      1st: when the week began in the previous month, its days before the
      1st count toward the month. Each total is the one before it plus the
      expenses of the stretch between their anchors. */
  method Totals(exps: Repo<Expense>, today: Date) returns (day: int, week: int, month: int)
    requires ValidDate(today)
    ensures var a := AnchorsFor(today);
            && day == SumSince(exps.rows, a.day)
            && week == SumSince(exps.rows, a.week)
            && month == SumSince(exps.rows, Min(a.week, a.month))
            && week == day + SumBetween(exps.rows, a.week, a.day)
            && month == week + SumBetween(exps.rows, a.month, a.week)
    ensures NonNegative(exps.rows) ==> 0 <= day <= week <= month
  {
    var a := AnchorsFor(today);
    var rows := exps.rows;
    var n := |rows|;
    var got := Reverse(rows);
    day, week, month := 0, 0, 0;
    for i := 0 to n
      invariant day == SumSince(rows[n - i..], a.day)
      invariant week == SumSince(rows[n - i..], a.week)
      invariant month == SumSince(rows[n - i..], Min(a.week, a.month))
    {
      var e := got[i].item;
      assert got[i] == rows[n - 1 - i];
      assert rows[n - 1 - i..][1..] == rows[n - i..];
      if e.expenseDate >= a.day {
        month := month + e.amount;
        day := day + e.amount;
        week := week + e.amount;
      } else if e.expenseDate >= a.week {
        month := month + e.amount;
        week := week + e.amount;
      } else if e.expenseDate >= a.month {
        month := month + e.amount;
      }
    }
    assert rows[n - n..] == rows;
    SplitWindow(rows, a.week, a.day);
    if a.month <= a.week {
      SplitWindow(rows, a.month, a.week);
    } else {
      EmptyWindow(rows, a.month, a.week);
    }
    if NonNegative(rows) {
      WindowNonNegative(rows, a.day, a.day);
      WindowNonNegative(rows, a.week, a.day);
      WindowNonNegative(rows, a.month, a.week);
    }
  }

  // ---------------------------------------------------------------------
  // Limits
  // ---------------------------------------------------------------------

  /** Some stored budget has period `length`. */
  predicate HasLimit(rows: seq<Row<Budget>>, length: int) {
    exists i :: 0 <= i < |rows| && rows[i].item.length == length
  }

  /** Position `k` holds the most recently added budget of `length`. */
  predicate IsNewest(rows: seq<Row<Budget>>, k: int, length: int) {
    && 0 <= k < |rows|
    && rows[k].item.length == length
    && forall j :: k < j < |rows| ==> rows[j].item.length != length
  }

  lemma NewestUnique(rows: seq<Row<Budget>>, k1: int, k2: int, length: int)
    requires IsNewest(rows, k1, length) && IsNewest(rows, k2, length)
    ensures k1 == k2
  {
  }

  /** `get_all({'length': length})[::-1][0].amount`: the amount of the most
      recently added budget of that length. Older budgets stay stored. */
  function CurrentLimit(rows: seq<Row<Budget>>, length: int): (amount: int)
    requires HasLimit(rows, length)
    ensures exists k :: IsNewest(rows, k, length) && amount == rows[k].item.amount
  {
    var p := (b: Budget) => b.length == length;
    var matches := GetAll(rows, p);
    NewestIsLastMatch(rows, p, length);
    Reverse(matches)[0].item.amount
  }

  /** A filter on `length` that something matches: its last match is the
      newest budget of that length. */
  lemma NewestIsLastMatch(rows: seq<Row<Budget>>, p: Budget -> bool, length: int)
    requires forall b :: p(b) == (b.length == length)
    requires HasLimit(rows, length)
    ensures |GetAll(rows, p)| > 0
    ensures exists k :: IsNewest(rows, k, length) && rows[k] == GetAll(rows, p)[|GetAll(rows, p)| - 1]
  {
    var i :| 0 <= i < |rows| && rows[i].item.length == length;
    SomeMatch(rows, p, i);
    var k := LastMatchOf(rows, p);
    assert IsNewest(rows, k, length);
  }

  /** A line of the budget table: amount spent and the limit in force. */
  datatype Line = Line(paid: int, limit: int)

  datatype Report = Report(day: Line, week: Line, month: Line)

  /** `ActiveBudgets.set_data`: the limits of the newest day (1), week (7)
      and month (30) budgets beside the three totals. */
  method BudgetTable(exps: Repo<Expense>, buds: Repo<Budget>, today: Date) returns (report: Report)
    requires ValidDate(today)
    // `set_data` indexes `[0]` into each limit lookup without a guard
    requires HasLimit(buds.rows, 1) && HasLimit(buds.rows, 7) && HasLimit(buds.rows, 30)
    ensures report.day.limit == CurrentLimit(buds.rows, 1)
    ensures report.week.limit == CurrentLimit(buds.rows, 7)
    ensures report.month.limit == CurrentLimit(buds.rows, 30)
    ensures var a := AnchorsFor(today);
            && report.day.paid == SumSince(exps.rows, a.day)
            && report.week.paid == SumSince(exps.rows, a.week)
            && report.month.paid == SumSince(exps.rows, Min(a.week, a.month))
  {
    var limits := [CurrentLimit(buds.rows, 1), CurrentLimit(buds.rows, 7), CurrentLimit(buds.rows, 30)];
    var day, week, month := Totals(exps, today);
    report := Report(Line(day, limits[0]), Line(week, limits[1]), Line(month, limits[2]));
  }

  /** The condition on which the budget tab warns of overspending. */
  predicate OverLimit(report: Report) {
    report.day.paid > report.day.limit
    || report.week.paid > report.week.limit
    || report.month.paid > report.month.limit
  }

  /** The comparison `ActiveBudgets.__init__` makes after the first `set_data`:
      the warning appears exactly when the day total exceeds the newest
      day limit, the week total the newest week limit, or the month total
      the newest month limit. */
  method WarnsOnOpen(exps: Repo<Expense>, buds: Repo<Budget>, today: Date) returns (warn: bool)
    requires ValidDate(today)
    requires HasLimit(buds.rows, 1) && HasLimit(buds.rows, 7) && HasLimit(buds.rows, 30)
    ensures var a := AnchorsFor(today);
            warn <==> || SumSince(exps.rows, a.day) > CurrentLimit(buds.rows, 1)
                      || SumSince(exps.rows, a.week) > CurrentLimit(buds.rows, 7)
                      || SumSince(exps.rows, Min(a.week, a.month)) > CurrentLimit(buds.rows, 30)
  {
    var report := BudgetTable(exps, buds, today);
    warn := OverLimit(report);
  }

  // ---------------------------------------------------------------------
  // Setting a limit
  // ---------------------------------------------------------------------

  /** The period chooser's value as a length in days: "day" is 1, "month"
      is 30, "week" and anything unrecognised is 7. */
  function PeriodLength(period: string): (n: int)
    ensures n == 1 <==> period == "day"
    ensures n == 30 <==> period == "month"
    ensures n == 7 <==> period != "day" && period != "month"
  {
    if period == "day" then 1
    else if period == "month" then 30
    else 7
  }

  /** `BudgetManager.new_budget(period, limit)`: appends one budget of
      `limit` for the chosen period, starting at that period's anchor and
      ending its length in days later. */
  function NewBudget(buds: Repo<Budget>, period: string, limit: int, today: Date): (res: Repo<Budget>)
    requires Valid(buds) && ValidDate(today)
    ensures Valid(res)
    ensures |res.rows| == |buds.rows| + 1
    ensures res.rows[..|buds.rows|] == buds.rows
    ensures !HasPk(buds.rows, res.rows[|buds.rows|].pk)
    ensures var b := res.rows[|buds.rows|].item;
            && b.amount == limit
            && b.category == None
            && b.length == PeriodLength(period)
            && b.startDate == StartDate(PeriodLength(period), today)
            && b.endDate - b.startDate == PeriodLength(period) * SecondsPerDay
  {
    var per := PeriodLength(period);
    var start := StartDate(per, today);
    Add(buds, MakeBudget(limit, None, per, Some(start), None, start)).0
  }

  /** After a new limit is set for a period, that is the limit reported
      for the period. */
  lemma NewBudgetSetsLimit(buds: Repo<Budget>, period: string, limit: int, today: Date)
    requires Valid(buds) && ValidDate(today)
    ensures HasLimit(NewBudget(buds, period, limit, today).rows, PeriodLength(period))
    ensures CurrentLimit(NewBudget(buds, period, limit, today).rows, PeriodLength(period)) == limit
  {
    var res := NewBudget(buds, period, limit, today);
    var n := |buds.rows|;
    assert res.rows[n].item.length == PeriodLength(period);
  }

  /** Setting a limit for one period leaves the others' limits alone. */
  lemma NewBudgetKeepsOtherLimits(buds: Repo<Budget>, period: string, limit: int, today: Date, length: int)
    requires Valid(buds) && ValidDate(today)
    requires HasLimit(buds.rows, length)
    requires length != PeriodLength(period)
    ensures HasLimit(NewBudget(buds, period, limit, today).rows, length)
    ensures CurrentLimit(NewBudget(buds, period, limit, today).rows, length) == CurrentLimit(buds.rows, length)
  {
    var res := NewBudget(buds, period, limit, today);
    forall j | 0 <= j < |buds.rows| ensures res.rows[j] == buds.rows[j] {
      assert res.rows[..|buds.rows|][j] == res.rows[j];
    }
    LimitAfterAppend(buds.rows, res.rows, length);
  }

  /** A budget of another length appended after the stored ones leaves
      the limit of `length` as it was. */
  lemma LimitAfterAppend(rows: seq<Row<Budget>>, longer: seq<Row<Budget>>, length: int)
    requires HasLimit(rows, length)
    requires |longer| == |rows| + 1
    requires forall j :: 0 <= j < |rows| ==> longer[j] == rows[j]
    requires longer[|rows|].item.length != length
    ensures HasLimit(longer, length)
    ensures CurrentLimit(longer, length) == CurrentLimit(rows, length)
  {
    var i :| 0 <= i < |rows| && rows[i].item.length == length;
    assert longer[i] == rows[i];
    var a := CurrentLimit(longer, length);
    var a0 := CurrentLimit(rows, length);
    var k :| IsNewest(longer, k, length) && a == longer[k].item.amount;
    var k0 :| IsNewest(rows, k0, length) && a0 == rows[k0].item.amount;
    NewestAfterAppend(rows, longer, k, length);
    NewestUnique(rows, k, k0, length);
  }

  /** Appending a budget of another length does not change which stored
      budget is the newest of `length`. */
  lemma NewestAfterAppend(rows: seq<Row<Budget>>, longer: seq<Row<Budget>>, k: int, length: int)
    requires |longer| == |rows| + 1
    requires forall j :: 0 <= j < |rows| ==> longer[j] == rows[j]
    requires longer[|rows|].item.length != length
    requires IsNewest(longer, k, length)
    ensures IsNewest(rows, k, length) && longer[k] == rows[k]
  {
  }

  /** A week that began in the previous month: on Wednesday 1 March 2023
      the week anchor is Monday 27 February, so an expense at noon that
      Monday, before the 1st, is counted in the month total. */
  lemma WeekStraddlesMonth()
    ensures var a := AnchorsFor(Date(2023, 3, 1));
            var noon := a.week + SecondsPerDay / 2;
            var rows := [Row(1, Expense(10, Some(1), noon, noon, ""))];
            && noon < a.month
            && SumSince(rows, Min(a.week, a.month)) == 10
            && SumSince(rows, a.month) == 0
  {
    var today := Date(2023, 3, 1);
    assert DaysBeforeMonth(2023, 3) == 59;
    assert Ordinal(today) == 738580;
    assert Weekday(738580) == 2;
  }
}
