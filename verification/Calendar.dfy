/**
 The proleptic Gregorian calendar the date rewrites rest on.

 An instant is a number of microseconds since 0000-01-01 00:00, a Saturday. The module
 holds two independent accounts of a truncation: `DateTrunc`, PostgreSQL's DATE_TRUNC, with
 its characterisation as the greatest period boundary at or before an instant, and
 `TruncateTime`, which follows the rewriter and works field by field through Go's
 `time.Date` and `AddDate`.
 */
module Calendar {

  type Instant = int

  const SECOND: int := 1_000_000
  const MINUTE: int := 60_000_000
  const HOUR: int := 3_600_000_000
  const DAY: int := 86_400_000_000

  /** The eight units the rewriter knows, and one valid PostgreSQL unit it does not. */
  datatype Unit = Year | Quarter | Month | Week | Day | Hour | Minute | Second | Decade

  predicate Supported(u: Unit) {
    u != Decade
  }

  predicate DayOrCoarser(u: Unit) {
    u.Year? || u.Quarter? || u.Month? || u.Week? || u.Day? || u.Decade?
  }

  // ---- Days and months ----

  predicate IsLeap(y: int) {
    y % 4 == 0 && (y % 100 != 0 || y % 400 == 0)
  }

  /** Days from 0000-01-01 to the first of January of year y. */
  function DaysBeforeYear(y: int): int {
    365 * y + (y + 3) / 4 - (y + 99) / 100 + (y + 399) / 400
  }

  function DaysBeforeMonth(leap: bool, m: int): int
    requires 0 <= m < 12
  {
    [0, 31, 59, 90, 120, 151, 181, 212, 243, 273, 304, 334][m] + if leap && m >= 2 then 1 else 0
  }

  /** The first day of month number k, counting months from January of year 0. */
  function MonthStart(k: int): int {
    DaysBeforeYear(k / 12) + DaysBeforeMonth(IsLeap(k / 12), k % 12)
  }

  lemma YearLength(y: int)
    ensures DaysBeforeYear(y + 1) - DaysBeforeYear(y) == if IsLeap(y) then 366 else 365
  {
    assert (y + 4) / 4 - (y + 3) / 4 == if y % 4 == 0 then 1 else 0;
    assert (y + 100) / 100 - (y + 99) / 100 == if y % 100 == 0 then 1 else 0;
    assert (y + 400) / 400 - (y + 399) / 400 == if y % 400 == 0 then 1 else 0;
  }

  lemma MonthLength(k: int)
    ensures 28 <= MonthStart(k + 1) - MonthStart(k) <= 31
  {
    YearLength(k / 12);
    if k % 12 == 11 {
      assert (k + 1) / 12 == k / 12 + 1 && (k + 1) % 12 == 0;
    } else {
      assert (k + 1) / 12 == k / 12 && (k + 1) % 12 == k % 12 + 1;
    }
  }

  /** The length of month k by its number, and by the Gregorian rule for February. */
  lemma MonthLengthByNumber(k: int)
    ensures var m, y, days := k % 12 + 1, k / 12, MonthStart(k + 1) - MonthStart(k);
            && (m in {1, 3, 5, 7, 8, 10, 12} ==> days == 31)
            && (m in {4, 6, 9, 11} ==> days == 30)
            && (m == 2 && y % 4 == 0 && (y % 100 != 0 || y % 400 == 0) ==> days == 29)
            && (m == 2 && (y % 4 != 0 || (y % 100 == 0 && y % 400 != 0)) ==> days == 28)
  {
    YearLength(k / 12);
    if k % 12 == 11 {
      assert (k + 1) / 12 == k / 12 + 1 && (k + 1) % 12 == 0;
    } else {
      assert (k + 1) / 12 == k / 12 && (k + 1) % 12 == k % 12 + 1;
    }
  }

  /** Every year has 365 days, or 366 by the Gregorian rule. */
  lemma YearLengthByRule(y: int)
    ensures MonthStart(12 * (y + 1)) - MonthStart(12 * y)
         == if y % 4 == 0 && (y % 100 != 0 || y % 400 == 0) then 366 else 365
  {
    YearLength(y);
    assert 12 * y / 12 == y && 12 * (y + 1) / 12 == y + 1;
  }

  lemma {:induction false} MonthStartMonotone(j: int, k: int)
    requires j <= k
    ensures MonthStart(j) + 28 * (k - j) <= MonthStart(k)
    decreases k - j
  {
    if j < k {
      MonthLength(j);
      MonthStartMonotone(j + 1, k);
    }
  }

  /** Searches from month k for the month that holds day d. */
  function MonthFrom(d: int, k: int): (r: int)
    ensures MonthStart(r) <= d < MonthStart(r + 1)
    decreases if d < MonthStart(k) then MonthStart(k) - d else d - MonthStart(k)
  {
    hide MonthStart;
    MonthLength(k);
    MonthLength(k - 1);
    if d < MonthStart(k) then
      if MonthStart(k - 1) <= d then k - 1 else MonthFrom(d, k - 1)
    else if d < MonthStart(k + 1) then k
    else MonthFrom(d, k + 1)
  }

  /** The month that holds day d. */
  function MonthOf(d: int): (r: int)
    ensures MonthStart(r) <= d < MonthStart(r + 1)
  {
    MonthFrom(d, 0)
  }

  lemma MonthOfUnique(d: int, k: int)
    requires MonthStart(k) <= d < MonthStart(k + 1)
    ensures MonthOf(d) == k
  {
    hide MonthStart, MonthOf;
    var r := MonthOf(d);
    if r < k { MonthStartMonotone(r + 1, k); }
    if k < r { MonthStartMonotone(k + 1, r); }
  }

  lemma MonthOfStart(k: int)
    ensures MonthOf(MonthStart(k)) == k
  {
    hide MonthStart, MonthOf;
    MonthLength(k);
    MonthOfUnique(MonthStart(k), k);
  }

  // ---- Fields of an instant and Go's constructors ----

  function DayOf(t: Instant): int { t / DAY }

  function YearField(t: Instant): int { MonthOf(DayOf(t)) / 12 }

  function MonthField(t: Instant): int { MonthOf(DayOf(t)) % 12 + 1 }

  function DayField(t: Instant): int { DayOf(t) - MonthStart(MonthOf(DayOf(t))) + 1 }

  /** Sunday is 0, as in Go. */
  function Weekday(d: int): int { (d + 6) % 7 }

  /** `time.Date(y, m, d, 0, 0, 0, 0, UTC)`: month and day overflow carry over. */
  function GoDate(y: int, m: int, d: int): Instant {
    (MonthStart(12 * y + (m - 1)) + d - 1) * DAY
  }

  /** `t.AddDate(dy, dm, dd)`: the day of the month is kept and overflow carries over. */
  function AddDate(t: Instant, dy: int, dm: int, dd: int): Instant {
    GoDate(YearField(t) + dy, MonthField(t) + dm, DayField(t) + dd) + t % DAY
  }

  /** PostgreSQL's `t + INTERVAL 'k months'`: the day of the month is clamped, never carried. */
  function PgAddMonths(t: Instant, k: int): Instant {
    var m := MonthOf(DayOf(t)) + k;
    var length := MonthStart(m + 1) - MonthStart(m);
    var day := if DayField(t) <= length then DayField(t) else length;
    (MonthStart(m) + day - 1) * DAY + t % DAY
  }

  /** Two known days: 1 January of year 0 is day 0, and 1 January 2024, a Monday, is day 739251. */
  lemma DaysAnchored()
    ensures MonthStart(0) == 0 && MonthStart(24288) == 739251 && Weekday(739251) == 1
  {
    hide MonthStart, MonthOf;
    JanuaryFirst(0);
    JanuaryFirst(2024);
  }

  lemma JanuaryFirst(y: int)
    ensures MonthStart(12 * y) == 365 * y + (y + 3) / 4 - (y + 99) / 100 + (y + 399) / 400
  {
    assert 12 * y / 12 == y && 12 * y % 12 == 0;
  }

  /** Weekdays follow one another, seven in a row. */
  lemma WeekdaysFollow(d: int)
    ensures 0 <= Weekday(d) <= 6 && Weekday(d + 1) == if Weekday(d) == 6 then 0 else Weekday(d) + 1
  {
  }

  /** The fields of a date are those it is made of, for every day its month has. */
  lemma DateFields(y: int, m: int, d: int)
    requires 1 <= m <= 12
    requires 1 <= d <= if m == 2 then if y % 4 == 0 && (y % 100 != 0 || y % 400 == 0) then 29 else 28
                       else if m in {4, 6, 9, 11} then 30 else 31
    ensures var t := GoDate(y, m, d); YearField(t) == y && MonthField(t) == m && DayField(t) == d && t % DAY == 0
  {
    hide MonthStart, MonthOf;
    var k := 12 * y + (m - 1);
    assert k / 12 == y && k % 12 == m - 1;
    MonthLengthByNumber(k);
    MonthOfUnique(MonthStart(k) + d - 1, k);
    ModUnique((MonthStart(k) + d - 1) * DAY, MonthStart(k) + d - 1, 0, DAY);
  }

  /** PostgreSQL's months clamp: the day of the month, or the last one of a month that is too short. */
  lemma PgMonthsClamp(t: Instant, k: int)
    ensures var r, month := PgAddMonths(t, k), MonthOf(DayOf(t)) + k;
            var last := MonthStart(month + 1) - MonthStart(month);
            && MonthOf(DayOf(r)) == month && r % DAY == t % DAY
            && DayField(r) == if DayField(t) > last then last else DayField(t)
  {
    hide MonthStart, MonthOf;
    var month := MonthOf(DayOf(t)) + k;
    var last := MonthStart(month + 1) - MonthStart(month);
    MonthLength(month);
    var d := MonthStart(month) + (if DayField(t) > last then last else DayField(t)) - 1;
    ModUnique(PgAddMonths(t, k), d, t % DAY, DAY);
    MonthOfUnique(d, month);
  }

  /** Go's months overflow: what the next month is short of goes over into the month after it. */
  lemma GoMonthsOverflow(t: Instant)
    ensures var r, next := AddDate(t, 0, 1, 0), MonthOf(DayOf(t)) + 1;
            var last := MonthStart(next + 1) - MonthStart(next);
            && r % DAY == t % DAY
            && MonthOf(DayOf(r)) == (if DayField(t) > last then next + 1 else next)
            && DayField(r) == if DayField(t) > last then DayField(t) - last else DayField(t)
  {
    hide MonthStart, MonthOf;
    var k := MonthOf(DayOf(t));
    MonthLength(k);
    MonthLength(k + 1);
    MonthLength(k + 2);
    assert 12 * (k / 12) + k % 12 == k;
    var d := MonthStart(k + 1) + DayField(t) - 1;
    assert AddDate(t, 0, 1, 0) == d * DAY + t % DAY;
    ModUnique(AddDate(t, 0, 1, 0), d, t % DAY, DAY);
    MonthOfUnique(d, if d < MonthStart(k + 2) then k + 1 else k + 2);
  }

  // ---- DATE_TRUNC ----

  /** Months in one period of a calendar unit; 0 for units of a fixed length. */
  function PeriodMonths(u: Unit): nat {
    match u
    case Month => 1
    case Quarter => 3
    case Year => 12
    case Decade => 120
    case _ => 0
  }

  /** Length of one period of a fixed-length unit. */
  function PeriodLength(u: Unit): (n: int)
    ensures n > 0
  {
    match u
    case Week => 7 * DAY
    case Hour => HOUR
    case Minute => MINUTE
    case Second => SECOND
    case _ => DAY
  }

  /** Weeks start on Mondays, and day 2 is the first Monday. */
  function PeriodOrigin(u: Unit): int {
    if u.Week? then 2 * DAY else 0
  }

  /** t starts a period of unit u. */
  predicate IsBoundary(u: Unit, t: Instant) {
    var p := PeriodMonths(u);
    if p > 0 then
      t % DAY == 0 && MonthStart(MonthOf(t / DAY)) == t / DAY && MonthOf(t / DAY) % p == 0
    else
      (t - PeriodOrigin(u)) % PeriodLength(u) == 0
  }

  /** What a period start of each unit is, by the fields of the instant and in microseconds. */
  lemma PeriodStartsByFields(t: Instant)
    ensures IsBoundary(Year, t) <==> t % 86_400_000_000 == 0 && MonthField(t) == 1 && DayField(t) == 1
    ensures IsBoundary(Decade, t) <==>
            t % 86_400_000_000 == 0 && YearField(t) % 10 == 0 && MonthField(t) == 1 && DayField(t) == 1
    ensures IsBoundary(Quarter, t) <==> t % 86_400_000_000 == 0 && MonthField(t) in {1, 4, 7, 10} && DayField(t) == 1
    ensures IsBoundary(Month, t) <==> t % 86_400_000_000 == 0 && DayField(t) == 1
    ensures IsBoundary(Week, t) <==> t % 86_400_000_000 == 0 && Weekday(DayOf(t)) == 1
    ensures IsBoundary(Day, t) <==> t % 86_400_000_000 == 0
    ensures IsBoundary(Hour, t) <==> t % 3_600_000_000 == 0
    ensures IsBoundary(Minute, t) <==> t % 60_000_000 == 0
    ensures IsBoundary(Second, t) <==> t % 1_000_000 == 0
  {
    hide MonthStart, MonthOf, Weekday, DayField;
    MonthPeriods(MonthOf(t / DAY));
    FirstOfItsMonth(t);
    WeekStartFields(t);
    FixedUnits(t);
  }

  lemma FirstOfItsMonth(t: Instant)
    ensures MonthStart(MonthOf(t / DAY)) == t / DAY <==> DayField(t) == 1
  {
    hide MonthStart, MonthOf;
  }

  /** A month that starts a quarter, a year or a decade, by its number and its year. */
  lemma MonthPeriods(k: int)
    ensures k % 3 == 0 <==> k % 12 + 1 in {1, 4, 7, 10}
    ensures k % 12 == 0 <==> k % 12 + 1 == 1
    ensures k % 120 == 0 <==> k / 12 % 10 == 0 && k % 12 + 1 == 1
    ensures k % 1 == 0
  {
    var y, m := k / 12, k % 12;
    ModUnique(k, 4 * y + m / 3, m % 3, 3);
    ModUnique(k, y / 10, 12 * (y % 10) + m, 120);
  }

  lemma FixedUnits(t: Instant)
    ensures IsBoundary(Day, t) <==> t % 86_400_000_000 == 0
    ensures IsBoundary(Hour, t) <==> t % 3_600_000_000 == 0
    ensures IsBoundary(Minute, t) <==> t % 60_000_000 == 0
    ensures IsBoundary(Second, t) <==> t % 1_000_000 == 0
    ensures IsBoundary(Week, t) <==> (t - 2 * DAY) % (7 * DAY) == 0
  {
    hide MonthStart, MonthOf;
  }

  lemma WeekStartFields(t: Instant)
    ensures (t - 2 * DAY) % (7 * DAY) == 0 <==> t % DAY == 0 && Weekday(t / DAY) == 1
  {
    var d := t / DAY;
    ModUnique(t - 2 * DAY, (d - 2) / 7, (d - 2) % 7 * DAY + t % DAY, 7 * DAY);
  }

  /** PostgreSQL's DATE_TRUNC. */
  function DateTrunc(u: Unit, t: Instant): Instant {
    var p := PeriodMonths(u);
    if p > 0 then MonthStart(MonthOf(t / DAY) / p * p) * DAY
    else t - (t - PeriodOrigin(u)) % PeriodLength(u)
  }

  /** The boundary after boundary b. */
  function NextBoundary(u: Unit, b: Instant): Instant {
    var p := PeriodMonths(u);
    if p > 0 then MonthStart(MonthOf(b / DAY) + p) * DAY else b + PeriodLength(u)
  }

  lemma MultipleBelow(k: int, u: Unit)
    requires PeriodMonths(u) > 0
    ensures var p := PeriodMonths(u); k / p * p <= k < k / p * p + p && (k / p * p) % p == 0
  {
    match u {
      case Month =>
      case Quarter =>
      case Year =>
      case Decade =>
    }
  }

  lemma MulSign(i: int, p: int)
    requires p > 0
    ensures i >= 1 ==> i * p >= p
    ensures i <= -1 ==> i * p <= -p
  {
  }

  /** Quotient and remainder are unique. */
  lemma ModUnique(x: int, q: int, r: int, p: int)
    requires p > 0 && 0 <= r < p && x == q * p + r
    ensures x / p == q && x % p == r
  {
    var z := x / p;
    assert (q - z) * p == x % p - r;
    MulSign(q - z, p);
  }

  lemma FixedLengthBelow(t: Instant, u: Unit)
    requires PeriodMonths(u) == 0
    ensures IsBoundary(u, DateTrunc(u, t))
    ensures DateTrunc(u, t) <= t < DateTrunc(u, t) + PeriodLength(u)
  {
    var n := PeriodLength(u);
    var x := t - PeriodOrigin(u);
    ModUnique(x - x % n, x / n, 0, n);
  }

  lemma MultiplesApart(a: int, b: int, p: int)
    requires p > 0 && a % p == 0 && b % p == 0 && a < b
    ensures a + p <= b
  {
    var i, j := a / p, b / p;
    assert (j - i) * p == b - a;
    MulSign(j - i, p);
  }

  /** DATE_TRUNC gives the greatest boundary at or before t, and t lies before the next one. */
  lemma DateTruncSandwich(u: Unit, t: Instant)
    ensures IsBoundary(u, DateTrunc(u, t))
    ensures DateTrunc(u, t) <= t < NextBoundary(u, DateTrunc(u, t))
  {
    hide MonthStart, MonthOf;
    var p := PeriodMonths(u);
    if p > 0 {
      var d := t / DAY;
      var k := MonthOf(d);
      var k0 := k / p * p;
      MultipleBelow(k, u);
      MonthStartMonotone(k0, k);
      MonthStartMonotone(k + 1, k0 + p);
      MonthOfStart(k0);
      var b := DateTrunc(u, t);
      assert b / DAY == MonthStart(k0) && b % DAY == 0;
    } else {
      FixedLengthBelow(t, u);
    }
  }

  /** Boundaries are at least a period apart. */
  lemma NextBoundaryIsNext(u: Unit, a: Instant, b: Instant)
    requires IsBoundary(u, a) && IsBoundary(u, b) && a < b
    ensures NextBoundary(u, a) <= b
  {
    hide MonthStart, MonthOf;
    var p := PeriodMonths(u);
    if p > 0 {
      var j, k := MonthOf(a / DAY), MonthOf(b / DAY);
      assert MonthStart(j) < MonthStart(k);
      if k <= j { MonthStartMonotone(k, j); }
      MultiplesApart(j, k, p);
      MonthStartMonotone(j + p, k);
    } else {
      MultiplesApart(a - PeriodOrigin(u), b - PeriodOrigin(u), PeriodLength(u));
    }
  }

  /** The characterisation of DATE_TRUNC: it is the one greatest boundary at or before t. */
  lemma DateTruncGreatest(u: Unit, t: Instant, b: Instant)
    requires IsBoundary(u, b)
    ensures b <= t <==> b <= DateTrunc(u, t)
    ensures b <= t < NextBoundary(u, b) ==> b == DateTrunc(u, t)
  {
    hide DateTrunc, IsBoundary, NextBoundary;
    DateTruncSandwich(u, t);
    var r := DateTrunc(u, t);
    if r < b { NextBoundaryIsNext(u, r, b); }
    if b < r { NextBoundaryIsNext(u, b, r); }
  }

  lemma DateTruncMonotone(u: Unit, s: Instant, t: Instant)
    requires s <= t
    ensures DateTrunc(u, s) <= DateTrunc(u, t)
  {
    hide DateTrunc, IsBoundary, NextBoundary;
    DateTruncSandwich(u, s);
    DateTruncGreatest(u, t, DateTrunc(u, s));
  }

  lemma DateTruncFixpoint(u: Unit, t: Instant)
    ensures DateTrunc(u, t) == t <==> IsBoundary(u, t)
    ensures DateTrunc(u, DateTrunc(u, t)) == DateTrunc(u, t)
  {
    hide DateTrunc, IsBoundary, NextBoundary;
    DateTruncSandwich(u, t);
    DateTruncSandwich(u, DateTrunc(u, t));
    DateTruncGreatest(u, DateTrunc(u, t), DateTrunc(u, t));
    if IsBoundary(u, t) { DateTruncGreatest(u, t, t); }
  }

  // ---- The rewriter's truncation and range end ----

  /** rewriter.go, truncateTime: units outside the eight leave the instant as it is. */
  function TruncateTime(t: Instant, u: Unit): Instant {
    match u
    case Year => GoDate(YearField(t), 1, 1)
    case Quarter => GoDate(YearField(t), (MonthField(t) - 1) / 3 * 3 + 1, 1)
    case Month => GoDate(YearField(t), MonthField(t), 1)
    case Week =>
      var weekday := if Weekday(DayOf(t)) == 0 then 7 else Weekday(DayOf(t));
      var day := AddDate(t, 0, 0, -(weekday - 1));
      GoDate(YearField(day), MonthField(day), DayField(day))
    case Day => GoDate(YearField(t), MonthField(t), DayField(t))
    case Hour => GoDate(YearField(t), MonthField(t), DayField(t)) + t % DAY / HOUR * HOUR
    case Minute => GoDate(YearField(t), MonthField(t), DayField(t)) + t % DAY / MINUTE * MINUTE
    case Second => GoDate(YearField(t), MonthField(t), DayField(t)) + t % DAY / SECOND * SECOND
    case Decade => t
  }

  datatype RangeEndResult = RangeEnd(end: Instant) | NoRangeEnd

  /** rewriter.go, rangeEnd. */
  function RangeEndOf(start: Instant, u: Unit): RangeEndResult {
    match u
    case Year => RangeEnd(AddDate(start, 1, 0, 0))
    case Quarter => RangeEnd(AddDate(start, 0, 3, 0))
    case Month => RangeEnd(AddDate(start, 0, 1, 0))
    case Week => RangeEnd(AddDate(start, 0, 0, 7))
    case Day => RangeEnd(AddDate(start, 0, 0, 1))
    case Hour => RangeEnd(start + HOUR)
    case Minute => RangeEnd(start + MINUTE)
    case Second => RangeEnd(start + SECOND)
    case Decade => NoRangeEnd
  }

  lemma FieldsRebuildDay(t: Instant)
    ensures GoDate(YearField(t), MonthField(t), DayField(t)) == t / DAY * DAY
  {
    hide MonthStart, MonthOf;
    var k := MonthOf(t / DAY);
    assert 12 * (k / 12) + k % 12 == k;
  }

  lemma AddDays(t: Instant, n: int)
    ensures AddDate(t, 0, 0, n) == t + n * DAY
  {
    hide MonthStart, MonthOf;
    var k := MonthOf(t / DAY);
    assert 12 * (k / 12) + k % 12 == k;
    assert AddDate(t, 0, 0, n) == (t / DAY + n) * DAY + t % DAY;
  }

  /** Truncating through Go's calendar fields is DATE_TRUNC for every supported unit. */
  lemma TruncateTimeIsDateTrunc(t: Instant, u: Unit)
    requires Supported(u)
    ensures TruncateTime(t, u) == DateTrunc(u, t)
  {
    hide MonthStart, MonthOf;
    match u {
      case Year => MonthsTruncation(t, u);
      case Quarter => MonthsTruncation(t, u);
      case Month => MonthsTruncation(t, u);
      case Week => WeekTruncation(t);
      case Day => FieldsRebuildDay(t);
      case Hour => FieldsRebuildDay(t); SubDayTruncation(t);
      case Minute => FieldsRebuildDay(t); SubDayTruncation(t);
      case Second => FieldsRebuildDay(t); SubDayTruncation(t);
    }
  }

  lemma MonthsTruncation(t: Instant, u: Unit)
    requires u.Year? || u.Quarter? || u.Month?
    ensures TruncateTime(t, u) == DateTrunc(u, t)
  {
    hide MonthStart, MonthOf;
    var k := MonthOf(t / DAY);
    match u {
      case Year => assert 12 * (k / 12) == k / 12 * 12;
      case Quarter => assert 12 * (k / 12) + k % 12 / 3 * 3 == k / 3 * 3;
      case Month => assert 12 * (k / 12) + k % 12 == k;
    }
  }

  lemma WeekTruncation(t: Instant)
    ensures TruncateTime(t, Week) == DateTrunc(Week, t)
  {
    hide MonthStart, MonthOf;
    var d := t / DAY;
    var weekday := if Weekday(d) == 0 then 7 else Weekday(d);
    assert weekday - 1 == (d - 2) % 7;
    var day := AddDate(t, 0, 0, -(weekday - 1));
    AddDays(t, -(weekday - 1));
    assert day == (d - (d - 2) % 7) * DAY + t % DAY;
    ModUnique(day, d - (d - 2) % 7, t % DAY, DAY);
    FieldsRebuildDay(day);
    ModUnique(t - 2 * DAY, (d - 2) / 7, (d - 2) % 7 * DAY + t % DAY, 7 * DAY);
  }

  lemma SubDayTruncation(t: Instant)
    ensures t / DAY * DAY + t % DAY / HOUR * HOUR == t - t % HOUR
    ensures t / DAY * DAY + t % DAY / MINUTE * MINUTE == t - t % MINUTE
    ensures t / DAY * DAY + t % DAY / SECOND * SECOND == t - t % SECOND
  {
    var d, r := t / DAY, t % DAY;
    ModUnique(t, d * 24 + r / HOUR, r % HOUR, HOUR);
    ModUnique(t, d * 1440 + r / MINUTE, r % MINUTE, MINUTE);
    ModUnique(t, d * 86400 + r / SECOND, r % SECOND, SECOND);
  }

  /** From a period start no AddDate overflows: the range end is the next boundary. */
  lemma RangeEndIsNextBoundary(b: Instant, u: Unit)
    requires Supported(u) && IsBoundary(u, b)
    ensures RangeEndOf(b, u) == RangeEnd(NextBoundary(u, b))
  {
    hide MonthStart, MonthOf;
    var k := MonthOf(b / DAY);
    assert 12 * (k / 12) + k % 12 == k;
    match u {
      case Year => assert DayField(b) == 1; assert 12 * (k / 12 + 1) + k % 12 == k + 12;
      case Quarter => assert DayField(b) == 1;
      case Month => assert DayField(b) == 1;
      case Week => AddDays(b, 7);
      case Day => AddDays(b, 1);
      case Hour =>
      case Minute =>
      case Second =>
    }
  }

  /** A boundary of a unit of a day or more is a midnight, and of any supported unit a whole second. */
  lemma BoundaryAlignment(u: Unit, b: Instant)
    requires IsBoundary(u, b)
    ensures DayOrCoarser(u) ==> b % DAY == 0
    ensures b % SECOND == 0
  {
    hide MonthStart, MonthOf;
    match u {
      case Week => WeekStartIsMidnight(b); DayIsWholeSeconds(b);
      case Hour => ModUnique(b, b / HOUR * 3600, 0, SECOND);
      case Minute => ModUnique(b, b / MINUTE * 60, 0, SECOND);
      case Second =>
      case _ => DayIsWholeSeconds(b);
    }
  }

  lemma DayIsWholeSeconds(b: Instant)
    requires b % DAY == 0
    ensures b % SECOND == 0
  {
    ModUnique(b, b / DAY * 86400, 0, SECOND);
  }

  lemma WeekStartIsMidnight(b: Instant)
    requires (b - 2 * DAY) % (7 * DAY) == 0
    ensures b % DAY == 0
  {
    var w := (b - 2 * DAY) / (7 * DAY);
    ModUnique(b, 7 * w + 2, 0, DAY);
  }
}
