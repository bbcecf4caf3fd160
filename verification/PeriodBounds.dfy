/**
 The bounds that replace a truncated column in inequalities and BETWEEN, and why they are
 right: truncation and these bounds form an adjunction.
 */
module PeriodBounds {
  import opened Calendar

  /** rewriter_sargable.go, periodStartAtOrAfter. */
  function PeriodStartAtOrAfter(u: Unit, bound: Instant): Instant {
    var t := TruncateTime(bound, u);
    if t >= bound then t
    else
      match RangeEndOf(t, u)
      case RangeEnd(end) => end
      case NoRangeEnd => bound
  }

  /** rewriter_sargable.go, periodStartAfter. */
  function PeriodStartAfter(u: Unit, bound: Instant): Instant {
    match RangeEndOf(TruncateTime(bound, u), u)
    case RangeEnd(end) => end
    case NoRangeEnd => AddDate(bound, 0, 0, 1)
  }

  /** rewriter_sargable.go, periodEndExclusiveForTruncUpper. */
  function PeriodEndForUpper(u: Unit, bound: Instant): Instant {
    match RangeEndOf(TruncateTime(bound, u), u)
    case RangeEnd(end) => end
    case NoRangeEnd => AddDate(bound, 0, 0, 1)
  }

  /** rewriter_sargable.go, periodEndExclusiveForTruncLess. */
  function PeriodEndForLess(u: Unit, bound: Instant): Instant {
    var t := TruncateTime(bound, u);
    if t == bound then t
    else
      match RangeEndOf(t, u)
      case RangeEnd(end) => end
      case NoRangeEnd => bound
  }

  // ---- Truncation and period starts, for any unit ----

  /** The first period start at or after an instant. */
  function StartAtOrAfter(u: Unit, b: Instant): Instant {
    if IsBoundary(u, b) then b else NextBoundary(u, DateTrunc(u, b))
  }

  /** The first period start after an instant. */
  function StartAfter(u: Unit, b: Instant): Instant {
    NextBoundary(u, DateTrunc(u, b))
  }

  /** Comparing a truncated instant is comparing the instant with the next period start. */
  lemma TruncAdjunction(u: Unit, b: Instant, t: Instant)
    ensures DateTrunc(u, t) >= b <==> t >= StartAtOrAfter(u, b)
    ensures DateTrunc(u, t) > b <==> t >= StartAfter(u, b)
  {
    hide DateTrunc, IsBoundary, NextBoundary;
    DateTruncSandwich(u, t);
    DateTruncSandwich(u, b);
    var r, s := DateTrunc(u, t), DateTrunc(u, b);
    NextBoundaryIsBoundary(u, s);
    DateTruncGreatest(u, t, NextBoundary(u, s));
    DateTruncGreatest(u, t, s);
    if s < r { NextBoundaryIsNext(u, s, r); }
    DateTruncFixpoint(u, b);
    if IsBoundary(u, b) { DateTruncGreatest(u, t, b); }
  }

  /** What the Go helpers compute for the eight units. */
  lemma BoundsInTermsOfDateTrunc(u: Unit, b: Instant)
    requires Supported(u)
    ensures PeriodStartAfter(u, b) == PeriodEndForUpper(u, b) == StartAfter(u, b)
    ensures PeriodStartAtOrAfter(u, b) == PeriodEndForLess(u, b) == StartAtOrAfter(u, b)
  {
    hide DateTrunc, IsBoundary, NextBoundary, TruncateTime, RangeEndOf;
    TruncateTimeIsDateTrunc(b, u);
    DateTruncSandwich(u, b);
    DateTruncFixpoint(u, b);
    RangeEndIsNextBoundary(DateTrunc(u, b), u);
  }

  /**
   The calendar adjunction: comparing a truncated instant with any bound, aligned or not, is
   comparing the instant itself with the bound the rewriter computes.
   */
  lemma CalendarAdjunction(u: Unit, b: Instant, t: Instant)
    requires Supported(u)
    ensures DateTrunc(u, t) >= b <==> t >= PeriodStartAtOrAfter(u, b)
    ensures DateTrunc(u, t) > b <==> t >= PeriodStartAfter(u, b)
    ensures DateTrunc(u, t) <= b <==> t < PeriodEndForUpper(u, b)
    ensures DateTrunc(u, t) < b <==> t < PeriodEndForLess(u, b)
  {
    hide DateTrunc, StartAtOrAfter, StartAfter, PeriodStartAtOrAfter, PeriodStartAfter, PeriodEndForUpper,
         PeriodEndForLess;
    BoundsInTermsOfDateTrunc(u, b);
    TruncAdjunction(u, b, t);
  }

  lemma NextBoundaryIsBoundary(u: Unit, b: Instant)
    requires IsBoundary(u, b)
    ensures IsBoundary(u, NextBoundary(u, b)) && b < NextBoundary(u, b)
  {
    hide MonthStart, MonthOf;
    var p := PeriodMonths(u);
    if p > 0 {
      var k := MonthOf(b / DAY);
      MonthStartMonotone(k, k + p);
      MonthOfStart(k + p);
      ModUnique(k + p, k / p + 1, 0, p);
      ModUnique(MonthStart(k + p) * DAY, MonthStart(k + p), 0, DAY);
    } else {
      var n := PeriodLength(u);
      var x := b - PeriodOrigin(u);
      ModUnique(x + n, x / n + 1, 0, n);
    }
  }

  /** The bounds of a supported unit start periods: midnights for coarse units, whole seconds for all. */
  lemma BoundsAligned(u: Unit, b: Instant)
    requires Supported(u)
    ensures IsBoundary(u, PeriodStartAtOrAfter(u, b)) && IsBoundary(u, PeriodStartAfter(u, b))
    ensures IsBoundary(u, PeriodEndForUpper(u, b)) && IsBoundary(u, PeriodEndForLess(u, b))
  {
    hide DateTrunc, IsBoundary, NextBoundary, PeriodStartAtOrAfter, PeriodStartAfter, PeriodEndForUpper,
         PeriodEndForLess;
    BoundsInTermsOfDateTrunc(u, b);
    StartsAreBoundaries(u, b);
  }

  lemma StartsAreBoundaries(u: Unit, b: Instant)
    ensures IsBoundary(u, StartAfter(u, b)) && StartAfter(u, b) > b
    ensures IsBoundary(u, StartAtOrAfter(u, b)) && StartAtOrAfter(u, b) >= b
  {
    hide DateTrunc, IsBoundary, NextBoundary;
    DateTruncSandwich(u, b);
    NextBoundaryIsBoundary(u, DateTrunc(u, b));
  }

  // ---- Units outside the eight ----

  /** Without a range end the lower bounds stay where they are, and the others move by one day. */
  lemma FallbackBounds(b: Instant)
    ensures PeriodStartAtOrAfter(Decade, b) == PeriodEndForLess(Decade, b) == b
    ensures PeriodStartAfter(Decade, b) == PeriodEndForUpper(Decade, b) == b + DAY
  {
    AddDays(b, 1);
  }

  /** An instant shortly after b is the next period start precisely when it is a period start. */
  lemma DecadeStartSoonAfter(b: Instant, x: Instant)
    requires b < x <= b + DAY
    ensures x == StartAfter(Decade, b) <==> IsBoundary(Decade, x)
  {
    hide DateTrunc, IsBoundary, NextBoundary;
    var next := StartAfter(Decade, b);
    StartsAreBoundaries(Decade, b);
    DateTruncSandwich(Decade, b);
    if IsBoundary(Decade, x) {
      NextBoundaryIsNext(Decade, DateTrunc(Decade, b), x);
      if next < x {
        NextBoundaryIsNext(Decade, next, x);
        DecadeIsLong(next);
      }
    }
  }

  lemma DecadeIsLong(b: Instant)
    requires IsBoundary(Decade, b)
    ensures NextBoundary(Decade, b) > b + DAY
  {
    hide MonthStart, MonthOf;
    var k := MonthOf(b / DAY);
    MonthStartMonotone(k, k + 120);
  }

  /**
   A unit outside the eight, `>=` and `<`: truncateTime leaves the bound alone, and the rewritten
   comparison is right for every instant precisely when the bound starts a period.
   */
  lemma DecadeLowerIff(b: Instant)
    ensures (forall t :: DateTrunc(Decade, t) >= b <==> t >= PeriodStartAtOrAfter(Decade, b)) <==> IsBoundary(Decade, b)
    ensures (forall t :: DateTrunc(Decade, t) < b <==> t < PeriodEndForLess(Decade, b)) <==> IsBoundary(Decade, b)
  {
    hide DateTrunc, IsBoundary, NextBoundary, PeriodStartAtOrAfter, PeriodEndForLess;
    FallbackBounds(b);
    DateTruncFixpoint(Decade, b);
    DateTruncSandwich(Decade, b);
    forall t ensures DateTrunc(Decade, t) >= b <==> t >= StartAtOrAfter(Decade, b) {
      TruncAdjunction(Decade, b, t);
    }
  }

  /** The same for `>` and `<=`: right precisely when the day after the bound starts a period. */
  lemma DecadeUpperIff(b: Instant)
    ensures (forall t :: DateTrunc(Decade, t) > b <==> t >= PeriodStartAfter(Decade, b))
        <==> IsBoundary(Decade, b + DAY)
    ensures (forall t :: DateTrunc(Decade, t) <= b <==> t < PeriodEndForUpper(Decade, b))
        <==> IsBoundary(Decade, b + DAY)
  {
    hide DateTrunc, IsBoundary, NextBoundary, PeriodStartAfter, PeriodEndForUpper, StartAfter;
    FallbackBounds(b);
    DecadeStartSoonAfter(b, b + DAY);
    forall t ensures DateTrunc(Decade, t) > b <==> t >= StartAfter(Decade, b) {
      TruncAdjunction(Decade, b, t);
    }
    var next, day := StartAfter(Decade, b), b + DAY;
    if next != day {
      var t := if next < day then next else day;
      assert (DateTrunc(Decade, t) > b) != (t >= day);
    }
  }
}
