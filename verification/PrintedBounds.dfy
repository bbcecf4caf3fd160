/**
 What is left of a computed bound once it is printed, and when the printed bound still is the
 period start that the truncated comparison asks for.
 */
module PrintedBounds {
  import opened Calendar
  import opened PeriodBounds
  import opened SqlSyntax
  import opened SqlSemantics
  import opened Sargable

  predicate Midnight(t: Instant) {
    t % DAY == 0
  }

  /** The instant a bound stands for after printing: dates lose their time, timestamps their fraction. */
  function Printed(t: Instant, typ: LitType): Instant {
    if typ.DateLit? then t / DAY * DAY else t / SECOND * SECOND
  }

  /** The bound the rewriter computes for an inequality. */
  function WrittenBound(u: Unit, op: CmpOp, raw: Instant): Instant {
    match op
    case Ge => PeriodStartAtOrAfter(u, raw)
    case Gt => PeriodStartAfter(u, raw)
    case Le => PeriodEndForUpper(u, raw)
    case _ => PeriodEndForLess(u, raw)
  }

  /** The bound the comparison with a truncated column means. */
  function MeantBound(u: Unit, op: CmpOp, b: Instant): Instant {
    if op in {Ge, Lt} then StartAtOrAfter(u, b) else StartAfter(u, b)
  }

  /**
   When the printed bound is the one that is meant. A date literal may be written with a time of
   day; the database drops it, while the rewriter computes with it.
   */
  predicate InequalityGuard(u: Unit, op: CmpOp, raw: Instant, typ: LitType) {
    var lit := LiteralTime(raw, typ);
    if !Supported(u) then IsBoundary(u, if op in {Ge, Lt} then lit else Printed(raw + DAY, typ))
    else if typ.TimestampLit? then true
    else if DayOrCoarser(u) then op in {Gt, Le} || Midnight(raw) || !IsBoundary(u, lit)
    else op in {Ge, Lt} && PeriodStartAtOrAfter(u, raw) / DAY == raw / DAY
  }

  lemma InequalityGuardMeans(u: Unit, op: CmpOp, raw: Instant, typ: LitType)
    requires IsInequality(op)
    ensures InequalityGuard(u, op, raw, typ)
        <==> Printed(WrittenBound(u, op, raw), typ) == MeantBound(u, op, LiteralTime(raw, typ))
  {
    hide InequalityGuard, WrittenBound, MeantBound, LiteralTime;
    if !Supported(u) {
      DecadeGuard(op, raw, typ);
    } else if typ.TimestampLit? {
      TimestampGuard(u, op, raw);
    } else if DayOrCoarser(u) {
      DateGuard(u, op, raw);
    } else {
      SubDayGuard(u, op, raw);
    }
  }

  lemma TimestampGuard(u: Unit, op: CmpOp, raw: Instant)
    requires Supported(u) && IsInequality(op)
    ensures Printed(WrittenBound(u, op, raw), TimestampLit) == MeantBound(u, op, LiteralTime(raw, TimestampLit))
    ensures InequalityGuard(u, op, raw, TimestampLit)
  {
    hide IsBoundary, StartAtOrAfter, StartAfter, PeriodStartAtOrAfter, PeriodStartAfter, PeriodEndForUpper,
         PeriodEndForLess;
    BoundsInTermsOfDateTrunc(u, raw);
    StartsAreBoundaries(u, raw);
    BoundaryAlignment(u, StartAtOrAfter(u, raw));
    BoundaryAlignment(u, StartAfter(u, raw));
  }

  /** The day of an instant lies in its period, so its midnight has the same next period start. */
  lemma MidnightOfPeriod(u: Unit, raw: Instant)
    requires DayOrCoarser(u)
    ensures StartAfter(u, raw / DAY * DAY) == StartAfter(u, raw)
    ensures !Midnight(raw) ==> StartAtOrAfter(u, raw) == StartAfter(u, raw)
  {
    hide DateTrunc, IsBoundary, NextBoundary;
    var d, s := raw / DAY * DAY, DateTrunc(u, raw);
    DateTruncSandwich(u, raw);
    DateTruncSandwich(u, d);
    BoundaryAlignment(u, s);
    assert s / DAY <= raw / DAY;
    DateTruncGreatest(u, d, s);
    if IsBoundary(u, raw) { BoundaryAlignment(u, raw); }
  }

  lemma StartOrItself(u: Unit, b: Instant)
    ensures StartAtOrAfter(u, b) == if IsBoundary(u, b) then b else StartAfter(u, b)
  {
    hide DateTrunc, IsBoundary, NextBoundary;
  }

  lemma DateGuard(u: Unit, op: CmpOp, raw: Instant)
    requires Supported(u) && DayOrCoarser(u) && IsInequality(op)
    ensures InequalityGuard(u, op, raw, DateLit)
        <==> Printed(WrittenBound(u, op, raw), DateLit) == MeantBound(u, op, LiteralTime(raw, DateLit))
  {
    hide IsBoundary, DateTrunc, NextBoundary, StartAfter, PeriodStartAtOrAfter, PeriodStartAfter, PeriodEndForUpper,
         PeriodEndForLess;
    BoundsInTermsOfDateTrunc(u, raw);
    StartsAreBoundaries(u, raw);
    StartsAreBoundaries(u, raw / DAY * DAY);
    BoundaryAlignment(u, StartAtOrAfter(u, raw));
    BoundaryAlignment(u, StartAfter(u, raw));
    MidnightOfPeriod(u, raw);
    StartOrItself(u, raw / DAY * DAY);
  }

  lemma SubDayGuard(u: Unit, op: CmpOp, raw: Instant)
    requires !DayOrCoarser(u) && IsInequality(op)
    ensures InequalityGuard(u, op, raw, DateLit)
        <==> Printed(WrittenBound(u, op, raw), DateLit) == MeantBound(u, op, LiteralTime(raw, DateLit))
  {
    hide IsBoundary, PeriodStartAtOrAfter, PeriodStartAfter, PeriodEndForUpper, PeriodEndForLess;
    var d := raw / DAY * DAY;
    BoundsInTermsOfDateTrunc(u, raw);
    StartsAreBoundaries(u, raw);
    MidnightIsSubDayBoundary(u, d);
    DateTruncFixpoint(u, d);
    assert StartAtOrAfter(u, d) == d && StartAfter(u, d) == d + PeriodLength(u);
    var low, high := PeriodStartAtOrAfter(u, raw), PeriodStartAfter(u, raw);
    MultipleOfDay(low, raw);
    NotMidnight(u, raw, high);
    assert Printed(low, DateLit) == d <==> low / DAY == raw / DAY;
    assert Printed(high, DateLit) != d + PeriodLength(u);
    match op {
      case Ge => assert WrittenBound(u, op, raw) == low && MeantBound(u, op, d) == d;
      case Lt => assert WrittenBound(u, op, raw) == low && MeantBound(u, op, d) == d;
      case Gt => assert WrittenBound(u, op, raw) == high && MeantBound(u, op, d) == d + PeriodLength(u);
      case Le => assert WrittenBound(u, op, raw) == high && MeantBound(u, op, d) == d + PeriodLength(u);
    }
  }

  lemma MultipleOfDay(x: Instant, raw: Instant)
    ensures x / DAY * DAY == raw / DAY * DAY <==> x / DAY == raw / DAY
  {
  }

  lemma NotMidnight(u: Unit, raw: Instant, x: Instant)
    requires !DayOrCoarser(u)
    ensures x / DAY * DAY != raw / DAY * DAY + PeriodLength(u)
  {
    ModUnique(raw / DAY * DAY + PeriodLength(u), raw / DAY, PeriodLength(u), DAY);
    ModUnique(x / DAY * DAY, x / DAY, 0, DAY);
  }

  lemma MidnightIsSubDayBoundary(u: Unit, b: Instant)
    requires !DayOrCoarser(u) && Midnight(b)
    ensures IsBoundary(u, b)
  {
    var d := b / DAY;
    match u {
      case Hour => ModUnique(b, d * 24, 0, HOUR);
      case Minute => ModUnique(b, d * 1440, 0, MINUTE);
      case Second => ModUnique(b, d * 86400, 0, SECOND);
    }
  }

  lemma DecadeGuard(op: CmpOp, raw: Instant, typ: LitType)
    requires IsInequality(op)
    ensures InequalityGuard(Decade, op, raw, typ)
       <==> Printed(WrittenBound(Decade, op, raw), typ) == MeantBound(Decade, op, LiteralTime(raw, typ))
  {
    hide IsBoundary, DateTrunc, NextBoundary, StartAfter, PeriodStartAtOrAfter, PeriodStartAfter, PeriodEndForUpper,
         PeriodEndForLess;
    var lit := LiteralTime(raw, typ);
    FallbackBounds(raw);
    StartsAreBoundaries(Decade, lit);
    if op in {Ge, Lt} {
      if IsBoundary(Decade, lit) { BoundaryAlignment(Decade, lit); }
      LowerPrints(raw, typ);
    } else {
      UpperPrints(raw, typ);
      DecadeStartSoonAfter(lit, Printed(raw + DAY, typ));
    }
  }

  /** A printed bound does not lie after its literal, and is the literal if that is a midnight. */
  lemma LowerPrints(raw: Instant, typ: LitType)
    ensures Printed(raw, typ) <= LiteralTime(raw, typ)
    ensures Midnight(LiteralTime(raw, typ)) ==> Printed(raw, typ) == LiteralTime(raw, typ)
  {
    if typ.TimestampLit? && Midnight(raw) {
      DayIsWholeSeconds(raw);
    }
  }

  lemma UpperPrints(raw: Instant, typ: LitType)
    ensures LiteralTime(raw, typ) < Printed(raw + DAY, typ) <= LiteralTime(raw, typ) + DAY
  {
  }
}
