/**
 What one sargable unwrap preserves. The grade of a site is read off its shape, its literals and,
 for parameterised shapes, its bind values, and it is right in every direction.
 */
module SargableMeaning {
  import opened Options
  import opened Calendar
  import opened PeriodBounds
  import opened SqlSyntax
  import opened SqlSemantics
  import opened Sargable
  import opened PrintedBounds
  import opened Grades
  import Kleene

  // ---- Grades ----

  /** The literal denotes the instant the rewriter computes with: a date literal has no time of day. */
  predicate Faithful(lit: Expr)
    requires lit.TimeLit?
  {
    lit.typ.DateLit? ==> Midnight(lit.raw)
  }

  /** The printed range is the range that is meant, or both are empty. */
  predicate DateTruncBetweenGuard(e: Expr)
    requires e.Between? && e.e.DateTruncFn? && e.lo.TimeLit? && e.hi.TimeLit?
  {
    var u := e.e.unit;
    var s, f := Printed(PeriodStartAtOrAfter(u, e.lo.raw), DateLit), Printed(PeriodEndForUpper(u, e.hi.raw), DateLit);
    var o, c := StartAtOrAfter(u, LiteralTime(e.lo.raw, e.lo.typ)), StartAfter(u, LiteralTime(e.hi.raw, e.hi.typ));
    (s == o && f == c) || (f <= s && c <= o)
  }

  predicate DateTruncEqualityGuard(u: Unit, typ: LitType) {
    typ.TimestampLit? || DayOrCoarser(u)
  }

  /** `>=` and `<` truncate their bound to its day first, so the bound must be a midnight already. */
  predicate CastDateInequalityGuard(op: CmpOp, lit: Expr)
    requires lit.TimeLit?
  {
    op in {Gt, Le} || Midnight(LiteralTime(lit.raw, lit.typ))
  }

  function BindValue(e: Expr, binds: Binds): Value
    requires e.Param?
  {
    if e.n in binds then binds[e.n] else Null
  }

  /** A parameter compared with an instant is bound to an instant or to NULL. */
  predicate TemporalBind(e: Expr, binds: Binds)
    requires e.Param?
  {
    BindValue(e, binds).Null? || BindValue(e, binds).Time?
  }

  predicate BindAligned(u: Unit, e: Expr, binds: Binds)
    requires e.Param?
  {
    TemporalBind(e, binds) && (BindValue(e, binds).Time? ==> IsBoundary(u, BindValue(e, binds).t))
  }

  /** The truth of `default = constant`, which constEqual tries to foresee. */
  function ConstCompare(def: Expr, c: Expr): Kleene.Truth
    requires IsConst(def) && IsConst(c)
  {
    Compare(Eq, Eval(def, Db(map[], map[]), map[]), Eval(c, Db(map[], map[]), map[]))
  }

  function CoalesceGrade(def: Expr, c: Expr): Grade
    requires IsConst(def) && IsConst(c)
  {
    if ConstEqual(def, c) then
      match ConstCompare(def, c)
      case True => Exact
      case False => Unsafe
      case Unknown => OnlyFalse
    else
      match ConstCompare(def, c)
      case True => OnlyFalse
      case False => OnlyTrue
      case Unknown => Exact
  }

  predicate IsWrap(e: Expr) {
    e.DateTruncFn? || e.CastDate? || e.Extract? || e.Coalesce?
  }

  /** The wrapped column first, the value it is compared with second. */
  function Oriented(e: Expr): (Expr, Expr)
    requires e.Cmp?
  {
    if IsWrap(e.l) then (e.l, e.r) else (e.r, e.l)
  }

  function Grading(good: bool): Grade {
    if good then Exact else Unsafe
  }

  /**
   `col::date BETWEEN $lo AND $hi`. A lower bind with a time of day loses its day, which shows
   unless no row can be kept anyway: because the upper bind lies on an earlier day, or is NULL.
   */
  function CastDateParamGrade(lo: Expr, hi: Expr, binds: Binds): Grade
    requires lo.Param? && hi.Param?
  {
    var p, q := BindValue(lo, binds), BindValue(hi, binds);
    if BindAligned(Day, lo, binds) then Exact
    else if p.Time? && q.Time? && q.t / DAY < p.t / DAY then Exact
    else if p.Time? && q.Null? then OnlyTrue
    else Unsafe
  }

  function DateTruncParamGrade(a: Expr, b: Expr, binds: Binds): Grade
    requires a.DateTruncFn? && b.Param?
  {
    if BindAligned(a.unit, b, binds) then Exact else OnlyTrue
  }

  function BetweenGrade(e: Expr, binds: Binds): Grade
    requires e.Between?
  {
    if e.lo.TimeLit? && e.hi.TimeLit? then
      if e.e.DateTruncFn? then
        Grading(DateTruncBetweenGuard(e))
      else Grading(CastDateBetweenGuard(e))
    else if e.lo.Param? && e.hi.Param? then CastDateParamGrade(e.lo, e.hi, binds)
    else Unsafe
  }

  function CmpGrade(op: CmpOp, a: Expr, b: Expr, binds: Binds): Grade {
    if b.TimeLit? && a.DateTruncFn? then
      if op.Eq? then Grading(DateTruncEqualityGuard(a.unit, b.typ))
      else Grading(InequalityGuard(a.unit, op, b.raw, b.typ))
    else if b.TimeLit? && a.CastDate? then Grading(op.Eq? || CastDateInequalityGuard(op, b))
    else if a.Extract? then Exact
    else if a.Coalesce? && IsConst(a.second) && IsConst(b) then CoalesceGrade(a.second, b)
    else if b.Param? && a.DateTruncFn? then DateTruncParamGrade(a, b, binds)
    else if b.Param? && a.CastDate? then Grading(BindAligned(Day, b, binds))
    else Unsafe
  }

  /** The grade of a comparison or BETWEEN; sites no matcher fires on stay as they are. */
  function GradeOf(e: Expr, binds: Binds): Grade {
    if TryRewrite(e).None? then Exact
    else if e.Between? then BetweenGrade(e, binds)
    else if e.Cmp? then CmpGrade(e.op, Oriented(e).0, Oriented(e).1, binds)
    else Unsafe
  }

  // ---- Ranges ----

  lemma PrintedLiteral(t: Instant, typ: LitType, db: Db, env: Env)
    ensures var lit := Eval(TemporalLiteral(t, typ), db, env);
            lit == Time(Printed(t, typ))
  {
    hide DateText, TimestampText;
    if typ.DateLit? {
      ModUnique(t / DAY * DAY, t / DAY, 0, DAY);
    }
  }

  /** How a half-open range evaluates. */
  lemma RangeValue(col: Expr, lo: Expr, hi: Expr, db: Db, env: Env)
    ensures var v, a, b := Eval(col, db, env), Eval(lo, db, env), Eval(hi, db, env);
            Eval(AndExpr(Cmp(Ge, col, lo), Cmp(Lt, col, hi)), db, env)
            == OfTruth(Kleene.And(Compare(Ge, v, a), Compare(Lt, v, b)))
  {
    hide Eval, Compare;
    LogicAnd2(Cmp(Ge, col, lo), Cmp(Lt, col, hi), db, env);
    CmpValue(Cmp(Ge, col, lo), db, env);
    CmpValue(Cmp(Lt, col, hi), db, env);
  }

  /** The literal prints without losing a part of the instant. */
  predicate Prints(t: Instant, typ: LitType) {
    t == Printed(t, typ)
  }

  /** A range whose bounds print in full tests whether the instant lies in it. */
  lemma PrintedRangeValue(col: Expr, start: Instant, end: Instant, typ: LitType, db: Db, env: Env)
    requires Prints(start, typ) && Prints(end, typ)
    ensures var v := Eval(col, db, env);
            Eval(RangeExpr(col, start, end, typ), db, env) == if v.Time? then Bool(start <= v.t < end) else Null
  {
    hide Eval, Compare, TemporalLiteral;
    var v := Eval(col, db, env);
    RangeValue(col, TemporalLiteral(start, typ), TemporalLiteral(end, typ), db, env);
    PrintedLiteral(start, typ, db, env);
    PrintedLiteral(end, typ, db, env);
    CompareTime(Ge, v, start);
    CompareTime(Lt, v, end);
  }

  /** A comparison with a printed bound. */
  lemma PrintedBoundValue(op: CmpOp, col: Expr, bound: Instant, typ: LitType, db: Db, env: Env)
    ensures var v := Eval(col, db, env);
            Eval(Cmp(op, col, TemporalLiteral(bound, typ)), db, env)
            == if v.Time? then Bool(TimeHolds(op, v.t, Printed(bound, typ))) else Null
  {
    hide Eval, Compare, TemporalLiteral, Printed;
    CmpValue(Cmp(op, col, TemporalLiteral(bound, typ)), db, env);
    PrintedLiteral(bound, typ, db, env);
    CompareTime(op, Eval(col, db, env), Printed(bound, typ));
  }

  lemma CastDateFnValue(x: Expr, db: Db, env: Env)
    requires x.CastDate?
    ensures Eval(x, db, env) == CastDateValue(Eval(x.arg, db, env))
  {
  }

  lemma LogicNode(bop: BoolOp, args: seq<Expr>, db: Db, env: Env)
    ensures Eval(Logic(bop, args), db, env) == OfTruth(ApplyBool(bop, TruthsOf(EvalArgs(args, db, env))))
  {
    hide EvalArgs, ApplyBool;
  }

  lemma TwoTruths(x: Expr, y: Expr, db: Db, env: Env)
    ensures TruthsOf(EvalArgs([x, y], db, env)) == [TruthOf(x, db, env), TruthOf(y, db, env)]
  {
    hide Eval, EvalArgs;
    EvalArgsAt([x, y], db, env);
  }

  lemma LogicAnd2(x: Expr, y: Expr, db: Db, env: Env)
    ensures Eval(AndExpr(x, y), db, env) == OfTruth(Kleene.And(TruthOf(x, db, env), TruthOf(y, db, env)))
  {
    hide Eval, EvalArgs;
    LogicNode(AndOp, [x, y], db, env);
    TwoTruths(x, y, db, env);
    Kleene.AndAllValue([TruthOf(x, db, env), TruthOf(y, db, env)]);
  }

  lemma LogicOr2(x: Expr, y: Expr, db: Db, env: Env)
    ensures Eval(Logic(OrOp, [x, y]), db, env) == OfTruth(Kleene.Or(TruthOf(x, db, env), TruthOf(y, db, env)))
  {
    hide Eval, EvalArgs;
    LogicNode(OrOp, [x, y], db, env);
    TwoTruths(x, y, db, env);
    Kleene.OrAllValue([TruthOf(x, db, env), TruthOf(y, db, env)]);
  }

  // ---- Each literal shape, on every row ----

  function TimeHolds(op: CmpOp, a: Instant, b: Instant): bool {
    match op
    case Eq => a == b
    case Ne => a != b
    case Lt => a < b
    case Le => a <= b
    case Gt => a > b
    case Ge => a >= b
  }

  lemma CompareTime(op: CmpOp, v: Value, t: Instant)
    ensures Compare(op, v, Time(t)) == if v.Time? then Kleene.OfBool(TimeHolds(op, v.t, t)) else Kleene.Unknown
  {
  }

  lemma DateTruncBetweenExact(e: Expr, db: Db, env: Env)
    requires TryDateTruncBetween(e).Some? && DateTruncBetweenGuard(e)
    ensures Eval(TryDateTruncBetween(e).value.e, db, env) == Eval(e, db, env)
  {
    hide Eval, PeriodStartAtOrAfter, PeriodEndForUpper, StartAtOrAfter, StartAfter, Printed, LiteralTime, RangeExpr;
    RangeOfDates(e.e.arg, PeriodStartAtOrAfter(e.e.unit, e.lo.raw), PeriodEndForUpper(e.e.unit, e.hi.raw), db, env);
    DateTruncBetweenValue(e, db, env);
  }

  /** A range printed as dates tests whether the instant lies between the two midnights. */
  lemma RangeOfDates(col: Expr, start: Instant, end: Instant, db: Db, env: Env)
    ensures var v := Eval(col, db, env);
            Eval(RangeExpr(col, start, end, DateLit), db, env)
            == if v.Time? then Bool(Printed(start, DateLit) <= v.t < Printed(end, DateLit)) else Null
  {
    hide Compare, Eval, TemporalLiteral;
    var v := Eval(col, db, env);
    RangeValue(col, TemporalLiteral(start, DateLit), TemporalLiteral(end, DateLit), db, env);
    PrintedLiteral(start, DateLit, db, env);
    PrintedLiteral(end, DateLit, db, env);
    CompareTime(Ge, v, Printed(start, DateLit));
    CompareTime(Lt, v, Printed(end, DateLit));
  }

  /**
   BETWEEN on a truncated column, for every unit and every pair of literals: the rewrite keeps its
   value precisely when the range it prints is the one that is meant, or both are empty, and
   otherwise neither its TRUE nor its FALSE rows.
   */
  lemma DateTruncBetweenGradeIsRight(e: Expr, binds: Binds)
    requires TryDateTruncBetween(e).Some?
    ensures Graded(TryDateTruncBetween(e).value.e, e, Grading(DateTruncBetweenGuard(e)), binds)
  {
    hide Eval, PeriodStartAtOrAfter, PeriodEndForUpper, StartAtOrAfter, StartAfter, Printed, LiteralTime, RangeExpr;
    var r := TryDateTruncBetween(e).value.e;
    forall db: Db, env: Env | db.binds == binds && DateTruncBetweenGuard(e)
      ensures Eval(r, db, env) == Eval(e, db, env)
    {
      DateTruncBetweenExact(e, db, env);
    }
    if DateTruncBetweenGuard(e) {
      ExactIsRight(r, e, binds);
    } else {
      var start, end := PeriodStartAtOrAfter(e.e.unit, e.lo.raw), PeriodEndForUpper(e.e.unit, e.hi.raw);
      var s, f := Printed(start, DateLit), Printed(end, DateLit);
      var o := StartAtOrAfter(e.e.unit, LiteralTime(e.lo.raw, e.lo.typ));
      var c := StartAfter(e.e.unit, LiteralTime(e.hi.raw, e.hi.typ));
      var t := InOneRangeOnly(s, f, o, c);
      var db, env := Db(map[], binds), OneColumn(e.e.arg, Time(t));
      OneColumnValue(e.e.arg, Time(t), db);
      RangeOfDates(e.e.arg, start, end, db, env);
      DateTruncBetweenValue(e, db, env);
      UnsafeIsRight(r, e, binds, db, env);
    }
  }

  /** Two half-open ranges that differ and are not both empty are told apart by one of their starts or ends. */
  lemma InOneRangeOnly(s: int, f: int, o: int, c: int) returns (t: int)
    requires !(s == o && f == c) && !(f <= s && c <= o)
    ensures (s <= t < f) != (o <= t < c)
  {
    if s < f && !(o <= s < c) {
      t := s;
    } else if o < c && !(s <= o < f) {
      t := o;
    } else {
      t := if f < c then f else c;
    }
  }

  /** BETWEEN on the truncated column is a half-open range on the column. */
  lemma DateTruncBetweenValue(e: Expr, db: Db, env: Env)
    requires e.Between? && e.e.DateTruncFn? && e.lo.TimeLit? && e.hi.TimeLit?
    ensures var u, v := e.e.unit, Eval(e.e.arg, db, env);
            Eval(e, db, env)
            == if !v.Time? then Null
               else Bool(StartAtOrAfter(u, LiteralTime(e.lo.raw, e.lo.typ))
                         <= v.t < StartAfter(u, LiteralTime(e.hi.raw, e.hi.typ)))
  {
    hide DateTrunc, StartAtOrAfter, StartAfter, Compare, Eval, LiteralTime;
    var u, lo, hi := e.e.unit, LiteralTime(e.lo.raw, e.lo.typ), LiteralTime(e.hi.raw, e.hi.typ);
    var v := Eval(e.e.arg, db, env);
    DateTruncFnValue(e.e, db, env);
    BetweenLiterals(e, db, env);
    CompareTime(Ge, DateTruncValue(u, v), lo);
    CompareTime(Le, DateTruncValue(u, v), hi);
    if v.Time? {
      TruncAdjunction(u, lo, v.t);
      TruncAdjunction(u, hi, v.t);
    }
  }

  lemma FaithfulValue(lit: Expr, db: Db, env: Env)
    requires lit.TimeLit? && Faithful(lit)
    ensures Eval(lit, db, env) == Time(lit.raw) && (lit.typ.DateLit? ==> Midnight(lit.raw))
  {
  }

  lemma DateTruncFnValue(x: Expr, db: Db, env: Env)
    requires x.DateTruncFn?
    ensures Eval(x, db, env) == DateTruncValue(x.unit, Eval(x.arg, db, env))
  {
  }

  lemma CastDateAdjunction(b: Instant, t: Instant)
    ensures TruncateTime(b, Day) == b / DAY * DAY
    ensures AddDate(b / DAY * DAY, 0, 0, 1) == b / DAY * DAY + DAY
    ensures t / DAY * DAY <= b <==> t < b / DAY * DAY + DAY
    ensures t / DAY * DAY >= b <==> t >= if Midnight(b) then b else b / DAY * DAY + DAY
  {
    hide MonthStart, MonthOf;
    FieldsRebuildDay(b);
    AddDays(b / DAY * DAY, 1);
  }

  /** A date literal written with a time of day loses its day, unless the range was empty anyway. */
  predicate CastDateBetweenGuard(e: Expr)
    requires e.Between? && e.lo.TimeLit? && e.hi.TimeLit?
  {
    Faithful(e.lo) || e.hi.raw / DAY < e.lo.raw / DAY
  }

  /** The first midnight at or after an instant. */
  function NextMidnight(t: Instant): Instant {
    if Midnight(t) then t else t / DAY * DAY + DAY
  }

  lemma CastDateBetweenValue(e: Expr, db: Db, env: Env)
    requires TryCastDateBetween(e).Some?
    ensures var v, lo, end := Eval(e.e.arg, db, env), LiteralTime(e.lo.raw, e.lo.typ), e.hi.raw / DAY * DAY + DAY;
            && Eval(e, db, env) == (if v.Time? then Bool(NextMidnight(lo) <= v.t < end) else Null)
            && Eval(TryCastDateBetween(e).value.e, db, env)
               == if v.Time? then Bool(NextMidnight(e.lo.raw) <= v.t < end) else Null
  {
    hide Eval, TruncateTime, AddDate, RangeExpr, LiteralTime;
    CastDateBetweenBefore(e, db, env);
    var start, end := NextMidnight(e.lo.raw), e.hi.raw / DAY * DAY + DAY;
    CastDateAdjunction(e.lo.raw, 0);
    CastDateAdjunction(e.hi.raw, 0);
    DayFloors(e.lo.raw);
    DayFloors(e.hi.raw);
    assert TryCastDateBetween(e).value.e == RangeExpr(e.e.arg, start, end, DateLit);
    PrintedRangeValue(e.e.arg, start, end, DateLit, db, env);
  }

  lemma CastDateBetweenBefore(e: Expr, db: Db, env: Env)
    requires e.Between? && e.e.CastDate? && e.lo.TimeLit? && e.hi.TimeLit?
    ensures var v, lo, end := Eval(e.e.arg, db, env), LiteralTime(e.lo.raw, e.lo.typ), e.hi.raw / DAY * DAY + DAY;
            Eval(e, db, env) == if v.Time? then Bool(NextMidnight(lo) <= v.t < end) else Null
  {
    hide Eval, TruncateTime, AddDate, Compare, LiteralTime, TryCastDateBetween;
    var v, lo, hi := Eval(e.e.arg, db, env), LiteralTime(e.lo.raw, e.lo.typ), LiteralTime(e.hi.raw, e.hi.typ);
    var t := if v.Time? then v.t else 0;
    BetweenLiterals(e, db, env);
    CastDateFnValue(e.e, db, env);
    CompareTime(Ge, CastDateValue(v), lo);
    CompareTime(Le, CastDateValue(v), hi);
    CastDateAdjunction(lo, t);
    CastDateAdjunction(hi, t);
    LiteralDay(e.hi.raw, e.hi.typ);
  }

  lemma BetweenLiterals(e: Expr, db: Db, env: Env)
    requires e.Between? && e.lo.TimeLit? && e.hi.TimeLit?
    ensures var x, lo, hi := Eval(e.e, db, env), LiteralTime(e.lo.raw, e.lo.typ), LiteralTime(e.hi.raw, e.hi.typ);
            Eval(e, db, env) == OfTruth(Kleene.And(Compare(Ge, x, Time(lo)), Compare(Le, x, Time(hi))))
  {
    hide Compare, LiteralTime;
    assert Eval(e.lo, db, env) == Time(LiteralTime(e.lo.raw, e.lo.typ));
    assert Eval(e.hi, db, env) == Time(LiteralTime(e.hi.raw, e.hi.typ));
  }

  lemma LiteralDay(raw: Instant, typ: LitType)
    ensures LiteralTime(raw, typ) / DAY * DAY == raw / DAY * DAY
  {
    DayFloors(raw);
  }

  lemma CastDateBetweenExact(e: Expr, db: Db, env: Env)
    requires TryCastDateBetween(e).Some? && CastDateBetweenGuard(e)
    ensures Eval(TryCastDateBetween(e).value.e, db, env) == Eval(e, db, env)
  {
    hide Eval, TruncateTime;
    CastDateBetweenValue(e, db, env);
    DayFloors(e.lo.raw);
  }

  /** `col::date BETWEEN lo AND hi` keeps its value precisely under its guard, and otherwise nothing. */
  lemma CastDateBetweenGradeIsRight(e: Expr, binds: Binds)
    requires TryCastDateBetween(e).Some?
    ensures Graded(TryCastDateBetween(e).value.e, e, Grading(CastDateBetweenGuard(e)), binds)
  {
    hide Eval, TruncateTime;
    var r := TryCastDateBetween(e).value.e;
    forall db: Db, env: Env | db.binds == binds && CastDateBetweenGuard(e)
      ensures Eval(r, db, env) == Eval(e, db, env)
    {
      CastDateBetweenExact(e, db, env);
    }
    if CastDateBetweenGuard(e) {
      ExactIsRight(r, e, binds);
    } else {
      var t := e.lo.raw / DAY * DAY;
      var db, env := Db(map[], binds), OneColumn(e.e.arg, Time(t));
      OneColumnValue(e.e.arg, Time(t), db);
      CastDateBetweenValue(e, db, env);
      DayFloors(e.lo.raw);
      UnsafeIsRight(r, e, binds, db, env);
    }
  }

  lemma DayFloors(t: Instant)
    ensures t / DAY * DAY / DAY * DAY == t / DAY * DAY
    ensures (t / DAY * DAY + DAY) / DAY * DAY == t / DAY * DAY + DAY
    ensures (t / DAY * DAY) % DAY == 0 && (t / DAY * DAY) % SECOND == 0
    ensures (t / DAY * DAY) / SECOND * SECOND == t / DAY * DAY
    ensures (t / DAY * DAY + DAY) / SECOND * SECOND == t / DAY * DAY + DAY
  {
    var d := t / DAY;
    ModUnique(d * DAY, d, 0, DAY);
    ModUnique(d * DAY + DAY, d + 1, 0, DAY);
    ModUnique(d * DAY, d * 86400, 0, SECOND);
    ModUnique(d * DAY + DAY, d * 86400 + 86400, 0, SECOND);
  }

  /** The side of a bound that an inequality asks for. */
  predicate Beyond(op: CmpOp, t: Instant, bound: Instant) {
    if op in {Ge, Gt} then t >= bound else t < bound
  }

  /** An inequality on a truncated column is one on the column, with the bound that is meant. */
  lemma DateTruncInequalityBefore(e: Expr, db: Db, env: Env)
    requires e.Cmp? && IsInequality(e.op) && e.l.DateTruncFn? && e.r.TimeLit?
    ensures var v := Eval(e.l.arg, db, env);
            Eval(e, db, env)
            == if v.Time? then Bool(Beyond(e.op, v.t, MeantBound(e.l.unit, e.op, LiteralTime(e.r.raw, e.r.typ))))
                else Null
  {
    hide DateTrunc, StartAtOrAfter, StartAfter, Compare, Eval, LiteralTime;
    var u, b := e.l.unit, LiteralTime(e.r.raw, e.r.typ);
    var v := Eval(e.l.arg, db, env);
    DateTruncFnValue(e.l, db, env);
    CmpValue(e, db, env);
    TimeLitValue(e.r, db, env);
    CompareTime(e.op, DateTruncValue(u, v), b);
    if v.Time? {
      TruncAdjunction(u, b, v.t);
    }
  }

  lemma TimeLitValue(lit: Expr, db: Db, env: Env)
    requires lit.TimeLit?
    ensures Eval(lit, db, env) == Time(LiteralTime(lit.raw, lit.typ))
  {
  }

  lemma DateTruncInequalityAfter(e: Expr, db: Db, env: Env)
    requires TryDateTruncInequality(e).Some?
    ensures var v := Eval(e.l.arg, db, env);
            Eval(TryDateTruncInequality(e).value.e, db, env)
            == if v.Time? then Bool(Beyond(e.op, v.t, Printed(WrittenBound(e.l.unit, e.op, e.r.raw), e.r.typ)))
                else Null
  {
    hide PeriodStartAtOrAfter, PeriodStartAfter, PeriodEndForUpper, PeriodEndForLess, Eval, TemporalLiteral, Printed;
    var bound := WrittenBound(e.l.unit, e.op, e.r.raw);
    PrintedBoundValue(if e.op in {Ge, Gt} then Ge else Lt, e.l.arg, bound, e.r.typ, db, env);
  }

  lemma DateTruncInequalityExact(e: Expr, db: Db, env: Env)
    requires TryDateTruncInequality(e).Some? && InequalityGuard(e.l.unit, e.op, e.r.raw, e.r.typ)
    ensures Eval(TryDateTruncInequality(e).value.e, db, env) == Eval(e, db, env)
  {
    hide Eval, InequalityGuard, WrittenBound, MeantBound, Printed, LiteralTime, TemporalLiteral,
      PeriodStartAtOrAfter, PeriodStartAfter, PeriodEndForUpper, PeriodEndForLess;
    InequalityGuardMeans(e.l.unit, e.op, e.r.raw, e.r.typ);
    DateTruncInequalityBefore(e, db, env);
    DateTruncInequalityAfter(e, db, env);
  }

  /**
   An inequality on a truncated column, for every unit and every literal: the rewrite keeps its value
   precisely under its guard, and otherwise neither its TRUE nor its FALSE rows.
   */
  lemma DateTruncInequalityGradeIsRight(e: Expr, binds: Binds)
    requires TryDateTruncInequality(e).Some?
    ensures var r, guard := TryDateTruncInequality(e).value.e, InequalityGuard(e.l.unit, e.op, e.r.raw, e.r.typ);
            Graded(r, e, Grading(guard), binds)
  {
    hide Eval, InequalityGuard, WrittenBound, MeantBound, Printed, LiteralTime, TemporalLiteral,
      PeriodStartAtOrAfter, PeriodStartAfter, PeriodEndForUpper, PeriodEndForLess;
    var r, guard := TryDateTruncInequality(e).value.e, InequalityGuard(e.l.unit, e.op, e.r.raw, e.r.typ);
    forall db: Db, env: Env | db.binds == binds && guard
      ensures Eval(r, db, env) == Eval(e, db, env)
    {
      DateTruncInequalityExact(e, db, env);
    }
    if guard {
      ExactIsRight(r, e, binds);
    } else {
      InequalityGuardMeans(e.l.unit, e.op, e.r.raw, e.r.typ);
      var written := Printed(WrittenBound(e.l.unit, e.op, e.r.raw), e.r.typ);
      var meant := MeantBound(e.l.unit, e.op, LiteralTime(e.r.raw, e.r.typ));
      var t := if written < meant then written else meant;
      var db, env := Db(map[], binds), OneColumn(e.l.arg, Time(t));
      OneColumnValue(e.l.arg, Time(t), db);
      DateTruncInequalityBefore(e, db, env);
      DateTruncInequalityAfter(e, db, env);
      UnsafeIsRight(r, e, binds, db, env);
    }
  }

  lemma CastDateInequalityValue(e: Expr, db: Db, env: Env)
    requires TryCastDateInequality(e).Some?
    ensures var v, day, c := Eval(e.l.arg, db, env), e.r.raw / DAY * DAY, LiteralTime(e.r.raw, e.r.typ);
            && Eval(e, db, env) == (if v.Time? then Bool(TimeHolds(e.op, v.t / DAY * DAY, c)) else Null)
            && Eval(TryCastDateInequality(e).value.e, db, env)
               == if !v.Time? then Null
                  else Bool(match e.op case Ge => v.t >= day case Gt => v.t >= day + DAY
                                       case Le => v.t < day + DAY case _ => v.t < day)
  {
    hide TruncateTime, AddDate, Compare, Eval, LiteralTime, TemporalLiteral;
    var col, typ, day := e.l.arg, e.r.typ, e.r.raw / DAY * DAY;
    var v := Eval(col, db, env);
    CastDateAdjunction(e.r.raw, 0);
    DayFloors(e.r.raw);
    CastDateFnValue(e.l, db, env);
    CmpValue(e, db, env);
    CompareTime(e.op, CastDateValue(v), LiteralTime(e.r.raw, typ));
    TimeLitValue(e.r, db, env);
    var bound := if e.op in {Gt, Le} then day + DAY else day;
    PrintedBoundValue(if e.op in {Ge, Gt} then Ge else Lt, col, bound, typ, db, env);
  }

  lemma CastDateInequalityExact(e: Expr, db: Db, env: Env)
    requires TryCastDateInequality(e).Some? && CastDateInequalityGuard(e.op, e.r)
    ensures Eval(TryCastDateInequality(e).value.e, db, env) == Eval(e, db, env)
  {
    hide TruncateTime, AddDate, Compare, Eval, TemporalLiteral, LiteralTime;
    CastDateInequalityValue(e, db, env);
    var v := Eval(e.l.arg, db, env);
    if v.Time? {
      CastDateAdjunction(e.r.raw, v.t);
      CastDateAdjunction(LiteralTime(e.r.raw, e.r.typ), v.t);
      LiteralDay(e.r.raw, e.r.typ);
    }
  }

  /** `col::date >= c` and `col::date < c` keep anything precisely for a bound without a time of day. */
  lemma CastDateInequalityGradeIsRight(e: Expr, binds: Binds)
    requires TryCastDateInequality(e).Some?
    ensures Graded(TryCastDateInequality(e).value.e, e, Grading(CastDateInequalityGuard(e.op, e.r)), binds)
  {
    hide Eval;
    var r := TryCastDateInequality(e).value.e;
    forall db: Db, env: Env | db.binds == binds && CastDateInequalityGuard(e.op, e.r)
      ensures Eval(r, db, env) == Eval(e, db, env)
    {
      CastDateInequalityExact(e, db, env);
    }
    if CastDateInequalityGuard(e.op, e.r) {
      ExactIsRight(r, e, binds);
    } else {
      var t := e.r.raw / DAY * DAY;
      var db, env := Db(map[], binds), OneColumn(e.l.arg, Time(t));
      OneColumnValue(e.l.arg, Time(t), db);
      CastDateInequalityValue(e, db, env);
      DayFloors(e.r.raw);
      UnsafeIsRight(r, e, binds, db, env);
    }
  }

  lemma OneColumnValue(col: Expr, v: Value, db: Db)
    requires col.Col?
    ensures Eval(col, db, OneColumn(col, v)) == v
  {
  }

  lemma DateTruncEqualityExact(a: Expr, b: Expr, db: Db, env: Env)
    requires DateTruncEquality(a, b).Some? && DateTruncEqualityGuard(a.unit, b.typ)
    ensures Eval(DateTruncEquality(a, b).value.e, db, env)
         == OfTruth(Compare(Eq, Eval(a, db, env), Eval(b, db, env)))
  {
    hide DateTrunc, IsBoundary, TruncateTime, RangeEndOf, NextBoundary, Compare, RangeExpr;
    var u, col, c := a.unit, a.arg, b.raw;
    assert Supported(u) by { DecadeHasNoRangeEnd(c, u); }
    TruncateTimeIsDateTrunc(c, u);
    DateTruncFixpoint(u, c);
    RangeEndIsNextBoundary(c, u);
    var end := NextBoundary(u, c);
    NextBoundaryIsBoundary(u, c);
    BoundaryAlignment(u, c);
    BoundaryAlignment(u, end);
    PrintedRangeValue(col, c, end, b.typ, db, env);
    var v := Eval(col, db, env);
    DateTruncFnValue(a, db, env);
    assert Eval(b, db, env) == Time(c);
    CompareTime(Eq, DateTruncValue(u, v), c);
    if v.Time? {
      DateTruncGreatest(u, v.t, c);
      DateTruncSandwich(u, v.t);
    }
  }

  /**
   The equality rewrite keeps its value precisely when the literal is a timestamp or the unit a day
   or more, and otherwise neither its TRUE nor its FALSE rows.
   */
  lemma DateTruncEqualityGradeIsRight(a: Expr, b: Expr, binds: Binds)
    requires DateTruncEquality(a, b).Some?
    ensures var e, r, guard := Cmp(Eq, a, b), DateTruncEquality(a, b).value.e, DateTruncEqualityGuard(a.unit, b.typ);
            Graded(r, e, Grading(guard), binds)
  {
    hide Compare, DateTrunc, TruncateTime, RangeEndOf, RangeExpr, Eval;
    var e, r := Cmp(Eq, a, b), DateTruncEquality(a, b).value.e;
    forall db: Db, env: Env | db.binds == binds && DateTruncEqualityGuard(a.unit, b.typ)
      ensures Eval(r, db, env) == Eval(e, db, env)
    {
      DateTruncEqualityExact(a, b, db, env);
      CmpValue(e, db, env);
    }
    if DateTruncEqualityGuard(a.unit, b.typ) {
      ExactIsRight(r, e, binds);
    } else {
      var t := SubDayEqualityFails(a, b, binds);
      var db, env := Db(map[], binds), OneColumn(a.arg, Time(t));
      UnsafeIsRight(r, e, binds, db, env);
    }
  }

  /** A sub-day period printed as dates is empty or a whole day, never the period. */
  lemma SubDayEqualityFails(a: Expr, b: Expr, binds: Binds) returns (t: Instant)
    requires DateTruncEquality(a, b).Some? && !DateTruncEqualityGuard(a.unit, b.typ)
    ensures var db, env := Db(map[], binds), OneColumn(a.arg, Time(t));
            var before, after := Eval(Cmp(Eq, a, b), db, env), Eval(DateTruncEquality(a, b).value.e, db, env);
            before.Bool? && after.Bool? && before != after
  {
    hide DateTrunc, IsBoundary, DateTruncEquality, Compare, RangeExpr, Eval;
    SubDayRange(a, b);
    var u, day := a.unit, b.raw / DAY * DAY;
    var end := b.raw + PeriodLength(u);
    DayFloors(b.raw);
    var whole := end / DAY * DAY > day;
    t := if whole then day + 12 * HOUR else day;
    var db, env := Db(map[], binds), OneColumn(a.arg, Time(t));
    HalfDayIsSubDayBoundary(u, b.raw / DAY);
    DateTruncFixpoint(u, t);
    RangeOfDates(a.arg, b.raw, end, db, env);
    OneColumnValue(a.arg, Time(t), db);
    DateTruncFnValue(a, db, env);
    CmpValue(Cmp(Eq, a, b), db, env);
    TimeLitValue(b, db, env);
    CompareTime(Eq, DateTruncValue(u, Time(t)), day);
    assert Eval(Cmp(Eq, a, b), db, env) == Bool(t == day);
  }

  /** What the equality matcher makes of a sub-day unit and a date literal. */
  lemma SubDayRange(a: Expr, b: Expr)
    requires DateTruncEquality(a, b).Some? && !DateTruncEqualityGuard(a.unit, b.typ)
    ensures a.DateTruncFn? && a.arg.Col? && b.TimeLit? && b.typ.DateLit? && !DayOrCoarser(a.unit)
    ensures DateTruncEquality(a, b).value.e == RangeExpr(a.arg, b.raw, b.raw + PeriodLength(a.unit), DateLit)
  {
    hide TruncateTime, RangeExpr;
  }

  lemma HalfDayIsSubDayBoundary(u: Unit, d: int)
    requires !DayOrCoarser(u)
    ensures IsBoundary(u, d * DAY) && IsBoundary(u, d * DAY + 12 * HOUR)
  {
    match u {
      case Hour => ModUnique(d * DAY, d * 24, 0, HOUR); ModUnique(d * DAY + 12 * HOUR, d * 24 + 12, 0, HOUR);
      case Minute => ModUnique(d * DAY, d * 1440, 0, MINUTE); ModUnique(d * DAY + 12 * HOUR, d * 1440 + 720, 0, MINUTE);
      case Second =>
        ModUnique(d * DAY, d * 86400, 0, SECOND);
        ModUnique(d * DAY + 12 * HOUR, d * 86400 + 43200, 0, SECOND);
    }
  }

  lemma DecadeHasNoRangeEnd(t: Instant, u: Unit)
    ensures RangeEndOf(t, u).RangeEnd? <==> Supported(u)
  {
  }

  lemma CastDateEqualityExact(a: Expr, b: Expr, db: Db, env: Env)
    requires CastDateEquality(a, b).Some?
    ensures Eval(CastDateEquality(a, b).value.e, db, env)
         == OfTruth(Compare(Eq, Eval(a, db, env), Eval(b, db, env)))
  {
    hide TruncateTime, AddDate, Compare, Eval, RangeExpr;
    var v := Eval(a.arg, db, env);
    var t := if v.Time? then v.t else 0;
    var c := b.raw;
    CastDateAdjunction(c, t);
    assert c == c / DAY * DAY;
    DayFloors(c);
    PrintedRangeValue(a.arg, c, c + DAY, b.typ, db, env);
    FaithfulValue(b, db, env);
    CastDateFnValue(a, db, env);
    CompareTime(Eq, CastDateValue(v), c);
  }

  lemma ExtractYearExact(a: Expr, b: Expr, db: Db, env: Env)
    requires ExtractYearEquality(a, b).Some?
    ensures Eval(ExtractYearEquality(a, b).value.e, db, env)
         == OfTruth(Compare(Eq, Eval(a, db, env), Eval(b, db, env)))
  {
    hide MonthStart, MonthOf, AddDate, RangeExpr;
    var y := b.v.i;
    var start, end := GoDate(y, 1, 1), GoDate(y + 1, 1, 1);
    YearRange(y);
    PrintedRangeValue(a.arg, start, end, DateLit, db, env);
    var v := Eval(a.arg, db, env);
    assert Eval(a, db, env) == ExtractValue(YearOf, v);
    if v.Time? {
      MonthRangeHolds(12 * y, 12 * (y + 1), v.t);
    }
  }

  lemma YearRange(y: int)
    ensures AddDate(GoDate(y, 1, 1), 1, 0, 0) == GoDate(y + 1, 1, 1)
    ensures Midnight(GoDate(y, 1, 1)) && Midnight(GoDate(y + 1, 1, 1))
  {
    hide MonthStart, MonthOf;
    StartOfMonthFields(12 * y);
  }

  lemma StartOfMonthFields(k: int)
    ensures var t := MonthStart(k) * DAY;
            t / DAY == MonthStart(k) && t % DAY == 0 && MonthOf(t / DAY) == k && DayField(t) == 1
  {
    hide MonthStart, MonthOf;
    ModUnique(MonthStart(k) * DAY, MonthStart(k), 0, DAY);
    MonthOfStart(k);
  }

  /** A half-open range of whole months holds exactly the instants whose month lies in it. */
  lemma MonthRangeHolds(j: int, k: int, t: Instant)
    ensures MonthStart(j) * DAY <= t < MonthStart(k) * DAY <==> j <= MonthOf(t / DAY) < k
  {
    hide MonthStart, MonthOf;
    var m := MonthOf(t / DAY);
    if j <= m { MonthStartMonotone(j, m); } else { MonthStartMonotone(m + 1, j); }
    if m < k { MonthStartMonotone(m + 1, k); } else { MonthStartMonotone(k, m); }
  }

  // ---- COALESCE ----

  lemma CoalesceValue(a: Expr, b: Expr, db: Db, env: Env)
    requires CoalesceEquality(a, b).Some?
    ensures var v := Eval(a.first, db, env);
            var eq := Compare(Eq, v, Eval(b, db, env));
            && Eval(CoalesceEquality(a, b).value.e, db, env)
               == OfTruth(if ConstEqual(a.second, b) then Kleene.Or(eq, Kleene.OfBool(v.Null?)) else eq)
            && Compare(Eq, Eval(a, db, env), Eval(b, db, env))
               == if v.Null? then ConstCompare(a.second, b) else eq
  {
    var eq := Cmp(Eq, a.first, b);
    LogicOr2(eq, NullTest(a.first, true), db, env);
  }

  /** A bound column holding one given value. */
  function OneColumn(col: Expr, v: Value): Env
    requires col.Col?
  {
    map[col.alias := map[col.name := v]]
  }

  /**
   The COALESCE unwrap keeps its value, its TRUE rows or its FALSE rows precisely as its grade says,
   and the grade takes all four values.
   */
  lemma CoalesceGradeIsRight(a: Expr, b: Expr, binds: Binds)
    requires CoalesceEquality(a, b).Some?
    ensures Graded(CoalesceEquality(a, b).value.e, Cmp(Eq, a, b), CoalesceGrade(a.second, b), binds)
  {
    hide Eval, Compare, ConstCompare, ConstEqual;
    var e, r := Cmp(Eq, a, b), CoalesceEquality(a, b).value.e;
    var grade := CoalesceGrade(a.second, b);
    forall db: Db, env: Env | db.binds == binds
      ensures grade.Exact? ==> Eval(r, db, env) == Eval(e, db, env)
      ensures grade.KeepsTrue() ==> (IsTrue(r, db, env) <==> IsTrue(e, db, env))
      ensures grade.KeepsFalse() ==> (IsFalse(r, db, env) <==> IsFalse(e, db, env))
    {
      CoalesceRow(a, b, db, env);
    }
    var db, env := Db(map[], binds), OneColumn(a.first, Null);
    CoalesceValue(a, b, db, env);
    OneColumnValue(a.first, Null, db);
    CmpValue(e, db, env);
    CompareNull(Eq, Eval(b, db, env));
    assert !grade.Exact? ==> Eval(r, db, env) != Eval(e, db, env);
    assert !grade.KeepsTrue() ==> IsTrue(r, db, env) != IsTrue(e, db, env);
    assert !grade.KeepsFalse() ==> IsFalse(r, db, env) != IsFalse(e, db, env);
  }

  lemma CoalesceRow(a: Expr, b: Expr, db: Db, env: Env)
    requires CoalesceEquality(a, b).Some?
    ensures var e, r, grade := Cmp(Eq, a, b), CoalesceEquality(a, b).value.e, CoalesceGrade(a.second, b);
            && (grade.Exact? ==> Eval(r, db, env) == Eval(e, db, env))
            && (grade.KeepsTrue() ==> (IsTrue(r, db, env) <==> IsTrue(e, db, env)))
            && (grade.KeepsFalse() ==> (IsFalse(r, db, env) <==> IsFalse(e, db, env)))
  {
    hide Eval, Compare, ConstCompare, ConstEqual;
    CoalesceValue(a, b, db, env);
    CmpValue(Cmp(Eq, a, b), db, env);
    CompareNull(Eq, Eval(b, db, env));
  }

  /** constEqual reads neither two texts nor two integers in them: Booleans and decimals, say. */
  predicate Unread(a: Expr, b: Expr) {
    (StringConst(a).None? || StringConst(b).None?) && (IntConst(a).None? || IntConst(b).None?)
  }

  /**
   Equal constants that constEqual cannot read drop rows: `COALESCE(active, false) = false` and
   `COALESCE(c, 1.50) = 1.5` lose the NULL ones. The rewrite may still stand under one NOT.
   */
  lemma CoalesceUnreadDropsRows(c: Expr, default: Expr, k: Expr, binds: Binds)
    requires c.Col? && IsConst(default) && IsConst(k) && Unread(default, k) && ConstCompare(default, k).True?
    ensures var a := Coalesce(c, default);
            && CoalesceEquality(a, k).Some?
            && !SameRows(CoalesceEquality(a, k).value.e, Cmp(Eq, a, k), binds)
            && SameFalse(CoalesceEquality(a, k).value.e, Cmp(Eq, a, k), binds)
  {
    hide ConstCompare, SameRows, SameFalse, SameValue;
    CoalesceGradeIsRight(Coalesce(c, default), k, binds);
  }

  /** Every Boolean and every decimal is such a constant. */
  lemma BooleansAndDecimalsUnread(v: Value)
    requires v.Bool? || v.Num?
    ensures Unread(Lit(v), Lit(v)) && ConstCompare(Lit(v), Lit(v)).True?
  {
  }

  /**
   constEqual compares texts, so one instant spelled in two ways drops rows, whatever the spellings:
   `COALESCE(c, '2025-01-01 00:00:00'::timestamp) = '2025-01-01'::timestamp` is a case. The rewrite
   may still stand under one NOT.
   */
  lemma CoalesceSpellingDropsRows(c: Expr, t: Instant, typ: LitType, typ': LitType, text: string, text': string,
      binds: Binds)
    requires c.Col? && text != text' && LiteralTime(t, typ) == LiteralTime(t, typ')
    ensures var a, b := Coalesce(c, TimeLit(t, typ, text)), TimeLit(t, typ', text');
            && CoalesceEquality(a, b).Some?
            && !SameRows(CoalesceEquality(a, b).value.e, Cmp(Eq, a, b), binds)
            && SameFalse(CoalesceEquality(a, b).value.e, Cmp(Eq, a, b), binds)
  {
    hide LiteralTime;
    CoalesceGradeIsRight(Coalesce(c, TimeLit(t, typ, text)), TimeLit(t, typ', text'), binds);
  }

  // ---- Parameters ----

  lemma AddPeriodFromBoundary(u: Unit, b: Instant)
    requires Supported(u) && IsBoundary(u, b)
    ensures AddPeriodTime(u, b) == NextBoundary(u, b)
  {
    hide MonthStart, MonthOf;
    if PeriodMonths(u) > 0 {
      MonthLength(MonthOf(b / DAY) + PeriodMonths(u));
      assert DayField(b) == 1;
    }
  }

  lemma DateTruncParamValue(a: Expr, b: Expr, db: Db, env: Env)
    requires DateTruncEqualityParam(a, b).Some?
    ensures var v, p := Eval(a.arg, db, env), BindValue(b, db.binds);
            var range := Kleene.And(Compare(Ge, v, p), Compare(Lt, v, AddPeriodValue(a.unit, p)));
            Eval(DateTruncEqualityParam(a, b).value.e, db, env)
            == OfTruth(Kleene.And(range, Compare(Eq, DateTruncValue(a.unit, p), p)))
  {
    hide Compare, DateTrunc, AddPeriodTime;
    var range := AndExpr(Cmp(Ge, a.arg, b), Cmp(Lt, a.arg, AddPeriod(b, a.unit)));
    var guard := Cmp(Eq, DateTruncFn(a.unit, b), b);
    RangeValue(a.arg, b, AddPeriod(b, a.unit), db, env);
    LogicAnd2(range, guard, db, env);
    assert Eval(DateTruncFn(a.unit, b), db, env) == DateTruncValue(a.unit, BindValue(b, db.binds));
  }

  /**
   The parameterised equality, for every bind value (aligned, misaligned, NULL) and every column
   value: TRUE for the same rows always, and the same value whenever the bind is aligned.
   */
  lemma DateTruncParamRow(a: Expr, b: Expr, db: Db, env: Env)
    requires DateTruncEqualityParam(a, b).Some?
    ensures var e, r := Cmp(Eq, a, b), DateTruncEqualityParam(a, b).value.e;
            && (IsTrue(r, db, env) <==> IsTrue(e, db, env))
            && (BindAligned(a.unit, b, db.binds) ==> Eval(r, db, env) == Eval(e, db, env))
  {
    hide DateTrunc, IsBoundary, NextBoundary, AddPeriodTime, Compare;
    var u := a.unit;
    var v, p := Eval(a.arg, db, env), BindValue(b, db.binds);
    DateTruncParamValue(a, b, db, env);
    assert Eval(a, db, env) == DateTruncValue(u, v);
    assert Eval(Cmp(Eq, a, b), db, env) == OfTruth(Compare(Eq, DateTruncValue(u, v), p));
    CompareNull(Ge, v);
    CompareNull(Lt, v);
    CompareNull(Eq, DateTruncValue(u, v));
    CompareNull(Eq, p);
    CompareNonTime(Eq, DateTruncValue(u, v), p);
    if p.Time? {
      assert p == Time(p.t);
      CompareTime(Ge, v, p.t);
      CompareTime(Lt, v, AddPeriodTime(u, p.t));
      CompareTime(Eq, DateTruncValue(u, p), p.t);
      CompareTime(Eq, DateTruncValue(u, v), p.t);
      DateTruncFixpoint(u, p.t);
      if IsBoundary(u, p.t) {
        AddPeriodFromBoundary(u, p.t);
      }
      if v.Time? {
        DateTruncSandwich(u, v.t);
        if IsBoundary(u, p.t) {
          DateTruncGreatest(u, v.t, p.t);
        }
      }
    }
  }

  lemma CompareNull(op: CmpOp, v: Value)
    ensures Compare(op, v, Null) == Compare(op, Null, v) == Kleene.Unknown
  {
  }

  lemma CompareNonTime(op: CmpOp, v: Value, p: Value)
    requires v.Time? || v.Null?
    ensures !p.Time? ==> Compare(op, v, p) == Kleene.Unknown
  {
  }

  /** The parameterised DATE_TRUNC rewrite may stand under an odd number of NOTs precisely when the bind is aligned. */
  lemma DateTruncParamGradeIsRight(a: Expr, b: Expr, binds: Binds)
    requires DateTruncEqualityParam(a, b).Some? && TemporalBind(b, binds)
    ensures Graded(DateTruncEqualityParam(a, b).value.e, Cmp(Eq, a, b), DateTruncParamGrade(a, b, binds), binds)
  {
    hide DateTrunc, IsBoundary, Compare, AddPeriodTime;
    var e, r := Cmp(Eq, a, b), DateTruncEqualityParam(a, b).value.e;
    forall db: Db, env: Env | db.binds == binds
      ensures IsTrue(r, db, env) <==> IsTrue(e, db, env)
      ensures BindAligned(a.unit, b, binds) ==> Eval(r, db, env) == Eval(e, db, env)
    {
      DateTruncParamRow(a, b, db, env);
    }
    if !BindAligned(a.unit, b, binds) {
      DateTruncParamNotExact(a, b, binds);
      var db, env := Db(map[], binds), OneColumn(a.arg, Null);
      assert IsFalse(r, db, env) && !IsFalse(e, db, env);
    }
  }

  /** With a misaligned bind a NULL column tells the two apart: unknown before, false after. */
  lemma DateTruncParamNotExact(a: Expr, b: Expr, binds: Binds)
    requires DateTruncEqualityParam(a, b).Some? && TemporalBind(b, binds) && !BindAligned(a.unit, b, binds)
    ensures var db, env := Db(map[], binds), OneColumn(a.arg, Null);
            && Eval(Cmp(Eq, a, b), db, env) == Null
            && Eval(DateTruncEqualityParam(a, b).value.e, db, env) == Bool(false)
  {
    hide DateTrunc, IsBoundary, Compare, AddPeriodTime;
    var db, env := Db(map[], binds), OneColumn(a.arg, Null);
    var u, p := a.unit, BindValue(b, binds);
    DateTruncParamValue(a, b, db, env);
    DateTruncFixpoint(u, p.t);
    assert Eval(a, db, env) == DateTruncValue(u, Null);
    CompareNull(Ge, p);
    CompareNull(Eq, p);
    CompareNull(Lt, AddPeriodValue(u, p));
    CompareTime(Eq, DateTruncValue(u, p), p.t);
  }

  /** Adding one unit always moves forward, even where the day of the month is clamped. */
  lemma AddPeriodLater(u: Unit, t: Instant)
    ensures AddPeriodTime(u, t) > t
  {
    hide MonthStart, MonthOf;
    var months := PeriodMonths(u);
    if months > 0 {
      var k := MonthOf(DayOf(t));
      MonthStartMonotone(k + 1, k + months);
      MonthLength(k + months);
      assert DayOf(t) + 1 <= MonthStart(k + months);
    }
  }

  /**
   Why the guard `date_trunc(unit, $n) = $n` is needed: without it, the range alone keeps the row
   whose column equals a misaligned bind, while the equality holds for no row at all.
   */
  lemma RangeAloneInventsRows(a: Expr, b: Expr, binds: Binds)
    requires DateTruncEqualityParam(a, b).Some? && TemporalBind(b, binds) && !BindAligned(a.unit, b, binds)
    ensures var db, env := Db(map[], binds), OneColumn(a.arg, BindValue(b, binds));
            && IsTrue(AndExpr(Cmp(Ge, a.arg, b), Cmp(Lt, a.arg, AddPeriod(b, a.unit))), db, env)
            && Eval(Cmp(Eq, a, b), db, env) == Bool(false)
  {
    hide DateTrunc, IsBoundary, Compare, AddPeriodTime;
    var u, p := a.unit, BindValue(b, binds);
    var db, env := Db(map[], binds), OneColumn(a.arg, p);
    RangeValue(a.arg, b, AddPeriod(b, u), db, env);
    AddPeriodLater(u, p.t);
    DateTruncFixpoint(u, p.t);
    DateTruncFnValue(a, db, env);
    CompareTime(Ge, p, p.t);
    CompareTime(Lt, p, AddPeriodTime(u, p.t));
    CompareTime(Eq, DateTruncValue(u, p), p.t);
  }

  lemma CastDateParamValue(col: Expr, lo: Expr, hi: Expr, db: Db, env: Env)
    requires col.Col? && lo.Param? && hi.Param?
    ensures var v, p, q := Eval(col, db, env), BindValue(lo, db.binds), BindValue(hi, db.binds);
            Eval(CastDateParamRange(col, lo, hi), db, env)
            == OfTruth(Kleene.And(Compare(Ge, v, CastDateValue(p)),
                                  Compare(Lt, v, AddPeriodValue(Day, CastDateValue(q)))))
  {
    hide Compare, AddPeriodTime;
    RangeValue(col, CastDate(lo), AddPeriod(CastDate(hi), Day), db, env);
    assert Eval(CastDate(hi), db, env) == CastDateValue(BindValue(hi, db.binds));
  }

  lemma CastDateBetweenParamBefore(e: Expr, db: Db, env: Env)
    requires TryCastDateBetweenParam(e).Some?
    ensures var v, p, q := Eval(e.e.arg, db, env), BindValue(e.lo, db.binds), BindValue(e.hi, db.binds);
            Eval(e, db, env) == OfTruth(Kleene.And(Compare(Ge, CastDateValue(v), p), Compare(Le, CastDateValue(v), q)))
  {
    hide Compare;
    CastDateFnValue(e.e, db, env);
  }

  /** How the rewritten BETWEEN and the original relate on every row, for every pair of binds. */
  lemma CastDateBetweenParamRow(e: Expr, db: Db, env: Env)
    requires TryCastDateBetweenParam(e).Some?
    ensures var r, grade := TryCastDateBetweenParam(e).value.e, CastDateParamGrade(e.lo, e.hi, db.binds);
            && (grade.Exact? ==> Eval(r, db, env) == Eval(e, db, env))
            && (grade.KeepsTrue() ==> (IsTrue(r, db, env) <==> IsTrue(e, db, env)))
  {
    hide Compare, Eval, IsBoundary, CastDateParamRange;
    var v, p, q := Eval(e.e.arg, db, env), BindValue(e.lo, db.binds), BindValue(e.hi, db.binds);
    CastDateParamValue(e.e.arg, e.lo, e.hi, db, env);
    CastDateBetweenParamBefore(e, db, env);
    CastDateBoundHigh(v, q);
    if BindAligned(Day, e.lo, db.binds) {
      CastDateBoundLow(v, p);
    } else if p.Time? && q.Time? {
      CompareTime(Ge, v, p.t / DAY * DAY);
      CompareTime(Ge, CastDateValue(v), p.t);
      CompareTime(Le, CastDateValue(v), q.t);
    } else if p.Time? && q.Null? {
      CompareNull(Le, CastDateValue(v));
    }
  }

  /** The parameterised BETWEEN keeps its values, or only its rows, precisely as its grade says. */
  lemma CastDateBetweenParamGradeIsRight(e: Expr, binds: Binds)
    requires TryCastDateBetweenParam(e).Some? && TemporalBind(e.lo, binds) && TemporalBind(e.hi, binds)
    ensures Graded(TryCastDateBetweenParam(e).value.e, e, CastDateParamGrade(e.lo, e.hi, binds), binds)
  {
    hide Eval, Compare, CastDateParamRange;
    var r, grade := TryCastDateBetweenParam(e).value.e, CastDateParamGrade(e.lo, e.hi, binds);
    forall db: Db, env: Env | db.binds == binds
      ensures grade.Exact? ==> Eval(r, db, env) == Eval(e, db, env)
      ensures grade.KeepsTrue() ==> (IsTrue(r, db, env) <==> IsTrue(e, db, env))
    {
      CastDateBetweenParamRow(e, db, env);
    }
    if !grade.Exact? {
      CastDateBetweenParamLosesDay(e, binds);
      var db, env := Db(map[], binds), OneColumn(e.e.arg, Time(BindValue(e.lo, binds).t / DAY * DAY));
      assert Eval(r, db, env) != Eval(e, db, env);
      assert !grade.KeepsTrue() ==> IsTrue(r, db, env) != IsTrue(e, db, env);
      assert IsFalse(r, db, env) != IsFalse(e, db, env);
    }
  }

  /** On the midnight of the lower bind's day the original is false, and the range is not. */
  lemma CastDateBetweenParamLosesDay(e: Expr, binds: Binds)
    requires TryCastDateBetweenParam(e).Some? && TemporalBind(e.lo, binds) && TemporalBind(e.hi, binds)
    requires !CastDateParamGrade(e.lo, e.hi, binds).Exact?
    ensures var t := BindValue(e.lo, binds).t / DAY * DAY;
            var db, env := Db(map[], binds), OneColumn(e.e.arg, Time(t));
            && Eval(e, db, env) == Bool(false)
            && Eval(TryCastDateBetweenParam(e).value.e, db, env)
               == if CastDateParamGrade(e.lo, e.hi, binds).Unsafe? then Bool(true) else Null
  {
    hide Eval, Compare, CastDateParamRange, MonthStart, MonthOf;
    var p, q := BindValue(e.lo, binds), BindValue(e.hi, binds);
    var t := p.t / DAY * DAY;
    var db, env := Db(map[], binds), OneColumn(e.e.arg, Time(t));
    OneColumnValue(e.e.arg, Time(t), db);
    DayFloors(p.t);
    CastDateParamValue(e.e.arg, e.lo, e.hi, db, env);
    CastDateBetweenParamBefore(e, db, env);
    CompareTime(Ge, Time(t), t);
    CompareTime(Ge, Time(t), p.t);
    if q.Time? {
      CompareTime(Lt, Time(t), q.t / DAY * DAY + DAY);
      CompareTime(Le, Time(t), q.t);
    } else {
      CompareNull(Lt, Time(t));
      CompareNull(Le, Time(t));
    }
  }

  lemma CastDateBoundLow(v: Value, p: Value)
    requires p.Null? || (p.Time? && IsBoundary(Day, p.t))
    ensures Compare(Ge, v, CastDateValue(p)) == Compare(Ge, CastDateValue(v), p)
  {
    hide Compare, MonthStart, MonthOf;
    CompareNull(Ge, v);
    CompareNull(Ge, CastDateValue(v));
    if p.Time? {
      CompareTime(Ge, v, p.t / DAY * DAY);
      CompareTime(Ge, CastDateValue(v), p.t);
      if v.Time? { CastDateAdjunction(p.t, v.t); }
    }
  }

  lemma CastDateBoundHigh(v: Value, q: Value)
    ensures Compare(Lt, v, AddPeriodValue(Day, CastDateValue(q))) == Compare(Le, CastDateValue(v), q)
  {
    hide Compare, MonthStart, MonthOf;
    CompareNull(Lt, v);
    CompareNonTime(Le, CastDateValue(v), q);
    if q.Time? {
      CompareTime(Lt, v, q.t / DAY * DAY + DAY);
      CompareTime(Le, CastDateValue(v), q.t);
      if v.Time? { CastDateAdjunction(q.t, v.t); }
    }
  }

  lemma CastDateParamExact(a: Expr, b: Expr, db: Db, env: Env)
    requires CastDateEqualityParam(a, b).Some? && BindAligned(Day, b, db.binds)
    ensures Eval(CastDateEqualityParam(a, b).value.e, db, env) == Eval(Cmp(Eq, a, b), db, env)
  {
    hide Compare;
    var v, p := Eval(a.arg, db, env), BindValue(b, db.binds);
    CastDateParamValue(a.arg, b, b, db, env);
    assert Eval(a, db, env) == CastDateValue(v);
    CastDateBoundLow(v, p);
    CastDateBoundHigh(v, p);
    CompareIsBoth(CastDateValue(v), p);
  }

  lemma CompareIsBoth(x: Value, y: Value)
    requires x.Time? || x.Null?
    ensures Compare(Eq, x, y) == Kleene.And(Compare(Ge, x, y), Compare(Le, x, y))
  {
  }

  /** A bind with a time of day: `col::date = $n` holds for no row, the rewrite for every row of that day. */
  lemma CastDateParamInventsRows(a: Expr, b: Expr, binds: Binds)
    requires CastDateEqualityParam(a, b).Some? && TemporalBind(b, binds) && !BindAligned(Day, b, binds)
    ensures var db, env := Db(map[], binds), OneColumn(a.arg, BindValue(b, binds));
            && IsTrue(CastDateEqualityParam(a, b).value.e, db, env)
            && Eval(Cmp(Eq, a, b), db, env) == Bool(false)
  {
    hide Compare, MonthStart, MonthOf;
    var p := BindValue(b, binds);
    var db, env := Db(map[], binds), OneColumn(a.arg, p);
    CastDateParamValue(a.arg, b, b, db, env);
    assert Eval(a, db, env) == CastDateValue(p);
    CompareTime(Ge, p, p.t / DAY * DAY);
    CompareTime(Lt, p, p.t / DAY * DAY + DAY);
    CompareTime(Eq, CastDateValue(p), p.t);
  }

  /** `col::date = $n` keeps anything precisely when the bind is a midnight (or no instant at all). */
  lemma CastDateParamGradeIsRight(a: Expr, b: Expr, binds: Binds)
    requires CastDateEqualityParam(a, b).Some? && TemporalBind(b, binds)
    ensures Graded(CastDateEqualityParam(a, b).value.e, Cmp(Eq, a, b), Grading(BindAligned(Day, b, binds)), binds)
  {
    var e, r := Cmp(Eq, a, b), CastDateEqualityParam(a, b).value.e;
    if BindAligned(Day, b, binds) {
      forall db: Db, env: Env | db.binds == binds
        ensures Eval(r, db, env) == Eval(e, db, env)
      {
        CastDateParamExact(a, b, db, env);
      }
      ExactIsRight(r, e, binds);
    } else {
      CastDateParamInventsRows(a, b, binds);
      UnsafeIsRight(r, e, binds, Db(map[], binds), OneColumn(a.arg, BindValue(b, binds)));
    }
  }

  // ---- Any site ----

  lemma {:induction false} OrderStringsReverse(a: string, b: string)
    ensures OrderStrings(b, a) == Reverse(OrderStrings(a, b))
    decreases |a|
  {
    if a != [] && b != [] {
      OrderStringsReverse(a[1..], b[1..]);
    }
  }

  lemma EqSymmetric(a: Value, b: Value)
    ensures Compare(Eq, a, b) == Compare(Eq, b, a)
  {
    if a.Str? && b.Str? {
      OrderStringsReverse(a.s, b.s);
    }
  }

  /** The six equality matchers on one orientation. */
  function OneSided(a: Expr, b: Expr): Option<Rewrite> {
    OrElse(DateTruncEquality(a, b), OrElse(CastDateEquality(a, b), OrElse(ExtractYearEquality(a, b),
      OrElse(CoalesceEquality(a, b), OrElse(DateTruncEqualityParam(a, b), CastDateEqualityParam(a, b))))))
  }

  lemma EqualitiesAreOneSided(e: Expr)
    requires e.Cmp?
    ensures TryEqualities(e.l, e.r) == OneSided(Oriented(e).0, Oriented(e).1)
  {
    hide TruncateTime, RangeEndOf, AddDate, GoDate, RangeExpr, RangeOnColumn, ConstEqual;
  }

  lemma OneSidedMeaning(a: Expr, b: Expr, db: Db, env: Env)
    requires OneSided(a, b).Some?
    ensures var e, r, grade := Cmp(Eq, a, b), OneSided(a, b).value.e, CmpGrade(Eq, a, b, db.binds);
            && (grade.Exact? ==> Eval(r, db, env) == Eval(e, db, env))
            && (grade.KeepsTrue() ==> (IsTrue(r, db, env) <==> IsTrue(e, db, env)))
            && (grade.KeepsFalse() ==> (IsFalse(r, db, env) <==> IsFalse(e, db, env)))
  {
    hide TruncateTime, RangeEndOf, AddDate, GoDate, RangeExpr, RangeOnColumn, CoalesceGrade, ConstEqual, IsBoundary,
         Compare;
    if DateTruncEquality(a, b).Some? {
      if DateTruncEqualityGuard(a.unit, b.typ) { DateTruncEqualityExact(a, b, db, env); }
    } else if CastDateEquality(a, b).Some? {
      CastDateEqualityExact(a, b, db, env);
    } else if ExtractYearEquality(a, b).Some? {
      ExtractYearExact(a, b, db, env);
    } else if CoalesceEquality(a, b).Some? {
      CoalesceRow(a, b, db, env);
    } else if DateTruncEqualityParam(a, b).Some? {
      DateTruncParamRow(a, b, db, env);
    } else {
      if BindAligned(Day, b, db.binds) { CastDateParamExact(a, b, db, env); }
    }
  }

  lemma BetweenMeaning(e: Expr, db: Db, env: Env)
    requires e.Between? && TryRewrite(e).Some?
    ensures var r, grade := TryRewrite(e).value.e, BetweenGrade(e, db.binds);
            && (grade.Exact? ==> Eval(r, db, env) == Eval(e, db, env))
            && (grade.KeepsTrue() ==> (IsTrue(r, db, env) <==> IsTrue(e, db, env)))
            && !grade.OnlyFalse?
  {
    hide TruncateTime, AddDate, RangeExpr, RangeOnColumn, IsBoundary, Compare, Eval, Faithful,
      DateTruncBetweenGuard, CastDateBetweenGuard, PeriodStartAtOrAfter, PeriodEndForUpper;
    if TryDateTruncBetween(e).Some? {
      if BetweenGrade(e, db.binds).Exact? { DateTruncBetweenExact(e, db, env); }
    } else if TryCastDateBetween(e).Some? {
      if BetweenGrade(e, db.binds).Exact? { CastDateBetweenExact(e, db, env); }
    } else {
      CastDateBetweenParamRow(e, db, env);
    }
  }

  lemma InequalityMeaning(e: Expr, db: Db, env: Env)
    requires e.Cmp? && !e.op.Eq? && TryRewrite(e).Some? && CmpGrade(e.op, e.l, e.r, db.binds).Exact?
    ensures Eval(TryRewrite(e).value.e, db, env) == Eval(e, db, env)
  {
    hide TruncateTime, AddDate, IsBoundary, Compare, Eval, Faithful, TemporalLiteral,
      PeriodStartAtOrAfter, PeriodEndForUpper, PeriodStartAfter, PeriodEndForLess;
    if TryDateTruncInequality(e).Some? {
      DateTruncInequalityExact(e, db, env);
    } else {
      CastDateInequalityExact(e, db, env);
    }
  }

  /** The grade of a site tells what replacing it preserves on every row. */
  lemma SiteMeaning(e: Expr, db: Db, env: Env)
    requires TryRewrite(e).Some?
    ensures var r, grade := TryRewrite(e).value.e, GradeOf(e, db.binds);
            && (grade.Exact? ==> Eval(r, db, env) == Eval(e, db, env))
            && (grade.KeepsTrue() ==> (IsTrue(r, db, env) <==> IsTrue(e, db, env)))
            && (grade.KeepsFalse() ==> (IsFalse(r, db, env) <==> IsFalse(e, db, env)))
  {
    hide Eval, OneSided, TryEqualities, BetweenGrade, CmpGrade, TemporalLiteral, RangeExpr, TruncateTime, AddDate,
      PeriodStartAtOrAfter, PeriodEndForUpper, PeriodStartAfter, PeriodEndForLess;
    if e.Between? {
      BetweenMeaning(e, db, env);
    } else if e.op.Eq? {
      var (a, b) := Oriented(e);
      EqualitiesAreOneSided(e);
      OneSidedMeaning(a, b, db, env);
      CmpValue(e, db, env);
      CmpValue(Cmp(Eq, a, b), db, env);
      EqSymmetric(Eval(e.l, db, env), Eval(e.r, db, env));
    } else {
      InequalityIsWrapped(e, db.binds);
      if CmpGrade(e.op, e.l, e.r, db.binds).Exact? { InequalityMeaning(e, db, env); }
    }
  }

  /** Parameters that are compared with instants are bound to instants or NULL. */
  predicate TemporalSite(e: Expr, binds: Binds) {
    if e.Between? then (e.lo.Param? ==> TemporalBind(e.lo, binds)) && (e.hi.Param? ==> TemporalBind(e.hi, binds))
    else e.Cmp? ==> (e.l.Param? ==> TemporalBind(e.l, binds)) && (e.r.Param? ==> TemporalBind(e.r, binds))
  }

  lemma OneSidedGradeIsRight(a: Expr, b: Expr, binds: Binds)
    requires OneSided(a, b).Some? && (b.Param? ==> TemporalBind(b, binds))
    ensures Graded(OneSided(a, b).value.e, Cmp(Eq, a, b), CmpGrade(Eq, a, b, binds), binds)
  {
    hide TruncateTime, RangeEndOf, AddDate, GoDate, RangeExpr, RangeOnColumn, CoalesceGrade, ConstEqual, IsBoundary,
         Compare, Graded, SameValue, Eval, CoalesceEquality, BindAligned, TemporalBind;
    if DateTruncEquality(a, b).Some? {
      DateTruncEqualityGradeIsRight(a, b, binds);
    } else if CastDateEquality(a, b).Some? {
      CastDateEqualityGradeIsRight(a, b, binds);
    } else if ExtractYearEquality(a, b).Some? {
      ExtractYearGradeIsRight(a, b, binds);
    } else if CoalesceEquality(a, b).Some? {
      CoalesceShape(a, b);
      CoalesceGradeIsRight(a, b, binds);
    } else if DateTruncEqualityParam(a, b).Some? {
      DateTruncParamGradeIsRight(a, b, binds);
    } else {
      CastDateParamGradeIsRight(a, b, binds);
    }
  }

  lemma CoalesceShape(a: Expr, b: Expr)
    requires CoalesceEquality(a, b).Some?
    ensures a.Coalesce? && IsConst(a.second) && IsConst(b)
  {
  }

  lemma CastDateEqualityGradeIsRight(a: Expr, b: Expr, binds: Binds)
    requires CastDateEquality(a, b).Some?
    ensures Graded(CastDateEquality(a, b).value.e, Cmp(Eq, a, b), Exact, binds)
  {
    hide CastDateEquality, Eval, Compare;
    var e, r := Cmp(Eq, a, b), CastDateEquality(a, b).value.e;
    forall db: Db, env: Env | db.binds == binds ensures Eval(r, db, env) == Eval(e, db, env) {
      CastDateEqualityExact(a, b, db, env);
      CmpValue(e, db, env);
    }
    ExactIsRight(r, e, binds);
  }

  lemma ExtractYearGradeIsRight(a: Expr, b: Expr, binds: Binds)
    requires ExtractYearEquality(a, b).Some?
    ensures Graded(ExtractYearEquality(a, b).value.e, Cmp(Eq, a, b), Exact, binds)
  {
    hide ExtractYearEquality, Eval, Compare;
    var e, r := Cmp(Eq, a, b), ExtractYearEquality(a, b).value.e;
    forall db: Db, env: Env | db.binds == binds ensures Eval(r, db, env) == Eval(e, db, env) {
      ExtractYearExact(a, b, db, env);
      CmpValue(e, db, env);
    }
    ExactIsRight(r, e, binds);
  }

  lemma BetweenGradeIsRight(e: Expr, binds: Binds)
    requires e.Between? && TryRewrite(e).Some? && TemporalSite(e, binds)
    ensures Graded(TryRewrite(e).value.e, e, BetweenGrade(e, binds), binds)
  {
    hide TruncateTime, AddDate, RangeExpr, RangeOnColumn, Eval, Faithful, Graded, TemporalBind, CastDateParamGrade,
         DateTruncBetweenGuard, CastDateBetweenGuard, PeriodStartAtOrAfter, PeriodEndForUpper;
    if TryDateTruncBetween(e).Some? {
      DateTruncBetweenGradeIsRight(e, binds);
    } else if TryCastDateBetween(e).Some? {
      CastDateBetweenGradeIsRight(e, binds);
    } else {
      CastDateBetweenParamGradeIsRight(e, binds);
    }
  }

  lemma InequalityGradeIsRight(e: Expr, binds: Binds)
    requires e.Cmp? && !e.op.Eq? && TryRewrite(e).Some?
    ensures Graded(TryRewrite(e).value.e, e, CmpGrade(e.op, e.l, e.r, binds), binds)
  {
    hide TruncateTime, AddDate, Eval, Faithful, Graded, TemporalLiteral, InequalityGuard, CastDateInequalityGuard,
         PeriodStartAtOrAfter, PeriodEndForUpper, PeriodStartAfter, PeriodEndForLess;
    if TryDateTruncInequality(e).Some? {
      DateTruncInequalityGradeIsRight(e, binds);
    } else {
      CastDateInequalityGradeIsRight(e, binds);
    }
  }

  /**
   The grade of every site the rewriter replaces is right in all directions: the value, the TRUE rows
   and the FALSE rows are each kept, on all rows of all databases, precisely as the grade says.
   */
  lemma GradeIsRight(e: Expr, binds: Binds)
    requires TryRewrite(e).Some? && TemporalSite(e, binds)
    ensures Graded(TryRewrite(e).value.e, e, GradeOf(e, binds), binds)
  {
    hide Eval, OneSided, TryEqualities, BetweenGrade, CmpGrade, TemporalLiteral, RangeExpr, TruncateTime, AddDate,
      PeriodStartAtOrAfter, PeriodEndForUpper, PeriodStartAfter, PeriodEndForLess, Graded, TemporalBind;
    if e.Between? {
      BetweenGradeIsRight(e, binds);
    } else if e.op.Eq? {
      var (a, b) := Oriented(e);
      EqualitiesAreOneSided(e);
      OneSidedGradeIsRight(a, b, binds);
      OrientedAlike(e, binds);
      GradedAlike(OneSided(a, b).value.e, Cmp(Eq, a, b), e, CmpGrade(Eq, a, b, binds), binds);
    } else {
      InequalityIsWrapped(e, binds);
      InequalityGradeIsRight(e, binds);
    }
  }

  lemma OrientedAlike(e: Expr, binds: Binds)
    requires e.Cmp? && e.op.Eq?
    ensures SameValue(Cmp(Eq, Oriented(e).0, Oriented(e).1), e, binds)
  {
    hide Eval;
    var (a, b) := Oriented(e);
    forall db: Db, env: Env | db.binds == binds ensures Eval(Cmp(Eq, a, b), db, env) == Eval(e, db, env) {
      CmpValue(e, db, env);
      CmpValue(Cmp(Eq, a, b), db, env);
      EqSymmetric(Eval(e.l, db, env), Eval(e.r, db, env));
    }
  }

  lemma CmpValue(e: Expr, db: Db, env: Env)
    requires e.Cmp?
    ensures Eval(e, db, env) == OfTruth(Compare(e.op, Eval(e.l, db, env), Eval(e.r, db, env)))
  {
  }

  lemma InequalityIsWrapped(e: Expr, binds: Binds)
    requires e.Cmp? && !e.op.Eq? && TryRewrite(e).Some?
    ensures Oriented(e) == (e.l, e.r)
    ensures (CmpGrade(e.op, e.l, e.r, binds).Exact? || CmpGrade(e.op, e.l, e.r, binds).Unsafe?)
  {
    hide TruncateTime, AddDate, IsBoundary, Faithful, TemporalLiteral,
      PeriodStartAtOrAfter, PeriodEndForUpper, PeriodStartAfter, PeriodEndForLess;
  }
}
