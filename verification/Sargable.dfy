/**
 The sargable unwraps of one comparison or BETWEEN: the matchers of rewriter.go,
 rewriter_sargable.go and rewriter_sargable_param.go, in the order the rewriter tries them.
 */
module Sargable {
  import opened Options
  import opened Calendar
  import opened PeriodBounds
  import opened SqlSyntax
  import opened Text

  datatype Kind = DateTruncKind | CastDateKind | ExtractKind | CoalesceKind | DateTruncParamKind | CastDateParamKind

  /** What the rewriter records about one replacement. */
  datatype Info = Info(kind: Kind, alias: string, name: string)

  datatype Rewrite = Rewrite(e: Expr, info: Info)

  // ---- Literals ----

  /** Go's layout `2006-01-02`. */
  function DateText(t: Instant): string {
    Padded(YearField(t), 4) + "-" + Padded(MonthField(t), 2) + "-" + Padded(DayField(t), 2)
  }

  /** Go's layout `2006-01-02 15:04:05`. */
  function TimestampText(t: Instant): string {
    DateText(t) + " " + Padded(t % DAY / HOUR, 2)
        + ":" + Padded(t % HOUR / MINUTE, 2) + ":" + Padded(t % MINUTE / SECOND, 2)
  }

  /** rewriter.go, temporalLiteralNode: a date prints no time of day, a timestamp no fraction of a second. */
  function TemporalLiteral(t: Instant, typ: LitType): Expr {
    match typ
    case DateLit => TimeLit(t / DAY * DAY, DateLit, DateText(t))
    case TimestampLit => TimeLit(t / SECOND * SECOND, TimestampLit, TimestampText(t))
  }

  /** The two comparisons of a half-open range on a column. */
  function RangeExpr(col: Expr, start: Instant, end: Instant, typ: LitType): Expr {
    AndExpr(Cmp(Ge, col, TemporalLiteral(start, typ)), Cmp(Lt, col, TemporalLiteral(end, typ)))
  }

  function Replace(col: Expr, e: Expr, kind: Kind): Option<Rewrite>
    requires col.Col?
  {
    Some(Rewrite(e, Info(kind, col.alias, col.name)))
  }

  /** rewriter_sargable.go, rangeOnColumn: the bounds are always printed as dates. */
  function RangeOnColumn(col: Expr, start: Instant, end: Instant, kind: Kind): Option<Rewrite>
    requires col.Col?
  {
    Replace(col, RangeExpr(col, start, end, DateLit), kind)
  }

  predicate IsDateTruncOfColumn(e: Expr) {
    e.DateTruncFn? && e.arg.Col?
  }

  predicate IsCastDateOfColumn(e: Expr) {
    e.CastDate? && e.arg.Col?
  }

  /** rewriter.go, stringConstValue: the text between the quotes, casts looked through. */
  function StringConst(e: Expr): Option<string> {
    if e.Lit? && e.v.Str? then Some(e.v.s) else if e.TimeLit? then Some(e.text) else None
  }

  /** rewriter.go, intConstValue. */
  function IntConst(e: Expr): Option<int> {
    if e.Lit? && e.v.Int? then Some(e.v.i) else if StringConst(e).Some? then ParseInt64(StringConst(e).value) else None
  }

  /** An EXTRACT is numeric, so in a resolved tree the literal it is compared with is one too. */
  function IntLiteral(e: Expr): Option<int> {
    if e.Lit? && e.v.Int? then Some(e.v.i) else None
  }

  predicate IsConst(e: Expr) {
    e.Lit? || e.TimeLit?
  }

  /** rewriter.go, constEqual: equal texts, or else equal integers, and never equal otherwise. */
  predicate ConstEqual(a: Expr, b: Expr) {
    if StringConst(a).Some? && StringConst(b).Some? then StringConst(a) == StringConst(b)
    else IntConst(a).Some? && IntConst(a) == IntConst(b)
  }

  /** Equal texts are equal constants, whatever they are cast to; so are equal integers, one of them perhaps a text. */
  lemma ConstEqualByKind(a: string, b: string, m: int, n: int, s: Instant, t: Instant, typ: LitType, typ': LitType)
    ensures ConstEqual(Lit(Str(a)), Lit(Str(b))) <==> a == b
    ensures ConstEqual(TimeLit(s, typ, a), TimeLit(t, typ', b)) <==> a == b
    ensures ConstEqual(Lit(Str(a)), TimeLit(t, typ', b)) <==> a == b
    ensures ConstEqual(Lit(Int(m)), Lit(Int(n))) <==> m == n
    ensures ConstEqual(Lit(Int(m)), Lit(Str(b))) <==> ParseInt64(b) == Some(m)
    ensures ConstEqual(Lit(Str(a)), Lit(Int(n))) <==> ParseInt64(a) == Some(n)
  {
    hide ParseInt64;
  }

  /** A printed date has ten characters, and its parts read back as the fields of the instant. */
  lemma DateReadsBack(t: Instant)
    requires 1 <= YearField(t) <= 9999
    ensures var s := DateText(t);
            && |s| == 10 && s[4] == '-' && s[7] == '-'
            && AllDigits(s[..4]) && AllDigits(s[5..7]) && AllDigits(s[8..10])
            && Digits(s[..4]) == YearField(t) && Digits(s[5..7]) == MonthField(t) && Digits(s[8..10]) == DayField(t)
  {
    hide YearField, MonthField, Padded, AllDigits, Digits, DayField;
    FieldBounds(t);
    var y, m, d := Padded(YearField(t), 4), Padded(MonthField(t), 2), Padded(DayField(t), 2);
    Powers();
    PaddedReadsBack(YearField(t), 4);
    PaddedReadsBack(MonthField(t), 2);
    PaddedReadsBack(DayField(t), 2);
    var s := y + "-" + m + "-" + d;
    assert s[..4] == y && s[5..7] == m && s[8..10] == d;
  }

  /** A printed timestamp is the date, a blank and the time of day down to the second. */
  lemma TimestampReadsBack(t: Instant)
    requires 1 <= YearField(t) <= 9999
    ensures var s := TimestampText(t);
            && |s| == 19 && s[..10] == DateText(t) && s[10] == ' ' && s[13] == ':' && s[16] == ':'
            && AllDigits(s[11..13]) && AllDigits(s[14..16]) && AllDigits(s[17..19])
            && t % DAY / SECOND == 3600 * Digits(s[11..13]) + 60 * Digits(s[14..16]) + Digits(s[17..19])
            && Digits(s[11..13]) < 24 && Digits(s[14..16]) < 60 && Digits(s[17..19]) < 60
  {
    hide YearField, Padded, AllDigits, Digits, DateText;
    var h, m, c := t % DAY / HOUR, t % HOUR / MINUTE, t % MINUTE / SECOND;
    TimeOfDay(t);
    DateReadsBack(t);
    TwoDigits(h);
    TwoDigits(m);
    TwoDigits(c);
    TextParts(DateText(t), Padded(h, 2), Padded(m, 2), Padded(c, 2));
  }

  lemma TwoDigits(n: nat)
    requires n < 100
    ensures |Padded(n, 2)| == 2 && AllDigits(Padded(n, 2)) && Digits(Padded(n, 2)) == n
  {
    hide Padded, AllDigits, Digits;
    Powers();
    PaddedReadsBack(n, 2);
  }

  lemma TextParts(date: string, h: string, m: string, c: string)
    requires |date| == 10 && |h| == |m| == |c| == 2
    ensures var s := date + " " + h + ":" + m + ":" + c;
            && |s| == 19 && s[..10] == date && s[10] == ' ' && s[13] == ':' && s[16] == ':'
            && s[11..13] == h && s[14..16] == m && s[17..19] == c
  {
  }

  lemma Powers()
    ensures Power10(2) == 100 && Power10(4) == 10_000
  {
    assert Power10(1) == 10 && Power10(3) == 1000;
  }

  lemma FieldBounds(t: Instant)
    ensures 1 <= MonthField(t) <= 12 && 1 <= DayField(t) <= 31
  {
    hide MonthStart, MonthOf;
    MonthLength(MonthOf(t / DAY));
  }

  lemma TimeOfDay(t: Instant)
    ensures var h, m, c := t % DAY / HOUR, t % HOUR / MINUTE, t % MINUTE / SECOND;
            0 <= h < 24 && 0 <= m < 60 && 0 <= c < 60 && t % DAY / SECOND == 3600 * h + 60 * m + c
  {
    var x := t % DAY;
    ModUnique(t, t / DAY * 24 + x / HOUR, x % HOUR, HOUR);
    ModUnique(t, t / DAY * 1440 + x / MINUTE, x % MINUTE, MINUTE);
  }

  // ---- Literal shapes ----

  function TryDateTruncBetween(e: Expr): Option<Rewrite> {
    if e.Between? && IsDateTruncOfColumn(e.e) && e.lo.TimeLit? && e.hi.TimeLit? then
      RangeOnColumn(e.e.arg, PeriodStartAtOrAfter(e.e.unit, e.lo.raw), PeriodEndForUpper(e.e.unit, e.hi.raw),
                    DateTruncKind)
    else None
  }

  function TryCastDateBetween(e: Expr): Option<Rewrite> {
    if e.Between? && IsCastDateOfColumn(e.e) && e.lo.TimeLit? && e.hi.TimeLit? then
      var day := TruncateTime(e.lo.raw, Day);
      var start := if day == e.lo.raw then day else AddDate(day, 0, 0, 1);
      RangeOnColumn(e.e.arg, start, AddDate(TruncateTime(e.hi.raw, Day), 0, 0, 1), CastDateKind)
    else None
  }

  predicate IsInequality(op: CmpOp) {
    op in {Ge, Gt, Le, Lt}
  }

  function TryDateTruncInequality(e: Expr): Option<Rewrite> {
    if e.Cmp? && IsInequality(e.op) && IsDateTruncOfColumn(e.l) && e.r.TimeLit? then
      var u, col, b, typ := e.l.unit, e.l.arg, e.r.raw, e.r.typ;
      match e.op
      case Ge => Replace(col, Cmp(Ge, col, TemporalLiteral(PeriodStartAtOrAfter(u, b), typ)), DateTruncKind)
      case Gt => Replace(col, Cmp(Ge, col, TemporalLiteral(PeriodStartAfter(u, b), typ)), DateTruncKind)
      case Le => Replace(col, Cmp(Lt, col, TemporalLiteral(PeriodEndForUpper(u, b), typ)), DateTruncKind)
      case _ => Replace(col, Cmp(Lt, col, TemporalLiteral(PeriodEndForLess(u, b), typ)), DateTruncKind)
    else None
  }

  function TryCastDateInequality(e: Expr): Option<Rewrite> {
    if e.Cmp? && IsInequality(e.op) && IsCastDateOfColumn(e.l) && e.r.TimeLit? then
      var col, typ := e.l.arg, e.r.typ;
      var bound := TruncateTime(e.r.raw, Day);
      match e.op
      case Ge => Replace(col, Cmp(Ge, col, TemporalLiteral(bound, typ)), CastDateKind)
      case Gt => Replace(col, Cmp(Ge, col, TemporalLiteral(AddDate(bound, 0, 0, 1), typ)), CastDateKind)
      case Le => Replace(col, Cmp(Lt, col, TemporalLiteral(AddDate(bound, 0, 0, 1), typ)), CastDateKind)
      case _ => Replace(col, Cmp(Lt, col, TemporalLiteral(bound, typ)), CastDateKind)
    else None
  }

  function DateTruncEquality(a: Expr, b: Expr): Option<Rewrite> {
    if IsDateTruncOfColumn(a) && b.TimeLit? && TruncateTime(b.raw, a.unit) == b.raw then
      match RangeEndOf(b.raw, a.unit)
      case RangeEnd(end) => Replace(a.arg, RangeExpr(a.arg, b.raw, end, b.typ), DateTruncKind)
      case NoRangeEnd => None
    else None
  }

  function CastDateEquality(a: Expr, b: Expr): Option<Rewrite> {
    if IsCastDateOfColumn(a) && b.TimeLit? && TruncateTime(b.raw, Day) == b.raw then
      Replace(a.arg, RangeExpr(a.arg, b.raw, AddDate(b.raw, 0, 0, 1), b.typ), CastDateKind)
    else None
  }

  function ExtractYearEquality(a: Expr, b: Expr): Option<Rewrite> {
    if a.Extract? && a.field.YearOf? && a.arg.Col? && IntLiteral(b).Some? && 1 <= IntLiteral(b).value <= 9999 then
      var start := GoDate(IntLiteral(b).value, 1, 1);
      RangeOnColumn(a.arg, start, AddDate(start, 1, 0, 0), ExtractKind)
    else None
  }

  function CoalesceEquality(a: Expr, b: Expr): Option<Rewrite> {
    if a.Coalesce? && a.first.Col? && IsConst(a.second) && IsConst(b) then
      var eq := Cmp(Eq, a.first, b);
      Replace(a.first,
              if ConstEqual(a.second, b) then Logic(OrOp, [eq, NullTest(a.first, true)]) else eq,
              CoalesceKind)
    else None
  }

  // ---- Parameterised shapes ----

  function DateTruncEqualityParam(a: Expr, b: Expr): Option<Rewrite> {
    if IsDateTruncOfColumn(a) && Supported(a.unit) && b.Param? then
      var range := AndExpr(Cmp(Ge, a.arg, b), Cmp(Lt, a.arg, AddPeriod(b, a.unit)));
      var guard := Cmp(Eq, DateTruncFn(a.unit, b), b);
      Replace(a.arg, AndExpr(range, guard), DateTruncParamKind)
    else None
  }

  /** rewriter_sargable_param.go, castDateParamRangePred. */
  function CastDateParamRange(col: Expr, low: Expr, high: Expr): Expr {
    AndExpr(Cmp(Ge, col, CastDate(low)), Cmp(Lt, col, AddPeriod(CastDate(high), Day)))
  }

  function CastDateEqualityParam(a: Expr, b: Expr): Option<Rewrite> {
    if IsCastDateOfColumn(a) && b.Param? then
      Replace(a.arg, CastDateParamRange(a.arg, b, b), CastDateParamKind)
    else None
  }

  function TryCastDateBetweenParam(e: Expr): Option<Rewrite> {
    if e.Between? && IsCastDateOfColumn(e.e) && e.lo.Param? && e.hi.Param? then
      Replace(e.e.arg, CastDateParamRange(e.e.arg, e.lo, e.hi), CastDateParamKind)
    else None
  }

  // ---- The matchers in order ----

  function OrElse(a: Option<Rewrite>, b: Option<Rewrite>): Option<Rewrite> {
    if a.Some? then a else b
  }

  /** The first six equality matchers accept their operands in either order. */
  function TryEqualities(a: Expr, b: Expr): Option<Rewrite> {
    var m1 := OrElse(DateTruncEquality(a, b), DateTruncEquality(b, a));
    var m2 := OrElse(m1, OrElse(CastDateEquality(a, b), CastDateEquality(b, a)));
    var m3 := OrElse(m2, OrElse(ExtractYearEquality(a, b), ExtractYearEquality(b, a)));
    var m4 := OrElse(m3, OrElse(CoalesceEquality(a, b), CoalesceEquality(b, a)));
    var m5 := OrElse(m4, OrElse(DateTruncEqualityParam(a, b), DateTruncEqualityParam(b, a)));
    OrElse(m5, OrElse(CastDateEqualityParam(a, b), CastDateEqualityParam(b, a)))
  }

  /** rewriter.go, rewriteFunctionWrapInExpr on one comparison or BETWEEN. */
  function TryRewrite(e: Expr): Option<Rewrite> {
    if e.Between? then
      OrElse(TryDateTruncBetween(e), OrElse(TryCastDateBetween(e), TryCastDateBetweenParam(e)))
    else if e.Cmp? then
      var m := OrElse(TryDateTruncInequality(e), TryCastDateInequality(e));
      OrElse(m, if e.op.Eq? then TryEqualities(e.l, e.r) else None)
    else None
  }
}
