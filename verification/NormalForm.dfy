/**
 What the sargable walk leaves behind: in every WHERE it reaches, each accepted test has been
 replaced and each year and month have been fused. The shapes are written out here, apart from the
 functions that recognise and replace them.
 */
module NormalForm {
  import opened Options
  import opened Calendar
  import opened PrintedBounds
  import opened SqlSyntax
  import opened Sargable
  import opened SargableTree
  import opened Fusion
  import opened Text

  // ---- The accepted shapes ----

  /** A wrapped column and what it is compared with, in the order of the matchers. */
  predicate AcceptedEquality(a: Expr, b: Expr) {
    || (a.DateTruncFn? && a.arg.Col? && a.unit != Decade && b.TimeLit? && IsBoundary(a.unit, b.raw))
    || (a.CastDate? && a.arg.Col? && b.TimeLit? && b.raw % 86_400_000_000 == 0)
    || (a.Extract? && a.field.YearOf? && a.arg.Col? && b.Lit? && b.v.Int? && 1 <= b.v.i <= 9999)
    || (a.Coalesce? && a.first.Col? && (a.second.Lit? || a.second.TimeLit?) && (b.Lit? || b.TimeLit?))
    || (a.DateTruncFn? && a.arg.Col? && a.unit != Decade && b.Param?)
    || (a.CastDate? && a.arg.Col? && b.Param?)
  }

  predicate TruncatedColumn(e: Expr) {
    (e.DateTruncFn? || e.CastDate?) && e.arg.Col?
  }

  predicate AcceptedInequality(e: Expr) {
    e.Cmp? && (e.op.Lt? || e.op.Le? || e.op.Gt? || e.op.Ge?) && TruncatedColumn(e.l) && e.r.TimeLit?
  }

  predicate AcceptedBetween(e: Expr) {
    && e.Between? && TruncatedColumn(e.e)
    && ((e.lo.TimeLit? && e.hi.TimeLit?) || (e.e.CastDate? && e.lo.Param? && e.hi.Param?))
  }

  /** Equalities are accepted in either order, inequalities with the column on the left. */
  predicate Accepted(e: Expr) {
    || AcceptedBetween(e)
    || AcceptedInequality(e)
    || (e.Cmp? && e.op.Eq? && (AcceptedEquality(e.l, e.r) || AcceptedEquality(e.r, e.l)))
  }

  /** No accepted test is left anywhere under the connectives. */
  predicate NothingAccepted(e: Expr)
    decreases e
  {
    !Accepted(e) && (e.Logic? ==> forall i :: 0 <= i < |e.args| ==> NothingAccepted(e.args[i]))
  }

  lemma AcceptedEqualityIff(a: Expr, b: Expr)
    ensures AcceptedEquality(a, b) <==>
            || DateTruncEquality(a, b).Some? || CastDateEquality(a, b).Some? || ExtractYearEquality(a, b).Some?
            || CoalesceEquality(a, b).Some? || DateTruncEqualityParam(a, b).Some? || CastDateEqualityParam(a, b).Some?
  {
    hide TruncateTime, IsBoundary, DateTrunc, AddDate, GoDate, RangeExpr, ConstEqual;
    if b.TimeLit? {
      StartsAreFixed(b.raw);
    }
  }

  /** truncateTime leaves exactly the period starts as they are. */
  lemma StartsAreFixed(t: Instant)
    ensures forall u :: Supported(u) ==> (TruncateTime(t, u) == t <==> IsBoundary(u, t))
    ensures TruncateTime(t, Day) == t <==> t % 86_400_000_000 == 0
    ensures forall u :: RangeEndOf(t, u).RangeEnd? <==> u != Decade
  {
    hide TruncateTime, DateTrunc, IsBoundary;
    forall u | Supported(u) ensures TruncateTime(t, u) == t <==> IsBoundary(u, t) {
      TruncateTimeIsDateTrunc(t, u);
      DateTruncFixpoint(u, t);
    }
    DayStarts(t);
  }

  lemma DayStarts(t: Instant)
    ensures IsBoundary(Day, t) <==> t % 86_400_000_000 == 0
  {
    hide MonthStart, MonthOf;
  }

  /** The rewriter fires on exactly the accepted tests. */
  lemma FiresExactly(e: Expr)
    ensures TryRewrite(e).Some? <==> Accepted(e)
  {
    hide DateTruncEquality, CastDateEquality, ExtractYearEquality, CoalesceEquality, DateTruncEqualityParam,
         CastDateEqualityParam, AcceptedEquality, TemporalLiteral, TruncateTime, AddDate, RangeExpr;
    if e.Cmp? {
      AcceptedEqualityIff(e.l, e.r);
      AcceptedEqualityIff(e.r, e.l);
    }
  }

  // ---- One unwrap, one condition ----

  /** A comparison whose left side is a bare column and whose right side is no wrapped column. */
  predicate Bare(e: Expr) {
    && e.Cmp? && e.l.Col?
    && (e.r.TimeLit? || e.r.Param? || e.r.Lit? || e.r.AddPeriod? || (e.r.CastDate? && e.r.arg.Param?))
  }

  lemma BareIsNotAccepted(e: Expr)
    requires Bare(e)
    ensures NothingAccepted(e)
  {
  }

  lemma ConnectedBare(bop: BoolOp, a: Expr, b: Expr)
    requires NothingAccepted(a) && NothingAccepted(b)
    ensures NothingAccepted(Logic(bop, [a, b]))
  {
  }

  lemma RangeIsNormal(col: Expr, start: Instant, end: Instant, typ: LitType)
    requires col.Col?
    ensures NothingAccepted(RangeExpr(col, start, end, typ))
  {
    hide TemporalLiteral, NothingAccepted;
    var lo, hi := TemporalLiteral(start, typ), TemporalLiteral(end, typ);
    PrintedIsLiteral(start, typ);
    PrintedIsLiteral(end, typ);
    BareIsNotAccepted(Cmp(Ge, col, lo));
    BareIsNotAccepted(Cmp(Lt, col, hi));
    ConnectedBare(AndOp, Cmp(Ge, col, lo), Cmp(Lt, col, hi));
  }

  lemma PrintedIsLiteral(t: Instant, typ: LitType)
    ensures TemporalLiteral(t, typ).TimeLit?
  {
  }

  lemma ParamRangeIsNormal(a: Expr, b: Expr)
    requires DateTruncEqualityParam(a, b).Some?
    ensures NothingAccepted(DateTruncEqualityParam(a, b).value.e)
  {
    hide NothingAccepted;
    var lo, hi := Cmp(Ge, a.arg, b), Cmp(Lt, a.arg, AddPeriod(b, a.unit));
    var guard := Cmp(Eq, DateTruncFn(a.unit, b), b);
    BareIsNotAccepted(lo);
    BareIsNotAccepted(hi);
    GuardIsNotAccepted(a.unit, b);
    ConnectedBare(AndOp, lo, hi);
    ConnectedBare(AndOp, AndExpr(lo, hi), guard);
  }

  lemma GuardIsNotAccepted(u: Unit, b: Expr)
    requires b.Param?
    ensures NothingAccepted(Cmp(Eq, DateTruncFn(u, b), b))
  {
  }

  lemma CastRangeIsNormal(col: Expr, lo: Expr, hi: Expr)
    requires col.Col? && lo.Param? && hi.Param?
    ensures NothingAccepted(CastDateParamRange(col, lo, hi))
  {
    hide NothingAccepted;
    BareIsNotAccepted(Cmp(Ge, col, CastDate(lo)));
    BareIsNotAccepted(Cmp(Lt, col, AddPeriod(CastDate(hi), Day)));
    ConnectedBare(AndOp, Cmp(Ge, col, CastDate(lo)), Cmp(Lt, col, AddPeriod(CastDate(hi), Day)));
  }

  lemma CoalesceIsNormal(a: Expr, b: Expr)
    requires CoalesceEquality(a, b).Some?
    ensures NothingAccepted(CoalesceEquality(a, b).value.e)
  {
    hide NothingAccepted, ConstEqual;
    BareIsNotAccepted(Cmp(Eq, a.first, b));
    NullTestIsNotAccepted(a.first);
    ConnectedBare(OrOp, Cmp(Eq, a.first, b), NullTest(a.first, true));
  }

  lemma NullTestIsNotAccepted(col: Expr)
    ensures NothingAccepted(NullTest(col, true))
  {
  }

  lemma EqualityIsNormal(a: Expr, b: Expr)
    ensures DateTruncEquality(a, b).Some? ==> NothingAccepted(DateTruncEquality(a, b).value.e)
    ensures CastDateEquality(a, b).Some? ==> NothingAccepted(CastDateEquality(a, b).value.e)
    ensures ExtractYearEquality(a, b).Some? ==> NothingAccepted(ExtractYearEquality(a, b).value.e)
    ensures CoalesceEquality(a, b).Some? ==> NothingAccepted(CoalesceEquality(a, b).value.e)
    ensures DateTruncEqualityParam(a, b).Some? ==> NothingAccepted(DateTruncEqualityParam(a, b).value.e)
    ensures CastDateEqualityParam(a, b).Some? ==> NothingAccepted(CastDateEqualityParam(a, b).value.e)
  {
    hide NothingAccepted, RangeExpr, TruncateTime, AddDate, GoDate, CoalesceEquality, DateTruncEqualityParam,
         CastDateParamRange;
    if DateTruncEquality(a, b).Some? {
      RangeIsNormal(a.arg, b.raw, RangeEndOf(b.raw, a.unit).end, b.typ);
    }
    if CastDateEquality(a, b).Some? {
      RangeIsNormal(a.arg, b.raw, AddDate(b.raw, 0, 0, 1), b.typ);
    }
    if ExtractYearEquality(a, b).Some? {
      var start := GoDate(IntLiteral(b).value, 1, 1);
      RangeIsNormal(a.arg, start, AddDate(start, 1, 0, 0), DateLit);
    }
    if CoalesceEquality(a, b).Some? {
      CoalesceIsNormal(a, b);
    }
    if DateTruncEqualityParam(a, b).Some? {
      ParamRangeIsNormal(a, b);
    }
    if CastDateEqualityParam(a, b).Some? {
      CastRangeIsNormal(a.arg, b, b);
    }
  }

  lemma BetweenIsNormal(e: Expr)
    requires e.Between? && TryRewrite(e).Some?
    ensures NothingAccepted(TryRewrite(e).value.e)
  {
    hide NothingAccepted, RangeExpr, TruncateTime, AddDate, CastDateParamRange;
    if TryDateTruncBetween(e).Some? || TryCastDateBetween(e).Some? {
      var r := TryRewrite(e).value.e;
      var start, end :| r == RangeExpr(e.e.arg, start, end, DateLit);
      RangeIsNormal(e.e.arg, start, end, DateLit);
    } else {
      CastRangeIsNormal(e.e.arg, e.lo, e.hi);
    }
  }

  lemma InequalityIsNormal(e: Expr)
    requires e.Cmp? && (TryDateTruncInequality(e).Some? || TryCastDateInequality(e).Some?)
    ensures NothingAccepted(TryRewrite(e).value.e)
  {
    hide NothingAccepted, TemporalLiteral, TruncateTime, AddDate;
    var r := TryRewrite(e).value.e;
    var op, t :| r == Cmp(op, e.l.arg, TemporalLiteral(t, e.r.typ));
    PrintedIsLiteral(t, e.r.typ);
    BareIsNotAccepted(r);
  }

  /** What replaces an accepted test holds no accepted test. */
  lemma ReplacementIsNormal(e: Expr)
    requires TryRewrite(e).Some?
    ensures NothingAccepted(TryRewrite(e).value.e)
  {
    hide NothingAccepted, DateTruncEquality, CastDateEquality, ExtractYearEquality, CoalesceEquality,
         DateTruncEqualityParam, CastDateEqualityParam, TemporalLiteral, TruncateTime, AddDate, RangeOnColumn;
    if e.Between? {
      BetweenIsNormal(e);
    } else if TryDateTruncInequality(e).Some? || TryCastDateInequality(e).Some? {
      InequalityIsNormal(e);
    } else {
      EqualityIsNormal(e.l, e.r);
      EqualityIsNormal(e.r, e.l);
    }
  }

  lemma {:induction false} WrapIsNormal(e: Expr)
    ensures NothingAccepted(Wrap(e).0)
    decreases e
  {
    hide TryRewrite, Accepted;
    FiresExactly(e);
    if e.Cmp? || e.Between? {
      if TryRewrite(e).Some? { ReplacementIsNormal(e); }
    } else if e.Logic? {
      var args := WrapArgs(e.args).0;
      WrapArgsAt(e.args);
      forall i | 0 <= i < |args| ensures NothingAccepted(args[i]) {
        WrapIsNormal(e.args[i]);
      }
      ConnectiveIsNotAccepted(e.bop, args);
    } else {
      OthersAreNotAccepted(e);
    }
  }

  lemma ConnectiveIsNotAccepted(bop: BoolOp, args: seq<Expr>)
    ensures !Accepted(Logic(bop, args))
  {
  }

  lemma OthersAreNotAccepted(e: Expr)
    requires !e.Cmp? && !e.Between?
    ensures !Accepted(e)
  {
  }

  // ---- What is recorded ----

  /** The record of a wrapped column and what it is compared with: the column, and which shape it was. */
  predicate RecordOf(a: Expr, param: bool, info: Info) {
    match info.kind
    case DateTruncKind => a.DateTruncFn? && a.arg == Col(info.alias, info.name) && !param
    case CastDateKind => a.CastDate? && a.arg == Col(info.alias, info.name) && !param
    case ExtractKind => a.Extract? && a.arg == Col(info.alias, info.name)
    case CoalesceKind => a.Coalesce? && a.first == Col(info.alias, info.name)
    case DateTruncParamKind => a.DateTruncFn? && a.arg == Col(info.alias, info.name) && param
    case CastDateParamKind => a.CastDate? && a.arg == Col(info.alias, info.name) && param
  }

  /** Every replacement is recorded with its column and its shape. */
  lemma RecordsAreRight(e: Expr)
    requires TryRewrite(e).Some?
    ensures var info := TryRewrite(e).value.info;
            if e.Between? then RecordOf(e.e, e.lo.Param?, info)
            else RecordOf(e.l, e.r.Param?, info) || RecordOf(e.r, e.l.Param?, info)
  {
    hide TemporalLiteral, TruncateTime, AddDate, GoDate, RangeEndOf, ConstEqual, RangeExpr, CastDateParamRange;
  }

  /** The accepted tests under the connectives. */
  function AcceptedCount(e: Expr): nat
    decreases e, 0
  {
    if e.Logic? then AcceptedCounts(e.args) else if Accepted(e) then 1 else 0
  }

  function AcceptedCounts(es: seq<Expr>): nat
    decreases es, 0
  {
    if es == [] then 0 else AcceptedCount(es[0]) + AcceptedCounts(es[1..])
  }

  /** One record for each accepted test, and none for anything else. */
  lemma {:induction false} RecordsCount(e: Expr)
    ensures |Wrap(e).1| == AcceptedCount(e)
    decreases e, 1
  {
    hide TryRewrite, Accepted;
    FiresExactly(e);
    if e.Logic? {
      RecordsCounts(e.args);
    } else if !e.Cmp? && !e.Between? {
      OthersAreNotAccepted(e);
    }
  }

  lemma {:induction false} RecordsCounts(es: seq<Expr>)
    ensures |WrapArgs(es).1| == AcceptedCounts(es)
    decreases es, 0
  {
    hide Wrap, AcceptedCount;
    if es != [] {
      RecordsCount(es[0]);
      RecordsCounts(es[1..]);
    }
  }

  // ---- Years and months ----

  predicate YearTest(e: Expr, col: Expr, y: int) {
    && col.Col? && 1 <= y <= 9999
    && (e == Cmp(Eq, Extract(YearOf, col), Lit(Int(y))) || e == Cmp(Eq, Lit(Int(y)), Extract(YearOf, col)))
  }

  predicate MonthTest(e: Expr, col: Expr, m: int) {
    && col.Col? && 1 <= m <= 12
    && (e == Cmp(Eq, Extract(MonthNo, col), Lit(Int(m))) || e == Cmp(Eq, Lit(Int(m)), Extract(MonthNo, col)))
  }

  /** A year test at position i and a month test at position j of an AND, on one column. */
  predicate YearAndMonth(args: seq<Expr>, i: nat, j: nat, col: Expr, y: int, m: int) {
    i < |args| && j < |args| && YearTest(args[i], col, y) && MonthTest(args[j], col, m)
  }

  /** The first day of a month as a printed date literal. */
  predicate FirstOfMonth(lit: Expr, y: int, m: int) {
    && lit.TimeLit? && lit.typ.DateLit? && lit.raw % 86_400_000_000 == 0
    && YearField(lit.raw) == y && MonthField(lit.raw) == m && DayField(lit.raw) == 1
    && lit.text == Padded(y, 4) + "-" + Padded(m, 2) + "-" + "01"
  }

  /** `col >= 'y-m-01' AND col < the first day of the month after`. */
  predicate MonthRange(e: Expr, col: Expr, y: int, m: int) {
    && e.Logic? && e.bop.AndOp? && |e.args| == 2
    && e.args[0].Cmp? && e.args[0].op.Ge? && e.args[0].l == col && FirstOfMonth(e.args[0].r, y, m)
    && e.args[1].Cmp? && e.args[1].op.Lt? && e.args[1].l == col
    && FirstOfMonth(e.args[1].r, if m == 12 then y + 1 else y, if m == 12 then 1 else m + 1)
  }

  predicate IsConjunct(x: Expr, e: Expr) {
    x == e || (e.Logic? && e.bop.AndOp? && x in e.args)
  }

  ghost predicate RangeStands(e: Expr, col: Expr, y: int, m: int) {
    exists x :: IsConjunct(x, e) && MonthRange(x, col, y, m)
  }

  /**
   The AND and what has become of it: for a year and a month test on one column, the month range of
   that year or of that month stands among the conjuncts, with a partner from the same AND. Where
   they are the only tests of the column it is the range of the two.
   */
  ghost predicate MonthsStand(a: Expr, r: Expr)
    requires a.Logic?
  {
    forall i, j, col, y, m | YearAndMonth(a.args, i, j, col, y, m) ::
      exists i', j', y', m' ::
        (i' == i || j' == j) && YearAndMonth(a.args, i', j', col, y', m') && RangeStands(r, col, y', m')
  }

  /** No AND under the connectives still holds a year and a month test on one column. */
  ghost predicate NoYearWithMonth(e: Expr)
    decreases e
  {
    e.Logic? ==>
      && (e.bop.AndOp? ==> forall i, j, col, y, m :: !YearAndMonth(e.args, i, j, col, y, m))
      && forall i :: 0 <= i < |e.args| ==> NoYearWithMonth(e.args[i])
  }

  /** A part of a condition that is reached through connectives only. */
  predicate PartOf(x: Expr, e: Expr)
    decreases e
  {
    x == e || (e.Logic? && exists i :: 0 <= i < |e.args| && PartOf(x, e.args[i]))
  }

  // ---- The fused range, written out ----

  lemma TestsAreItems(e: Expr, col: Expr, v: int)
    ensures YearTest(e, col, v) <==> ItemOf(e) == Some(Item(YearOf, col, v)) && 1 <= v <= 9999
    ensures MonthTest(e, col, v) <==> ItemOf(e) == Some(Item(MonthNo, col, v)) && 1 <= v <= 12
  {
  }

  lemma MonthStartFields(k: int)
    ensures var t := MonthStart(k) * DAY;
            t % 86_400_000_000 == 0 && t / DAY * DAY == t && YearField(t) == k / 12 && MonthField(t) == k % 12 + 1
            && DayField(t) == 1
  {
    hide MonthStart, MonthOf;
    ModUnique(MonthStart(k) * DAY, MonthStart(k), 0, DAY);
    MonthOfStart(k);
  }

  lemma PrintedFirst(k: int, y: int, m: int)
    requires k == 12 * y + (m - 1) && 1 <= m <= 12
    ensures FirstOfMonth(TemporalLiteral(MonthStart(k) * DAY, DateLit), y, m)
  {
    hide MonthStart, MonthOf, Padded;
    MonthStartFields(k);
    PaddedOne();
  }

  lemma PaddedOne()
    ensures Padded(1, 2) == "01"
  {
    assert Decimal(1) == "1" && Zeros(0) == "" && Zeros(1) == "0" + Zeros(0);
    assert Padded(1, 2) == "" + Zeros(1) + "1";
  }

  lemma FusedIsMonthRange(e: Expr, f: Expr, col: Expr, y: int, m: int)
    requires YearTest(e, col, y) && MonthTest(f, col, m)
    ensures Fusable(e, f) && MonthRange(FusedRange(e, f), col, y, m)
  {
    hide MonthStart, MonthOf, TemporalLiteral, FirstOfMonth, AddDate;
    TestsAreItems(e, col, y);
    TestsAreItems(f, col, m);
    var k := 12 * y + (m - 1);
    NextMonth(k);
    PrintedFirst(k, y, m);
    PrintedFirst(k + 1, if m == 12 then y + 1 else y, if m == 12 then 1 else m + 1);
    assert GoDate(y, m, 1) == MonthStart(k) * DAY;
  }

  // ---- What the fusion makes of one AND ----

  /** A connective stays a connective, and a test is left as it is. */
  lemma {:induction false} FusedLogic(e: Expr)
    ensures e.Logic? ==> Fuse(e).0.Logic?
    ensures !e.Logic? ==> Fuse(e).0 == e
    decreases e
  {
    hide Rebuild, Slot, FusedRange, PairsOf, Matching, Fusable;
    if e.Logic? && e.bop.AndOp? {
      var (args, log) := FuseArgs(e.args);
      var pairs := PairsOf(args);
      PairsAreMatching(args);
      var members := Rebuild(args, pairs, 0);
      if |members| == 1 {
        if pairs != [] {
          FirstRangeIsMember(args, pairs);
        } else if log != [] {
          var k := ChangedArg(e.args);
          FuseArgsAt(e.args);
          FusedLogic(e.args[k]);
          UnpairedSlot(args, k);
          RebuildMembers(args, pairs, 0, args[k]);
        }
      }
    }
  }

  lemma FirstRangeIsMember(args: seq<Expr>, pairs: Pairs)
    requires Matching(args, pairs) && pairs != []
    ensures exists x :: x in Rebuild(args, pairs, 0) && x.Logic?
  {
    hide Rebuild, Slot;
    var y, m := pairs[0].0, pairs[0].1;
    RangeInSlot(args, pairs, 0);
    RebuildMembers(args, pairs, 0, FusedRange(args[y], args[m]));
    FusedRangeIsLogic(args[y], args[m]);
  }

  /** Every member of the rebuilt conjunction is a conjunct of the fused AND. */
  lemma MembersAreConjuncts(e: Expr, x: Expr)
    requires e.Logic? && e.bop.AndOp?
    requires var args := FuseArgs(e.args).0; Matching(args, PairsOf(args)) && x in Rebuild(args, PairsOf(args), 0)
    ensures IsConjunct(x, Fuse(e).0)
  {
    hide Rebuild, Slot, PairsOf, Matching, Infos;
    var (args, log) := FuseArgs(e.args);
    var pairs := PairsOf(args);
    var members := Rebuild(args, pairs, 0);
    if log + Infos(args, pairs) == [] {
      assert |Infos(args, pairs)| == |pairs|;
      FusedArgsUnchanged(e.args);
      RebuildMembers(args, pairs, 0, x);
      var k :| 0 <= k < |args| && x in Slot(args, pairs, k);
      SlotWithoutPairs(args, k, x);
    } else if |members| == 1 {
      assert members[0] == x;
    }
  }

  lemma SlotWithoutPairs(args: seq<Expr>, k: nat, x: Expr)
    requires k < |args| && Matching(args, []) && x in Slot(args, [], k)
    ensures x == args[k]
  {
  }

  lemma {:induction false} FusedUnchanged(e: Expr)
    requires Fuse(e).1 == []
    ensures Fuse(e).0 == e
    decreases e, 0
  {
    hide Rebuild, PairsOf, Matching, Infos;
    if e.Logic? && !e.bop.AndOp? {
      FusedArgsUnchanged(e.args);
    }
  }

  lemma {:induction false} FusedArgsUnchanged(es: seq<Expr>)
    requires FuseArgs(es).1 == []
    ensures FuseArgs(es).0 == es
    decreases es, 0
  {
    hide Fuse;
    if es != [] {
      FusedUnchanged(es[0]);
      FusedArgsUnchanged(es[1..]);
    }
  }

  /** The tests of the AND are still its arguments after the recursion into the arguments. */
  lemma ArgsKeepTests(es: seq<Expr>, i: nat)
    requires i < |es|
    ensures es[i].Logic? ==> FuseArgs(es).0[i].Logic? && ItemOf(FuseArgs(es).0[i]).None?
    ensures !es[i].Logic? ==> FuseArgs(es).0[i] == es[i]
  {
    hide Fuse;
    FuseArgsAt(es);
    FusedLogic(es[i]);
  }

  lemma FusedStands(a: Expr, i: nat, j: nat, col: Expr, y: int, m: int) returns (i': nat, j': nat, y': int, m': int)
    requires a.Logic? && a.bop.AndOp? && YearAndMonth(a.args, i, j, col, y, m)
    ensures (i' == i || j' == j) && YearAndMonth(a.args, i', j', col, y', m') && RangeStands(Fuse(a).0, col, y', m')
  {
    hide Fuse, FuseArgs, Rebuild, Slot, PairFrom, IndicesOf, FusedRange, MonthRange, ItemOf, UsedBy;
    var args := FuseArgs(a.args).0;
    var pairs := PairsOf(args);
    PairsAreMatching(args);
    ArgsKeepTests(a.args, i);
    ArgsKeepTests(a.args, j);
    TestsAreItems(args[i], col, y);
    TestsAreItems(args[j], col, m);
    FusedIsMonthRange(args[i], args[j], col, y, m);
    PairFromIsMaximal(args, IndicesOf(args, YearOf, 0), IndicesOf(args, MonthNo, 0), [], i, j);
    var p := UsedOnce(args, pairs, i, j);
    i', j' := pairs[p].0, pairs[p].1;
    PairIsTests(args, a.args, i', j', col);
    y', m' := ItemOf(args[i']).value.value, ItemOf(args[j']).value.value;
    TestsAreItems(args[i'], col, y');
    TestsAreItems(args[j'], col, m');
    FusedIsMonthRange(args[i'], args[j'], col, y', m');
    var x := FusedRange(args[i'], args[j']);
    RangeInSlot(args, pairs, p);
    RebuildMembers(args, pairs, 0, x);
    MembersAreConjuncts(a, x);
    assert IsConjunct(x, Fuse(a).0) && MonthRange(x, col, y', m');
  }

  /** The pair a used year or month stands in. */
  lemma UsedOnce(args: seq<Expr>, pairs: Pairs, i: nat, j: nat) returns (p: nat)
    requires Matching(args, pairs) && i < |args| && j < |args| && Fusable(args[i], args[j])
    requires i in UsedBy(pairs) || j in UsedBy(pairs)
    ensures p < |pairs| && pairs[p].0 < |args| && pairs[p].1 < |args| && (pairs[p].0 == i || pairs[p].1 == j)
    ensures Fusable(args[pairs[p].0], args[pairs[p].1])
    ensures ItemOf(args[pairs[p].0]).value.col == ItemOf(args[i]).value.col
  {
    UsedByMember(pairs, i);
    UsedByMember(pairs, j);
    if i in UsedBy(pairs) {
      p :| 0 <= p < |pairs| && (pairs[p].0 == i || pairs[p].1 == i);
    } else {
      p :| 0 <= p < |pairs| && (pairs[p].0 == j || pairs[p].1 == j);
    }
  }

  lemma PairIsTests(args: seq<Expr>, es: seq<Expr>, i: nat, j: nat, col: Expr)
    requires args == FuseArgs(es).0 && i < |args| && j < |args| && Fusable(args[i], args[j])
    ensures args[i] == es[i] && args[j] == es[j]
  {
    hide FuseArgs;
    ArgsKeepTests(es, i);
    ArgsKeepTests(es, j);
  }

  // ---- Parts of a condition ----

  lemma {:induction false} PartTransitive(x: Expr, y: Expr, e: Expr)
    requires PartOf(x, y) && PartOf(y, e)
    ensures PartOf(x, e)
    decreases e
  {
    if y != e {
      var i :| 0 <= i < |e.args| && PartOf(y, e.args[i]);
      PartTransitive(x, y, e.args[i]);
    }
  }

  lemma ConjunctIsPart(x: Expr, e: Expr)
    requires IsConjunct(x, e)
    ensures PartOf(x, e)
  {
    if x != e {
      var i :| 0 <= i < |e.args| && e.args[i] == x;
      assert PartOf(x, e.args[i]);
    }
  }

  /** A connective inside a condition is fused where it stands. */
  lemma {:induction false} FusedPart(x: Expr, e: Expr)
    requires PartOf(x, e) && x.Logic?
    ensures PartOf(Fuse(x).0, Fuse(e).0)
    decreases e
  {
    hide Fuse, FuseArgs, Rebuild, Slot, PairsOf, Matching;
    if x != e {
      var i :| 0 <= i < |e.args| && PartOf(x, e.args[i]);
      FusedPart(x, e.args[i]);
      FusedArgIsPart(e, i);
      FuseArgsAt(e.args);
      PartTransitive(Fuse(x).0, FuseArgs(e.args).0[i], Fuse(e).0);
    }
  }

  lemma FusedArgIsPart(e: Expr, i: nat)
    requires e.Logic? && i < |e.args| && e.args[i].Logic?
    ensures PartOf(FuseArgs(e.args).0[i], Fuse(e).0)
  {
    hide FuseArgs, Rebuild, Slot, PairsOf, Matching, Infos, UsedBy;
    var args := FuseArgs(e.args).0;
    ArgsKeepTests(e.args, i);
    if e.bop.AndOp? {
      PairsAreMatching(args);
      LogicIsUnused(args, PairsOf(args), i);
      FreeSlot(args, PairsOf(args), i);
      RebuildMembers(args, PairsOf(args), 0, args[i]);
      MembersAreConjuncts(e, args[i]);
      ConjunctIsPart(args[i], Fuse(e).0);
    } else {
      assert Fuse(e).0 == Logic(e.bop, args);
      assert PartOf(args[i], Fuse(e).0.args[i]);
    }
  }

  lemma LogicIsUnused(args: seq<Expr>, pairs: Pairs, i: nat)
    requires Matching(args, pairs) && i < |args| && ItemOf(args[i]).None?
    ensures i !in UsedBy(pairs)
  {
    UsedByMember(pairs, i);
  }

  lemma {:induction false} WrappedPart(x: Expr, e: Expr)
    requires PartOf(x, e)
    ensures PartOf(Wrap(x).0, Wrap(e).0)
    decreases e
  {
    hide TryRewrite;
    if x != e {
      var i :| 0 <= i < |e.args| && PartOf(x, e.args[i]);
      WrappedPart(x, e.args[i]);
      WrapArgsAt(e.args);
      assert Wrap(e).0.args[i] == Wrap(e.args[i]).0;
    }
  }

  /** The unwraps leave a month range as it is, and conjuncts are conjuncts. */
  lemma RangeStaysStanding(e: Expr, col: Expr, y: int, m: int)
    requires RangeStands(e, col, y, m) && col.Col?
    ensures RangeStands(Wrap(e).0, col, y, m)
  {
    hide TryRewrite, FirstOfMonth, Wrap;
    var x :| IsConjunct(x, e) && MonthRange(x, col, y, m);
    MonthRangeUnwrapped(x, col, y, m);
    if x != e {
      var i :| 0 <= i < |e.args| && e.args[i] == x;
      ConjunctUnwrapped(e, i);
    }
    assert IsConjunct(x, Wrap(e).0);
  }

  lemma ConjunctUnwrapped(e: Expr, i: nat)
    requires e.Logic? && e.bop.AndOp? && i < |e.args|
    ensures IsConjunct(Wrap(e.args[i]).0, Wrap(e).0)
  {
    hide TryRewrite;
    WrapArgsAt(e.args);
    assert Wrap(e).0.args[i] == Wrap(e.args[i]).0;
  }

  lemma MonthRangeUnwrapped(x: Expr, col: Expr, y: int, m: int)
    requires MonthRange(x, col, y, m) && col.Col?
    ensures Wrap(x).0 == x
  {
    hide TryRewrite, FirstOfMonth, Wrap;
    FirstIsLiteral(x.args[0].r, y, m);
    FirstIsLiteral(x.args[1].r, if m == 12 then y + 1 else y, if m == 12 then 1 else m + 1);
    PlainIsUnwrapped(Ge, col, x.args[0].r);
    PlainIsUnwrapped(Lt, col, x.args[1].r);
    ArgsUnwrapped(x);
  }

  lemma FirstIsLiteral(lit: Expr, y: int, m: int)
    requires FirstOfMonth(lit, y, m)
    ensures lit.TimeLit?
  {
    hide YearField, MonthField, DayField, Padded;
  }

  lemma PlainIsUnwrapped(op: CmpOp, col: Expr, lit: Expr)
    requires col.Col? && lit.TimeLit?
    ensures Wrap(Cmp(op, col, lit)).0 == Cmp(op, col, lit)
  {
    hide TryRewrite;
    PlainComparisonIsNoSite(op, col, lit);
  }

  lemma ArgsUnwrapped(x: Expr)
    requires x.Logic? && forall i :: 0 <= i < |x.args| ==> Wrap(x.args[i]).0 == x.args[i]
    ensures Wrap(x).0 == x
  {
    hide TryRewrite;
    WrapArgsAt(x.args);
    assert WrapArgs(x.args).0 == x.args;
  }

  // ---- What the fusion records ----

  /** A fusion is recorded as an EXTRACT on the column of a year test of the condition. */
  ghost predicate FusionRecord(info: Info, e: Expr) {
    && info.kind.ExtractKind?
    && exists x, y :: PartOf(x, e) && YearTest(x, Col(info.alias, info.name), y)
  }

  lemma {:induction false} FusionRecords(e: Expr)
    ensures forall info :: info in Fuse(e).1 ==> FusionRecord(info, e)
    decreases e, 1
  {
    hide FusionRecord, Rebuild, PairsOf, Matching, Infos;
    if e.Logic? {
      ArgsRecords(e.args);
      forall i, info | 0 <= i < |e.args| && FusionRecord(info, e.args[i]) ensures FusionRecord(info, e) {
        RecordOfArg(info, e, i);
      }
      var args := FuseArgs(e.args).0;
      if e.bop.AndOp? {
        PairsAreMatching(args);
        forall info | info in Infos(args, PairsOf(args)) ensures FusionRecord(info, e) {
          PairRecord(e, info);
        }
      }
    }
  }

  lemma RecordOfArg(info: Info, e: Expr, i: nat)
    requires e.Logic? && i < |e.args| && FusionRecord(info, e.args[i])
    ensures FusionRecord(info, e)
  {
    hide YearTest;
    var x, y :| PartOf(x, e.args[i]) && YearTest(x, Col(info.alias, info.name), y);
    assert PartOf(x, e);
  }

  lemma PairRecord(e: Expr, info: Info)
    requires e.Logic?
    requires var args := FuseArgs(e.args).0;
             Matching(args, PairsOf(args)) && info in Infos(args, PairsOf(args))
    ensures FusionRecord(info, e)
  {
    hide PairsOf, FuseArgs, PartOf;
    var args := FuseArgs(e.args).0;
    var pairs := PairsOf(args);
    var k :| 0 <= k < |pairs| && info == FusedInfo(args[pairs[k].0]);
    var i, j := pairs[k].0, pairs[k].1;
    var col, y := ItemOf(args[i]).value.col, ItemOf(args[i]).value.value;
    PairIsTests(args, e.args, i, j, col);
    TestsAreItems(e.args[i], col, y);
    ArgIsPart(e, i);
    assert PartOf(e.args[i], e) && YearTest(e.args[i], Col(info.alias, info.name), y);
  }

  lemma ArgIsPart(e: Expr, i: nat)
    requires e.Logic? && i < |e.args|
    ensures PartOf(e.args[i], e)
  {
    assert PartOf(e.args[i], e.args[i]);
  }

  lemma {:induction false} ArgsRecords(es: seq<Expr>)
    ensures forall info :: info in FuseArgs(es).1 ==> exists i :: 0 <= i < |es| && FusionRecord(info, es[i])
    decreases es, 0
  {
    hide FusionRecord, Fuse;
    if es != [] {
      FusionRecords(es[0]);
      ArgsRecords(es[1..]);
      forall info | info in FuseArgs(es[1..]).1 ensures exists i :: 0 <= i < |es| && FusionRecord(info, es[i]) {
        var i :| 0 <= i < |es[1..]| && FusionRecord(info, es[1..][i]);
        assert FusionRecord(info, es[i + 1]);
      }
    }
  }

  // ---- Whole conditions and whole trees ----

  /**
   The normal form of a rewritten condition r of e: nothing accepted is left, no year stands beside
   a month, and every AND of e has its month ranges in what it has become.
   */
  ghost predicate NormalCond(e: Expr, r: Expr) {
    && NothingAccepted(r) && NoYearWithMonth(r)
    && forall a | PartOf(a, e) && a.Logic? && a.bop.AndOp? :: exists b :: PartOf(b, r) && MonthsStand(a, b)
  }

  /** Every year test is an accepted test, so none is left beside a month. */
  lemma {:induction false} NoYearsLeft(e: Expr)
    requires NothingAccepted(e)
    ensures NoYearWithMonth(e)
    decreases e
  {
    hide MonthTest;
    if e.Logic? {
      forall i | 0 <= i < |e.args| ensures NoYearWithMonth(e.args[i]) {
        NoYearsLeft(e.args[i]);
      }
      forall i: nat, j: nat, col, y, m ensures !YearAndMonth(e.args, i, j, col, y, m) {
        if YearAndMonth(e.args, i, j, col, y, m) {
          assert NothingAccepted(e.args[i]);
          YearTestIsAccepted(e.args[i], col, y);
        }
      }
    }
  }

  lemma YearTestIsAccepted(e: Expr, col: Expr, y: int)
    requires YearTest(e, col, y)
    ensures Accepted(e)
  {
  }

  /** Both passes over one WHERE clause, whatever it is. */
  lemma CondIsNormal(e: Expr)
    ensures NormalCond(e, RewriteCond(e).0)
  {
    hide Fuse, Wrap, NothingAccepted, NoYearWithMonth, PartOf, MonthsStand;
    var r := RewriteCond(e).0;
    WrapIsNormal(Fuse(e).0);
    NoYearsLeft(r);
    forall a | PartOf(a, e) && a.Logic? && a.bop.AndOp? ensures exists b :: PartOf(b, r) && MonthsStand(a, b) {
      FusedPart(a, e);
      WrappedPart(Fuse(a).0, Fuse(e).0);
      AndIsFused(a);
      assert PartOf(RewriteCond(a).0, r) && MonthsStand(a, RewriteCond(a).0);
    }
  }

  lemma AndIsFused(a: Expr)
    requires a.Logic? && a.bop.AndOp?
    ensures MonthsStand(a, RewriteCond(a).0)
  {
    hide Fuse, Wrap, RangeStands;
    forall i, j, col, y, m | YearAndMonth(a.args, i, j, col, y, m)
      ensures exists i', j', y', m' ::
                && (i' == i || j' == j) && YearAndMonth(a.args, i', j', col, y', m')
                && RangeStands(RewriteCond(a).0, col, y', m')
    {
      var i', j', y', m' := FusedStands(a, i, j, col, y, m);
      RangeStaysStanding(Fuse(a).0, col, y', m');
    }
  }

  /** A rewritten tree: every WHERE reached through WITH and FROM subselects is normal, the rest is as it was. */
  ghost predicate NormalTree(s: Select, t: Select)
    decreases s
  {
    && |s.ctes| == |t.ctes|
    && (forall i :: 0 <= i < |s.ctes| ==>
          t.ctes[i].name == s.ctes[i].name && NormalTree(s.ctes[i].query, t.ctes[i].query))
    && match s
       case Simple(_, distinct, targets, tables, cond, limit) =>
         && t.Simple? && t.distinct == distinct && t.targets == targets && t.limit == limit
         && |t.tables| == |tables| && (forall i :: 0 <= i < |tables| ==> NormalItem(tables[i], t.tables[i]))
         && (cond.Some? <==> t.cond.Some?) && (cond.Some? ==> NormalCond(cond.value, t.cond.value))
       case UnionAll(_, larg, rarg) => t.UnionAll? && t.larg == larg && t.rarg == rarg
  }

  ghost predicate NormalItem(f: FromItem, g: FromItem)
    decreases f
  {
    if f.SubSelect? then g.SubSelect? && g.alias == f.alias && NormalTree(f.query, g.query) else g == f
  }

  /** The walk leaves every tree in normal form. */
  lemma {:induction false} TreeIsNormal(s: Select)
    ensures NormalTree(s, RewriteTree(s).0)
    decreases s, 0
  {
    hide RewriteCond, NormalCond;
    var t := RewriteTree(s).0;
    CtesAreNormal(s.ctes);
    if s.Simple? {
      TablesAreNormal(s.tables);
      if s.cond.Some? { CondIsNormal(s.cond.value); }
    }
  }

  lemma {:induction false} CtesAreNormal(ctes: seq<Cte>)
    ensures |RewriteCtes(ctes).0| == |ctes|
    ensures forall i :: 0 <= i < |ctes| ==>
              RewriteCtes(ctes).0[i].name == ctes[i].name && NormalTree(ctes[i].query, RewriteCtes(ctes).0[i].query)
    decreases ctes, 0
  {
    hide NormalTree, RewriteTree;
    if ctes != [] {
      TreeIsNormal(ctes[0].query);
      CtesAreNormal(ctes[1..]);
    }
  }

  lemma {:induction false} TablesAreNormal(fs: seq<FromItem>)
    ensures |RewriteTables(fs).0| == |fs|
    ensures forall i :: 0 <= i < |fs| ==> NormalItem(fs[i], RewriteTables(fs).0[i])
    decreases fs, 0
  {
    hide NormalTree, RewriteTree;
    if fs != [] {
      if fs[0].SubSelect? { TreeIsNormal(fs[0].query); }
      TablesAreNormal(fs[1..]);
    }
  }
}
