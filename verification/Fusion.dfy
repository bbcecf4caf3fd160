/**
 Year/month fusion: `EXTRACT(YEAR FROM c) = Y AND EXTRACT(MONTH FROM c) = M` becomes one month
 range on c, anywhere in a Boolean tree.
 */
module Fusion {
  import opened Options
  import opened Calendar
  import opened SqlSyntax
  import opened SqlSemantics
  import opened Sargable
  import opened SargableMeaning
  import Kleene

  /** rewriter_sargable.go, extractEq without its position. */
  datatype Item = Item(field: ExtractField, col: Expr, value: int)

  function ExtractItem(a: Expr, b: Expr): Option<Item> {
    if a.Extract? && a.arg.Col? && IntLiteral(b).Some? then Some(Item(a.field, a.arg, IntLiteral(b).value))
    else None
  }

  /** rewriter_sargable.go, extractFieldEqualityNode. */
  function ItemOf(e: Expr): Option<Item> {
    if e.Cmp? && e.op.Eq? then
      if ExtractItem(e.l, e.r).Some? then ExtractItem(e.l, e.r) else ExtractItem(e.r, e.l)
    else None
  }

  /** A year and a month on the same column that together name a month. */
  predicate Fusable(y: Expr, m: Expr) {
    && ItemOf(y).Some? && ItemOf(y).value.field.YearOf?
    && ItemOf(m).Some? && ItemOf(m).value.field.MonthNo?
    && ItemOf(y).value.col == ItemOf(m).value.col
    && 1 <= ItemOf(m).value.value <= 12
    && 1 <= ItemOf(y).value.value <= 9999
  }

  /** The month range that replaces a fused pair. */
  function FusedRange(y: Expr, m: Expr): Expr
    requires Fusable(y, m)
  {
    var start := GoDate(ItemOf(y).value.value, ItemOf(m).value.value, 1);
    RangeExpr(ItemOf(y).value.col, start, AddDate(start, 0, 1, 0), DateLit)
  }

  function FusedInfo(y: Expr): Info
    requires ItemOf(y).Some?
  {
    Info(ExtractKind, ItemOf(y).value.col.alias, ItemOf(y).value.col.name)
  }

  // ---- The greedy pairing ----

  type Pairs = seq<(nat, nat)>

  function UsedBy(pairs: Pairs): set<nat> {
    if pairs == [] then {} else {pairs[0].0, pairs[0].1} + UsedBy(pairs[1..])
  }

  function IndicesOf(args: seq<Expr>, field: ExtractField, i: nat): (r: seq<nat>)
    requires i <= |args|
    ensures forall k :: k in r <==> i <= k < |args| && ItemOf(args[k]).Some? && ItemOf(args[k]).value.field == field
    ensures InRange(args, r)
    decreases |args| - i
  {
    if i == |args| then []
    else if ItemOf(args[i]).Some? && ItemOf(args[i]).value.field == field then [i] + IndicesOf(args, field, i + 1)
    else IndicesOf(args, field, i + 1)
  }

  predicate InRange(args: seq<Expr>, indices: seq<nat>) {
    forall k :: 0 <= k < |indices| ==> indices[k] < |args|
  }

  /** The first month still free that fuses with year y. */
  function FirstMonth(args: seq<Expr>, y: nat, months: seq<nat>, used: set<nat>): (r: Option<nat>)
    requires y < |args| && InRange(args, months)
    ensures r.Some? ==> r.value in months && r.value !in used && Fusable(args[y], args[r.value])
    ensures r.None? ==> forall m :: m in months && m !in used ==> !Fusable(args[y], args[m])
  {
    if months == [] then None
    else if months[0] !in used && Fusable(args[y], args[months[0]]) then Some(months[0])
    else FirstMonth(args, y, months[1..], used)
  }

  /** One pass over the years, each taking the first free month that fuses with it. */
  function PairFrom(args: seq<Expr>, years: seq<nat>, months: seq<nat>, pairs: Pairs): Pairs
    requires InRange(args, years) && InRange(args, months)
  {
    if years == [] then pairs
    else
      var y, used := years[0], UsedBy(pairs);
      var m := if y in used then None else FirstMonth(args, y, months, used);
      PairFrom(args, years[1..], months, if m.Some? then pairs + [(y, m.value)] else pairs)
  }

  function PairsOf(args: seq<Expr>): Pairs {
    PairFrom(args, IndicesOf(args, YearOf, 0), IndicesOf(args, MonthNo, 0), [])
  }

  predicate Apart(p: (nat, nat), q: (nat, nat)) {
    p.0 != q.0 && p.0 != q.1 && p.1 != q.0 && p.1 != q.1
  }

  /** Pairs fuse, and no position occurs in two of them. */
  ghost predicate Matching(args: seq<Expr>, pairs: Pairs) {
    && (forall k :: 0 <= k < |pairs| ==>
          pairs[k].0 < |args| && pairs[k].1 < |args| && Fusable(args[pairs[k].0], args[pairs[k].1]))
    && (forall j, k :: 0 <= j < k < |pairs| ==> Apart(pairs[j], pairs[k]))
  }

  lemma {:induction false} UsedByMember(pairs: Pairs, i: nat)
    ensures i in UsedBy(pairs) <==> exists k :: 0 <= k < |pairs| && (pairs[k].0 == i || pairs[k].1 == i)
  {
    if pairs != [] {
      UsedByMember(pairs[1..], i);
      if i in UsedBy(pairs[1..]) {
        var k :| 0 <= k < |pairs[1..]| && (pairs[1..][k].0 == i || pairs[1..][k].1 == i);
        assert pairs[k + 1] == pairs[1..][k];
      }
    }
  }

  lemma {:induction false} PairFromMatches(args: seq<Expr>, years: seq<nat>, months: seq<nat>, pairs: Pairs)
    requires InRange(args, years) && InRange(args, months) && Matching(args, pairs)
    ensures Matching(args, PairFrom(args, years, months, pairs))
  {
    if years != [] {
      var y, used := years[0], UsedBy(pairs);
      var m := if y in used then None else FirstMonth(args, y, months, used);
      if m.Some? {
        UsedByMember(pairs, y);
        UsedByMember(pairs, m.value);
        PairFromMatches(args, years[1..], months, pairs + [(y, m.value)]);
      } else {
        PairFromMatches(args, years[1..], months, pairs);
      }
    }
  }

  /** Every year and month equality is fused at most once, and only with a partner on its column. */
  lemma PairsAreMatching(args: seq<Expr>)
    ensures Matching(args, PairsOf(args))
  {
    PairFromMatches(args, IndicesOf(args, YearOf, 0), IndicesOf(args, MonthNo, 0), []);
  }

  lemma {:induction false} PairFromKeeps(args: seq<Expr>, years: seq<nat>, months: seq<nat>, pairs: Pairs)
    requires InRange(args, years) && InRange(args, months)
    ensures pairs <= PairFrom(args, years, months, pairs)
  {
    if years != [] {
      var y, used := years[0], UsedBy(pairs);
      var m := if y in used then None else FirstMonth(args, y, months, used);
      PairFromKeeps(args, years[1..], months, if m.Some? then pairs + [(y, m.value)] else pairs);
    }
  }

  /** The pairing is maximal: a year left over fuses with no month left over. */
  lemma {:induction false} PairFromIsMaximal(args: seq<Expr>, years: seq<nat>, months: seq<nat>, pairs: Pairs, y: nat,
      m: nat)
    requires InRange(args, years) && InRange(args, months) && y in years && m in months
    ensures var used := UsedBy(PairFrom(args, years, months, pairs));
            y !in used && m !in used ==> !Fusable(args[y], args[m])
  {
    var used := UsedBy(pairs);
    var first := if years[0] in used then None else FirstMonth(args, years[0], months, used);
    var next := if first.Some? then pairs + [(years[0], first.value)] else pairs;
    var all := PairFrom(args, years, months, pairs);
    PairFromKeeps(args, years[1..], months, next);
    UsedByGrows(next, all);
    UsedByGrows(pairs, next);
    if y == years[0] {
      UsedByMember(next, y);
      if first.Some? { assert next[|pairs|].0 == y; }
    } else {
      PairFromIsMaximal(args, years[1..], months, next, y, m);
    }
  }

  lemma UsedByGrows(a: Pairs, b: Pairs)
    requires a <= b
    ensures UsedBy(a) <= UsedBy(b)
  {
    forall i | i in UsedBy(a) ensures i in UsedBy(b) {
      UsedByMember(a, i);
      UsedByMember(b, i);
      var k :| 0 <= k < |a| && (a[k].0 == i || a[k].1 == i);
      assert b[k] == a[k];
    }
  }

  // ---- Rebuilding the conjunction ----

  /** The pair whose year stands at position i, if any. */
  function PairAt(pairs: Pairs, i: nat): (r: Option<nat>)
    ensures r.Some? ==> r.value < |pairs| && pairs[r.value].0 == i
    ensures r.None? ==> forall k :: 0 <= k < |pairs| ==> pairs[k].0 != i
  {
    if pairs == [] then None
    else if pairs[0].0 == i then Some(0)
    else if PairAt(pairs[1..], i).Some? then Some(1 + PairAt(pairs[1..], i).value)
    else
      assert forall k :: 0 < k < |pairs| ==> pairs[k] == pairs[1..][k - 1];
      None
  }

  /** What stands in the rebuilt conjunction for argument i: nothing, a range, or the argument. */
  function Slot(args: seq<Expr>, pairs: Pairs, i: nat): seq<Expr>
    requires i < |args| && Matching(args, pairs)
  {
    if i !in UsedBy(pairs) then [args[i]]
    else
      match PairAt(pairs, i)
      case None => []
      case Some(k) => [FusedRange(args[pairs[k].0], args[pairs[k].1])]
  }

  function Rebuild(args: seq<Expr>, pairs: Pairs, i: nat): seq<Expr>
    requires i <= |args| && Matching(args, pairs)
    decreases |args| - i
  {
    if i == |args| then [] else Slot(args, pairs, i) + Rebuild(args, pairs, i + 1)
  }

  function Infos(args: seq<Expr>, pairs: Pairs): (r: seq<Info>)
    requires Matching(args, pairs)
    ensures |r| == |pairs|
  {
    seq(|pairs|, k requires 0 <= k < |pairs| => FusedInfo(args[pairs[k].0]))
  }

  /** rewriter_sargable.go, rewriteExtractYearMonthAnd: the new node and what was recorded. */
  function Fuse(e: Expr): (Expr, seq<Info>)
    decreases e, 0
  {
    if !e.Logic? then (e, [])
    else
      var (args, log) := FuseArgs(e.args);
      if !e.bop.AndOp? then (Logic(e.bop, args), log)
      else
        var pairs := PairsOf(args);
        PairsAreMatching(args);
        var total := log + Infos(args, pairs);
        var rebuilt := Combine(AndOp, Rebuild(args, pairs, 0));
        if total == [] || rebuilt.None? then (e, []) else (rebuilt.value, total)
  }

  function FuseArgs(es: seq<Expr>): (r: (seq<Expr>, seq<Info>))
    ensures |r.0| == |es|
    decreases es, 0
  {
    if es == [] then ([], [])
    else
      var (x, log) := Fuse(es[0]);
      var (xs, logs) := FuseArgs(es[1..]);
      ([x] + xs, log + logs)
  }

  // ---- Meaning ----

  lemma FusedRangeMeaning(y: Expr, m: Expr, db: Db, env: Env)
    requires Fusable(y, m)
    ensures TruthOf(FusedRange(y, m), db, env) == Kleene.And(TruthOf(y, db, env), TruthOf(m, db, env))
  {
    hide MonthStart, MonthOf, Compare, AddDate, RangeExpr;
    var col, year, month := ItemOf(y).value.col, ItemOf(y).value.value, ItemOf(m).value.value;
    var v := Eval(col, db, env);
    var k := 12 * year + (month - 1);
    var start, end := MonthStart(k) * DAY, MonthStart(k + 1) * DAY;
    NextMonth(k);
    RangeOfDates(col, start, end, db, env);
    ModUnique(start, MonthStart(k), 0, DAY);
    ModUnique(end, MonthStart(k + 1), 0, DAY);
    ItemMeaning(y, db, env);
    ItemMeaning(m, db, env);
    if v.Time? {
      MonthRangeHolds(k, k + 1, v.t);
      CompareInts(ExtractValue(YearOf, v).i, year);
      CompareInts(ExtractValue(MonthNo, v).i, month);
    } else {
      CompareNull(Eq, Int(year));
      CompareNull(Eq, Int(month));
    }
  }

  lemma NextMonth(k: int)
    ensures AddDate(MonthStart(k) * DAY, 0, 1, 0) == MonthStart(k + 1) * DAY
  {
    hide MonthStart, MonthOf;
    StartOfMonthFields(k);
    assert 12 * (k / 12) + k % 12 == k;
  }

  lemma CompareInts(a: int, b: int)
    ensures Compare(Eq, Int(a), Int(b)) == Kleene.OfBool(a == b)
  {
  }

  lemma ItemMeaning(e: Expr, db: Db, env: Env)
    requires ItemOf(e).Some?
    ensures var item := ItemOf(e).value;
            && item.col.Col?
            && TruthOf(e, db, env) == Compare(Eq, ExtractValue(item.field, Eval(item.col, db, env)), Int(item.value))
  {
    hide Compare, ExtractValue;
    var (a, b) := if ExtractItem(e.l, e.r).Some? then (e.l, e.r) else (e.r, e.l);
    var x := ExtractValue(a.field, Eval(a.arg, db, env));
    EqSymmetric(x, b.v);
    assert Eval(a, db, env) == x;
    CmpValue(e, db, env);
  }

  lemma {:induction false} RebuildMembers(args: seq<Expr>, pairs: Pairs, i: nat, x: Expr)
    requires i <= |args| && Matching(args, pairs)
    ensures x in Rebuild(args, pairs, i) <==> exists k :: i <= k < |args| && x in Slot(args, pairs, k)
    decreases |args| - i
  {
    hide Slot, Matching;
    if i < |args| {
      RebuildMembers(args, pairs, i + 1, x);
    }
  }

  /** What argument k says is said by some member of the rebuilt list, and conversely. */
  lemma RebuiltCovers(args: seq<Expr>, pairs: Pairs, k: nat, db: Db, env: Env) returns (x: Expr)
    requires k < |args| && Matching(args, pairs)
    ensures x in Rebuild(args, pairs, 0)
    ensures TruthOf(args[k], db, env).False? ==> TruthOf(x, db, env).False?
    ensures TruthOf(args[k], db, env).Unknown? ==> !TruthOf(x, db, env).True?
  {
    hide FusedRange, Rebuild, Matching, Slot;
    if k !in UsedBy(pairs) {
      x := args[k];
      FreeSlot(args, pairs, k);
      RebuildMembers(args, pairs, 0, x);
    } else {
      UsedByMember(pairs, k);
      var p :| 0 <= p < |pairs| && (pairs[p].0 == k || pairs[p].1 == k);
      RangeInSlot(args, pairs, p);
      var y, m := pairs[p].0, pairs[p].1;
      x := FusedRange(args[y], args[m]);
      FusedRangeMeaning(args[y], args[m], db, env);
      RebuildMembers(args, pairs, 0, x);
    }
  }

  lemma FreeSlot(args: seq<Expr>, pairs: Pairs, k: nat)
    requires k < |args| && Matching(args, pairs) && k !in UsedBy(pairs)
    ensures args[k] in Slot(args, pairs, k)
  {
  }

  lemma RangeInSlot(args: seq<Expr>, pairs: Pairs, p: nat)
    requires Matching(args, pairs) && p < |pairs|
    ensures pairs[p].0 < |args| && pairs[p].1 < |args| && Fusable(args[pairs[p].0], args[pairs[p].1])
    ensures FusedRange(args[pairs[p].0], args[pairs[p].1]) in Slot(args, pairs, pairs[p].0)
  {
    hide FusedRange;
    UsedByMember(pairs, pairs[p].0);
    PairAtUnique(args, pairs, p);
  }

  lemma {:induction false} PairAtUnique(args: seq<Expr>, pairs: Pairs, p: nat)
    requires Matching(args, pairs) && p < |pairs|
    ensures PairAt(pairs, pairs[p].0) == Some(p)
  {
    hide Fusable;
    if p > 0 {
      var tail := pairs[1..];
      assert forall k :: 0 <= k < |tail| ==> tail[k] == pairs[k + 1];
      assert Apart(pairs[0], pairs[p]);
      PairAtUnique(args, tail, p - 1);
    }
  }

  lemma RebuiltIsCovered(args: seq<Expr>, pairs: Pairs, x: Expr, db: Db, env: Env)
    requires Matching(args, pairs) && x in Rebuild(args, pairs, 0)
    ensures TruthOf(x, db, env).False? ==> exists k :: 0 <= k < |args| && TruthOf(args[k], db, env).False?
    ensures TruthOf(x, db, env).Unknown? ==> exists k :: 0 <= k < |args| && !TruthOf(args[k], db, env).True?
  {
    hide FusedRange;
    RebuildMembers(args, pairs, 0, x);
    var i :| 0 <= i < |args| && x in Slot(args, pairs, i);
    if i in UsedBy(pairs) {
      var p := PairAt(pairs, i).value;
      FusedRangeMeaning(args[pairs[p].0], args[pairs[p].1], db, env);
    }
  }

  /** The rebuilt conjunction has the truth value of the original one on every row. */
  lemma RebuildMeaning(args: seq<Expr>, pairs: Pairs, db: Db, env: Env)
    requires Matching(args, pairs)
    ensures Kleene.AndAll(Truths(Rebuild(args, pairs, 0), db, env)) == Kleene.AndAll(Truths(args, db, env))
  {
    hide Rebuild;
    var rebuilt := Rebuild(args, pairs, 0);
    var ts, rs := Truths(args, db, env), Truths(rebuilt, db, env);
    Kleene.AndAllValue(ts);
    Kleene.AndAllValue(rs);
    forall k | 0 <= k < |args|
      ensures ts[k].False? ==> Kleene.False in rs
      ensures ts[k].Unknown? ==> Kleene.False in rs || Kleene.Unknown in rs
    {
      var x := RebuiltCovers(args, pairs, k, db, env);
      var j :| 0 <= j < |rebuilt| && rebuilt[j] == x;
      assert rs[j] == TruthOf(x, db, env);
    }
    forall j | 0 <= j < |rebuilt|
      ensures rs[j].False? ==> Kleene.False in ts
      ensures rs[j].Unknown? ==> Kleene.False in ts || Kleene.Unknown in ts
    {
      RebuiltIsCovered(args, pairs, rebuilt[j], db, env);
      if rs[j].False? {
        var k :| 0 <= k < |args| && TruthOf(args[k], db, env).False?;
        assert ts[k] == Kleene.False;
      } else if rs[j].Unknown? {
        var k :| 0 <= k < |args| && !TruthOf(args[k], db, env).True?;
        assert ts[k] != Kleene.True;
      }
    }
  }

  lemma LogicValue(bop: BoolOp, args: seq<Expr>, db: Db, env: Env)
    ensures Eval(Logic(bop, args), db, env) == OfTruth(ApplyBool(bop, Truths(args, db, env)))
  {
    EvalArgsAt(args, db, env);
    assert TruthsOf(EvalArgs(args, db, env)) == Truths(args, db, env);
  }

  /**
   Year/month fusion is exact: on every row the new tree has the same three-valued truth, under
   any nesting of AND, OR and NOT and for any number of year and month tests.
   */
  lemma {:induction false} FuseMeaning(e: Expr, db: Db, env: Env)
    ensures Eval(Fuse(e).0, db, env) == Eval(e, db, env)
    decreases e, 0
  {
    if e.Logic? {
      FuseArgsMeaning(e.args, db, env);
      var (args, log) := FuseArgs(e.args);
      assert Truths(args, db, env) == Truths(e.args, db, env);
      LogicValue(e.bop, e.args, db, env);
      LogicValue(e.bop, args, db, env);
      if e.bop.AndOp? {
        FuseAndMeaning(e, args, log, db, env);
      }
    }
  }

  lemma FuseAndMeaning(e: Expr, args: seq<Expr>, log: seq<Info>, db: Db, env: Env)
    requires e.Logic? && e.bop.AndOp? && FuseArgs(e.args) == (args, log)
    requires |args| == |e.args| && forall i :: 0 <= i < |args| ==> Eval(args[i], db, env) == Eval(e.args[i], db, env)
    requires Eval(e, db, env) == OfTruth(Kleene.AndAll(Truths(args, db, env)))
    ensures Eval(Fuse(e).0, db, env) == Eval(e, db, env)
  {
    hide Rebuild, Infos, PairsOf, FuseArgs, Matching;
    var pairs := PairsOf(args);
    PairsAreMatching(args);
    var rebuilt := Rebuild(args, pairs, 0);
    RebuildMeaning(args, pairs, db, env);
    LogicValue(AndOp, rebuilt, db, env);
    if |rebuilt| == 1 {
      Kleene.AndAllValue(Truths(rebuilt, db, env));
      assert OfTruth(Kleene.AndAll(Truths(rebuilt, db, env))) == OfTruth(TruthOf(rebuilt[0], db, env)) by {
        assert Truths(rebuilt, db, env) == [TruthOf(rebuilt[0], db, env)];
      }
      if log + Infos(args, pairs) != [] {
        SingletonIsBoolean(e.args, pairs, db, env);
      }
    }
  }

  predicate BooleanValue(v: Value) {
    v.Bool? || v.Null?
  }

  /** If the fusion changed something and one conjunct is left, that conjunct is Boolean. */
  lemma SingletonIsBoolean(es: seq<Expr>, pairs: Pairs, db: Db, env: Env)
    requires var args := FuseArgs(es).0; Matching(args, pairs) && |Rebuild(args, pairs, 0)| == 1
    requires FuseArgs(es).1 != [] || pairs != []
    requires forall i :: 0 <= i < |es| ==> Eval(FuseArgs(es).0[i], db, env) == Eval(es[i], db, env)
    ensures BooleanValue(Eval(Rebuild(FuseArgs(es).0, pairs, 0)[0], db, env))
  {
    hide Rebuild, Slot, FusedRange, Fuse;
    var args := FuseArgs(es).0;
    var x := Rebuild(args, pairs, 0)[0];
    RebuildMembers(args, pairs, 0, x);
    if pairs != [] {
      var y, m := pairs[0].0, pairs[0].1;
      var r := FusedRange(args[y], args[m]);
      RangeInSlot(args, pairs, 0);
      RebuildMembers(args, pairs, 0, r);
      assert r == x;
      FusedRangeIsLogic(args[y], args[m]);
      LogicValue(r.bop, r.args, db, env);
    } else {
      var k := ChangedArg(es);
      UnpairedSlot(args, k);
      RebuildMembers(args, pairs, 0, args[k]);
      assert args[k] == x;
      LogicValue(es[k].bop, es[k].args, db, env);
    }
  }

  lemma FusedRangeIsLogic(y: Expr, m: Expr)
    requires Fusable(y, m)
    ensures FusedRange(y, m).Logic?
  {
  }

  lemma UnpairedSlot(args: seq<Expr>, k: nat)
    requires k < |args|
    ensures Matching(args, []) && args[k] in Slot(args, [], k)
  {
  }

  lemma {:induction false} ChangedArg(es: seq<Expr>) returns (k: nat)
    requires FuseArgs(es).1 != []
    ensures k < |es| && es[k].Logic?
  {
    if Fuse(es[0]).1 != [] {
      k := 0;
    } else {
      var j := ChangedArg(es[1..]);
      k := j + 1;
    }
  }

  lemma {:induction false} FuseArgsMeaning(es: seq<Expr>, db: Db, env: Env)
    ensures forall i :: 0 <= i < |es| ==> Eval(FuseArgs(es).0[i], db, env) == Eval(es[i], db, env)
    decreases es, 0
  {
    if es != [] {
      FuseMeaning(es[0], db, env);
      FuseArgsMeaning(es[1..], db, env);
    }
  }

  // ---- The loops of the rewriter ----

  lemma {:induction false} FuseArgsAppend(a: seq<Expr>, b: seq<Expr>)
    ensures FuseArgs(a + b) == (FuseArgs(a).0 + FuseArgs(b).0, FuseArgs(a).1 + FuseArgs(b).1)
  {
    hide Fuse;
    if a == [] {
      assert a + b == b;
      assert FuseArgs(a).0 + FuseArgs(b).0 == FuseArgs(b).0 && FuseArgs(a).1 + FuseArgs(b).1 == FuseArgs(b).1;
    } else {
      assert (a + b)[1..] == a[1..] + b;
      FuseArgsAppend(a[1..], b);
      var (x, log) := Fuse(a[0]);
      var (xs, logs) := FuseArgs(a[1..]);
      assert [x] + (xs + FuseArgs(b).0) == [x] + xs + FuseArgs(b).0;
      assert log + (logs + FuseArgs(b).1) == log + logs + FuseArgs(b).1;
    }
  }

  lemma FuseArgsOfOne(e: Expr)
    ensures FuseArgs([e]) == ([Fuse(e).0], Fuse(e).1)
  {
    hide Fuse;
    var (x, log) := Fuse(e);
    assert [e][1..] == [];
    assert [x] + [] == [x] && log + [] == log;
  }

  lemma {:induction false} UsedByAppend(pairs: Pairs, p: (nat, nat))
    ensures UsedBy(pairs + [p]) == UsedBy(pairs) + {p.0, p.1}
  {
    if pairs != [] {
      assert (pairs + [p])[1..] == pairs[1..] + [p];
      UsedByAppend(pairs[1..], p);
    }
  }

  /** The map the second loop fills: the range to put where each paired year stood. */
  ghost predicate Replaces(args: seq<Expr>, pairs: Pairs, replaceAt: map<nat, Expr>) {
    && Matching(args, pairs)
    && (forall i :: i in replaceAt <==> PairAt(pairs, i).Some?)
    && (forall i :: i in replaceAt ==>
          var p := pairs[PairAt(pairs, i).value]; replaceAt[i] == FusedRange(args[p.0], args[p.1]))
  }

  lemma {:induction false} PairAtAppend(pairs: Pairs, p: (nat, nat), i: nat)
    ensures PairAt(pairs + [p], i)
         == if PairAt(pairs, i).Some? then PairAt(pairs, i) else if i == p.0 then Some(|pairs|) else None
  {
    if pairs != [] {
      assert (pairs + [p])[1..] == pairs[1..] + [p];
      PairAtAppend(pairs[1..], p, i);
    }
  }

  lemma AddPair(args: seq<Expr>, pairs: Pairs, replaceAt: map<nat, Expr>, y: nat, m: nat)
    requires Replaces(args, pairs, replaceAt) && y < |args| && m < |args| && Fusable(args[y], args[m])
    requires y !in UsedBy(pairs) && m !in UsedBy(pairs)
    ensures Matching(args, pairs + [(y, m)])
    ensures Replaces(args, pairs + [(y, m)], replaceAt[y := FusedRange(args[y], args[m])])
    ensures UsedBy(pairs + [(y, m)]) == UsedBy(pairs) + {y, m}
    ensures Infos(args, pairs + [(y, m)]) == Infos(args, pairs) + [FusedInfo(args[y])]
  {
    hide FusedRange, FusedInfo, UsedBy, PairAt, Fusable;
    UsedByAppend(pairs, (y, m));
    MatchingGrows(args, pairs, y, m);
    UsedByMember(pairs, y);
    forall i: nat {
      PairAtAppend(pairs, (y, m), i);
    }
  }

  lemma MatchingGrows(args: seq<Expr>, pairs: Pairs, y: nat, m: nat)
    requires Matching(args, pairs) && y < |args| && m < |args| && Fusable(args[y], args[m])
    requires y !in UsedBy(pairs) && m !in UsedBy(pairs)
    ensures Matching(args, pairs + [(y, m)])
  {
    hide UsedBy, Fusable;
    UsedByMember(pairs, y);
    UsedByMember(pairs, m);
  }

  /** The loops of rewriteExtractYearMonthAnd, with its `used` and `replaceAt` maps. */
  method RewriteExtractYearMonthAnd(node: Expr) returns (out: Expr, log: seq<Info>)
    ensures (out, log) == Fuse(node)
    decreases node
  {
    if !node.Logic? {
      return node, [];
    }
    var args: seq<Expr> := [];
    log := [];
    for i := 0 to |node.args|
      invariant (args, log) == FuseArgs(node.args[..i])
    {
      var arg, recorded := RewriteExtractYearMonthAnd(node.args[i]);
      args, log := args + [arg], log + recorded;
      FuseArgsAppend(node.args[..i], [node.args[i]]);
      assert node.args[..i + 1] == node.args[..i] + [node.args[i]];
      FuseArgsOfOne(node.args[i]);
    }
    assert node.args[..|node.args|] == node.args;
    if !node.bop.AndOp? {
      return Logic(node.bop, args), log;
    }
    out, log := FuseConjuncts(node, args, log);
  }

  method FuseConjuncts(node: Expr, args: seq<Expr>, nested: seq<Info>) returns (out: Expr, log: seq<Info>)
    requires node.Logic? && node.bop.AndOp? && FuseArgs(node.args) == (args, nested)
    ensures (out, log) == Fuse(node)
  {
    hide Rebuild, PairsOf, Infos, FuseArgs;
    var years, months := CollectItems(args);
    var used, replaceAt, recorded := PairYearsWithMonths(args, years, months);
    ghost var pairs := PairsOf(args);
    log := nested + recorded;
    PairsAreMatching(args);
    if log == [] {
      return node, [];
    }
    var newArgs := RebuildConjunction(args, used, replaceAt);
    out := if newArgs == [] then node else Combine(AndOp, newArgs).value;
    if newArgs == [] {
      log := [];
    }
  }

  lemma UnfoldRebuild(args: seq<Expr>, pairs: Pairs, i: nat)
    requires i <= |args| && Matching(args, pairs)
    ensures Rebuild(args, pairs, i) == if i == |args| then [] else Slot(args, pairs, i) + Rebuild(args, pairs, i + 1)
  {
    hide Slot, Matching;
  }

  lemma SlotCases(args: seq<Expr>, pairs: Pairs, replaceAt: map<nat, Expr>, i: nat)
    requires i < |args| && Replaces(args, pairs, replaceAt)
    ensures Slot(args, pairs, i)
         == if i !in UsedBy(pairs) then [args[i]] else if i in replaceAt then [replaceAt[i]] else []
  {
    hide FusedRange, UsedBy, PairAt;
  }

  method RebuildConjunction(args: seq<Expr>, used: set<nat>, replaceAt: map<nat, Expr>) returns (newArgs: seq<Expr>)
    requires used == UsedBy(PairsOf(args)) && Replaces(args, PairsOf(args), replaceAt)
    ensures newArgs == Rebuild(args, PairsOf(args), 0)
  {
    hide FusedRange, PairsOf, Rebuild, Slot, UsedBy, PairAt, Matching;
    ghost var pairs := PairsOf(args);
    newArgs := [];
    for i := 0 to |args|
      invariant newArgs + Rebuild(args, pairs, i) == Rebuild(args, pairs, 0)
    {
      UnfoldRebuild(args, pairs, i);
      SlotCases(args, pairs, replaceAt, i);
      ghost var before, slot, rest := newArgs, Slot(args, pairs, i), Rebuild(args, pairs, i + 1);
      if i in used {
        if i in replaceAt {
          newArgs := newArgs + [replaceAt[i]];
        }
      } else {
        newArgs := newArgs + [args[i]];
      }
      assert newArgs == before + slot;
      assert before + (slot + rest) == newArgs + rest;
    }
    UnfoldRebuild(args, pairs, |args|);
  }

  lemma UnfoldIndices(args: seq<Expr>, field: ExtractField, i: nat)
    requires i < |args|
    ensures IndicesOf(args, field, i)
         == (if ItemOf(args[i]).Some? && ItemOf(args[i]).value.field == field then [i] else [])
             + IndicesOf(args, field, i + 1)
  {
    hide ItemOf;
  }

  method CollectItems(args: seq<Expr>) returns (years: seq<nat>, months: seq<nat>)
    ensures years == IndicesOf(args, YearOf, 0) && months == IndicesOf(args, MonthNo, 0)
  {
    hide ItemOf, IndicesOf;
    years, months := [], [];
    for i := 0 to |args|
      invariant years + IndicesOf(args, YearOf, i) == IndicesOf(args, YearOf, 0)
      invariant months + IndicesOf(args, MonthNo, i) == IndicesOf(args, MonthNo, 0)
    {
      UnfoldIndices(args, YearOf, i);
      UnfoldIndices(args, MonthNo, i);
      var item := ItemOf(args[i]);
      if item.Some? && item.value.field.YearOf? {
        years := years + [i];
      } else if item.Some? && item.value.field.MonthNo? {
        months := months + [i];
      }
    }
    assert IndicesOf(args, YearOf, |args|) == [] && IndicesOf(args, MonthNo, |args|) == [] by { NoIndicesLeft(args); }
  }

  lemma NoIndicesLeft(args: seq<Expr>)
    ensures IndicesOf(args, YearOf, |args|) == [] && IndicesOf(args, MonthNo, |args|) == []
  {
  }

  lemma UnfoldPairFrom(args: seq<Expr>, years: seq<nat>, i: nat, months: seq<nat>, pairs: Pairs)
    requires InRange(args, years) && InRange(args, months) && i < |years|
    ensures var y, used := years[i], UsedBy(pairs);
            var m := if y in used then None else FirstMonth(args, y, months, used);
            PairFrom(args, years[i..], months, pairs)
            == PairFrom(args, years[i + 1..], months, if m.Some? then pairs + [(y, m.value)] else pairs)
  {
    hide FirstMonth, UsedBy;
    assert years[i..][1..] == years[i + 1..];
  }

  lemma UnfoldFirstMonth(args: seq<Expr>, y: nat, months: seq<nat>, j: nat, used: set<nat>)
    requires y < |args| && InRange(args, months) && j <= |months|
    ensures FirstMonth(args, y, months[j..], used)
         == if j == |months| then None
            else if months[j] !in used && Fusable(args[y], args[months[j]]) then Some(months[j])
            else FirstMonth(args, y, months[j + 1..], used)
  {
    hide Fusable;
    if j < |months| {
      assert months[j..][1..] == months[j + 1..];
    }
  }

  /** The inner loop over the months. */
  method FindMonth(args: seq<Expr>, y: nat, months: seq<nat>, used: set<nat>) returns (found: Option<nat>)
    requires y < |args| && InRange(args, months)
    ensures found == FirstMonth(args, y, months, used)
  {
    hide Fusable, FirstMonth;
    assert months[0..] == months;
    for j := 0 to |months|
      invariant FirstMonth(args, y, months[j..], used) == FirstMonth(args, y, months, used)
    {
      UnfoldFirstMonth(args, y, months, j, used);
      var m := months[j];
      if m !in used && Fusable(args[y], args[m]) {
        return Some(m);
      }
    }
    UnfoldFirstMonth(args, y, months, |months|, used);
    return None;
  }

  method PairYearsWithMonths(args: seq<Expr>, years: seq<nat>, months: seq<nat>)
    returns (used: set<nat>, replaceAt: map<nat, Expr>, recorded: seq<Info>)
    requires years == IndicesOf(args, YearOf, 0) && months == IndicesOf(args, MonthNo, 0)
    ensures used == UsedBy(PairsOf(args)) && Replaces(args, PairsOf(args), replaceAt)
    ensures recorded == Infos(args, PairsOf(args))
  {
    hide FusedRange, FusedInfo, Fusable, ItemOf, IndicesOf, PairFrom, FirstMonth, Infos, Replaces, UsedBy;
    used, replaceAt, recorded := {}, map[], [];
    ghost var pairs: Pairs := [];
    NothingPaired(args);
    assert years[0..] == years;
    for i := 0 to |years|
      invariant used == UsedBy(pairs) && Replaces(args, pairs, replaceAt)
      invariant Matching(args, pairs) && recorded == Infos(args, pairs)
      invariant PairFrom(args, years[i..], months, pairs) == PairsOf(args)
    {
      UnfoldPairFrom(args, years, i, months, pairs);
      var y := years[i];
      if y !in used {
        var found := FindMonth(args, y, months, used);
        if found.Some? {
          var m := found.value;
          AddPair(args, pairs, replaceAt, y, m);
          recorded := recorded + [FusedInfo(args[y])];
          replaceAt := replaceAt[y := FusedRange(args[y], args[m])];
          used := used + {y, m};
          pairs := pairs + [(y, m)];
        }
      }
    }
    NoYearsLeft(args, months, pairs);
    assert years[|years|..] == [];
  }

  lemma NothingPaired(args: seq<Expr>)
    ensures UsedBy([]) == {} && Matching(args, []) && Replaces(args, [], map[]) && Infos(args, []) == []
  {
  }

  lemma NoYearsLeft(args: seq<Expr>, months: seq<nat>, pairs: Pairs)
    requires InRange(args, months)
    ensures PairFrom(args, [], months, pairs) == pairs
  {
  }
}
