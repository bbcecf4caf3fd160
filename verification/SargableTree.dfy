/**
 The walk that composes the sargable rewrites: every WHERE of a SELECT tree, in WITH bodies
 and FROM subselects, is fused and unwrapped.
 */
module SargableTree {
  import opened Options
  import opened SqlSyntax
  import opened SqlSemantics
  import opened Sargable
  import opened SargableMeaning
  import opened Grades
  import opened Fusion
  import opened Calendar
  import Kleene

  /** rewriter.go, rewriteFunctionWrapInExpr: the new node and what was recorded. */
  function Wrap(e: Expr): (Expr, seq<Info>)
    decreases e, 0
  {
    if e.Cmp? || e.Between? then
      match TryRewrite(e)
      case Some(rw) => (rw.e, [rw.info])
      case None => (e, [])
    else if e.Logic? then
      var (args, log) := WrapArgs(e.args);
      (Logic(e.bop, args), log)
    else (e, [])
  }

  function WrapArgs(es: seq<Expr>): (r: (seq<Expr>, seq<Info>))
    ensures |r.0| == |es|
    decreases es, 0
  {
    if es == [] then ([], [])
    else
      var (x, log) := Wrap(es[0]);
      var (xs, logs) := WrapArgs(es[1..]);
      ([x] + xs, log + logs)
  }

  /** Both passes over one WHERE clause. */
  function RewriteCond(e: Expr): (Expr, seq<Info>) {
    var (fused, log) := Fuse(e);
    var (wrapped, logs) := Wrap(fused);
    (wrapped, log + logs)
  }

  function RewriteWhere(cond: Option<Expr>): (Option<Expr>, seq<Info>) {
    match cond
    case None => (None, [])
    case Some(e) => (Some(RewriteCond(e).0), RewriteCond(e).1)
  }

  /** rewriter_nested.go: a UNION is only entered through its WITH bodies, a join not at all. */
  function RewriteTree(s: Select): (Select, seq<Info>)
    decreases s, 0
  {
    match s
    case Simple(ctes, distinct, targets, tables, cond, limit) =>
      var (newCtes, log1) := RewriteCtes(ctes);
      var (newTables, log2) := RewriteTables(tables);
      var (newCond, log3) := RewriteWhere(cond);
      (Simple(newCtes, distinct, targets, newTables, newCond, limit), log1 + log2 + log3)
    case UnionAll(ctes, larg, rarg) =>
      var (newCtes, log) := RewriteCtes(ctes);
      (UnionAll(newCtes, larg, rarg), log)
  }

  function RewriteCtes(ctes: seq<Cte>): (seq<Cte>, seq<Info>)
    decreases ctes, 0
  {
    if ctes == [] then ([], [])
    else
      var (query, log) := RewriteTree(ctes[0].query);
      var (rest, logs) := RewriteCtes(ctes[1..]);
      ([Cte(ctes[0].name, query)] + rest, log + logs)
  }

  function RewriteFrom(f: FromItem): (FromItem, seq<Info>)
    decreases f, 0
  {
    if f.SubSelect? then (SubSelect(RewriteTree(f.query).0, f.alias), RewriteTree(f.query).1) else (f, [])
  }

  function RewriteTables(fs: seq<FromItem>): (seq<FromItem>, seq<Info>)
    decreases fs, 0
  {
    if fs == [] then ([], [])
    else
      var (f, log) := RewriteFrom(fs[0]);
      var (rest, logs) := RewriteTables(fs[1..]);
      ([f] + rest, log + logs)
  }

  // ---- Which trees are safe ----

  /**
   Every site keeps what its position needs: under an even number of NOTs the rows on which it is
   TRUE, under an odd number those on which it is FALSE. `positive` says that the number is even.
   */
  predicate Safe(e: Expr, binds: Binds, positive: bool)
    decreases e, 0
  {
    if e.Cmp? || e.Between? then
      if positive then GradeOf(e, binds).KeepsTrue() else GradeOf(e, binds).KeepsFalse()
    else if e.Logic? then SafeArgs(e.args, binds, positive != e.bop.NotOp?)
    else true
  }

  predicate SafeArgs(es: seq<Expr>, binds: Binds, positive: bool)
    decreases es, 0
  {
    es == [] || (Safe(es[0], binds, positive) && SafeArgs(es[1..], binds, positive))
  }

  predicate SafeTree(s: Select, binds: Binds)
    decreases s, 0
  {
    match s
    case Simple(ctes, _, _, tables, cond, _) =>
      SafeCtes(ctes, binds) && SafeTables(tables, binds) && (cond.Some? ==> Safe(cond.value, binds, true))
    case UnionAll(ctes, _, _) => SafeCtes(ctes, binds)
  }

  predicate SafeCtes(ctes: seq<Cte>, binds: Binds)
    decreases ctes, 0
  {
    ctes == [] || (SafeTree(ctes[0].query, binds) && SafeCtes(ctes[1..], binds))
  }

  predicate SafeTables(fs: seq<FromItem>, binds: Binds)
    decreases fs, 0
  {
    fs == [] || ((fs[0].SubSelect? ==> SafeTree(fs[0].query, binds)) && SafeTables(fs[1..], binds))
  }

  lemma {:induction false} SafeArgsAt(es: seq<Expr>, binds: Binds, positive: bool)
    ensures SafeArgs(es, binds, positive) <==> forall i :: 0 <= i < |es| ==> Safe(es[i], binds, positive)
  {
    if es != [] {
      SafeArgsAt(es[1..], binds, positive);
      assert forall i :: 0 < i < |es| ==> es[i] == es[1..][i - 1];
    }
  }

  // ---- One WHERE clause ----

  lemma {:induction false} WrapArgsAt(es: seq<Expr>)
    ensures forall i :: 0 <= i < |es| ==> WrapArgs(es).0[i] == Wrap(es[i]).0
  {
    hide Wrap;
    if es != [] {
      WrapArgsAt(es[1..]);
    }
  }

  /** The side of a condition that a position needs: TRUE, or FALSE under an odd number of NOTs. */
  ghost predicate Shows(e: Expr, positive: bool, db: Db, env: Env) {
    if positive then IsTrue(e, db, env) else IsFalse(e, db, env)
  }

  /** An operator shows a side when all, or when some, of its arguments show theirs; NOT turns the side. */
  lemma ConnectiveShows(bop: BoolOp, xs: seq<Expr>, positive: bool, db: Db, env: Env)
    ensures var inner := positive != bop.NotOp?;
            Shows(Logic(bop, xs), positive, db, env)
            <==> if bop.AndOp? != positive then exists i :: 0 <= i < |xs| && Shows(xs[i], inner, db, env)
                 else forall i :: 0 <= i < |xs| ==> Shows(xs[i], inner, db, env)
  {
    hide Eval, Kleene.AndAll, Kleene.OrAll;
    var ts, inner := Truths(xs, db, env), positive != bop.NotOp?;
    LogicValue(bop, xs, db, env);
    AndAllSides(ts);
    OrAllSides(ts);
    forall i | 0 <= i < |xs| ensures Shows(xs[i], inner, db, env) <==> if inner then ts[i].True? else ts[i].False? {
      assert ts[i] == TruthOf(xs[i], db, env);
    }
  }

  /** Where every argument that shows its side goes on doing so, the operator does. */
  lemma ConnectiveMonotone(bop: BoolOp, xs: seq<Expr>, ys: seq<Expr>, positive: bool, db: Db, env: Env)
    requires |xs| == |ys|
    requires forall i :: 0 <= i < |xs| ==>
               Shows(xs[i], positive != bop.NotOp?, db, env) ==> Shows(ys[i], positive != bop.NotOp?, db, env)
    ensures Shows(Logic(bop, xs), positive, db, env) ==> Shows(Logic(bop, ys), positive, db, env)
  {
    hide Shows;
    ConnectiveShows(bop, xs, positive, db, env);
    ConnectiveShows(bop, ys, positive, db, env);
  }

  lemma AndAllSides(ts: seq<Kleene.Truth>)
    ensures Kleene.AndAll(ts).True? <==> forall i :: 0 <= i < |ts| ==> ts[i].True?
    ensures Kleene.AndAll(ts).False? <==> exists i :: 0 <= i < |ts| && ts[i].False?
  {
    hide Kleene.AndAll;
    Kleene.AndAllValue(ts);
    if !(forall i :: 0 <= i < |ts| ==> ts[i].True?) {
      var i :| 0 <= i < |ts| && !ts[i].True?;
      assert ts[i] == Kleene.False || ts[i] == Kleene.Unknown;
    }
    if exists i :: 0 <= i < |ts| && ts[i].False? {
      var i :| 0 <= i < |ts| && ts[i].False?;
      assert ts[i] == Kleene.False;
    }
  }

  lemma OrAllSides(ts: seq<Kleene.Truth>)
    ensures Kleene.OrAll(ts).True? <==> exists i :: 0 <= i < |ts| && ts[i].True?
    ensures Kleene.OrAll(ts).False? <==> forall i :: 0 <= i < |ts| ==> ts[i].False?
  {
    hide Kleene.OrAll;
    Kleene.OrAllValue(ts);
    if !(forall i :: 0 <= i < |ts| ==> ts[i].False?) {
      var i :| 0 <= i < |ts| && !ts[i].False?;
      assert ts[i] == Kleene.True || ts[i] == Kleene.Unknown;
    }
    if exists i :: 0 <= i < |ts| && ts[i].True? {
      var i :| 0 <= i < |ts| && ts[i].True?;
      assert ts[i] == Kleene.True;
    }
  }

  /**
   The unwraps of a safe condition keep its TRUE rows under an even number of NOTs, and its FALSE
   rows under an odd one.
   */
  lemma {:induction false} WrapMeaning(e: Expr, positive: bool, db: Db, env: Env)
    requires Safe(e, db.binds, positive)
    ensures Shows(Wrap(e).0, positive, db, env) <==> Shows(e, positive, db, env)
    decreases e
  {
    hide TryRewrite, GradeOf, Eval;
    if e.Cmp? || e.Between? {
      if TryRewrite(e).Some? {
        SiteMeaning(e, db, env);
      }
    } else if e.Logic? {
      var args, inner := WrapArgs(e.args).0, positive != e.bop.NotOp?;
      WrapArgsAt(e.args);
      SafeArgsAt(e.args, db.binds, inner);
      forall i | 0 <= i < |args| ensures Shows(args[i], inner, db, env) <==> Shows(e.args[i], inner, db, env) {
        WrapMeaning(e.args[i], inner, db, env);
      }
      ConnectiveMonotone(e.bop, args, e.args, positive, db, env);
      ConnectiveMonotone(e.bop, e.args, args, positive, db, env);
    }
  }

  lemma PlainComparisonIsNoSite(op: CmpOp, col: Expr, lit: Expr)
    requires col.Col? && lit.TimeLit?
    ensures TryRewrite(Cmp(op, col, lit)).None?
  {
  }

  lemma {:induction false} FuseArgsAt(es: seq<Expr>)
    ensures forall i :: 0 <= i < |es| ==> FuseArgs(es).0[i] == Fuse(es[i]).0
  {
    hide Fuse;
    if es != [] {
      FuseArgsAt(es[1..]);
    }
  }

  /** Fusing first makes no condition less safe. */
  lemma {:induction false} FuseKeepsSafe(e: Expr, binds: Binds, positive: bool)
    requires Safe(e, binds, positive)
    ensures Safe(Fuse(e).0, binds, positive)
    decreases e
  {
    hide GradeOf, Rebuild, Infos, PairsOf;
    if e.Logic? {
      var args := FuseArgs(e.args).0;
      var inner := positive != e.bop.NotOp?;
      FuseArgsAt(e.args);
      SafeArgsAt(e.args, binds, inner);
      forall i | 0 <= i < |args| ensures Safe(args[i], binds, inner) {
        FuseKeepsSafe(e.args[i], binds, inner);
      }
      SafeArgsAt(args, binds, inner);
      if e.bop.AndOp? {
        var pairs := PairsOf(args);
        PairsAreMatching(args);
        var rebuilt := Rebuild(args, pairs, 0);
        forall i | 0 <= i < |rebuilt| ensures Safe(rebuilt[i], binds, inner) {
          RebuiltMemberSafe(args, pairs, rebuilt[i], binds, inner);
        }
        SafeArgsAt(rebuilt, binds, inner);
      }
    }
  }

  lemma RebuiltMemberSafe(args: seq<Expr>, pairs: Pairs, x: Expr, binds: Binds, positive: bool)
    requires Matching(args, pairs) && x in Rebuild(args, pairs, 0)
    requires forall i :: 0 <= i < |args| ==> Safe(args[i], binds, positive)
    ensures Safe(x, binds, positive)
  {
    hide TryRewrite, Rebuild, MonthStart, MonthOf, GoDate, AddDate, FusedRange;
    RebuildMembers(args, pairs, 0, x);
    var i :| 0 <= i < |args| && x in Slot(args, pairs, i);
    if i in UsedBy(pairs) {
      var p := pairs[PairAt(pairs, i).value];
      FusedRangeSafe(args[p.0], args[p.1], binds, positive);
    }
  }

  lemma FusedRangeSafe(y: Expr, m: Expr, binds: Binds, positive: bool)
    requires Fusable(y, m)
    ensures Safe(FusedRange(y, m), binds, positive)
  {
    hide TryRewrite, GoDate, AddDate;
    var r := FusedRange(y, m);
    PlainComparisonIsNoSite(Ge, r.args[0].l, r.args[0].r);
    PlainComparisonIsNoSite(Lt, r.args[1].l, r.args[1].r);
    SafeArgsAt(r.args, binds, positive);
  }

  /** Both passes keep the rows of a safe WHERE. */
  lemma CondMeaning(e: Expr, db: Db, env: Env)
    requires Safe(e, db.binds, true)
    ensures IsTrue(RewriteCond(e).0, db, env) <==> IsTrue(e, db, env)
  {
    hide Fuse, Wrap, Safe;
    FuseKeepsSafe(e, db.binds, true);
    FuseMeaning(e, db, env);
    WrapMeaning(Fuse(e).0, true, db, env);
  }

  // ---- The whole tree ----

  lemma {:induction false} KeepSame(a: Option<Expr>, b: Option<Expr>, scopes: seq<Env>, db: Db, env: Env)
    requires a.Some? <==> b.Some?
    requires a.Some? ==> forall e: Env :: IsTrue(a.value, db, e) <==> IsTrue(b.value, db, e)
    ensures Keep(a, scopes, db, env) == Keep(b, scopes, db, env)
  {
    hide Eval;
    if scopes != [] {
      KeepSame(a, b, scopes[1..], db, env);
      if a.Some? {
        assert IsTrue(a.value, db, env + scopes[0]) <==> IsTrue(b.value, db, env + scopes[0]);
      }
    }
  }

  lemma {:induction false} TreeKeepsColumns(s: Select)
    ensures ColumnNames(RewriteTree(s).0) == ColumnNames(s)
  {
    hide RewriteCtes, RewriteTables, RewriteWhere;
  }

  lemma {:induction false} CtesKeepBinds(ctes: seq<Cte>, db: Db, env: Env)
    ensures EvalCtes(ctes, db, env).binds == db.binds
    decreases |ctes|
  {
    hide EvalSelect;
    if ctes != [] {
      var rows := RowsOf(ColumnNames(ctes[0].query), EvalSelect(ctes[0].query, db, env));
      CtesKeepBinds(ctes[1..], db.(tables := db.tables[ctes[0].name := rows]), env);
    }
  }

  /**
   The sargable walk leaves every query result unchanged: for every safe SELECT tree, with nested
   WITH bodies and FROM subselects, every database and every outer row.
   */
  lemma {:induction false} TreeMeaning(s: Select, db: Db, env: Env)
    requires SafeTree(s, db.binds)
    ensures EvalSelect(RewriteTree(s).0, db, env) == EvalSelect(s, db, env)
    decreases s, 0
  {
    hide RewriteWhere, Safe, Eval;
    CtesMeaning(s.ctes, db, env);
    CtesKeepBinds(s.ctes, db, env);
    if s.Simple? {
      var inner := EvalCtes(s.ctes, db, env);
      TablesMeaning(s.tables, inner, env);
      WhereMeaning(s.cond, EvalTables(s.tables, inner, env), inner, env);
    }
  }

  lemma WhereMeaning(cond: Option<Expr>, scopes: seq<Env>, db: Db, env: Env)
    requires cond.Some? ==> Safe(cond.value, db.binds, true)
    ensures Keep(RewriteWhere(cond).0, scopes, db, env) == Keep(cond, scopes, db, env)
  {
    hide Safe, Eval, RewriteCond;
    if cond.Some? {
      forall e: Env ensures IsTrue(RewriteCond(cond.value).0, db, e) <==> IsTrue(cond.value, db, e) {
        CondMeaning(cond.value, db, e);
      }
    }
    KeepSame(RewriteWhere(cond).0, cond, scopes, db, env);
  }

  lemma {:induction false} CtesMeaning(ctes: seq<Cte>, db: Db, env: Env)
    requires SafeCtes(ctes, db.binds)
    ensures EvalCtes(RewriteCtes(ctes).0, db, env) == EvalCtes(ctes, db, env)
    decreases ctes, 0
  {
    hide RewriteTree;
    if ctes != [] {
      var query := ctes[0].query;
      TreeMeaning(query, db, env);
      TreeKeepsColumns(query);
      var rows := RowsOf(ColumnNames(query), EvalSelect(query, db, env));
      CtesMeaning(ctes[1..], db.(tables := db.tables[ctes[0].name := rows]), env);
      assert RewriteCtes(ctes).0[1..] == RewriteCtes(ctes[1..]).0;
    }
  }

  lemma {:induction false} TablesMeaning(fs: seq<FromItem>, db: Db, env: Env)
    requires SafeTables(fs, db.binds)
    ensures EvalTables(RewriteTables(fs).0, db, env) == EvalTables(fs, db, env)
    decreases fs, 0
  {
    hide RewriteTree;
    if fs != [] {
      if fs[0].SubSelect? {
        TreeMeaning(fs[0].query, db, env);
        TreeKeepsColumns(fs[0].query);
      }
      TablesMeaning(fs[1..], db, env);
      assert RewriteTables(fs).0[1..] == RewriteTables(fs[1..]).0;
    }
  }

  // ---- A NOT above an is-TRUE-only rewrite ----

  /** `SELECT 1 FROM t WHERE NOT (COALESCE(t.c, 'a') = 'b')`. */
  function NegatedCoalesce(): Select {
    Simple([], false, [Target("one", Lit(Int(1)))], [Table("t", "t")], Some(NotExpr(COALESCE_SITE)), None)
  }

  /** A table t with one row whose column c is NULL. */
  function OneNullRow(): Db {
    Db(map["t" := [map["c" := Null]]], map[])
  }

  lemma SingleTableQuery(targets: seq<Target>, cond: Expr, row: Row, db: Db)
    requires "t" in db.tables && db.tables["t"] == [row]
    ensures var env := map["t" := row];
            EvalSelect(Simple([], false, targets, [Table("t", "t")], Some(cond), None), db, map[])
            == if IsTrue(cond, db, env) then [EvalTargets(targets, db, env)] else []
  {
    hide Eval, EvalTargets;
    var table := Table("t", "t");
    var env: Env := map["t" := row];
    var outer: Env := map[];
    assert db.tables["t"][1..] == [] && Scopes("t", db.tables["t"][1..]) == [];
    assert EvalFrom(table, db, outer) == [env];
    assert [table][1..] == [] && EvalTables([table][1..], db, outer) == [map[]];
    OneScope(env);
    assert EvalTables([table], db, outer) == [env];
    assert outer + env == env;
    KeepOne(Some(cond), env, db, outer);
    if IsTrue(cond, db, env) {
      assert [env][1..] == [] && Project(targets, [env][1..], db, outer) == [];
      assert Project(targets, [env], db, outer) == [EvalTargets(targets, db, env)];
    }
  }

  lemma OneScope(env: Env)
    ensures Product([env], [map[]]) == [env]
  {
    var nothing: seq<Env> := [map[]];
    assert env + nothing[0] == env;
    assert nothing[1..] == [] && Extend(env, nothing[1..]) == [];
    assert Extend(env, nothing) == [env];
    assert [env][1..] == [] && Product([env][1..], nothing) == [];
  }

  lemma KeepOne(cond: Option<Expr>, scope: Env, db: Db, env: Env)
    ensures Keep(cond, [scope], db, env)
         == if cond.None? || IsTrue(cond.value, db, env + scope) then [scope] else []
  {
    hide Eval;
    assert [scope][1..] == [] && Keep(cond, [scope][1..], db, env) == [];
  }

  const COALESCE_SITE: Expr := Cmp(Eq, Coalesce(Col("t", "c"), Lit(Str("a"))), Lit(Str("b")))

  const BARE_SITE: Expr := Cmp(Eq, Col("t", "c"), Lit(Str("b")))

  lemma NegatedCoalesceConds(db: Db, env: Env)
    requires env == map["t" := map["c" := Null]]
    ensures Eval(NotExpr(COALESCE_SITE), db, env) == Bool(true)
    ensures Eval(NotExpr(BARE_SITE), db, env) == Null
  {
    var site, bare := COALESCE_SITE, BARE_SITE;
    LogicValue(NotOp, [site], db, env);
    LogicValue(NotOp, [bare], db, env);
    assert Truths([site], db, env) == [Kleene.False];
    assert Truths([bare], db, env) == [Kleene.Unknown];
    Kleene.AndAllValue(Truths([site], db, env));
    Kleene.AndAllValue(Truths([bare], db, env));
  }

  lemma NegatedCoalesceRewrite()
    ensures RewriteCond(NotExpr(COALESCE_SITE)).0 == NotExpr(BARE_SITE)
    ensures !Safe(NotExpr(COALESCE_SITE), map[], true)
  {
    hide TryRewrite, GradeOf, Fuse;
    var cond := NotExpr(COALESCE_SITE);
    CoalesceSite();
    CoalesceSiteUnfused();
    assert cond.args[1..] == [] && WrapArgs(cond.args[1..]) == ([], []);
    assert WrapArgs(cond.args).0 == [BARE_SITE];
  }

  lemma CoalesceSite()
    ensures TryRewrite(COALESCE_SITE).Some? && TryRewrite(COALESCE_SITE).value.e == BARE_SITE
    ensures GradeOf(COALESCE_SITE, map[]) == OnlyTrue
  {
    hide TruncateTime, RangeEndOf, AddDate, GoDate, RangeExpr, IntConst, CoalesceGrade;
    EqualitiesAreOneSided(COALESCE_SITE);
    hide TryEqualities;
    CoalesceSiteGrade();
  }

  lemma CoalesceSiteGrade()
    ensures !ConstEqual(Lit(Str("a")), Lit(Str("b")))
    ensures CoalesceGrade(Lit(Str("a")), Lit(Str("b"))) == OnlyTrue
  {
    hide IntConst;
  }

  lemma CoalesceSiteUnfused()
    ensures Fuse(NotExpr(COALESCE_SITE)) == (NotExpr(COALESCE_SITE), [])
  {
    FuseArgsOfOne(COALESCE_SITE);
    assert Fuse(COALESCE_SITE) == (COALESCE_SITE, []);
  }

  /** The rewriter does fire under NOT, and then the row with a NULL column is lost. */
  lemma NotAboveCoalesceLosesRows()
    ensures EvalSelect(NegatedCoalesce(), OneNullRow(), map[]) == [[Int(1)]]
    ensures EvalSelect(RewriteTree(NegatedCoalesce()).0, OneNullRow(), map[]) == []
    ensures !SafeTree(NegatedCoalesce(), map[])
  {
    hide Eval, EvalSelect, RewriteCond, Safe;
    var s, db := NegatedCoalesce(), OneNullRow();
    var env: Env := map["t" := map["c" := Null]];
    NegatedCoalesceConds(db, env);
    NegatedCoalesceRewrite();
    SingleTableQuery(s.targets, NotExpr(COALESCE_SITE), env["t"], db);
    SingleTableQuery(s.targets, NotExpr(BARE_SITE), env["t"], db);
    OneConstant(Lit(Int(1)), db, env);
    assert RewriteTables(s.tables).0 == s.tables by { assert s.tables[1..] == []; }
    assert RewriteTree(s).0 == s.(cond := Some(NotExpr(BARE_SITE)));
  }

  lemma OneConstant(e: Expr, db: Db, env: Env)
    requires e.Lit?
    ensures EvalTargets([Target("one", e)], db, env) == [e.v]
  {
    var ts := [Target("one", e)];
    assert ts[1..] == [] && EvalTargets(ts[1..], db, env) == [];
  }

  // ---- The loops of the rewriter ----

  lemma {:induction false} WrapArgsAppend(a: seq<Expr>, e: Expr)
    ensures WrapArgs(a + [e]) == (WrapArgs(a).0 + [Wrap(e).0], WrapArgs(a).1 + Wrap(e).1)
  {
    hide Wrap;
    var whole := a + [e];
    if a == [] {
      assert whole[1..] == [];
      assert [Wrap(e).0] + [] == [] + [Wrap(e).0] && Wrap(e).1 + [] == [] + Wrap(e).1;
    } else {
      assert whole[1..] == a[1..] + [e];
      WrapArgsAppend(a[1..], e);
      var (x, log) := Wrap(a[0]);
      var (xs, logs) := WrapArgs(a[1..]);
      assert [x] + (xs + [Wrap(e).0]) == [x] + xs + [Wrap(e).0];
      assert log + (logs + Wrap(e).1) == log + logs + Wrap(e).1;
    }
  }

  /** rewriteFunctionWrapInExpr with its args slice and its out slice. */
  method RewriteFunctionWrapInExpr(node: Expr, logged: seq<Info>) returns (out: Expr, log: seq<Info>)
    ensures out == Wrap(node).0 && log == logged + Wrap(node).1
    decreases node
  {
    hide TryRewrite;
    out, log := node, logged;
    if node.Cmp? || node.Between? {
      var rw := TryRewrite(node);
      if rw.Some? {
        out, log := rw.value.e, log + [rw.value.info];
      }
    } else if node.Logic? {
      var args: seq<Expr> := [];
      for i := 0 to |node.args|
        invariant args == WrapArgs(node.args[..i]).0 && log == logged + WrapArgs(node.args[..i]).1
      {
        var arg;
        arg, log := RewriteFunctionWrapInExpr(node.args[i], log);
        args := args + [arg];
        WrapArgsAppend(node.args[..i], node.args[i]);
        assert node.args[..i + 1] == node.args[..i] + [node.args[i]];
      }
      assert node.args[..|node.args|] == node.args;
      out := Logic(node.bop, args);
    }
  }

  lemma {:induction false} RewriteCtesAppend(a: seq<Cte>, c: Cte)
    ensures RewriteCtes(a + [c])
         == (RewriteCtes(a).0 + [Cte(c.name, RewriteTree(c.query).0)], RewriteCtes(a).1 + RewriteTree(c.query).1)
  {
    hide RewriteTree;
    var whole := a + [c];
    var (q, l) := RewriteTree(c.query);
    if a == [] {
      assert whole[1..] == [];
      assert [Cte(c.name, q)] + [] == [] + [Cte(c.name, q)] && l + [] == [] + l;
    } else {
      assert whole[1..] == a[1..] + [c];
      RewriteCtesAppend(a[1..], c);
      var (x, log) := RewriteTree(a[0].query);
      var (xs, logs) := RewriteCtes(a[1..]);
      assert [Cte(a[0].name, x)] + (xs + [Cte(c.name, q)]) == [Cte(a[0].name, x)] + xs + [Cte(c.name, q)];
      assert log + (logs + l) == log + logs + l;
    }
  }

  lemma {:induction false} RewriteTablesAppend(a: seq<FromItem>, f: FromItem)
    ensures RewriteTables(a + [f])
         == (RewriteTables(a).0 + [RewriteFrom(f).0], RewriteTables(a).1 + RewriteFrom(f).1)
  {
    hide RewriteFrom;
    var whole := a + [f];
    var (q, l) := RewriteFrom(f);
    if a == [] {
      assert whole[1..] == [];
      assert [q] + [] == [] + [q] && l + [] == [] + l;
    } else {
      assert whole[1..] == a[1..] + [f];
      RewriteTablesAppend(a[1..], f);
      var (x, log) := RewriteFrom(a[0]);
      var (xs, logs) := RewriteTables(a[1..]);
      assert [x] + (xs + [q]) == [x] + xs + [q];
      assert log + (logs + l) == log + logs + l;
    }
  }

  lemma NothingRewritten()
    ensures RewriteCtes([]) == ([], []) && RewriteTables([]) == ([], [])
  {
  }

  /** applySargableRewritesToSelectTree: the loops over WITH and FROM, then the WHERE clause. */
  method ApplySargableRewrites(sel: Select, logged: seq<Info>) returns (out: Select, log: seq<Info>, total: nat)
    ensures out == RewriteTree(sel).0 && log == logged + RewriteTree(sel).1 && total == |RewriteTree(sel).1|
    decreases sel
  {
    hide RewriteWhere, Fuse, Wrap, RewriteCtes, RewriteTables;
    log, total := logged, 0;
    var ctes: seq<Cte> := [];
    NothingRewritten();
    for i := 0 to |sel.ctes|
      invariant ctes == RewriteCtes(sel.ctes[..i]).0
      invariant log == logged + RewriteCtes(sel.ctes[..i]).1 && total == |RewriteCtes(sel.ctes[..i]).1|
    {
      var query, n;
      query, log, n := ApplySargableRewrites(sel.ctes[i].query, log);
      ctes, total := ctes + [Cte(sel.ctes[i].name, query)], total + n;
      RewriteCtesAppend(sel.ctes[..i], sel.ctes[i]);
      assert sel.ctes[..i + 1] == sel.ctes[..i] + [sel.ctes[i]];
    }
    assert sel.ctes[..|sel.ctes|] == sel.ctes;
    if sel.UnionAll? {
      return UnionAll(ctes, sel.larg, sel.rarg), log, total;
    }
    ghost var before := RewriteCtes(sel.ctes).1;
    var tables: seq<FromItem> := [];
    for i := 0 to |sel.tables|
      invariant tables == RewriteTables(sel.tables[..i]).0
      invariant log == logged + (before + RewriteTables(sel.tables[..i]).1)
      invariant total == |before| + |RewriteTables(sel.tables[..i]).1|
    {
      var item := sel.tables[i];
      if item.SubSelect? {
        var query, n;
        query, log, n := ApplySargableRewrites(item.query, log);
        item, total := SubSelect(query, item.alias), total + n;
      }
      tables := tables + [item];
      RewriteTablesAppend(sel.tables[..i], sel.tables[i]);
      assert sel.tables[..i + 1] == sel.tables[..i] + [sel.tables[i]];
    }
    assert sel.tables[..|sel.tables|] == sel.tables;
    out := Simple(ctes, sel.distinct, sel.targets, tables, sel.cond, sel.limit);
    if sel.cond.Some? {
      var where, added := RewriteWhereClause(sel.cond.value);
      log, total := log + added, total + |added|;
      out := out.(cond := Some(where));
    }
    ghost var (newCond, added) := RewriteWhere(sel.cond);
    WhereParts(sel.cond);
    assert log == logged + (before + RewriteTables(sel.tables).1 + added);
  }

  lemma WhereParts(cond: Option<Expr>)
    ensures cond.None? ==> RewriteWhere(cond) == (None, [])
    ensures cond.Some? ==> RewriteWhere(cond) == (Some(RewriteCond(cond.value).0), RewriteCond(cond.value).1)
  {
  }

  method RewriteWhereClause(cond: Expr) returns (where: Expr, log: seq<Info>)
    ensures (where, log) == RewriteCond(cond)
  {
    where, log := RewriteExtractYearMonthAnd(cond);
    where, log := RewriteFunctionWrapInExpr(where, log);
  }
}
