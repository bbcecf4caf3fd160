/**
 `col IN (SELECT ...)` becomes EXISTS and `col NOT IN (SELECT ...)` a NULL-safe NOT EXISTS.
 */
module InExists {
  import opened Options
  import opened SqlSyntax
  import opened SqlSemantics
  import opened Sargable
  import Fusion
  import OrUnion
  import SargableMeaning
  import opened Grades
  import opened SargableTree
  import Kleene

  datatype SiteKind = InKind | NotInKind

  /** rewriter_subquery.go, subqueryEligibleForExists. */
  predicate EligibleSubquery(s: Select) {
    && s.Simple? && s.ctes == [] && !s.distinct && s.limit.None?
    && |s.targets| == 1 && s.targets[0].e.Col?
    && |s.tables| == 1 && s.tables[0].Table?
  }

  predicate Eligible(test: Expr, sub: Select) {
    test.Col? && EligibleSubquery(sub)
  }

  function InnerColumn(sub: Select): Expr
    requires EligibleSubquery(sub)
  {
    sub.targets[0].e
  }

  /** The subquery with target 1 and one more conjunct. */
  function Correlated(sub: Select, extra: Expr): Select
    requires EligibleSubquery(sub)
  {
    Simple([], false, [Target("?column?", Lit(Int(1)))], sub.tables,
           Combine(AndOp, OrUnion.SharedPart(sub.cond) + [extra]), None)
  }

  function InMatch(test: Expr, sub: Select): Expr
    requires EligibleSubquery(sub)
  {
    Cmp(Eq, InnerColumn(sub), test)
  }

  function NotInMatch(test: Expr, sub: Select): Expr
    requires EligibleSubquery(sub)
  {
    Logic(OrOp, [InMatch(test, sub), NullTest(InnerColumn(sub), true)])
  }

  /** rewriter_subquery.go, tryRewriteInSubLink with notIn false. */
  function InToExists(test: Expr, sub: Select): Expr
    requires Eligible(test, sub)
  {
    Exists(Correlated(sub, InMatch(test, sub)))
  }

  /** rewriter_subquery.go, tryRewriteInSubLink with notIn true. */
  function NotInToExists(test: Expr, sub: Select): Expr
    requires Eligible(test, sub)
  {
    AndExpr(NullTest(test, false), NotExpr(Exists(Correlated(sub, NotInMatch(test, sub)))))
  }

  predicate IsInSite(e: Expr) {
    e.InSub? && Eligible(e.test, e.sub)
  }

  predicate IsNotInSite(e: Expr) {
    e.Logic? && e.bop.NotOp? && |e.args| == 1 && IsInSite(e.args[0])
  }

  /** rewriter_subquery.go, rewriteInToExistsInExpr. */
  function RewriteIn(e: Expr): (Expr, seq<SiteKind>)
    decreases e, 0
  {
    if e.InSub? then
      if IsInSite(e) then (InToExists(e.test, e.sub), [InKind]) else (e, [])
    else if IsNotInSite(e) then (NotInToExists(e.args[0].test, e.args[0].sub), [NotInKind])
    else if e.Logic? then
      var (args, kinds) := RewriteInArgs(e.args);
      (Logic(e.bop, args), kinds)
    else (e, [])
  }

  function RewriteInArgs(es: seq<Expr>): (r: (seq<Expr>, seq<SiteKind>))
    ensures |r.0| == |es|
    decreases es, 0
  {
    if es == [] then ([], [])
    else
      var (x, kinds) := RewriteIn(es[0]);
      var (xs, more) := RewriteInArgs(es[1..]);
      ([x] + xs, kinds + more)
  }

  /** rewriter_subquery.go, outerSelectSafeForInExists: a single base table and no WITH. */
  predicate OuterSafe(s: Select) {
    s.Simple? && s.ctes == [] && |s.tables| == 1 && s.tables[0].Table?
  }

  /** rewriter_subquery.go, suggestInToExists. */
  function SuggestInToExists(s: Select): Option<Select> {
    if !OuterSafe(s) || s.cond.None? || RewriteIn(s.cond.value).1 == [] then None
    else Some(Simple(s.ctes, s.distinct, s.targets, s.tables, Some(RewriteIn(s.cond.value).0), s.limit))
  }

  // ---- What a subquery returns ----

  /** The inner table's alias does not capture the outer column. */
  predicate NoCapture(test: Expr, sub: Select)
    requires Eligible(test, sub)
  {
    test.alias != sub.tables[0].alias
  }

  function SubScopes(sub: Select, db: Db, env: Env): seq<Env>
    requires EligibleSubquery(sub)
  {
    EvalTables(sub.tables, db, env)
  }

  /** The values the subquery returns. */
  function SubValues(sub: Select, db: Db, env: Env): Tuples
    requires EligibleSubquery(sub)
  {
    EvalSelect(sub, db, env)
  }

  lemma {:induction false} ScopesBindAlias(alias: string, rows: seq<Row>)
    ensures forall i :: 0 <= i < |Scopes(alias, rows)| ==> Scopes(alias, rows)[i].Keys == {alias}
  {
    if rows != [] {
      ScopesBindAlias(alias, rows[1..]);
    }
  }

  lemma {:induction false} ProductWithUnit(ls: seq<Env>)
    ensures Product(ls, [map[]]) == ls
  {
    if ls != [] {
      ProductWithUnit(ls[1..]);
      SargableTree.OneScope(ls[0]);
      assert [ls[0]][1..] == [];
      assert Product([ls[0]], [map[]]) == Extend(ls[0], [map[]]) + Product([ls[0]][1..], [map[]]);
    }
  }

  lemma SubScopesBindAlias(sub: Select, db: Db, env: Env)
    requires EligibleSubquery(sub)
    ensures forall i :: 0 <= i < |SubScopes(sub, db, env)| ==> SubScopes(sub, db, env)[i].Keys == {sub.tables[0].alias}
  {
    var t := sub.tables[0];
    var rows := if t.name in db.tables then db.tables[t.name] else [];
    assert sub.tables[1..] == [] && EvalTables(sub.tables[1..], db, env) == [map[]];
    ProductWithUnit(Scopes(t.alias, rows));
    assert EvalFrom(t, db, env) == Scopes(t.alias, rows);
    assert SubScopes(sub, db, env) == Product(EvalFrom(t, db, env), [map[]]);
    ScopesBindAlias(t.alias, rows);
  }

  lemma OuterColumnSeen(test: Expr, sub: Select, i: nat, db: Db, env: Env)
    requires Eligible(test, sub) && NoCapture(test, sub) && i < |SubScopes(sub, db, env)|
    ensures Eval(test, db, env + SubScopes(sub, db, env)[i]) == Eval(test, db, env)
  {
    SubScopesBindAlias(sub, db, env);
  }

  /** Membership in a filtered list of scopes. */
  lemma {:induction false} KeptScopes(cond: Option<Expr>, scopes: seq<Env>, db: Db, env: Env, s: Env)
    ensures s in Keep(cond, scopes, db, env) <==> s in scopes && (cond.None? || IsTrue(cond.value, db, env + s))
  {
    hide Eval;
    if scopes != [] {
      KeptScopes(cond, scopes[1..], db, env, s);
    }
  }

  lemma {:induction false} ProjectedColumn(ts: seq<Target>, scopes: seq<Env>, db: Db, env: Env)
    requires |ts| == 1
    ensures |Project(ts, scopes, db, env)| == |scopes|
    ensures forall i :: 0 <= i < |scopes| ==> Project(ts, scopes, db, env)[i] == [Eval(ts[0].e, db, env + scopes[i])]
  {
    hide Eval;
    if scopes != [] {
      ProjectedColumn(ts, scopes[1..], db, env);
      assert ts[1..] == [] && EvalTargets(ts[1..], db, env + scopes[0]) == [];
    }
  }

  lemma SubSelectResult(s: Select, db: Db, env: Env)
    requires s.Simple? && s.ctes == [] && !s.distinct && s.limit.None?
    ensures EvalSelect(s, db, env) == Project(s.targets, Keep(s.cond, EvalTables(s.tables, db, env), db, env), db, env)
  {
  }

  /** A scope of the inner table that the subquery keeps. */
  ghost predicate Kept(sub: Select, s: Env, db: Db, env: Env)
    requires EligibleSubquery(sub)
  {
    s in SubScopes(sub, db, env) && (sub.cond.None? || IsTrue(sub.cond.value, db, env + s))
  }

  lemma CorrelatedExists(sub: Select, extra: Expr, db: Db, env: Env)
    requires EligibleSubquery(sub)
    ensures Eval(Exists(Correlated(sub, extra)), db, env)
         == Bool(exists s: Env :: Kept(sub, s, db, env) && IsTrue(extra, db, env + s))
  {
    hide Eval, EvalTables;
    var inner := Correlated(sub, extra);
    var scopes := SubScopes(sub, db, env);
    SubSelectResult(inner, db, env);
    var kept := Keep(inner.cond, scopes, db, env);
    ProjectedColumn(inner.targets, kept, db, env);
    forall s: Env ensures s in kept <==> Kept(sub, s, db, env) && IsTrue(extra, db, env + s) {
      KeptScopes(inner.cond, scopes, db, env, s);
      ExtraConjunct(sub.cond, extra, db, env + s);
    }
    if kept != [] {
      assert kept[0] in kept;
    }
    ExistsValue(inner, db, env);
  }

  lemma ExistsValue(s: Select, db: Db, env: Env)
    ensures Eval(Exists(s), db, env) == Bool(EvalSelect(s, db, env) != [])
  {
  }

  lemma ExtraConjunct(cond: Option<Expr>, extra: Expr, db: Db, env: Env)
    ensures var c := Combine(AndOp, OrUnion.SharedPart(cond) + [extra]);
            && c.Some?
            && (IsTrue(c.value, db, env)
                <==> (cond.None? || IsTrue(cond.value, db, env)) && IsTrue(extra, db, env))
  {
    hide Eval;
    OrUnion.CombineTrue(OrUnion.SharedPart(cond) + [extra], db, env);
    OrUnion.AllTrueConcat(OrUnion.SharedPart(cond), [extra], db, env);
    OrUnion.AllTrueOne(extra, db, env);
    if cond.Some? { OrUnion.AllTrueOne(cond.value, db, env); }
  }

  lemma {:induction false} InTruthValue(v: Value, rows: Tuples)
    ensures InTruth(v, rows).True? <==> exists i :: 0 <= i < |rows| && Compare(Eq, v, FirstColumn(rows[i])).True?
    ensures InTruth(v, rows).False? <==> forall i :: 0 <= i < |rows| ==> Compare(Eq, v, FirstColumn(rows[i])).False?
  {
    hide Compare, FirstColumn;
    if rows != [] {
      InTruthValue(v, rows[1..]);
      assert forall i :: 0 < i < |rows| ==> rows[i] == rows[1..][i - 1];
      if exists i :: 0 <= i < |rows[1..]| && Compare(Eq, v, FirstColumn(rows[1..][i])).True? {
        var i :| 0 <= i < |rows[1..]| && Compare(Eq, v, FirstColumn(rows[1..][i])).True?;
        assert Compare(Eq, v, FirstColumn(rows[i + 1])).True?;
      }
    }
  }

  function InnerValue(sub: Select, s: Env, db: Db, env: Env): Value
    requires EligibleSubquery(sub)
  {
    Eval(InnerColumn(sub), db, env + s)
  }

  /** IN in terms of the inner rows that survive the subquery's own WHERE. */
  lemma InValue(test: Expr, sub: Select, db: Db, env: Env)
    requires Eligible(test, sub)
    ensures var v := Eval(test, db, env);
            var t := InTruth(v, SubValues(sub, db, env));
            && Eval(InSub(test, sub), db, env) == OfTruth(t)
            && (t.True? <==> exists s: Env ::
                  Kept(sub, s, db, env) && Compare(Eq, v, InnerValue(sub, s, db, env)).True?)
            && (t.False? <==> forall s: Env ::
                  Kept(sub, s, db, env) ==> Compare(Eq, v, InnerValue(sub, s, db, env)).False?)
            && (SubValues(sub, db, env) == [] <==> forall s: Env :: !Kept(sub, s, db, env))
  {
    hide EvalTables, Compare, Keep, Eval, InTruth, EvalSelect;
    var v := Eval(test, db, env);
    var scopes := SubScopes(sub, db, env);
    var kept := Keep(sub.cond, scopes, db, env);
    var rows := SubValues(sub, db, env);
    SubSelectResult(sub, db, env);
    ProjectedColumn(sub.targets, kept, db, env);
    InSubValue(test, sub, db, env);
    InTruthValue(v, rows);
    forall s: Env ensures s in kept <==> Kept(sub, s, db, env) {
      KeptScopes(sub.cond, scopes, db, env, s);
    }
    assert forall i :: 0 <= i < |kept| ==> kept[i] in kept && FirstColumn(rows[i]) == InnerValue(sub, kept[i], db, env);
    if InTruth(v, rows).True? {
      var i :| 0 <= i < |rows| && Compare(Eq, v, FirstColumn(rows[i])).True?;
      assert Kept(sub, kept[i], db, env);
    }
  }

  lemma InSubValue(test: Expr, sub: Select, db: Db, env: Env)
    ensures Eval(InSub(test, sub), db, env) == OfTruth(InTruth(Eval(test, db, env), EvalSelect(sub, db, env)))
  {
    hide InTruth, EvalSelect;
  }

  lemma MatchValue(test: Expr, sub: Select, s: Env, db: Db, env: Env)
    requires Eligible(test, sub) && NoCapture(test, sub) && s in SubScopes(sub, db, env)
    ensures IsTrue(InMatch(test, sub), db, env + s)
       <==> Compare(Eq, Eval(test, db, env), InnerValue(sub, s, db, env)).True?
    ensures IsTrue(NotInMatch(test, sub), db, env + s)
       <==> IsTrue(InMatch(test, sub), db, env + s) || InnerValue(sub, s, db, env).Null?
  {
    hide Compare;
    var i :| 0 <= i < |SubScopes(sub, db, env)| && SubScopes(sub, db, env)[i] == s;
    OuterColumnSeen(test, sub, i, db, env);
    SargableMeaning.CmpValue(InMatch(test, sub), db, env + s);
    SargableMeaning.EqSymmetric(Eval(test, db, env), InnerValue(sub, s, db, env));
    SargableMeaning.LogicOr2(InMatch(test, sub), NullTest(InnerColumn(sub), true), db, env + s);
  }

  // ---- Each site ----

  /** IN and its EXISTS keep the same rows; they may still differ between false and unknown. */
  lemma InSiteMeaning(test: Expr, sub: Select, db: Db, env: Env)
    requires Eligible(test, sub) && NoCapture(test, sub)
    ensures IsTrue(InToExists(test, sub), db, env) <==> IsTrue(InSub(test, sub), db, env)
    ensures Eval(InToExists(test, sub), db, env).Bool?
  {
    hide Eval, Compare, EvalTables, InMatch, NotInMatch, Correlated;
    InValue(test, sub, db, env);
    CorrelatedExists(sub, InMatch(test, sub), db, env);
    forall s: Env | Kept(sub, s, db, env)
      ensures IsTrue(InMatch(test, sub), db, env + s)
         <==> Compare(Eq, Eval(test, db, env), InnerValue(sub, s, db, env)).True?
    {
      MatchValue(test, sub, s, db, env);
    }
  }

  /** The query type checks: the outer column can be compared with every value the subquery returns. */
  ghost predicate WellTyped(test: Expr, sub: Select, db: Db, env: Env)
    requires Eligible(test, sub)
  {
    var v := Eval(test, db, env);
    forall s: Env | Kept(sub, s, db, env) ::
      var w := InnerValue(sub, s, db, env);
      v.Null? || w.Null? || !Order(v, w).Incomparable?
  }

  /** The one case in which the rewritten NOT IN drops a row: a NULL outer column and no inner row. */
  ghost predicate NullAgainstNothing(test: Expr, sub: Select, db: Db, env: Env)
    requires Eligible(test, sub)
  {
    Eval(test, db, env).Null? && SubValues(sub, db, env) == []
  }

  lemma NotExistsValue(sub: Select, test: Expr, db: Db, env: Env)
    requires Eligible(test, sub)
    ensures IsTrue(NotInToExists(test, sub), db, env)
       <==> && !Eval(test, db, env).Null?
            && Eval(Exists(Correlated(sub, NotInMatch(test, sub))), db, env) == Bool(false)
    ensures Eval(NotInToExists(test, sub), db, env).Bool?
  {
    hide Correlated, NotInMatch;
    var exists' := Exists(Correlated(sub, NotInMatch(test, sub)));
    SargableMeaning.LogicAnd2(NullTest(test, false), NotExpr(exists'), db, env);
    Fusion.LogicValue(NotOp, [exists'], db, env);
    assert Truths([exists'], db, env) == [TruthOf(exists', db, env)];
    Kleene.AndAllValue(Truths([exists'], db, env));
  }

  lemma NotInValue(test: Expr, sub: Select, db: Db, env: Env)
    requires Eligible(test, sub)
    ensures IsTrue(NotExpr(InSub(test, sub)), db, env) <==> Eval(InSub(test, sub), db, env) == Bool(false)
    ensures IsFalse(NotExpr(InSub(test, sub)), db, env) <==> Eval(InSub(test, sub), db, env) == Bool(true)
  {
    Fusion.LogicValue(NotOp, [InSub(test, sub)], db, env);
    assert Truths([InSub(test, sub)], db, env) == [TruthOf(InSub(test, sub), db, env)];
    Kleene.AndAllValue(Truths([InSub(test, sub)], db, env));
  }

  lemma ComparisonKnown(v: Value, w: Value)
    ensures Compare(Eq, v, w).Unknown? <==> Order(v, w).Incomparable?
    ensures v.Null? || w.Null? ==> Order(v, w).Incomparable?
  {
  }

  /**
   The rewritten NOT IN never keeps a row the original drops, and the two agree exactly unless
   the outer column is NULL and the subquery returns no row.
   */
  lemma NotInSiteMeaning(test: Expr, sub: Select, db: Db, env: Env)
    requires Eligible(test, sub) && NoCapture(test, sub) && WellTyped(test, sub, db, env)
    ensures var before, after := IsTrue(NotExpr(InSub(test, sub)), db, env), IsTrue(NotInToExists(test, sub), db, env);
            (after ==> before) && (before != after <==> NullAgainstNothing(test, sub, db, env))
  {
    hide Eval, Compare, Order, EvalTables, InMatch, NotInMatch, Correlated, NotInToExists;
    var v := Eval(test, db, env);
    InValue(test, sub, db, env);
    CorrelatedExists(sub, NotInMatch(test, sub), db, env);
    NotExistsValue(sub, test, db, env);
    NotInValue(test, sub, db, env);
    forall s: Env | Kept(sub, s, db, env)
      ensures var w := InnerValue(sub, s, db, env);
              && (IsTrue(NotInMatch(test, sub), db, env + s) <==> Compare(Eq, v, w).True? || w.Null?)
              && (!v.Null? && !w.Null? ==> !Compare(Eq, v, w).Unknown?)
              && (v.Null? || w.Null? ==> Compare(Eq, v, w).Unknown?)
    {
      MatchValue(test, sub, s, db, env);
      ComparisonKnown(v, InnerValue(sub, s, db, env));
    }
  }

  /** The FALSE rows of a NOT IN: none is lost, and none invented where it is neither unknown nor exceptional. */
  lemma NotInSiteFalse(test: Expr, sub: Select, db: Db, env: Env)
    requires Eligible(test, sub) && NoCapture(test, sub) && WellTyped(test, sub, db, env)
    ensures var before := IsFalse(NotExpr(InSub(test, sub)), db, env);
            var after := IsFalse(NotInToExists(test, sub), db, env);
            && (before ==> after)
            && (Known(InSub(test, sub), db, env) && !NullAgainstNothing(test, sub, db, env) ==> (after ==> before))
  {
    hide Eval, WellTyped, NullAgainstNothing, NoCapture, NotInToExists, Eligible;
    NotInSiteMeaning(test, sub, db, env);
    NotExistsValue(sub, test, db, env);
    NotInValue(test, sub, db, env);
  }

  // ---- Whole conditions ----

  /** The test is not unknown on this row. */
  ghost predicate Known(e: Expr, db: Db, env: Env) {
    Eval(e, db, env).Bool?
  }

  /** No IN or NOT IN that is rewritten captures its outer column. */
  predicate CapturesNothing(e: Expr)
    decreases e
  {
    if IsInSite(e) then NoCapture(e.test, e.sub)
    else if IsNotInSite(e) then NoCapture(e.args[0].test, e.args[0].sub)
    else e.Logic? ==> forall i :: 0 <= i < |e.args| ==> CapturesNothing(e.args[i])
  }

  /** Every NOT IN site type checks on this row. */
  ghost predicate TypedOn(e: Expr, db: Db, env: Env)
    decreases e
  {
    if IsNotInSite(e) then WellTyped(e.args[0].test, e.args[0].sub, db, env)
    else e.Logic? ==> forall i :: 0 <= i < |e.args| ==> TypedOn(e.args[i], db, env)
  }

  /**
   No site shows more than it did on this row. Only a site under an odd number of further NOTs can:
   where it was unknown, or where it is a NOT IN that compares NULL with an empty subquery.
   */
  ghost predicate InventsNothing(e: Expr, positive: bool, db: Db, env: Env)
    decreases e
  {
    if IsInSite(e) then positive || Known(e, db, env)
    else if IsNotInSite(e) then
      positive || (Known(e.args[0], db, env) && !NullAgainstNothing(e.args[0].test, e.args[0].sub, db, env))
    else e.Logic? ==> forall i :: 0 <= i < |e.args| ==> InventsNothing(e.args[i], positive != e.bop.NotOp?, db, env)
  }

  /** No site shows less: no NOT IN under an even number of further NOTs compares NULL with an empty subquery. */
  ghost predicate LosesNothing(e: Expr, positive: bool, db: Db, env: Env)
    decreases e
  {
    if IsNotInSite(e) then positive ==> !NullAgainstNothing(e.args[0].test, e.args[0].sub, db, env)
    else e.Logic? ==> forall i :: 0 <= i < |e.args| ==> LosesNothing(e.args[i], positive != e.bop.NotOp?, db, env)
  }

  /** Every rewritten IN or NOT IN stands under an even number of further NOTs. */
  predicate InSafe(e: Expr, positive: bool)
    decreases e
  {
    if IsInSite(e) || IsNotInSite(e) then positive
    else e.Logic? ==> forall i :: 0 <= i < |e.args| ==> InSafe(e.args[i], positive != e.bop.NotOp?)
  }

  /** Such a condition invents nothing, whatever the row. */
  lemma {:induction false} SafeInventsNothing(e: Expr, positive: bool, db: Db, env: Env)
    requires InSafe(e, positive)
    ensures InventsNothing(e, positive, db, env)
    decreases e
  {
    hide Eval, NullAgainstNothing, Known;
    if !IsInSite(e) && !IsNotInSite(e) && e.Logic? {
      forall i | 0 <= i < |e.args| ensures InventsNothing(e.args[i], positive != e.bop.NotOp?, db, env) {
        SafeInventsNothing(e.args[i], positive != e.bop.NotOp?, db, env);
      }
    }
  }

  lemma {:induction false} RewriteInArgsAt(es: seq<Expr>)
    ensures forall i :: 0 <= i < |es| ==> RewriteInArgs(es).0[i] == RewriteIn(es[i]).0
  {
    hide RewriteIn;
    if es != [] {
      RewriteInArgsAt(es[1..]);
    }
  }

  /**
   A whole condition, at any depth of NOTs: where no site shows more than it did, the rewritten
   condition keeps no row the original drops, and where none shows less, it drops none. Under an odd
   number of NOTs this is about the rows on which the condition is FALSE.
   */
  lemma {:induction false} InMeaning(e: Expr, positive: bool, db: Db, env: Env)
    requires CapturesNothing(e) && TypedOn(e, db, env)
    ensures InventsNothing(e, positive, db, env) ==>
              Shows(RewriteIn(e).0, positive, db, env) ==> Shows(e, positive, db, env)
    ensures LosesNothing(e, positive, db, env) ==>
              Shows(e, positive, db, env) ==> Shows(RewriteIn(e).0, positive, db, env)
    decreases e
  {
    hide Eval, WellTyped, NullAgainstNothing, NoCapture, InToExists, NotInToExists, Eligible;
    if e.InSub? {
      if IsInSite(e) { InSiteMeaning(e.test, e.sub, db, env); }
    } else if IsNotInSite(e) {
      assert e == NotExpr(e.args[0]) && e.args[0] == InSub(e.args[0].test, e.args[0].sub);
      NotInSiteMeaning(e.args[0].test, e.args[0].sub, db, env);
      NotInSiteFalse(e.args[0].test, e.args[0].sub, db, env);
    } else if e.Logic? {
      InConnective(e, positive, db, env);
    }
  }

  lemma {:induction false} InConnective(e: Expr, positive: bool, db: Db, env: Env)
    requires CapturesNothing(e) && TypedOn(e, db, env) && e.Logic? && !IsNotInSite(e)
    ensures InventsNothing(e, positive, db, env) ==>
              Shows(RewriteIn(e).0, positive, db, env) ==> Shows(e, positive, db, env)
    ensures LosesNothing(e, positive, db, env) ==>
              Shows(e, positive, db, env) ==> Shows(RewriteIn(e).0, positive, db, env)
    decreases e, 0
  {
    hide Eval, WellTyped, NullAgainstNothing, NoCapture, InToExists, NotInToExists, Eligible, Shows, Known;
    var args, inner := RewriteInArgs(e.args).0, positive != e.bop.NotOp?;
    RewriteInArgsAt(e.args);
    forall i | 0 <= i < |args|
      ensures InventsNothing(e, positive, db, env) ==>
                Shows(args[i], inner, db, env) ==> Shows(e.args[i], inner, db, env)
      ensures LosesNothing(e, positive, db, env) ==>
                Shows(e.args[i], inner, db, env) ==> Shows(args[i], inner, db, env)
    {
      InMeaning(e.args[i], inner, db, env);
    }
    if InventsNothing(e, positive, db, env) {
      ConnectiveMonotone(e.bop, args, e.args, positive, db, env);
    }
    if LosesNothing(e, positive, db, env) {
      ConnectiveMonotone(e.bop, e.args, args, positive, db, env);
    }
  }

  /** The outer rows the condition is evaluated on type check in every NOT IN. */
  ghost predicate RowsTyped(s: Select, db: Db, env: Env)
    requires OuterSafe(s) && s.cond.Some?
  {
    forall sc :: sc in EvalTables(s.tables, db, env) ==> TypedOn(s.cond.value, db, env + sc)
  }

  /** Queries: the same result whenever no site shows more or less on any row of the outer tables. */
  lemma InQueryMeaning(s: Select, db: Db, env: Env)
    requires SuggestInToExists(s).Some? && CapturesNothing(s.cond.value) && RowsTyped(s, db, env)
    requires forall sc :: sc in EvalTables(s.tables, db, env) ==>
               InventsNothing(s.cond.value, true, db, env + sc) && LosesNothing(s.cond.value, true, db, env + sc)
    ensures EvalSelect(SuggestInToExists(s).value, db, env) == EvalSelect(s, db, env)
  {
    hide Eval, EvalTables, RewriteIn, CapturesNothing, TypedOn, InventsNothing, LosesNothing;
    var newCond, scopes := Some(RewriteIn(s.cond.value).0), EvalTables(s.tables, db, env);
    forall sc | sc in scopes ensures IsTrue(newCond.value, db, env + sc) <==> IsTrue(s.cond.value, db, env + sc) {
      InMeaning(s.cond.value, true, db, env + sc);
    }
    OrUnion.SameRowsKept(newCond, s.cond, scopes, db, env);
  }

  /** Where no site shows more, the rewritten query returns no row that the original one does not. */
  lemma InQueryInventsNothing(s: Select, db: Db, env: Env)
    requires SuggestInToExists(s).Some? && CapturesNothing(s.cond.value) && RowsTyped(s, db, env)
    requires forall sc :: sc in EvalTables(s.tables, db, env) ==> InventsNothing(s.cond.value, true, db, env + sc)
    requires !s.distinct && s.limit.None?
    ensures multiset(EvalSelect(SuggestInToExists(s).value, db, env)) <= multiset(EvalSelect(s, db, env))
  {
    hide Eval, EvalTables, RewriteIn, CapturesNothing, TypedOn, InventsNothing, LosesNothing, EvalSelect;
    var after := SuggestInToExists(s).value;
    var scopes := EvalTables(s.tables, db, env);
    forall sc | sc in scopes ensures IsTrue(after.cond.value, db, env + sc) ==> IsTrue(s.cond.value, db, env + sc) {
      InMeaning(s.cond.value, true, db, env + sc);
    }
    FewerRowsKept(after.cond, s.cond, s.targets, scopes, db, env);
    SubSelectResult(after, db, env);
    SubSelectResult(s, db, env);
  }

  /** And where none shows less, it returns every row that the original one does. */
  lemma InQueryLosesNothing(s: Select, db: Db, env: Env)
    requires SuggestInToExists(s).Some? && CapturesNothing(s.cond.value) && RowsTyped(s, db, env)
    requires forall sc :: sc in EvalTables(s.tables, db, env) ==> LosesNothing(s.cond.value, true, db, env + sc)
    requires !s.distinct && s.limit.None?
    ensures multiset(EvalSelect(s, db, env)) <= multiset(EvalSelect(SuggestInToExists(s).value, db, env))
  {
    hide Eval, EvalTables, RewriteIn, CapturesNothing, TypedOn, InventsNothing, LosesNothing, EvalSelect;
    var after := SuggestInToExists(s).value;
    var scopes := EvalTables(s.tables, db, env);
    forall sc | sc in scopes ensures IsTrue(s.cond.value, db, env + sc) ==> IsTrue(after.cond.value, db, env + sc) {
      InMeaning(s.cond.value, true, db, env + sc);
    }
    FewerRowsKept(s.cond, after.cond, s.targets, scopes, db, env);
    SubSelectResult(after, db, env);
    SubSelectResult(s, db, env);
  }

  lemma {:induction false} FewerRowsKept(a: Option<Expr>, b: Option<Expr>, ts: seq<Target>, scopes: seq<Env>,
                                         db: Db, env: Env)
    requires a.Some? && b.Some?
    requires forall sc :: sc in scopes ==> IsTrue(a.value, db, env + sc) ==> IsTrue(b.value, db, env + sc)
    ensures multiset(Project(ts, Keep(a, scopes, db, env), db, env))
        <= multiset(Project(ts, Keep(b, scopes, db, env), db, env))
  {
    hide Eval, EvalTargets, Keep, Project;
    if scopes == [] {
      OrUnion.NoScopes(a, ts, db, env);
    } else {
      FewerRowsKept(a, b, ts, scopes[1..], db, env);
      OrUnion.BagOfKeep(a, ts, scopes, db, env);
      OrUnion.BagOfKeep(b, ts, scopes, db, env);
      assert scopes[0] in scopes;
    }
  }

  // ---- Where the conditions matter ----

  /** Under a NOT that is not its own, a rewritten IN that was unknown turns a dropped row into a kept one. */
  lemma DeepNotInventsRows(test: Expr, sub: Select, db: Db, env: Env)
    requires Eligible(test, sub) && NoCapture(test, sub) && Eval(InSub(test, sub), db, env) == Null
    ensures var e := NotExpr(Logic(OrOp, [InSub(test, sub), InSub(test, sub)]));
            IsTrue(RewriteIn(e).0, db, env) && !IsTrue(e, db, env)
  {
    hide Eval, NoCapture, InToExists, Eligible;
    var site, after := InSub(test, sub), InToExists(test, sub);
    var e := NotExpr(Logic(OrOp, [site, site]));
    InSiteMeaning(test, sub, db, env);
    RewriteInArgsAt([site, site]);
    assert RewriteInArgs([site, site]).0 == [after, after];
    RewriteInArgsAt([Logic(OrOp, [site, site])]);
    assert RewriteInArgs(e.args).0 == [Logic(OrOp, [after, after])];
    assert RewriteIn(e).0 == NotExpr(Logic(OrOp, [after, after]));
    NotOrTwice(site, db, env);
    NotOrTwice(after, db, env);
  }

  lemma NotOrTwice(x: Expr, db: Db, env: Env)
    ensures Eval(NotExpr(Logic(OrOp, [x, x])), db, env) == OfTruth(Kleene.Not(TruthOf(x, db, env)))
  {
    var or := Logic(OrOp, [x, x]);
    SargableMeaning.LogicOr2(x, x, db, env);
    Fusion.LogicValue(NotOp, [or], db, env);
    assert Truths([or], db, env) == [TruthOf(or, db, env)];
    Kleene.AndAllValue(Truths([or], db, env));
  }

  /** A database with one row in the inner table, and an outer row. */
  function CapturingDb(test: Expr, sub: Select): Db
    requires Eligible(test, sub)
  {
    var inner := InnerColumn(sub);
    var row: Row := map[inner.name := Int(2)][test.name := Int(1)];
    Db(map[sub.tables[0].name := [row]], map[])
  }

  function CapturingRow(test: Expr, sub: Select): Env
    requires Eligible(test, sub)
  {
    var inner := InnerColumn(sub);
    if inner.alias == test.alias then map[test.alias := map[test.name := Int(2)]]
    else map[test.alias := map[test.name := Int(2)]][inner.alias := map[inner.name := Int(1)]]
  }

  /**
   With one alias for both tables the outer column is captured: whatever the columns, there is a
   database and an outer row for which an unfiltered IN and its EXISTS differ.
   */
  lemma CapturedAliasShows(test: Expr, sub: Select)
    requires Eligible(test, sub) && !NoCapture(test, sub) && sub.cond.None?
    ensures var db, env := CapturingDb(test, sub), CapturingRow(test, sub);
            IsTrue(InSub(test, sub), db, env) != IsTrue(InToExists(test, sub), db, env)
  {
    hide EvalSelect, EvalTables, Compare, Eval;
    var db, env := CapturingDb(test, sub), CapturingRow(test, sub);
    var t, row := sub.tables[0], db.tables[sub.tables[0].name][0];
    var inner: Env := map[t.alias := row];
    SingleRowScopes(sub, row, db, env);
    CapturedValues(test, sub);
    InValue(test, sub, db, env);
    CorrelatedExists(sub, InMatch(test, sub), db, env);
    SargableMeaning.CmpValue(InMatch(test, sub), db, env + inner);
    CompareSmall();
    assert inner in SubScopes(sub, db, env);
    assert Kept(sub, inner, db, env);
  }

  lemma CapturedValues(test: Expr, sub: Select)
    requires Eligible(test, sub) && !NoCapture(test, sub)
    ensures var db, env, inner := CapturingDb(test, sub), CapturingRow(test, sub), InnerColumn(sub);
            var scope: Env := map[sub.tables[0].alias := db.tables[sub.tables[0].name][0]];
            && Eval(test, db, env) == Int(2) && Eval(test, db, env + scope) == Int(1)
            && Eval(inner, db, env + scope)
               == Int(if inner.alias == test.alias && inner.name != test.name then 2 else 1)
  {
  }

  lemma CompareSmall()
    ensures Compare(Eq, Int(2), Int(2)).True? && Compare(Eq, Int(1), Int(1)).True?
    ensures Compare(Eq, Int(2), Int(1)).False? && Compare(Eq, Int(1), Int(2)).False?
  {
  }

  lemma SingleRowScopes(sub: Select, row: Row, db: Db, env: Env)
    requires EligibleSubquery(sub) && sub.tables[0].name in db.tables && db.tables[sub.tables[0].name] == [row]
    ensures SubScopes(sub, db, env) == [map[sub.tables[0].alias := row]]
  {
    var t := sub.tables[0];
    assert [row][1..] == [] && Scopes(t.alias, [row][1..]) == [];
    assert EvalFrom(t, db, env) == [map[t.alias := row]];
    assert sub.tables[1..] == [] && EvalTables(sub.tables[1..], db, env) == [map[]];
    SargableTree.OneScope(map[t.alias := row]);
  }

  // ---- The loop of the rewriter ----

  lemma {:induction false} RewriteInArgsAppend(a: seq<Expr>, e: Expr)
    ensures RewriteInArgs(a + [e]) == (RewriteInArgs(a).0 + [RewriteIn(e).0], RewriteInArgs(a).1 + RewriteIn(e).1)
  {
    hide RewriteIn;
    var whole := a + [e];
    if a == [] {
      assert whole[1..] == [];
      assert [RewriteIn(e).0] + [] == [] + [RewriteIn(e).0] && RewriteIn(e).1 + [] == [] + RewriteIn(e).1;
    } else {
      assert whole[1..] == a[1..] + [e];
      RewriteInArgsAppend(a[1..], e);
      var (x, kinds) := RewriteIn(a[0]);
      var (xs, more) := RewriteInArgs(a[1..]);
      assert [x] + (xs + [RewriteIn(e).0]) == [x] + xs + [RewriteIn(e).0];
      assert kinds + (more + RewriteIn(e).1) == kinds + more + RewriteIn(e).1;
    }
  }

  /** rewriteInToExistsInExpr with its args slice and its kinds slice. */
  method RewriteInToExists(node: Expr, seen: seq<SiteKind>) returns (out: Expr, kinds: seq<SiteKind>)
    ensures out == RewriteIn(node).0 && kinds == seen + RewriteIn(node).1
    decreases node
  {
    hide InToExists, NotInToExists, Eligible;
    out, kinds := node, seen;
    if node.InSub? {
      if IsInSite(node) {
        out, kinds := InToExists(node.test, node.sub), kinds + [InKind];
      }
    } else if IsNotInSite(node) {
      out, kinds := NotInToExists(node.args[0].test, node.args[0].sub), kinds + [NotInKind];
    } else if node.Logic? {
      var args: seq<Expr> := [];
      for i := 0 to |node.args|
        invariant args == RewriteInArgs(node.args[..i]).0 && kinds == seen + RewriteInArgs(node.args[..i]).1
      {
        var arg;
        arg, kinds := RewriteInToExists(node.args[i], kinds);
        args := args + [arg];
        RewriteInArgsAppend(node.args[..i], node.args[i]);
        assert node.args[..i + 1] == node.args[..i] + [node.args[i]];
      }
      assert node.args[..|node.args|] == node.args;
      out := Logic(node.bop, args);
    }
  }
}
