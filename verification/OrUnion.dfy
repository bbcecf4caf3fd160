/**
 OR of equalities on different columns becomes a UNION ALL with one branch per leaf; each
 branch also demands that no earlier leaf IS TRUE, so that no row is returned twice.
 */
module OrUnion {
  import opened Options
  import opened SqlSyntax
  import opened SqlSemantics
  import opened Sargable
  import Fusion
  import Kleene

  const MAX_OR_UNION_LEAVES: nat := 4

  predicate IsOr(e: Expr) {
    e.Logic? && e.bop.OrOp?
  }

  /** rewriter_or_union.go, flattenOR. */
  function FlattenOr(e: Expr): seq<Expr>
    decreases e, 0
  {
    if IsOr(e) then FlattenAll(e.args) else [e]
  }

  function FlattenAll(es: seq<Expr>): seq<Expr>
    decreases es, 0
  {
    if es == [] then [] else FlattenOr(es[0]) + FlattenAll(es[1..])
  }

  function Ors(es: seq<Expr>): seq<Expr> {
    if es == [] then [] else (if IsOr(es[0]) then [es[0]] else []) + Ors(es[1..])
  }

  function Others(es: seq<Expr>): seq<Expr> {
    if es == [] then [] else (if IsOr(es[0]) then [] else [es[0]]) + Others(es[1..])
  }

  /** rewriter_or_union.go, factorOr: the conjuncts shared by all leaves, and the leaves (none if it does not apply). */
  function FactorOr(cond: Expr): (Option<Expr>, seq<Expr>) {
    if IsOr(cond) then (None, FlattenOr(cond))
    else if cond.Logic? && cond.bop.AndOp? && |Ors(cond.args)| == 1 then
      (Combine(AndOp, Others(cond.args)), FlattenOr(Ors(cond.args)[0]))
    else (None, [])
  }

  /** rewriter_or_union.go, equalityColumn. */
  function EqualityColumn(e: Expr): Option<Expr> {
    if !(e.Cmp? && e.op.Eq?) then None
    else if e.l.Col? && IsConst(e.r) then Some(e.l)
    else if e.r.Col? && IsConst(e.l) then Some(e.r)
    else None
  }

  predicate AllSimpleEqualities(leaves: seq<Expr>) {
    leaves != [] && forall i :: 0 <= i < |leaves| ==> EqualityColumn(leaves[i]).Some?
  }

  predicate SameColumn(leaves: seq<Expr>) {
    leaves != [] && forall i :: 0 <= i < |leaves| ==>
      EqualityColumn(leaves[i]).Some? && EqualityColumn(leaves[i]) == EqualityColumn(leaves[0])
  }

  /** rewriter_or_union.go, selectIsSimpleForUnion and the single base table. */
  predicate SimpleForUnion(s: Select) {
    s.Simple? && s.ctes == [] && !s.distinct && s.limit.None? && |s.tables| == 1 && s.tables[0].Table?
  }

  function NotTrues(es: seq<Expr>): (r: seq<Expr>)
    ensures |r| == |es|
    ensures forall i :: 0 <= i < |es| ==> r[i] == IsNotTrue(es[i])
  {
    if es == [] then [] else [IsNotTrue(es[0])] + NotTrues(es[1..])
  }

  function SharedPart(shared: Option<Expr>): seq<Expr> {
    if shared.Some? then [shared.value] else []
  }

  /** The conjuncts of branch i: the shared part, its leaf, and no earlier leaf true. */
  function BranchParts(shared: Option<Expr>, leaves: seq<Expr>, i: nat): (r: seq<Expr>)
    requires i < |leaves|
    ensures r != []
  {
    SharedPart(shared) + [leaves[i]] + NotTrues(leaves[..i])
  }

  function Branch(s: Select, shared: Option<Expr>, leaves: seq<Expr>, i: nat): Select
    requires s.Simple? && i < |leaves|
  {
    Simple(s.ctes, s.distinct, s.targets, s.tables, Combine(AndOp, BranchParts(shared, leaves, i)), s.limit)
  }

  function UnionOf(s: Select, shared: Option<Expr>, leaves: seq<Expr>, k: nat): Select
    requires s.Simple? && 0 < k <= |leaves|
  {
    if k == 1 then Branch(s, shared, leaves, 0)
    else UnionAll([], UnionOf(s, shared, leaves, k - 1), Branch(s, shared, leaves, k - 1))
  }

  /** rewriter_or_union.go, suggestOrToUnion. */
  function OrToUnion(s: Select): Option<Select> {
    if !SimpleForUnion(s) || s.cond.None? then None
    else
      var (shared, leaves) := FactorOr(s.cond.value);
      if |leaves| < 2 || |leaves| > MAX_OR_UNION_LEAVES || !AllSimpleEqualities(leaves) || SameColumn(leaves) then None
      else Some(UnionOf(s, shared, leaves, |leaves|))
  }

  // ---- Truth ----

  lemma AndTrue(es: seq<Expr>, db: Db, env: Env)
    ensures IsTrue(Logic(AndOp, es), db, env) <==> forall i :: 0 <= i < |es| ==> IsTrue(es[i], db, env)
  {
    Fusion.LogicValue(AndOp, es, db, env);
    var ts := Truths(es, db, env);
    Kleene.AndAllValue(ts);
    if forall i :: 0 <= i < |es| ==> IsTrue(es[i], db, env) {
    } else {
      var i :| 0 <= i < |es| && !IsTrue(es[i], db, env);
      assert ts[i] == Kleene.False || ts[i] == Kleene.Unknown;
    }
  }

  lemma OrTrue(es: seq<Expr>, db: Db, env: Env)
    ensures IsTrue(Logic(OrOp, es), db, env) <==> exists i :: 0 <= i < |es| && IsTrue(es[i], db, env)
  {
    Fusion.LogicValue(OrOp, es, db, env);
    var ts := Truths(es, db, env);
    Kleene.OrAllValue(ts);
    if Kleene.True in ts {
      var i :| 0 <= i < |ts| && ts[i] == Kleene.True;
      assert IsTrue(es[i], db, env);
    }
    if exists i :: 0 <= i < |es| && IsTrue(es[i], db, env) {
      var i :| 0 <= i < |es| && IsTrue(es[i], db, env);
      assert ts[i] == Kleene.True;
    }
  }

  ghost predicate AnyTrue(es: seq<Expr>, db: Db, env: Env) {
    exists i :: 0 <= i < |es| && IsTrue(es[i], db, env)
  }

  ghost predicate AllTrue(es: seq<Expr>, db: Db, env: Env) {
    forall i :: 0 <= i < |es| ==> IsTrue(es[i], db, env)
  }

  lemma CombineTrue(es: seq<Expr>, db: Db, env: Env)
    requires es != []
    ensures IsTrue(Combine(AndOp, es).value, db, env) <==> AllTrue(es, db, env)
  {
    if |es| > 1 {
      AndTrue(es, db, env);
    }
  }

  lemma AnyTrueConcat(a: seq<Expr>, b: seq<Expr>, db: Db, env: Env)
    ensures AnyTrue(a + b, db, env) <==> AnyTrue(a, db, env) || AnyTrue(b, db, env)
  {
    hide Eval;
    if AnyTrue(a, db, env) {
      var i :| 0 <= i < |a| && IsTrue(a[i], db, env);
      assert (a + b)[i] == a[i];
    }
    if AnyTrue(b, db, env) {
      var i :| 0 <= i < |b| && IsTrue(b[i], db, env);
      assert (a + b)[|a| + i] == b[i];
    }
  }

  /** Flattening nested ORs keeps whether some leaf is true. */
  lemma {:induction false} FlattenTrue(e: Expr, db: Db, env: Env)
    ensures AnyTrue(FlattenOr(e), db, env) <==> IsTrue(e, db, env)
    decreases e, 0
  {
    hide Eval;
    if IsOr(e) {
      FlattenAllTrue(e.args, db, env);
      OrTrue(e.args, db, env);
    } else {
      assert FlattenOr(e)[0] == e;
    }
  }

  lemma {:induction false} FlattenAllTrue(es: seq<Expr>, db: Db, env: Env)
    ensures AnyTrue(FlattenAll(es), db, env) <==> AnyTrue(es, db, env)
    decreases es, 0
  {
    hide Eval;
    if es != [] {
      FlattenTrue(es[0], db, env);
      FlattenAllTrue(es[1..], db, env);
      AnyTrueConcat(FlattenOr(es[0]), FlattenAll(es[1..]), db, env);
      AnyTrueConcat([es[0]], es[1..], db, env);
      assert [es[0]] + es[1..] == es;
      assert [es[0]][0] == es[0];
    }
  }

  lemma {:induction false} SplitTrue(es: seq<Expr>, db: Db, env: Env)
    ensures AllTrue(es, db, env) <==> AllTrue(Ors(es), db, env) && AllTrue(Others(es), db, env)
  {
    hide Eval;
    if es != [] {
      SplitTrue(es[1..], db, env);
      assert es == [es[0]] + es[1..];
      AllTrueConcat([es[0]], es[1..], db, env);
      AllTrueConcat(if IsOr(es[0]) then [es[0]] else [], Ors(es[1..]), db, env);
      AllTrueConcat(if IsOr(es[0]) then [] else [es[0]], Others(es[1..]), db, env);
    }
  }

  lemma AllTrueConcat(a: seq<Expr>, b: seq<Expr>, db: Db, env: Env)
    ensures AllTrue(a + b, db, env) <==> AllTrue(a, db, env) && AllTrue(b, db, env)
  {
    hide Eval;
    if AllTrue(a + b, db, env) {
      assert forall i :: 0 <= i < |a| ==> (a + b)[i] == a[i];
      assert forall i :: 0 <= i < |b| ==> (a + b)[|a| + i] == b[i];
    }
  }

  lemma AllTrueOne(e: Expr, db: Db, env: Env)
    ensures AllTrue([e], db, env) <==> IsTrue(e, db, env)
  {
    assert [e][0] == e;
  }

  /** Factoring loses nothing: the condition holds when the shared part and some leaf do. */
  lemma FactorTrue(cond: Expr, db: Db, env: Env)
    requires FactorOr(cond).1 != []
    ensures var (shared, leaves) := FactorOr(cond);
            IsTrue(cond, db, env) <==> AllTrue(SharedPart(shared), db, env) && AnyTrue(leaves, db, env)
  {
    hide Eval, FlattenOr;
    if IsOr(cond) {
      FlattenTrue(cond, db, env);
    } else {
      var others, ors := Others(cond.args), Ors(cond.args);
      FlattenTrue(ors[0], db, env);
      AndTrue(cond.args, db, env);
      SplitTrue(cond.args, db, env);
      AllTrueOne(ors[0], db, env);
      assert ors == [ors[0]];
      if others != [] {
        CombineTrue(others, db, env);
        AllTrueOne(Combine(AndOp, others).value, db, env);
      }
    }
  }

  ghost predicate BranchKeeps(shared: Option<Expr>, leaves: seq<Expr>, i: nat, db: Db, env: Env)
    requires i < |leaves|
  {
    IsTrue(Combine(AndOp, BranchParts(shared, leaves, i)).value, db, env)
  }

  lemma BranchKeepsWhen(shared: Option<Expr>, leaves: seq<Expr>, i: nat, db: Db, env: Env)
    requires i < |leaves|
    ensures BranchKeeps(shared, leaves, i, db, env)
       <==> && AllTrue(SharedPart(shared), db, env) && IsTrue(leaves[i], db, env)
            && forall j :: 0 <= j < i ==> !IsTrue(leaves[j], db, env)
  {
    var earlier := NotTrues(leaves[..i]);
    var head := SharedPart(shared) + [leaves[i]];
    CombineTrue(head + earlier, db, env);
    AllTrueConcat(head, earlier, db, env);
    AllTrueConcat(SharedPart(shared), [leaves[i]], db, env);
    assert [leaves[i]][0] == leaves[i];
    assert forall j :: 0 <= j < i ==> earlier[j] == IsNotTrue(leaves[j]);
    if AllTrue(earlier, db, env) {
      forall j | 0 <= j < i ensures !IsTrue(leaves[j], db, env) {
        assert IsTrue(earlier[j], db, env);
      }
    }
  }

  /**
   For any number of leaves, any shared conjunct and any row, NULLs included: exactly one branch
   keeps the row when the condition does, and no branch does otherwise.
   */
  lemma ExactlyOneBranch(cond: Expr, db: Db, env: Env)
    requires FactorOr(cond).1 != []
    ensures var (shared, leaves) := FactorOr(cond);
            && (IsTrue(cond, db, env) <==> exists i :: 0 <= i < |leaves| && BranchKeeps(shared, leaves, i, db, env))
            && (forall i, j | 0 <= i < |leaves| && 0 <= j < |leaves| ::
                  BranchKeeps(shared, leaves, i, db, env) && BranchKeeps(shared, leaves, j, db, env) ==> i == j)
  {
    hide Eval, FactorOr, BranchKeeps;
    var (shared, leaves) := FactorOr(cond);
    FactorTrue(cond, db, env);
    forall i | 0 <= i < |leaves| {
      BranchKeepsWhen(shared, leaves, i, db, env);
    }
    if IsTrue(cond, db, env) {
      var i := FirstTrue(leaves, db, env);
      assert BranchKeeps(shared, leaves, i, db, env);
    }
  }

  lemma {:induction false} FirstTrue(es: seq<Expr>, db: Db, env: Env) returns (i: nat)
    requires AnyTrue(es, db, env)
    ensures i < |es| && IsTrue(es[i], db, env) && forall j :: 0 <= j < i ==> !IsTrue(es[j], db, env)
  {
    hide Eval;
    if IsTrue(es[0], db, env) {
      i := 0;
    } else {
      var k :| 0 <= k < |es| && IsTrue(es[k], db, env);
      assert es[1..][k - 1] == es[k];
      var r := FirstTrue(es[1..], db, env);
      i := r + 1;
      assert forall j :: 0 < j < i ==> es[j] == es[1..][j - 1];
    }
  }

  // ---- Bags ----

  /** Rows kept by a or by b, never by both: the bags add up. */
  lemma {:induction false} BagsAddUp(a: Option<Expr>, b: Option<Expr>, c: Option<Expr>, ts: seq<Target>,
                                     scopes: seq<Env>, db: Db, env: Env)
    requires a.Some? && b.Some? && c.Some?
    requires forall e: Env :: (IsTrue(c.value, db, e) <==> IsTrue(a.value, db, e) || IsTrue(b.value, db, e))
                           && !(IsTrue(a.value, db, e) && IsTrue(b.value, db, e))
    ensures multiset(Project(ts, Keep(c, scopes, db, env), db, env))
         == multiset(Project(ts, Keep(a, scopes, db, env), db, env))
             + multiset(Project(ts, Keep(b, scopes, db, env), db, env))
  {
    hide Eval, EvalTargets, Keep, Project, IsTrue;
    if scopes == [] {
      NoScopes(a, ts, db, env);
      NoScopes(b, ts, db, env);
      NoScopes(c, ts, db, env);
    } else {
      BagsAddUp(a, b, c, ts, scopes[1..], db, env);
      BagOfKeep(a, ts, scopes, db, env);
      BagOfKeep(b, ts, scopes, db, env);
      BagOfKeep(c, ts, scopes, db, env);
      var e := env + scopes[0];
      assert IsTrue(c.value, db, e) <==> IsTrue(a.value, db, e) || IsTrue(b.value, db, e);
    }
  }

  lemma NoScopes(c: Option<Expr>, ts: seq<Target>, db: Db, env: Env)
    ensures multiset(Project(ts, Keep(c, [], db, env), db, env)) == multiset{}
  {
    assert Project(ts, Keep(c, [], db, env), db, env) == [];
  }

  lemma BagOfKeep(c: Option<Expr>, ts: seq<Target>, scopes: seq<Env>, db: Db, env: Env)
    requires c.Some? && scopes != []
    ensures var rest := multiset(Project(ts, Keep(c, scopes[1..], db, env), db, env));
            multiset(Project(ts, Keep(c, scopes, db, env), db, env))
            == if IsTrue(c.value, db, env + scopes[0])
               then multiset{EvalTargets(ts, db, env + scopes[0])} + rest else rest
  {
    hide Eval, EvalTargets;
    if IsTrue(c.value, db, env + scopes[0]) {
      var rest := Keep(c, scopes[1..], db, env);
      var kept := [scopes[0]] + rest;
      assert kept[1..] == rest;
      assert Project(ts, kept, db, env) == [EvalTargets(ts, db, env + scopes[0])] + Project(ts, rest, db, env);
    }
  }

  /** The shared part and the first k leaves, as one condition. */
  function PrefixCond(shared: Option<Expr>, leaves: seq<Expr>, k: nat): Expr
    requires k <= |leaves|
  {
    Logic(AndOp, SharedPart(shared) + [Logic(OrOp, leaves[..k])])
  }

  lemma PrefixTrue(shared: Option<Expr>, leaves: seq<Expr>, k: nat, db: Db, env: Env)
    requires k <= |leaves|
    ensures IsTrue(PrefixCond(shared, leaves, k), db, env)
       <==> AllTrue(SharedPart(shared), db, env) && AnyTrue(leaves[..k], db, env)
  {
    hide Eval;
    var any := Logic(OrOp, leaves[..k]);
    AndTrue(SharedPart(shared) + [any], db, env);
    AllTrueConcat(SharedPart(shared), [any], db, env);
    assert [any][0] == any;
    OrTrue(leaves[..k], db, env);
  }

  lemma PrefixStep(shared: Option<Expr>, leaves: seq<Expr>, k: nat, db: Db, env: Env)
    requires k < |leaves|
    ensures IsTrue(PrefixCond(shared, leaves, k + 1), db, env)
       <==> IsTrue(PrefixCond(shared, leaves, k), db, env) || BranchKeeps(shared, leaves, k, db, env)
    ensures !(IsTrue(PrefixCond(shared, leaves, k), db, env) && BranchKeeps(shared, leaves, k, db, env))
  {
    hide Eval, PrefixCond, BranchKeeps;
    PrefixTrue(shared, leaves, k, db, env);
    PrefixTrue(shared, leaves, k + 1, db, env);
    BranchKeepsWhen(shared, leaves, k, db, env);
    assert leaves[..k + 1] == leaves[..k] + [leaves[k]];
    AnyTrueConcat(leaves[..k], [leaves[k]], db, env);
    assert [leaves[k]][0] == leaves[k];
    if !AnyTrue(leaves[..k], db, env) {
      assert forall j :: 0 <= j < k ==> leaves[j] == leaves[..k][j];
    }
  }

  /** A query over one base table without WITH, DISTINCT or LIMIT is its filtered projection. */
  lemma SimpleResult(s: Select, db: Db, env: Env)
    requires SimpleForUnion(s)
    ensures EvalSelect(s, db, env) == Project(s.targets, Keep(s.cond, EvalTables(s.tables, db, env), db, env), db, env)
  {
  }

  lemma {:induction false} UnionPrefix(s: Select, shared: Option<Expr>, leaves: seq<Expr>, k: nat, db: Db, env: Env)
    requires SimpleForUnion(s) && 0 < k <= |leaves|
    ensures multiset(EvalSelect(UnionOf(s, shared, leaves, k), db, env))
         == multiset(Project(s.targets, Keep(Some(PrefixCond(shared, leaves, k)), EvalTables(s.tables, db, env),
                             db, env), db, env))
  {
    hide Eval, EvalTargets, EvalTables, PrefixCond, EvalSelect;
    var scopes := EvalTables(s.tables, db, env);
    var branch := Branch(s, shared, leaves, k - 1);
    SimpleResult(branch, db, env);
    var before, after := Some(PrefixCond(shared, leaves, k - 1)), Some(PrefixCond(shared, leaves, k));
    forall e: Env
      ensures IsTrue(after.value, db, e) <==> IsTrue(before.value, db, e) || IsTrue(branch.cond.value, db, e)
      ensures !(IsTrue(before.value, db, e) && IsTrue(branch.cond.value, db, e))
      ensures k == 1 ==> !IsTrue(before.value, db, e)
    {
      PrefixStep(shared, leaves, k - 1, db, e);
      PrefixTrue(shared, leaves, 0, db, e);
    }
    BagsAddUp(before, branch.cond, after, s.targets, scopes, db, env);
    if k == 1 {
      NothingKept(before, scopes, db, env);
    } else {
      UnionPrefix(s, shared, leaves, k - 1, db, env);
      UnionAllBag(UnionOf(s, shared, leaves, k - 1), branch, db, env);
    }
  }

  lemma UnionAllBag(a: Select, b: Select, db: Db, env: Env)
    ensures multiset(EvalSelect(UnionAll([], a, b), db, env))
        == multiset(EvalSelect(a, db, env)) + multiset(EvalSelect(b, db, env))
  {
  }

  lemma {:induction false} NothingKept(c: Option<Expr>, scopes: seq<Env>, db: Db, env: Env)
    requires c.Some? && forall e: Env :: !IsTrue(c.value, db, e)
    ensures Keep(c, scopes, db, env) == []
  {
    hide Eval;
    if scopes != [] {
      NothingKept(c, scopes[1..], db, env);
      assert !IsTrue(c.value, db, env + scopes[0]);
    }
  }

  /** Whenever OR becomes UNION ALL the result is the same bag of rows, in every database. */
  lemma UnionMeaning(s: Select, db: Db, env: Env)
    requires OrToUnion(s).Some?
    ensures multiset(EvalSelect(OrToUnion(s).value, db, env)) == multiset(EvalSelect(s, db, env))
  {
    hide Eval, EvalTargets, EvalTables, PrefixCond, EvalSelect, FactorOr;
    var (shared, leaves) := FactorOr(s.cond.value);
    var scopes := EvalTables(s.tables, db, env);
    UnionPrefix(s, shared, leaves, |leaves|, db, env);
    SimpleResult(s, db, env);
    var all := Some(PrefixCond(shared, leaves, |leaves|));
    forall e: Env ensures IsTrue(all.value, db, e) <==> IsTrue(s.cond.value, db, e) {
      FactorTrue(s.cond.value, db, e);
      PrefixTrue(shared, leaves, |leaves|, db, e);
      assert leaves[..|leaves|] == leaves;
    }
    SameRowsKept(all, s.cond, scopes, db, env);
  }

  lemma {:induction false} SameRowsKept(a: Option<Expr>, b: Option<Expr>, scopes: seq<Env>, db: Db, env: Env)
    requires a.Some? && b.Some?
    requires forall sc :: sc in scopes ==> (IsTrue(a.value, db, env + sc) <==> IsTrue(b.value, db, env + sc))
    ensures Keep(a, scopes, db, env) == Keep(b, scopes, db, env)
  {
    hide Eval;
    if scopes != [] {
      SameRowsKept(a, b, scopes[1..], db, env);
      assert IsTrue(a.value, db, env + scopes[0]) <==> IsTrue(b.value, db, env + scopes[0]);
    }
  }

  /** With plain NOT instead of IS NOT TRUE, `a = 1 OR b = 2` loses the row where a is NULL and b is 2. */
  lemma PlainNotLosesRows()
    ensures var a, b := Cmp(Eq, Col("t", "a"), Lit(Int(1))), Cmp(Eq, Col("t", "b"), Lit(Int(2)));
            var db, env := Db(map[], map[]), map["t" := map["a" := Null, "b" := Int(2)]];
            && IsTrue(Logic(OrOp, [a, b]), db, env)
            && !IsTrue(a, db, env) && !IsTrue(AndExpr(b, NotExpr(a)), db, env)
  {
    var a, b := Cmp(Eq, Col("t", "a"), Lit(Int(1))), Cmp(Eq, Col("t", "b"), Lit(Int(2)));
    var db, env := Db(map[], map[]), map["t" := map["a" := Null, "b" := Int(2)]];
    assert IsTrue([a, b][1], db, env);
    OrTrue([a, b], db, env);
    AndTrue([b, NotExpr(a)], db, env);
    Fusion.LogicValue(NotOp, [a], db, env);
    assert Truths([a], db, env) == [Kleene.Unknown];
    Kleene.AndAllValue(Truths([a], db, env));
    assert !IsTrue([b, NotExpr(a)][1], db, env);
  }

  // ---- The loops of the rewriter ----

  /** factorOr, which counts the ORs among the conjuncts and collects the rest. */
  method FactorConjuncts(cond: Expr) returns (shared: Option<Expr>, leaves: seq<Expr>)
    ensures (shared, leaves) == FactorOr(cond)
  {
    shared, leaves := None, [];
    if IsOr(cond) {
      leaves := FlattenOr(cond);
    } else if cond.Logic? && cond.bop.AndOp? {
      var orNode: Option<Expr>, orCount := None, 0;
      var rest: seq<Expr> := [];
      for i := 0 to |cond.args|
        invariant orCount + |Ors(cond.args[i..])| == |Ors(cond.args)|
        invariant orCount == 0 ==> Ors(cond.args[i..]) == Ors(cond.args)
        invariant orCount == 1 ==> orNode.Some? && [orNode.value] + Ors(cond.args[i..]) == Ors(cond.args)
        invariant rest + Others(cond.args[i..]) == Others(cond.args)
      {
        var a := cond.args[i];
        assert cond.args[i..][1..] == cond.args[i + 1..];
        if IsOr(a) {
          orCount := orCount + 1;
          orNode := Some(a);
        } else {
          rest := rest + [a];
        }
      }
      assert cond.args[|cond.args|..] == [] && cond.args[0..] == cond.args;
      if orCount == 1 {
        assert Ors(cond.args) == [orNode.value];
        shared, leaves := Combine(AndOp, rest), FlattenOr(orNode.value);
        assert rest == Others(cond.args);
      }
    }
  }

  lemma UnfoldUnion(s: Select, shared: Option<Expr>, leaves: seq<Expr>, k: nat)
    requires s.Simple? && 0 < k <= |leaves|
    ensures UnionOf(s, shared, leaves, k)
         == if k == 1 then Branch(s, shared, leaves, 0)
            else UnionAll([], UnionOf(s, shared, leaves, k - 1), Branch(s, shared, leaves, k - 1))
  {
    hide Branch;
  }

  /** The loop that grows the union and the list of leaves seen so far. */
  method ChainBranches(s: Select, shared: Option<Expr>, leaves: seq<Expr>) returns (union: Select)
    requires s.Simple? && leaves != []
    ensures union == UnionOf(s, shared, leaves, |leaves|)
  {
    hide UnionOf, NotTrues, SharedPart, Combine, Branch;
    union := s;
    var seen: seq<Expr> := [];
    for i := 0 to |leaves|
      invariant seen == NotTrues(leaves[..i])
      invariant i > 0 ==> union == UnionOf(s, shared, leaves, i)
    {
      BranchValue(s, shared, leaves, i);
      UnfoldUnion(s, shared, leaves, i + 1);
      var branch := Simple(s.ctes, s.distinct, s.targets, s.tables,
                           Combine(AndOp, SharedPart(shared) + [leaves[i]] + seen), s.limit);
      union := if i == 0 then branch else UnionAll([], union, branch);
      assert NotTrues(leaves[..i + 1]) == seen + [IsNotTrue(leaves[i])];
      seen := seen + [IsNotTrue(leaves[i])];
    }
    assert leaves[..|leaves|] == leaves;
  }

  lemma BranchValue(s: Select, shared: Option<Expr>, leaves: seq<Expr>, i: nat)
    requires s.Simple? && i < |leaves|
    ensures Branch(s, shared, leaves, i)
         == Simple(s.ctes, s.distinct, s.targets, s.tables,
                   Combine(AndOp, SharedPart(shared) + [leaves[i]] + NotTrues(leaves[..i])), s.limit)
  {
  }

  /** suggestOrToUnion. */
  method SuggestOrToUnion(s: Select) returns (r: Option<Select>)
    ensures r == OrToUnion(s)
  {
    if !SimpleForUnion(s) || s.cond.None? {
      return None;
    }
    var shared, leaves := FactorConjuncts(s.cond.value);
    if |leaves| < 2 || |leaves| > MAX_OR_UNION_LEAVES || !AllSimpleEqualities(leaves) || SameColumn(leaves) {
      return None;
    }
    var union := ChainBranches(s, shared, leaves);
    r := Some(union);
  }
}
