/**
 What a rewrite of one test may keep. `Exact` rewrites keep the truth value and may stand under any
 Boolean operator; `OnlyTrue` rewrites keep the rows on which the test is TRUE and may stand under
 an even number of NOTs; `OnlyFalse` ones keep those on which it is FALSE and may stand under an odd
 number; `Unsafe` ones keep neither.
 */
module Grades {
  import opened SqlSyntax
  import opened SqlSemantics

  type Binds = map<int, Value>

  datatype Grade = Exact | OnlyTrue | OnlyFalse | Unsafe
  {
    predicate KeepsTrue() {
      Exact? || OnlyTrue?
    }

    predicate KeepsFalse() {
      Exact? || OnlyFalse?
    }
  }

  ghost predicate IsFalse(e: Expr, db: Db, env: Env) {
    Eval(e, db, env) == Bool(false)
  }

  ghost predicate SameValue(a: Expr, b: Expr, binds: Binds) {
    forall db: Db, env: Env | db.binds == binds :: Eval(a, db, env) == Eval(b, db, env)
  }

  ghost predicate SameRows(a: Expr, b: Expr, binds: Binds) {
    forall db: Db, env: Env | db.binds == binds :: IsTrue(a, db, env) <==> IsTrue(b, db, env)
  }

  ghost predicate SameFalse(a: Expr, b: Expr, binds: Binds) {
    forall db: Db, env: Env | db.binds == binds :: IsFalse(a, db, env) <==> IsFalse(b, db, env)
  }

  /** The grade is right in every direction: the rewrite keeps what it says, and nothing more. */
  ghost predicate Graded(a: Expr, b: Expr, grade: Grade, binds: Binds) {
    && (SameValue(a, b, binds) <==> grade.Exact?)
    && (SameRows(a, b, binds) <==> grade.KeepsTrue())
    && (SameFalse(a, b, binds) <==> grade.KeepsFalse())
  }

  lemma SameValueSameRows(a: Expr, b: Expr, binds: Binds)
    requires SameValue(a, b, binds)
    ensures SameRows(a, b, binds)
  {
    hide Eval;
  }

  lemma SameValueSameFalse(a: Expr, b: Expr, binds: Binds)
    requires SameValue(a, b, binds)
    ensures SameFalse(a, b, binds)
  {
    hide Eval;
  }

  lemma ExactIsRight(a: Expr, b: Expr, binds: Binds)
    requires SameValue(a, b, binds)
    ensures Graded(a, b, Exact, binds)
  {
    hide SameValue, SameRows, SameFalse;
    SameValueSameRows(a, b, binds);
    SameValueSameFalse(a, b, binds);
  }

  /** One row on which neither is unknown and the two differ shows that nothing is kept. */
  lemma UnsafeIsRight(a: Expr, b: Expr, binds: Binds, db: Db, env: Env)
    requires db.binds == binds && Eval(a, db, env).Bool? && Eval(b, db, env).Bool?
    requires Eval(a, db, env) != Eval(b, db, env)
    ensures Graded(a, b, Unsafe, binds)
  {
    hide SameValue, SameRows, SameFalse;
    OneValueDiffers(a, b, binds, db, env);
    OneTruthDiffers(a, b, binds, db, env);
    OneFalsityDiffers(a, b, binds, db, env);
  }

  lemma OneValueDiffers(a: Expr, b: Expr, binds: Binds, db: Db, env: Env)
    requires db.binds == binds && Eval(a, db, env) != Eval(b, db, env)
    ensures !SameValue(a, b, binds)
  {
    hide Eval;
  }

  lemma OneTruthDiffers(a: Expr, b: Expr, binds: Binds, db: Db, env: Env)
    requires db.binds == binds && Eval(a, db, env).Bool? && Eval(b, db, env).Bool?
    requires Eval(a, db, env) != Eval(b, db, env)
    ensures !SameRows(a, b, binds)
  {
    hide Eval;
    assert IsTrue(a, db, env) != IsTrue(b, db, env);
  }

  lemma OneFalsityDiffers(a: Expr, b: Expr, binds: Binds, db: Db, env: Env)
    requires db.binds == binds && Eval(a, db, env).Bool? && Eval(b, db, env).Bool?
    requires Eval(a, db, env) != Eval(b, db, env)
    ensures !SameFalse(a, b, binds)
  {
    hide Eval;
    assert IsFalse(a, db, env) != IsFalse(b, db, env);
  }

  /** A grade speaks of values only. */
  lemma GradedAlike(a: Expr, b: Expr, c: Expr, grade: Grade, binds: Binds)
    requires SameValue(b, c, binds) && Graded(a, b, grade, binds)
    ensures Graded(a, c, grade, binds)
  {
    hide SameValue, SameRows, SameFalse;
    ValuesAlike(a, b, c, binds);
    RowsAlike(a, b, c, binds);
    FalseRowsAlike(a, b, c, binds);
  }

  lemma ValuesAlike(a: Expr, b: Expr, c: Expr, binds: Binds)
    requires SameValue(b, c, binds)
    ensures SameValue(a, b, binds) <==> SameValue(a, c, binds)
  {
    hide Eval;
  }

  lemma RowsAlike(a: Expr, b: Expr, c: Expr, binds: Binds)
    requires SameValue(b, c, binds)
    ensures SameRows(a, b, binds) <==> SameRows(a, c, binds)
  {
    hide Eval;
  }

  lemma FalseRowsAlike(a: Expr, b: Expr, c: Expr, binds: Binds)
    requires SameValue(b, c, binds)
    ensures SameFalse(a, b, binds) <==> SameFalse(a, c, binds)
  {
    hide Eval;
  }
}
