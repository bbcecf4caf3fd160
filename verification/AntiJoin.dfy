/**
 The anti-join idiom `a LEFT JOIN b ON ... WHERE b.key IS NULL` becomes
 `a WHERE NOT EXISTS (SELECT 1 FROM b WHERE ...)`.
 */
module AntiJoin {
  import opened Options
  import opened SqlSyntax
  import opened SqlSemantics
  import opened Frame
  import opened Text
  import Fusion
  import OrUnion
  import InExists
  import SargableTree
  import SargableMeaning
  import Kleene

  // ---- The checks of the rewriter ----

  /** rewriter_antijoin.go, operandSimple. */
  predicate OperandSimple(e: Expr) {
    e.Col? || e.Lit? || e.TimeLit? || e.Param? || (e.CastDate? && OperandSimple(e.arg))
  }

  /** rewriter_antijoin.go, qualifiedColParts: casts are looked through. */
  function ColumnUnder(e: Expr): (r: Option<Expr>)
    ensures r.Some? ==> r.value.Col?
  {
    if e.Col? then Some(e) else if e.CastDate? then ColumnUnder(e.arg) else None
  }

  /** rewriter_antijoin.go, onClauseSafeForAntiJoin: AND of simple operator predicates only. */
  predicate OnSafe(e: Expr)
    decreases e, 0
  {
    if e.Logic? then e.bop.AndOp? && AllOnSafe(e.args)
    else e.Cmp? && OperandSimple(e.l) && OperandSimple(e.r)
  }

  predicate AllOnSafe(es: seq<Expr>)
    decreases es, 0
  {
    es == [] || (OnSafe(es[0]) && AllOnSafe(es[1..]))
  }

  function SideKey(e: Expr, alias: string): set<string> {
    var col := ColumnUnder(e);
    if col.Some? && EqualFold(col.value.alias, alias) then {Lower(col.value.name)} else {}
  }

  /** The lower-cased right-hand columns of the equality terms. */
  function KeyColumns(e: Expr, alias: string): set<string>
    decreases e, 0
  {
    if e.Logic? then AllKeyColumns(e.args, alias)
    else if e.Cmp? && e.op.Eq? then SideKey(e.l, alias) + SideKey(e.r, alias)
    else {}
  }

  function AllKeyColumns(es: seq<Expr>, alias: string): set<string>
    decreases es, 0
  {
    if es == [] then {} else KeyColumns(es[0], alias) + AllKeyColumns(es[1..], alias)
  }

  /** rewriter_antijoin.go, splitAndConjuncts. */
  function SplitAnd(e: Expr): seq<Expr>
    decreases e, 0
  {
    if e.Logic? && e.bop.AndOp? then SplitAll(e.args) else [e]
  }

  function SplitAll(es: seq<Expr>): seq<Expr>
    decreases es, 0
  {
    if es == [] then [] else SplitAnd(es[0]) + SplitAll(es[1..])
  }

  /** `<alias>.<key> IS NULL`. */
  predicate IsPeeled(e: Expr, alias: string, keys: set<string>) {
    && e.NullTest? && e.isNull && ColumnUnder(e.arg).Some?
    && EqualFold(ColumnUnder(e.arg).value.alias, alias) && Lower(ColumnUnder(e.arg).value.name) in keys
  }

  function Peeled(es: seq<Expr>, alias: string, keys: set<string>): seq<Expr> {
    if es == [] then []
    else (if IsPeeled(es[0], alias, keys) then [es[0]] else []) + Peeled(es[1..], alias, keys)
  }

  function KeptConjuncts(es: seq<Expr>, alias: string, keys: set<string>): seq<Expr> {
    if es == [] then []
    else (if IsPeeled(es[0], alias, keys) then [] else [es[0]]) + KeptConjuncts(es[1..], alias, keys)
  }

  /** A single LEFT JOIN of two base tables with different aliases, filtered by WHERE. */
  predicate AntiJoinShape(s: Select) {
    && s.Simple? && s.ctes == [] && s.cond.Some? && |s.tables| == 1
    && s.tables[0].LeftJoin? && s.tables[0].larg.Table? && s.tables[0].rarg.Table?
    && s.tables[0].larg.alias != "" && s.tables[0].rarg.alias != ""
    && !EqualFold(s.tables[0].larg.alias, s.tables[0].rarg.alias)
  }

  function NotExists(right: FromItem, quals: Expr): Expr {
    NotExpr(Exists(Simple([], false, [Target("?column?", Lit(Int(1)))], [right], Some(quals), None)))
  }

  /** rewriter_antijoin.go, suggestLeftJoinAntiJoinToNotExists. */
  function AntiJoinToNotExists(s: Select): Option<Select> {
    if !AntiJoinShape(s) then None
    else
      var join := s.tables[0];
      var alias, keys := join.rarg.alias, KeyColumns(join.quals, join.rarg.alias);
      var conjuncts := SplitAnd(s.cond.value);
      var kept := KeptConjuncts(conjuncts, alias, keys);
      if !OnSafe(join.quals) || keys == {} || Peeled(conjuncts, alias, keys) == []
         || !AllAvoid(kept, alias) || !TargetsAvoid(s.targets, alias)
      then None
      else Some(Simple([], s.distinct, s.targets, [join.larg],
                       Combine(AndOp, kept + [NotExists(join.rarg, join.quals)]), s.limit))
  }

  // ---- When the spelling of names matters ----

  /** The right-hand columns of the equality terms, as they are spelled. */
  function ExactKeys(e: Expr, alias: string): set<string>
    decreases e, 0
  {
    if e.Logic? then AllExactKeys(e.args, alias)
    else if e.Cmp? && e.op.Eq? then ExactSide(e.l, alias) + ExactSide(e.r, alias)
    else {}
  }

  function AllExactKeys(es: seq<Expr>, alias: string): set<string>
    decreases es, 0
  {
    if es == [] then {} else ExactKeys(es[0], alias) + AllExactKeys(es[1..], alias)
  }

  function ExactSide(e: Expr, alias: string): set<string> {
    if ColumnUnder(e).Some? && ColumnUnder(e).value.alias == alias then {ColumnUnder(e).value.name} else {}
  }

  /** A test of a column, under any casts, of the alias as it is spelled. */
  predicate AliasSpelled(e: Expr, alias: string) {
    e.NullTest? && ColumnUnder(e.arg).Some? && ColumnUnder(e.arg).value.alias == alias
  }

  /** A test whose column is spelled exactly as in an equality term. */
  predicate TestSpelled(e: Expr, quals: Expr, alias: string) {
    AliasSpelled(e, alias) && ColumnUnder(e.arg).value.name in ExactKeys(quals, alias)
  }

  /** The tests the rewriter removes from the WHERE clause. */
  function RemovedTests(s: Select): seq<Expr>
    requires AntiJoinShape(s)
  {
    var join := s.tables[0];
    Peeled(SplitAnd(s.cond.value), join.rarg.alias, KeyColumns(join.quals, join.rarg.alias))
  }

  /**
   Names are matched without regard to case, as unquoted identifiers are. The rewrite needs one
   tested column spelled exactly as in an equality term, and the right alias spelled one way.
   */
  predicate SpelledAlike(s: Select)
    requires AntiJoinShape(s)
  {
    var join := s.tables[0];
    && (forall e | e in RemovedTests(s) :: AliasSpelled(e, join.rarg.alias))
    && exists e :: e in RemovedTests(s) && TestSpelled(e, join.quals, join.rarg.alias)
  }

  /**
   A test `column::date IS NULL` asks for NULL only where the cast applies: the column holds
   instants or NULL in the right rows. A test of the bare column asks nothing of them.
   */
  ghost predicate TestApplies(e: Expr, right: FromItem, db: Db, env: Env)
    requires e.NullTest? && ColumnUnder(e.arg).Some?
  {
    e.arg.Col? || forall r | r in EvalFrom(right, db, env) :: HoldsInstant(ColumnUnder(e.arg).value, r)
  }

  predicate HoldsInstant(col: Expr, r: Env)
    requires col.Col?
  {
    ColumnValue(r, col.alias, col.name).Null? || ColumnValue(r, col.alias, col.name).Time?
  }

  /** Some test that decides the matter applies to the right rows. */
  ghost predicate SomeTestApplies(s: Select, db: Db, env: Env)
    requires AntiJoinShape(s)
  {
    var join := s.tables[0];
    exists e ::
      e in RemovedTests(s) && TestSpelled(e, join.quals, join.rarg.alias) && TestApplies(e, join.rarg, db, env)
  }

  // ---- Conjunctions ----

  lemma {:induction false} SplitAndTrue(e: Expr, db: Db, env: Env)
    ensures OrUnion.AllTrue(SplitAnd(e), db, env) <==> IsTrue(e, db, env)
    decreases e, 0
  {
    hide Eval;
    if e.Logic? && e.bop.AndOp? {
      SplitAllTrue(e.args, db, env);
      OrUnion.AndTrue(e.args, db, env);
    } else {
      OrUnion.AllTrueOne(e, db, env);
    }
  }

  lemma {:induction false} SplitAllTrue(es: seq<Expr>, db: Db, env: Env)
    ensures OrUnion.AllTrue(SplitAll(es), db, env) <==> OrUnion.AllTrue(es, db, env)
    decreases es, 0
  {
    hide Eval;
    if es != [] {
      SplitAndTrue(es[0], db, env);
      SplitAllTrue(es[1..], db, env);
      OrUnion.AllTrueConcat(SplitAnd(es[0]), SplitAll(es[1..]), db, env);
      OrUnion.AllTrueConcat([es[0]], es[1..], db, env);
      OrUnion.AllTrueOne(es[0], db, env);
      assert [es[0]] + es[1..] == es;
    }
  }

  lemma {:induction false} PeelTrue(es: seq<Expr>, alias: string, keys: set<string>, db: Db, env: Env)
    ensures OrUnion.AllTrue(es, db, env)
       <==> OrUnion.AllTrue(Peeled(es, alias, keys), db, env)
            && OrUnion.AllTrue(KeptConjuncts(es, alias, keys), db, env)
  {
    hide Eval, IsPeeled;
    if es != [] {
      PeelTrue(es[1..], alias, keys, db, env);
      var here := IsPeeled(es[0], alias, keys);
      assert [es[0]] + es[1..] == es;
      OrUnion.AllTrueConcat([es[0]], es[1..], db, env);
      OrUnion.AllTrueConcat(if here then [es[0]] else [], Peeled(es[1..], alias, keys), db, env);
      OrUnion.AllTrueConcat(if here then [] else [es[0]], KeptConjuncts(es[1..], alias, keys), db, env);
    }
  }

  lemma {:induction false} PeeledArePeeled(es: seq<Expr>, alias: string, keys: set<string>)
    ensures forall i :: 0 <= i < |Peeled(es, alias, keys)| ==> IsPeeled(Peeled(es, alias, keys)[i], alias, keys)
  {
    hide IsPeeled;
    if es != [] {
      PeeledArePeeled(es[1..], alias, keys);
    }
  }

  lemma {:induction false} AllAvoidTrue(es: seq<Expr>, alias: string, db: Db, a: Env, b: Env)
    requires AllAvoid(es, alias) && Agree(a, b, alias)
    ensures OrUnion.AllTrue(es, db, a) <==> OrUnion.AllTrue(es, db, b)
  {
    ArgsFrame(es, alias, db, a, b);
    EvalArgsAt(es, db, a);
    EvalArgsAt(es, db, b);
  }

  // ---- Strictness and null extension ----

  lemma {:induction false} SimpleOperandStrict(e: Expr, db: Db, env: Env)
    requires ColumnUnder(e).Some? && !Eval(e, db, env).Null?
    ensures !Eval(ColumnUnder(e).value, db, env).Null?
    decreases e
  {
    if e.CastDate? {
      SimpleOperandStrict(e.arg, db, env);
    }
  }

  lemma TrueEqualityStrict(e: Expr, db: Db, env: Env)
    requires e.Cmp? && IsTrue(e, db, env)
    ensures !Eval(e.l, db, env).Null? && !Eval(e.r, db, env).Null?
  {
    SargableMeaning.CmpValue(e, db, env);
    InExists.ComparisonKnown(Eval(e.l, db, env), Eval(e.r, db, env));
  }

  /** A right row that satisfies the ON clause has no NULL in a column of an equality term. */
  lemma {:induction false} OnStrict(e: Expr, alias: string, name: string, db: Db, env: Env)
    requires OnSafe(e) && IsTrue(e, db, env) && name in ExactKeys(e, alias)
    ensures !Eval(Col(alias, name), db, env).Null?
    decreases e, 0
  {
    hide Eval;
    if e.Logic? {
      OrUnion.AndTrue(e.args, db, env);
      AllOnStrict(e.args, alias, name, db, env);
    } else {
      TrueEqualityStrict(e, db, env);
      if name in ExactSide(e.l, alias) {
        SimpleOperandStrict(e.l, db, env);
      } else {
        SimpleOperandStrict(e.r, db, env);
      }
    }
  }

  lemma {:induction false} AllOnStrict(es: seq<Expr>, alias: string, name: string, db: Db, env: Env)
    requires AllOnSafe(es) && OrUnion.AllTrue(es, db, env) && name in AllExactKeys(es, alias)
    ensures !Eval(Col(alias, name), db, env).Null?
    decreases es, 0
  {
    hide Eval;
    if name in ExactKeys(es[0], alias) {
      OnStrict(es[0], alias, name, db, env);
    } else {
      assert forall i :: 0 <= i < |es[1..]| ==> es[1..][i] == es[i + 1];
      AllOnStrict(es[1..], alias, name, db, env);
    }
  }

  lemma {:induction false} NullThroughCasts(e: Expr, db: Db, env: Env)
    requires ColumnUnder(e).Some? && Eval(ColumnUnder(e).value, db, env).Null?
    ensures Eval(e, db, env).Null?
    decreases e
  {
    if e.CastDate? {
      NullThroughCasts(e.arg, db, env);
    }
  }

  /** A cast of an instant is an instant. */
  lemma {:induction false} InstantThroughCasts(e: Expr, db: Db, env: Env)
    requires ColumnUnder(e).Some? && Eval(ColumnUnder(e).value, db, env).Time?
    ensures Eval(e, db, env).Time?
    decreases e
  {
    if e.CastDate? {
      InstantThroughCasts(e.arg, db, env);
    }
  }

  /** What the code established about a query it rewrites, with the spelling condition. */
  ghost predicate Ready(s: Select, db: Db, env: Env) {
    AntiJoinToNotExists(s).Some? && SpelledAlike(s) && SomeTestApplies(s, db, env)
  }

  /** A right row's columns are the same in the row alone and in the joined row. */
  lemma RightRowColumn(join: FromItem, name: string, l: Env, r: Env, db: Db, env: Env)
    requires join.LeftJoin? && join.rarg.Table? && r in EvalFrom(join.rarg, db, env)
    ensures Eval(Col(join.rarg.alias, name), db, env + (l + r)) == ColumnValue(r, join.rarg.alias, name)
  {
    ScopesBind(join.rarg.alias, if join.rarg.name in db.tables then db.tables[join.rarg.name] else [], r);
  }

  lemma {:induction false} ScopesBind(alias: string, rows: seq<Row>, r: Env)
    requires r in Scopes(alias, rows)
    ensures alias in r
  {
    if r != map[alias := rows[0]] {
      ScopesBind(alias, rows[1..], r);
    }
  }

  /** On a matched pair of rows the WHERE clause never holds. */
  lemma MatchedRowFails(s: Select, l: Env, r: Env, db: Db, env: Env)
    requires Ready(s, db, env) && r in EvalFrom(s.tables[0].rarg, db, env)
    requires IsTrue(s.tables[0].quals, db, env + (l + r))
    ensures !IsTrue(s.cond.value, db, env + (l + r))
  {
    hide Eval, EvalFrom, OnSafe, KeyColumns, ExactKeys, SplitAnd, Peeled, SpelledAlike, ColumnUnder;
    var join := s.tables[0];
    var alias, keys := join.rarg.alias, KeyColumns(join.quals, join.rarg.alias);
    var conjuncts, wide := SplitAnd(s.cond.value), env + (l + r);
    SplitAndTrue(s.cond.value, db, wide);
    PeelTrue(conjuncts, alias, keys, db, wide);
    PeeledArePeeled(conjuncts, alias, keys);
    var e :| e in RemovedTests(s) && TestSpelled(e, join.quals, alias) && TestApplies(e, join.rarg, db, env);
    var col := ColumnUnder(e.arg).value;
    OnStrict(join.quals, alias, col.name, db, wide);
    RightRowColumn(join, col.name, l, r, db, env);
    TestNotNull(e.arg, db, wide);
    NullTestValue(e, db, wide);
    assert !IsTrue(e, db, wide);
  }

  /** A tested column that is not NULL leaves the test FALSE: the column is bare or holds an instant. */
  lemma TestNotNull(e: Expr, db: Db, env: Env)
    requires ColumnUnder(e).Some?
    requires !Eval(ColumnUnder(e).value, db, env).Null? && (e.Col? || Eval(ColumnUnder(e).value, db, env).Time?)
    ensures !Eval(e, db, env).Null?
  {
    if !e.Col? {
      InstantThroughCasts(e, db, env);
    }
  }

  lemma NullTestValue(e: Expr, db: Db, env: Env)
    requires e.NullTest? && e.isNull
    ensures IsTrue(e, db, env) <==> Eval(e.arg, db, env).Null?
  {
  }

  /** On a null-extended row the WHERE clause holds exactly when the kept conjuncts hold on the left row. */
  lemma NullExtendedRow(s: Select, l: Env, db: Db, env: Env)
    requires Ready(s, db, env)
    ensures var alias, keys := s.tables[0].rarg.alias, KeyColumns(s.tables[0].quals, s.tables[0].rarg.alias);
            IsTrue(s.cond.value, db, env + (l + map[alias := map[]]))
            <==> OrUnion.AllTrue(KeptConjuncts(SplitAnd(s.cond.value), alias, keys), db, env + l)
  {
    hide Eval, OnSafe, KeyColumns, ExactKeys, SplitAnd, TargetsAvoid, Avoids;
    var join := s.tables[0];
    var alias, keys := join.rarg.alias, KeyColumns(join.quals, join.rarg.alias);
    var conjuncts := SplitAnd(s.cond.value);
    var peeled := Peeled(conjuncts, alias, keys);
    var wide := env + (l + map[alias := map[]]);
    SplitAndTrue(s.cond.value, db, wide);
    PeelTrue(conjuncts, alias, keys, db, wide);
    PeeledArePeeled(conjuncts, alias, keys);
    forall i | 0 <= i < |peeled| ensures IsTrue(peeled[i], db, wide) {
      assert peeled[i] in RemovedTests(s) && AliasSpelled(peeled[i], alias);
      var col := ColumnUnder(peeled[i].arg).value;
      NullColumn(col, db, wide);
      NullThroughCasts(peeled[i].arg, db, wide);
      NullTestValue(peeled[i], db, wide);
    }
    AllAvoidTrue(KeptConjuncts(conjuncts, alias, keys), alias, db, wide, env + l);
  }

  lemma NullColumn(col: Expr, db: Db, env: Env)
    requires col.Col? && col.alias in env && env[col.alias] == map[]
    ensures Eval(col, db, env).Null?
  {
  }

  // ---- Joins and subqueries over the same right rows ----

  /** The matches of a left row are the rows the correlated subquery keeps. */
  lemma {:induction false} MatchesAreKept(quals: Expr, l: Env, rs: seq<Env>, db: Db, env: Env)
    ensures Matches(quals, l, rs, db, env) == [] <==> Keep(Some(quals), rs, db, env + l) == []
    ensures forall m | m in Matches(quals, l, rs, db, env) ::
              IsTrue(quals, db, env + m) && exists r :: r in rs && m == l + r
    decreases |rs|
  {
    hide Eval;
    if rs != [] {
      MatchesAreKept(quals, l, rs[1..], db, env);
      assert env + l + rs[0] == env + (l + rs[0]);
      assert forall r :: r in rs[1..] ==> r in rs;
    }
  }

  lemma NotExistsTrue(right: FromItem, quals: Expr, l: Env, db: Db, env: Env)
    requires right.Table?
    ensures IsTrue(NotExists(right, quals), db, env + l)
       <==> Matches(quals, l, EvalFrom(right, db, env), db, env) == []
  {
    hide Eval, EvalFrom;
    var inner := Simple([], false, [Target("?column?", Lit(Int(1)))], [right], Some(quals), None);
    var rs := EvalFrom(right, db, env);
    TableIgnoresScope(right, db, env, env + l);
    OneTable(right, db, env + l);
    InExists.SubSelectResult(inner, db, env + l);
    InExists.ProjectedColumn(inner.targets, Keep(Some(quals), rs, db, env + l), db, env + l);
    MatchesAreKept(quals, l, rs, db, env);
    InExists.ExistsValue(inner, db, env + l);
    Fusion.LogicValue(NotOp, [Exists(inner)], db, env + l);
    assert Truths([Exists(inner)], db, env + l) == [TruthOf(Exists(inner), db, env + l)];
    Kleene.AndAllValue(Truths([Exists(inner)], db, env + l));
  }

  lemma TableIgnoresScope(t: FromItem, db: Db, a: Env, b: Env)
    requires t.Table?
    ensures EvalFrom(t, db, a) == EvalFrom(t, db, b)
  {
  }

  lemma OneTable(t: FromItem, db: Db, env: Env)
    ensures EvalTables([t], db, env) == EvalFrom(t, db, env)
  {
    hide EvalFrom;
    assert [t][1..] == [] && EvalTables([t][1..], db, env) == [map[]];
    InExists.ProductWithUnit(EvalFrom(t, db, env));
  }

  lemma {:induction false} KeepConcat(cond: Option<Expr>, a: seq<Env>, b: seq<Env>, db: Db, env: Env)
    ensures Keep(cond, a + b, db, env) == Keep(cond, a, db, env) + Keep(cond, b, db, env)
  {
    hide Eval;
    if a == [] {
      assert a + b == b;
    } else {
      assert (a + b)[1..] == a[1..] + b;
      KeepConcat(cond, a[1..], b, db, env);
    }
  }

  lemma {:induction false} ProjectConcat(ts: seq<Target>, a: seq<Env>, b: seq<Env>, db: Db, env: Env)
    ensures Project(ts, a + b, db, env) == Project(ts, a, db, env) + Project(ts, b, db, env)
  {
    hide EvalTargets;
    if a == [] {
      assert a + b == b;
    } else {
      assert (a + b)[1..] == a[1..] + b;
      ProjectConcat(ts, a[1..], b, db, env);
    }
  }

  lemma {:induction false} NoneKept(cond: Option<Expr>, scopes: seq<Env>, db: Db, env: Env)
    requires cond.Some? && forall s :: s in scopes ==> !IsTrue(cond.value, db, env + s)
    ensures Keep(cond, scopes, db, env) == []
  {
    hide Eval;
    if scopes != [] {
      NoneKept(cond, scopes[1..], db, env);
    }
  }

  // ---- One left row, then all of them ----

  /** The rows one left row contributes to the join. */
  function Block(s: Select, l: Env, db: Db, env: Env): seq<Env>
    requires AntiJoinShape(s)
  {
    var join := s.tables[0];
    var matches := Matches(join.quals, l, EvalFrom(join.rarg, db, env), db, env);
    if matches == [] then [l + NullScope(join.rarg)] else matches
  }

  function NewCond(s: Select): Option<Expr>
    requires AntiJoinToNotExists(s).Some?
  {
    AntiJoinToNotExists(s).value.cond
  }

  lemma NewCondTrue(s: Select, l: Env, db: Db, env: Env)
    requires AntiJoinToNotExists(s).Some?
    ensures var join := s.tables[0];
            var kept := KeptConjuncts(SplitAnd(s.cond.value), join.rarg.alias, KeyColumns(join.quals, join.rarg.alias));
            && NewCond(s).Some?
            && (IsTrue(NewCond(s).value, db, env + l)
                <==> && OrUnion.AllTrue(kept, db, env + l)
                     && Matches(join.quals, l, EvalFrom(join.rarg, db, env), db, env) == [])
  {
    hide Eval, OnSafe, KeyColumns, SplitAnd, TargetsAvoid, AllAvoid, NotExists, SpelledAlike, Peeled, EvalFrom;
    var join := s.tables[0];
    var kept := KeptConjuncts(SplitAnd(s.cond.value), join.rarg.alias, KeyColumns(join.quals, join.rarg.alias));
    var not := NotExists(join.rarg, join.quals);
    OrUnion.CombineTrue(kept + [not], db, env + l);
    OrUnion.AllTrueConcat(kept, [not], db, env + l);
    OrUnion.AllTrueOne(not, db, env + l);
    NotExistsTrue(join.rarg, join.quals, l, db, env);
  }

  lemma OneLeftRow(s: Select, l: Env, db: Db, env: Env)
    requires Ready(s, db, env)
    ensures Project(s.targets, Keep(s.cond, Block(s, l, db, env), db, env), db, env)
         == Project(s.targets, Keep(NewCond(s), [l], db, env), db, env)
  {
    hide Eval, OnSafe, KeyColumns, SplitAnd, AllAvoid, SpelledAlike, Peeled, EvalTargets, EvalFrom, KeptConjuncts,
         NewCond;
    var join := s.tables[0];
    var rs := EvalFrom(join.rarg, db, env);
    var matches := Matches(join.quals, l, rs, db, env);
    NewCondTrue(s, l, db, env);
    SargableTree.KeepOne(NewCond(s), l, db, env);
    if matches != [] {
      MatchesAreKept(join.quals, l, rs, db, env);
      forall m | m in matches ensures !IsTrue(s.cond.value, db, env + m) {
        var r :| r in rs && m == l + r;
        MatchedRowFails(s, l, r, db, env);
      }
      NoneKept(s.cond, matches, db, env);
    } else {
      var wide := l + NullScope(join.rarg);
      NullExtendedRow(s, l, db, env);
      SargableTree.KeepOne(s.cond, wide, db, env);
      TargetsFrame(s.targets, join.rarg.alias, db, env + wide, env + l);
      ProjectOne(s.targets, wide, db, env);
      ProjectOne(s.targets, l, db, env);
    }
  }

  lemma ProjectOne(ts: seq<Target>, scope: Env, db: Db, env: Env)
    ensures Project(ts, [scope], db, env) == [EvalTargets(ts, db, env + scope)]
  {
    hide EvalTargets;
    assert [scope][1..] == [] && Project(ts, [scope][1..], db, env) == [];
  }

  lemma {:induction false} AllLeftRows(s: Select, ls: seq<Env>, db: Db, env: Env)
    requires Ready(s, db, env)
    ensures var join := s.tables[0];
            var joined := OuterJoin(join.quals, ls, EvalFrom(join.rarg, db, env), NullScope(join.rarg), db, env);
            Project(s.targets, Keep(s.cond, joined, db, env), db, env)
            == Project(s.targets, Keep(NewCond(s), ls, db, env), db, env)
    decreases |ls|
  {
    hide Eval, EvalTargets, EvalFrom, NewCond, SpelledAlike, Matches;
    if ls != [] {
      var join := s.tables[0];
      var rs, nulls := EvalFrom(join.rarg, db, env), NullScope(join.rarg);
      var rest := OuterJoin(join.quals, ls[1..], rs, nulls, db, env);
      var block := Block(s, ls[0], db, env);
      AllLeftRows(s, ls[1..], db, env);
      OneLeftRow(s, ls[0], db, env);
      assert OuterJoin(join.quals, ls, rs, nulls, db, env) == block + rest;
      KeepConcat(s.cond, block, rest, db, env);
      ProjectConcat(s.targets, Keep(s.cond, block, db, env), Keep(s.cond, rest, db, env), db, env);
      assert [ls[0]] + ls[1..] == ls;
      KeepConcat(NewCond(s), [ls[0]], ls[1..], db, env);
      ProjectConcat(s.targets, Keep(NewCond(s), [ls[0]], db, env), Keep(NewCond(s), ls[1..], db, env), db, env);
    }
  }

  /**
   Whenever the anti-join fires (with names spelled alike, and a test that applies), NOT EXISTS
   returns the same rows as the outer join with its IS NULL filter, under DISTINCT and LIMIT too.
   */
  lemma AntiJoinMeaning(s: Select, db: Db, env: Env)
    requires AntiJoinToNotExists(s).Some? && SpelledAlike(s) && SomeTestApplies(s, db, env)
    ensures EvalSelect(AntiJoinToNotExists(s).value, db, env) == EvalSelect(s, db, env)
  {
    hide Eval, EvalTargets, EvalTables, SpelledAlike, SomeTestApplies, OuterJoin, OnSafe, KeyColumns, SplitAnd,
         AllAvoid, TargetsAvoid;
    var join := s.tables[0];
    var ls := EvalFrom(join.larg, db, env);
    AllLeftRows(s, ls, db, env);
    OneTable(join, db, env);
    OneTable(join.larg, db, env);
    assert s.tables == [join];
  }

  // ---- Spelling does matter ----

  /** Equalities between columns of the two tables, under any casts, joined by AND. */
  predicate ColumnEqualities(e: Expr, aliases: set<string>)
    decreases e
  {
    if e.Logic? then e.bop.AndOp? && forall i :: 0 <= i < |e.args| ==> ColumnEqualities(e.args[i], aliases)
    else
      && e.Cmp? && e.op.Eq? && ColumnUnder(e.l).Some? && ColumnUnder(e.r).Some?
      && ColumnUnder(e.l).value.alias in aliases && ColumnUnder(e.r).value.alias in aliases
  }

  /** A query whose ON clause only equates columns and whose WHERE clause is nothing but tests of key columns. */
  predicate OnlyKeys(s: Select)
    requires AntiJoinShape(s)
  {
    var join := s.tables[0];
    && ColumnEqualities(join.quals, {join.larg.alias, join.rarg.alias})
    && KeptConjuncts(SplitAnd(s.cond.value), join.rarg.alias, KeyColumns(join.quals, join.rarg.alias)) == []
    && join.larg.name != join.rarg.name && s.limit != Some(0)
  }

  /** A row with midnight in the columns of an alias that are equated, as they are spelled. */
  function EquatedRow(quals: Expr, alias: string): Row {
    map name | name in ExactKeys(quals, alias) :: Time(0)
  }

  /** One such row in each table. */
  function SpellingDb(s: Select): Db
    requires AntiJoinShape(s)
  {
    var join := s.tables[0];
    Db(map[join.larg.name := [EquatedRow(join.quals, join.larg.alias)],
           join.rarg.name := [EquatedRow(join.quals, join.rarg.alias)]], map[])
  }

  /** The two rows side by side. */
  function SpellingScope(s: Select): Env
    requires AntiJoinShape(s)
  {
    var join := s.tables[0];
    map[join.larg.alias := EquatedRow(join.quals, join.larg.alias)]
    + map[join.rarg.alias := EquatedRow(join.quals, join.rarg.alias)]
  }

  lemma {:induction false} MidnightThroughCasts(e: Expr, db: Db, env: Env)
    requires ColumnUnder(e).Some? && Eval(ColumnUnder(e).value, db, env) == Time(0)
    ensures Eval(e, db, env) == Time(0)
    decreases e
  {
    if e.CastDate? {
      MidnightThroughCasts(e.arg, db, env);
    }
  }

  ghost predicate MidnightAt(e: Expr, aliases: set<string>, env: Env) {
    forall alias, name :: alias in aliases && name in ExactKeys(e, alias) ==> ColumnValue(env, alias, name) == Time(0)
  }

  /** With midnight in every equated column the ON clause holds. */
  lemma {:induction false} EqualitiesHold(e: Expr, aliases: set<string>, db: Db, env: Env)
    requires ColumnEqualities(e, aliases) && MidnightAt(e, aliases, env)
    ensures IsTrue(e, db, env)
    decreases e, 0
  {
    hide Eval, ColumnUnder;
    if e.Logic? {
      forall i | 0 <= i < |e.args| ensures IsTrue(e.args[i], db, env) {
        forall alias ensures ExactKeys(e.args[i], alias) <= ExactKeys(e, alias) {
          PartOfKeys(e.args, alias, i);
        }
        EqualitiesHold(e.args[i], aliases, db, env);
      }
      OrUnion.AndTrue(e.args, db, env);
    } else {
      OneEquality(e.l, e.r, aliases, db, env);
    }
  }

  lemma OneEquality(l: Expr, r: Expr, aliases: set<string>, db: Db, env: Env)
    requires ColumnEqualities(Cmp(Eq, l, r), aliases) && MidnightAt(Cmp(Eq, l, r), aliases, env)
    ensures IsTrue(Cmp(Eq, l, r), db, env)
  {
    var x, y := ColumnUnder(l).value, ColumnUnder(r).value;
    assert x.name in ExactKeys(Cmp(Eq, l, r), x.alias) && y.name in ExactKeys(Cmp(Eq, l, r), y.alias);
    MidnightThroughCasts(l, db, env);
    MidnightThroughCasts(r, db, env);
  }

  lemma {:induction false} PartOfKeys(es: seq<Expr>, alias: string, i: nat)
    requires i < |es|
    ensures ExactKeys(es[i], alias) <= AllExactKeys(es, alias)
    decreases i
  {
    hide ExactKeys;
    if i > 0 {
      PartOfKeys(es[1..], alias, i - 1);
    }
  }

  /** The condition of the WHERE clause, when no removed test is spelled like a key. */
  lemma UnspelledTestsHold(s: Select, db: Db)
    requires AntiJoinShape(s) && OnlyKeys(s)
    requires forall e :: e in RemovedTests(s) ==> !TestSpelled(e, s.tables[0].quals, s.tables[0].rarg.alias)
    ensures IsTrue(s.cond.value, db, SpellingScope(s))
  {
    hide Eval, KeyColumns, SplitAnd, ColumnEqualities, TestSpelled;
    var join, scope := s.tables[0], SpellingScope(s);
    var alias, keys := join.rarg.alias, KeyColumns(join.quals, join.rarg.alias);
    var conjuncts := SplitAnd(s.cond.value);
    var peeled := Peeled(conjuncts, alias, keys);
    SplitAndTrue(s.cond.value, db, scope);
    PeelTrue(conjuncts, alias, keys, db, scope);
    PeeledArePeeled(conjuncts, alias, keys);
    forall i | 0 <= i < |peeled| ensures IsTrue(peeled[i], db, scope) {
      assert peeled[i] in RemovedTests(s);
      UnspelledIsNull(s, peeled[i], keys, db);
      NullThroughCasts(peeled[i].arg, db, scope);
      NullTestValue(peeled[i], db, scope);
    }
  }

  /** A tested column that is spelled otherwise is missing from the rows. */
  lemma UnspelledIsNull(s: Select, e: Expr, keys: set<string>, db: Db)
    requires AntiJoinShape(s) && IsPeeled(e, s.tables[0].rarg.alias, keys)
    requires !TestSpelled(e, s.tables[0].quals, s.tables[0].rarg.alias)
    ensures Eval(ColumnUnder(e.arg).value, db, SpellingScope(s)).Null?
  {
    hide ExactKeys, ColumnUnder, Lower;
    var col := ColumnUnder(e.arg).value;
    assert Eval(col, db, SpellingScope(s)) == ColumnValue(SpellingScope(s), col.alias, col.name);
    assert col.alias != s.tables[0].larg.alias;
  }

  lemma SpellingScopes(s: Select)
    requires AntiJoinShape(s) && OnlyKeys(s)
    ensures var join, db := s.tables[0], SpellingDb(s);
            && EvalFrom(join.larg, db, map[]) == [map[join.larg.alias := EquatedRow(join.quals, join.larg.alias)]]
            && EvalFrom(join.rarg, db, map[]) == [map[join.rarg.alias := EquatedRow(join.quals, join.rarg.alias)]]
  {
    hide EquatedRow, KeyColumns, SplitAnd, ColumnEqualities, KeptConjuncts, Scopes;
    var join, db := s.tables[0], SpellingDb(s);
    assert db.tables[join.larg.name] == [EquatedRow(join.quals, join.larg.alias)];
    assert db.tables[join.rarg.name] == [EquatedRow(join.quals, join.rarg.alias)];
    OneRowScope(join.larg.alias, EquatedRow(join.quals, join.larg.alias));
    OneRowScope(join.rarg.alias, EquatedRow(join.quals, join.rarg.alias));
  }

  lemma OneRowScope(alias: string, row: Row)
    ensures Scopes(alias, [row]) == [map[alias := row]]
  {
    assert [row][1..] == [] && Scopes(alias, [row][1..]) == [];
  }

  lemma SpellingMatch(s: Select, db: Db)
    requires AntiJoinShape(s) && OnlyKeys(s)
    ensures IsTrue(s.tables[0].quals, db, SpellingScope(s))
  {
    hide ColumnEqualities, KeyColumns, SplitAnd, KeptConjuncts, ExactKeys, Eval;
    var join := s.tables[0];
    assert join.larg.alias != join.rarg.alias;
    EqualitiesHold(join.quals, {join.larg.alias, join.rarg.alias}, db, SpellingScope(s));
  }

  /** The outer join of the two rows is the two rows side by side. */
  lemma SpellingJoin(s: Select)
    requires AntiJoinShape(s) && OnlyKeys(s)
    ensures EvalFrom(s.tables[0], SpellingDb(s), map[]) == [SpellingScope(s)]
    ensures var join, db := s.tables[0], SpellingDb(s);
            Matches(join.quals, EvalFrom(join.larg, db, map[])[0], EvalFrom(join.rarg, db, map[]), db, map[])
            == [SpellingScope(s)]
  {
    hide Eval, EquatedRow, OnlyKeys, SpellingDb, KeyColumns, SplitAnd;
    var join, db := s.tables[0], SpellingDb(s);
    var l: Env := map[join.larg.alias := EquatedRow(join.quals, join.larg.alias)];
    var r: Env := map[join.rarg.alias := EquatedRow(join.quals, join.rarg.alias)];
    SpellingScopes(s);
    SpellingMatch(s, db);
    assert map[] + (l + r) == SpellingScope(s);
    assert [r][1..] == [] && Matches(join.quals, l, [r][1..], db, map[]) == [];
    assert [l][1..] == [] && OuterJoin(join.quals, [l][1..], [r], NullScope(join.rarg), db, map[]) == [];
    assert Matches(join.quals, l, [r], db, map[]) == [l + r];
    assert OuterJoin(join.quals, [l], [r], NullScope(join.rarg), db, map[]) == [l + r];
    assert EvalFrom(join, db, map[])
        == OuterJoin(join.quals, EvalFrom(join.larg, db, map[]), EvalFrom(join.rarg, db, map[]),
                     NullScope(join.rarg), db, map[]);
  }

  lemma SpellingBefore(s: Select)
    requires AntiJoinShape(s) && OnlyKeys(s)
    requires forall e :: e in RemovedTests(s) ==> !TestSpelled(e, s.tables[0].quals, s.tables[0].rarg.alias)
    ensures |EvalSelect(s, SpellingDb(s), map[])| == 1
  {
    hide Eval, EvalTargets, EvalFrom, Matches, SpellingDb, RemovedTests, TestSpelled, SpellingScope, KeyColumns,
         SplitAnd, ColumnEqualities, KeptConjuncts;
    var join, db, scope := s.tables[0], SpellingDb(s), SpellingScope(s);
    SpellingJoin(s);
    OneTable(join, db, map[]);
    assert s.tables == [join];
    assert map[] + scope == scope;
    UnspelledTestsHold(s, db);
    SargableTree.KeepOne(s.cond, scope, db, map[]);
    ProjectOne(s.targets, scope, db, map[]);
    var row := [EvalTargets(s.targets, db, map[] + scope)];
    assert row[..0] == [] && Dedup(row) == row;
  }

  lemma SpellingAfter(s: Select)
    requires AntiJoinToNotExists(s).Some? && OnlyKeys(s)
    ensures EvalSelect(AntiJoinToNotExists(s).value, SpellingDb(s), map[]) == []
  {
    hide Eval, EvalFrom, Matches, SpellingDb, NotExists, KeyColumns, SplitAnd, ColumnEqualities, Peeled,
         TargetsAvoid, AllAvoid, OnSafe, SpellingScope, EquatedRow;
    var join, db := s.tables[0], SpellingDb(s);
    var l: Env := map[join.larg.alias := EquatedRow(join.quals, join.larg.alias)];
    SpellingScopes(s);
    SpellingJoin(s);
    NewCondTrue(s, l, db, map[]);
    OneTable(join.larg, db, map[]);
    SargableTree.KeepOne(NewCond(s), l, db, map[]);
  }

  /**
   Quoted identifiers that differ only in case are different columns, but not to the rewriter. Where
   it fires on nothing but keys and no test is spelled like its key, it loses rows: there is a
   database in which the outer join returns a row and the rewritten query none.
   */
  lemma CaseBlindKeyLosesRows(s: Select)
    requires AntiJoinToNotExists(s).Some? && OnlyKeys(s)
    requires forall e :: e in RemovedTests(s) ==> !TestSpelled(e, s.tables[0].quals, s.tables[0].rarg.alias)
    ensures |EvalSelect(s, SpellingDb(s), map[])| == 1
    ensures EvalSelect(AntiJoinToNotExists(s).value, SpellingDb(s), map[]) == []
  {
    hide EvalSelect, OnlyKeys, SpellingDb;
    SpellingBefore(s);
    SpellingAfter(s);
  }

  // ---- The loops of the rewriter ----

  lemma {:induction false} AllOnSafeAppend(a: seq<Expr>, e: Expr)
    ensures AllOnSafe(a + [e]) <==> AllOnSafe(a) && OnSafe(e)
  {
    hide OnSafe;
    var whole := a + [e];
    if a == [] { assert whole[1..] == []; } else {
      assert whole[1..] == a[1..] + [e];
      AllOnSafeAppend(a[1..], e);
    }
  }

  lemma {:induction false} AllKeyColumnsAppend(a: seq<Expr>, e: Expr, alias: string)
    ensures AllKeyColumns(a + [e], alias) == AllKeyColumns(a, alias) + KeyColumns(e, alias)
  {
    hide KeyColumns;
    var whole := a + [e];
    if a == [] { assert whole[1..] == []; } else {
      assert whole[1..] == a[1..] + [e];
      AllKeyColumnsAppend(a[1..], e, alias);
    }
  }

  lemma {:induction false} AllOnSafeAt(es: seq<Expr>, i: nat)
    requires i < |es| && !OnSafe(es[i])
    ensures !AllOnSafe(es)
  {
    if i > 0 && OnSafe(es[0]) {
      AllOnSafeAt(es[1..], i - 1);
    }
  }

  /** onClauseSafeForAntiJoin, which fills keyCols as it goes and stops at the first unsafe term. */
  method OnClauseSafeForAntiJoin(n: Expr, alias: string, keyCols: set<string>) returns (safe: bool, keys: set<string>)
    ensures safe == OnSafe(n)
    ensures safe ==> keys == keyCols + KeyColumns(n, alias)
    decreases n
  {
    keys := keyCols;
    if n.Logic? {
      if !n.bop.AndOp? {
        return false, keys;
      }
      for i := 0 to |n.args|
        invariant AllOnSafe(n.args[..i]) && keys == keyCols + AllKeyColumns(n.args[..i], alias)
      {
        safe, keys := OnClauseSafeForAntiJoin(n.args[i], alias, keys);
        if !safe {
          AllOnSafeAt(n.args, i);
          return;
        }
        AllOnSafeAppend(n.args[..i], n.args[i]);
        AllKeyColumnsAppend(n.args[..i], n.args[i], alias);
        assert n.args[..i + 1] == n.args[..i] + [n.args[i]];
      }
      assert n.args[..|n.args|] == n.args;
      return true, keys;
    }
    if !n.Cmp? || !OperandSimple(n.l) || !OperandSimple(n.r) {
      return false, keys;
    }
    if n.op.Eq? {
      keys := keys + SideKey(n.l, alias) + SideKey(n.r, alias);
    }
    safe := true;
  }

  /** The peeling loop over the top-level conjuncts. */
  method PeelConjuncts(conjuncts: seq<Expr>, alias: string, keys: set<string>) returns (kept: seq<Expr>, peeled: nat)
    ensures kept == KeptConjuncts(conjuncts, alias, keys) && peeled == |Peeled(conjuncts, alias, keys)|
  {
    hide IsPeeled;
    kept, peeled := [], 0;
    for i := 0 to |conjuncts|
      invariant kept + KeptConjuncts(conjuncts[i..], alias, keys) == KeptConjuncts(conjuncts, alias, keys)
      invariant peeled + |Peeled(conjuncts[i..], alias, keys)| == |Peeled(conjuncts, alias, keys)|
    {
      var c := conjuncts[i];
      assert conjuncts[i..][1..] == conjuncts[i + 1..];
      if IsPeeled(c, alias, keys) {
        peeled := peeled + 1;
      } else {
        kept := kept + [c];
      }
    }
  }

  /** suggestLeftJoinAntiJoinToNotExists. */
  method SuggestAntiJoin(s: Select) returns (r: Option<Select>)
    ensures r == AntiJoinToNotExists(s)
  {
    hide OnSafe, KeyColumns, SplitAnd, Peeled, KeptConjuncts, AllAvoid, TargetsAvoid;
    if !AntiJoinShape(s) {
      return None;
    }
    var join := s.tables[0];
    var safe, keys := OnClauseSafeForAntiJoin(join.quals, join.rarg.alias, {});
    assert safe ==> keys == KeyColumns(join.quals, join.rarg.alias);
    if !safe || keys == {} {
      return None;
    }
    var kept, peeled := PeelConjuncts(SplitAnd(s.cond.value), join.rarg.alias, keys);
    if peeled == 0 || !AllAvoid(kept, join.rarg.alias) || !TargetsAvoid(s.targets, join.rarg.alias) {
      return None;
    }
    r := Some(Simple([], s.distinct, s.targets, [join.larg],
                     Combine(AndOp, kept + [NotExists(join.rarg, join.quals)]), s.limit));
  }
}
