/**
 The coincidence lemma: an expression that never mentions an alias, not even inside its
 subqueries, does not see what that alias is bound to.
 */
module Frame {
  import opened Options
  import opened SqlSyntax
  import opened SqlSemantics
  import opened Text

  /** rewriter_antijoin.go, referencesAliasOrBareCol, negated: no column reference is qualified by the alias. */
  predicate Avoids(e: Expr, alias: string)
    decreases e, 0
  {
    match e
    case Col(a, _) => !EqualFold(a, alias)
    case Lit(_) => true
    case TimeLit(_, _, _) => true
    case Param(_) => true
    case Cmp(_, l, r) => Avoids(l, alias) && Avoids(r, alias)
    case Between(x, lo, hi) => Avoids(x, alias) && Avoids(lo, alias) && Avoids(hi, alias)
    case Logic(_, args) => AllAvoid(args, alias)
    case NullTest(arg, _) => Avoids(arg, alias)
    case IsNotTrue(arg) => Avoids(arg, alias)
    case Coalesce(first, second) => Avoids(first, alias) && Avoids(second, alias)
    case DateTruncFn(_, arg) => Avoids(arg, alias)
    case Extract(_, arg) => Avoids(arg, alias)
    case CastDate(arg) => Avoids(arg, alias)
    case AddPeriod(arg, _) => Avoids(arg, alias)
    case InSub(test, sub) => Avoids(test, alias) && SelectAvoids(sub, alias)
    case Exists(sub) => SelectAvoids(sub, alias)
  }

  predicate AllAvoid(es: seq<Expr>, alias: string)
    decreases es, 0
  {
    es == [] || (Avoids(es[0], alias) && AllAvoid(es[1..], alias))
  }

  predicate TargetsAvoid(ts: seq<Target>, alias: string)
    decreases ts, 0
  {
    ts == [] || (Avoids(ts[0].e, alias) && TargetsAvoid(ts[1..], alias))
  }

  predicate FromAvoids(f: FromItem, alias: string)
    decreases f, 0
  {
    match f
    case Table(_, _) => true
    case SubSelect(query, _) => SelectAvoids(query, alias)
    case LeftJoin(larg, rarg, quals) => FromAvoids(larg, alias) && FromAvoids(rarg, alias) && Avoids(quals, alias)
  }

  predicate TablesAvoid(fs: seq<FromItem>, alias: string)
    decreases fs, 0
  {
    fs == [] || (FromAvoids(fs[0], alias) && TablesAvoid(fs[1..], alias))
  }

  predicate CtesAvoid(ctes: seq<Cte>, alias: string)
    decreases ctes, 0
  {
    ctes == [] || (SelectAvoids(ctes[0].query, alias) && CtesAvoid(ctes[1..], alias))
  }

  predicate SelectAvoids(s: Select, alias: string)
    decreases s, 0
  {
    match s
    case Simple(ctes, _, targets, tables, cond, _) =>
      && CtesAvoid(ctes, alias) && TargetsAvoid(targets, alias) && TablesAvoid(tables, alias)
      && (cond.Some? ==> Avoids(cond.value, alias))
    case UnionAll(ctes, larg, rarg) => CtesAvoid(ctes, alias) && SelectAvoids(larg, alias) && SelectAvoids(rarg, alias)
  }

  /** Two scopes that may differ only in what the alias is bound to. */
  ghost predicate Agree(a: Env, b: Env, alias: string) {
    forall x :: x != alias ==> (x in a <==> x in b) && (x in a ==> a[x] == b[x])
  }

  lemma AgreeExtended(a: Env, b: Env, s: Env, alias: string)
    requires Agree(a, b, alias)
    ensures Agree(a + s, b + s, alias)
  {
  }

  /** An expression that avoids the alias has the same value in both scopes. */
  lemma {:induction false} EvalFrame(e: Expr, alias: string, db: Db, a: Env, b: Env)
    requires Avoids(e, alias) && Agree(a, b, alias)
    ensures Eval(e, db, a) == Eval(e, db, b)
    decreases e, 0
  {
    match e
    case Col(x, _) =>
    case Lit(_) =>
    case TimeLit(_, _, _) =>
    case Param(_) =>
    case Cmp(_, l, r) => EvalFrame(l, alias, db, a, b); EvalFrame(r, alias, db, a, b);
    case Between(x, lo, hi) =>
      EvalFrame(x, alias, db, a, b);
      EvalFrame(lo, alias, db, a, b);
      EvalFrame(hi, alias, db, a, b);
    case Logic(_, args) => ArgsFrame(args, alias, db, a, b);
    case NullTest(arg, _) => EvalFrame(arg, alias, db, a, b);
    case IsNotTrue(arg) => EvalFrame(arg, alias, db, a, b);
    case Coalesce(first, second) => EvalFrame(first, alias, db, a, b); EvalFrame(second, alias, db, a, b);
    case DateTruncFn(_, arg) => EvalFrame(arg, alias, db, a, b);
    case Extract(_, arg) => EvalFrame(arg, alias, db, a, b);
    case CastDate(arg) => EvalFrame(arg, alias, db, a, b);
    case AddPeriod(arg, _) => EvalFrame(arg, alias, db, a, b);
    case InSub(test, sub) => EvalFrame(test, alias, db, a, b); SelectFrame(sub, alias, db, a, b);
    case Exists(sub) => SelectFrame(sub, alias, db, a, b);
  }

  lemma {:induction false} ArgsFrame(es: seq<Expr>, alias: string, db: Db, a: Env, b: Env)
    requires AllAvoid(es, alias) && Agree(a, b, alias)
    ensures EvalArgs(es, db, a) == EvalArgs(es, db, b)
    decreases es, 0
  {
    if es != [] {
      EvalFrame(es[0], alias, db, a, b);
      ArgsFrame(es[1..], alias, db, a, b);
    }
  }

  lemma {:induction false} TargetsFrame(ts: seq<Target>, alias: string, db: Db, a: Env, b: Env)
    requires TargetsAvoid(ts, alias) && Agree(a, b, alias)
    ensures EvalTargets(ts, db, a) == EvalTargets(ts, db, b)
    decreases ts, 0
  {
    if ts != [] {
      EvalFrame(ts[0].e, alias, db, a, b);
      TargetsFrame(ts[1..], alias, db, a, b);
    }
  }

  lemma {:induction false} KeepFrame(cond: Option<Expr>, scopes: seq<Env>, alias: string, db: Db, a: Env, b: Env)
    requires (cond.Some? ==> Avoids(cond.value, alias)) && Agree(a, b, alias)
    ensures Keep(cond, scopes, db, a) == Keep(cond, scopes, db, b)
    decreases cond, |scopes|
  {
    if scopes != [] {
      KeepFrame(cond, scopes[1..], alias, db, a, b);
      if cond.Some? {
        AgreeExtended(a, b, scopes[0], alias);
        EvalFrame(cond.value, alias, db, a + scopes[0], b + scopes[0]);
      }
    }
  }

  lemma {:induction false} ProjectFrame(ts: seq<Target>, scopes: seq<Env>, alias: string, db: Db, a: Env, b: Env)
    requires TargetsAvoid(ts, alias) && Agree(a, b, alias)
    ensures Project(ts, scopes, db, a) == Project(ts, scopes, db, b)
    decreases ts, 1 + |scopes|
  {
    if scopes != [] {
      ProjectFrame(ts, scopes[1..], alias, db, a, b);
      AgreeExtended(a, b, scopes[0], alias);
      TargetsFrame(ts, alias, db, a + scopes[0], b + scopes[0]);
    }
  }

  lemma {:induction false} MatchesFrame(quals: Expr, l: Env, rs: seq<Env>, alias: string, db: Db, a: Env, b: Env)
    requires Avoids(quals, alias) && Agree(a, b, alias)
    ensures Matches(quals, l, rs, db, a) == Matches(quals, l, rs, db, b)
    decreases quals, 1 + |rs|
  {
    if rs != [] {
      MatchesFrame(quals, l, rs[1..], alias, db, a, b);
      AgreeExtended(a, b, l + rs[0], alias);
      EvalFrame(quals, alias, db, a + (l + rs[0]), b + (l + rs[0]));
    }
  }

  lemma {:induction false} OuterJoinFrame(quals: Expr, ls: seq<Env>, rs: seq<Env>, nulls: Env, alias: string,
                                          db: Db, a: Env, b: Env)
    requires Avoids(quals, alias) && Agree(a, b, alias)
    ensures OuterJoin(quals, ls, rs, nulls, db, a) == OuterJoin(quals, ls, rs, nulls, db, b)
    decreases quals, 2 + |ls| + |rs|
  {
    if ls != [] {
      MatchesFrame(quals, ls[0], rs, alias, db, a, b);
      OuterJoinFrame(quals, ls[1..], rs, nulls, alias, db, a, b);
    }
  }

  lemma {:induction false} FromFrame(f: FromItem, alias: string, db: Db, a: Env, b: Env)
    requires FromAvoids(f, alias) && Agree(a, b, alias)
    ensures EvalFrom(f, db, a) == EvalFrom(f, db, b)
    decreases f, 0
  {
    match f
    case Table(_, _) =>
    case SubSelect(query, _) => SelectFrame(query, alias, db, a, b);
    case LeftJoin(larg, rarg, quals) =>
      FromFrame(larg, alias, db, a, b);
      FromFrame(rarg, alias, db, a, b);
      OuterJoinFrame(quals, EvalFrom(larg, db, a), EvalFrom(rarg, db, a), NullScope(rarg), alias, db, a, b);
  }

  lemma {:induction false} TablesFrame(fs: seq<FromItem>, alias: string, db: Db, a: Env, b: Env)
    requires TablesAvoid(fs, alias) && Agree(a, b, alias)
    ensures EvalTables(fs, db, a) == EvalTables(fs, db, b)
    decreases fs, 0
  {
    if fs != [] {
      FromFrame(fs[0], alias, db, a, b);
      TablesFrame(fs[1..], alias, db, a, b);
    }
  }

  lemma {:induction false} CtesFrame(ctes: seq<Cte>, alias: string, db: Db, a: Env, b: Env)
    requires CtesAvoid(ctes, alias) && Agree(a, b, alias)
    ensures EvalCtes(ctes, db, a) == EvalCtes(ctes, db, b)
    decreases ctes, 0
  {
    if ctes != [] {
      SelectFrame(ctes[0].query, alias, db, a, b);
      var rows := RowsOf(ColumnNames(ctes[0].query), EvalSelect(ctes[0].query, db, a));
      CtesFrame(ctes[1..], alias, db.(tables := db.tables[ctes[0].name := rows]), a, b);
    }
  }

  /** So has a whole query. */
  lemma {:induction false} SelectFrame(s: Select, alias: string, db: Db, a: Env, b: Env)
    requires SelectAvoids(s, alias) && Agree(a, b, alias)
    ensures EvalSelect(s, db, a) == EvalSelect(s, db, b)
    decreases s, 0
  {
    CtesFrame(s.ctes, alias, db, a, b);
    var inner := EvalCtes(s.ctes, db, a);
    match s
    case Simple(_, _, targets, tables, cond, _) =>
      TablesFrame(tables, alias, inner, a, b);
      var scopes := EvalTables(tables, inner, a);
      KeepFrame(cond, scopes, alias, inner, a, b);
      ProjectFrame(targets, Keep(cond, scopes, inner, a), alias, inner, a, b);
    case UnionAll(_, larg, rarg) =>
      SelectFrame(larg, alias, inner, a, b);
      SelectFrame(rarg, alias, inner, a, b);
  }
}
