/**
 What a SELECT means. Expressions evaluate in Kleene's logic (sections 8.4, 8.7, 8.8 and 8.12
 of ISO/IEC 9075:1992), a LEFT JOIN null-extends unmatched rows (section 7.5), and a query
 result is a sequence of rows that stands for the bag `multiset(rows)`.
 */
module SqlSemantics {
  import opened Options
  import opened Calendar
  import opened SqlSyntax
  import Kleene

  /** One row of a table, by column name. */
  type Row = map<string, Value>

  /** The rows in scope, by table alias. */
  type Env = map<string, Row>

  datatype Db = Db(tables: map<string, seq<Row>>, binds: map<int, Value>)

  type Tuples = seq<seq<Value>>

  // ---- Values ----

  datatype Ordering = Less | Equal | Greater | Incomparable

  function Reverse(o: Ordering): Ordering {
    match o
    case Less => Greater
    case Greater => Less
    case _ => o
  }

  function OrderReals(a: real, b: real): Ordering {
    if a < b then Less else if a == b then Equal else Greater
  }

  function OrderStrings(a: string, b: string): Ordering {
    if a == [] && b == [] then Equal
    else if a == [] then Less
    else if b == [] then Greater
    else if a[0] < b[0] then Less
    else if a[0] > b[0] then Greater
    else OrderStrings(a[1..], b[1..])
  }

  /** Values of different types are never compared by a query that type checks. */
  function Order(a: Value, b: Value): Ordering {
    match (a, b)
    case (Int(x), Int(y)) => OrderReals(x as real, y as real)
    case (Int(x), Num(y)) => OrderReals(x as real, y)
    case (Num(x), Int(y)) => OrderReals(x, y as real)
    case (Num(x), Num(y)) => OrderReals(x, y)
    case (Time(x), Time(y)) => if x < y then Less else if x == y then Equal else Greater
    case (Str(x), Str(y)) => OrderStrings(x, y)
    case (Bool(x), Bool(y)) => if x == y then Equal else if y then Less else Greater
    case _ => Incomparable
  }

  function Holds(op: CmpOp, o: Ordering): bool {
    match op
    case Eq => o.Equal?
    case Ne => !o.Equal?
    case Lt => o.Less?
    case Le => !o.Greater?
    case Gt => o.Greater?
    case Ge => !o.Less?
  }

  /** A comparison is unknown as soon as one operand is NULL. */
  function Compare(op: CmpOp, a: Value, b: Value): Kleene.Truth {
    if Order(a, b).Incomparable? then Kleene.Unknown else Kleene.OfBool(Holds(op, Order(a, b)))
  }

  function OfTruth(t: Kleene.Truth): Value {
    match t
    case True => Bool(true)
    case False => Bool(false)
    case Unknown => Null
  }

  function ToTruth(v: Value): Kleene.Truth {
    if v.Bool? then Kleene.OfBool(v.b) else Kleene.Unknown
  }

  function TruthsOf(vs: seq<Value>): (ts: seq<Kleene.Truth>)
    ensures |ts| == |vs|
    ensures forall i :: 0 <= i < |vs| ==> ts[i] == ToTruth(vs[i])
  {
    if vs == [] then [] else [ToTruth(vs[0])] + TruthsOf(vs[1..])
  }

  function ApplyBool(bop: BoolOp, ts: seq<Kleene.Truth>): Kleene.Truth {
    match bop
    case AndOp => Kleene.AndAll(ts)
    case OrOp => Kleene.OrAll(ts)
    case NotOp => Kleene.Not(Kleene.AndAll(ts))
  }

  /** The value of a temporal literal: a date stands for its midnight. */
  function LiteralTime(raw: Instant, typ: LitType): Instant {
    if typ.DateLit? then raw / DAY * DAY else raw
  }

  function DateTruncValue(u: Unit, v: Value): Value {
    if v.Time? then Time(DateTrunc(u, v.t)) else Null
  }

  /** There is no year 0: the year before 1 AD is extracted as -1. */
  function ExtractValue(f: ExtractField, v: Value): Value {
    if !v.Time? then Null
    else
      match f
      case YearOf => Int(if YearField(v.t) >= 1 then YearField(v.t) else YearField(v.t) - 1)
      case MonthNo => Int(MonthField(v.t))
      case DayNo => Int(DayField(v.t))
  }

  function CastDateValue(v: Value): Value {
    if v.Time? then Time(v.t / DAY * DAY) else Null
  }

  /** PostgreSQL's `timestamp + INTERVAL '1 <unit>'`. */
  function AddPeriodTime(u: Unit, t: Instant): Instant {
    if PeriodMonths(u) > 0 then PgAddMonths(t, PeriodMonths(u)) else t + PeriodLength(u)
  }

  function AddPeriodValue(u: Unit, v: Value): Value {
    if v.Time? then Time(AddPeriodTime(u, v.t)) else Null
  }

  function ColumnValue(env: Env, alias: string, name: string): Value {
    if alias in env && name in env[alias] then env[alias][name] else Null
  }

  function FirstColumn(tuple: seq<Value>): Value {
    if tuple == [] then Null else tuple[0]
  }

  /** `v IN (rows)` is the OR of `v = row` over all rows. */
  function InTruth(v: Value, rows: Tuples): Kleene.Truth {
    if rows == [] then Kleene.False
    else Kleene.Or(Compare(Eq, v, FirstColumn(rows[0])), InTruth(v, rows[1..]))
  }

  // ---- Rows ----

  function ColumnNames(s: Select): seq<string> {
    match s
    case Simple(_, _, targets, _, _, _) => TargetNames(targets)
    case UnionAll(_, larg, _) => ColumnNames(larg)
  }

  function TargetNames(targets: seq<Target>): seq<string> {
    if targets == [] then [] else [targets[0].name] + TargetNames(targets[1..])
  }

  function RowOf(names: seq<string>, tuple: seq<Value>): Row {
    if names == [] || tuple == [] then map[]
    else RowOf(names[1..], tuple[1..])[names[0] := tuple[0]]
  }

  function RowsOf(names: seq<string>, tuples: Tuples): seq<Row> {
    if tuples == [] then [] else [RowOf(names, tuples[0])] + RowsOf(names, tuples[1..])
  }

  function Scopes(alias: string, rows: seq<Row>): seq<Env> {
    if rows == [] then [] else [map[alias := rows[0]]] + Scopes(alias, rows[1..])
  }

  function Extend(l: Env, rs: seq<Env>): seq<Env> {
    if rs == [] then [] else [l + rs[0]] + Extend(l, rs[1..])
  }

  function Product(ls: seq<Env>, rs: seq<Env>): seq<Env> {
    if ls == [] then [] else Extend(ls[0], rs) + Product(ls[1..], rs)
  }

  /** The null-extended side of an outer join: every column of every alias reads NULL. */
  function NullScope(f: FromItem): Env {
    match f
    case Table(_, alias) => map[alias := map[]]
    case SubSelect(_, alias) => map[alias := map[]]
    case LeftJoin(larg, rarg, _) => NullScope(larg) + NullScope(rarg)
  }

  function Dedup(rows: Tuples): Tuples {
    if rows == [] then []
    else
      var rest := Dedup(rows[..|rows| - 1]);
      if rows[|rows| - 1] in rest then rest else rest + [rows[|rows| - 1]]
  }

  function Limited(limit: Option<nat>, rows: Tuples): Tuples {
    if limit.Some? && limit.value < |rows| then rows[..limit.value] else rows
  }

  // ---- The evaluator ----

  function Eval(e: Expr, db: Db, env: Env): Value
    decreases e, 0
  {
    match e
    case Col(alias, name) => ColumnValue(env, alias, name)
    case Lit(v) => v
    case TimeLit(raw, typ, _) => Time(LiteralTime(raw, typ))
    case Param(n) => if n in db.binds then db.binds[n] else Null
    case Cmp(op, l, r) => OfTruth(Compare(op, Eval(l, db, env), Eval(r, db, env)))
    case Between(x, lo, hi) =>
      OfTruth(Kleene.And(Compare(Ge, Eval(x, db, env), Eval(lo, db, env)),
                         Compare(Le, Eval(x, db, env), Eval(hi, db, env))))
    case Logic(bop, args) => OfTruth(ApplyBool(bop, TruthsOf(EvalArgs(args, db, env))))
    case NullTest(arg, isNull) => Bool(Eval(arg, db, env).Null? == isNull)
    case IsNotTrue(arg) => Bool(Eval(arg, db, env) != Bool(true))
    case Coalesce(first, second) =>
      if Eval(first, db, env).Null? then Eval(second, db, env) else Eval(first, db, env)
    case DateTruncFn(u, arg) => DateTruncValue(u, Eval(arg, db, env))
    case Extract(f, arg) => ExtractValue(f, Eval(arg, db, env))
    case CastDate(arg) => CastDateValue(Eval(arg, db, env))
    case AddPeriod(arg, u) => AddPeriodValue(u, Eval(arg, db, env))
    case InSub(test, sub) => OfTruth(InTruth(Eval(test, db, env), EvalSelect(sub, db, env)))
    case Exists(sub) => Bool(EvalSelect(sub, db, env) != [])
  }

  function EvalArgs(es: seq<Expr>, db: Db, env: Env): (vs: seq<Value>)
    ensures |vs| == |es|
    decreases es, 0
  {
    if es == [] then [] else [Eval(es[0], db, env)] + EvalArgs(es[1..], db, env)
  }

  function EvalTargets(ts: seq<Target>, db: Db, env: Env): seq<Value>
    decreases ts, 0
  {
    if ts == [] then [] else [Eval(ts[0].e, db, env)] + EvalTargets(ts[1..], db, env)
  }

  /** WHERE keeps the rows on which the condition is TRUE. */
  function Keep(cond: Option<Expr>, scopes: seq<Env>, db: Db, env: Env): seq<Env>
    decreases cond, |scopes|
  {
    if scopes == [] then []
    else
      var rest := Keep(cond, scopes[1..], db, env);
      if cond.None? || Eval(cond.value, db, env + scopes[0]) == Bool(true) then [scopes[0]] + rest
      else rest
  }

  function Project(ts: seq<Target>, scopes: seq<Env>, db: Db, env: Env): Tuples
    decreases ts, 1 + |scopes|
  {
    if scopes == [] then []
    else [EvalTargets(ts, db, env + scopes[0])] + Project(ts, scopes[1..], db, env)
  }

  /** The rows of `rs` that join with the left row `l`. */
  function Matches(quals: Expr, l: Env, rs: seq<Env>, db: Db, env: Env): seq<Env>
    decreases quals, 1 + |rs|
  {
    if rs == [] then []
    else
      var rest := Matches(quals, l, rs[1..], db, env);
      if Eval(quals, db, env + (l + rs[0])) == Bool(true) then [l + rs[0]] + rest else rest
  }

  function OuterJoin(quals: Expr, ls: seq<Env>, rs: seq<Env>, nulls: Env, db: Db, env: Env): seq<Env>
    decreases quals, 2 + |ls| + |rs|
  {
    if ls == [] then []
    else
      var matches := Matches(quals, ls[0], rs, db, env);
      (if matches == [] then [ls[0] + nulls] else matches)
      + OuterJoin(quals, ls[1..], rs, nulls, db, env)
  }

  function EvalFrom(f: FromItem, db: Db, env: Env): seq<Env>
    decreases f, 0
  {
    match f
    case Table(name, alias) => Scopes(alias, if name in db.tables then db.tables[name] else [])
    case SubSelect(query, alias) => Scopes(alias, RowsOf(ColumnNames(query), EvalSelect(query, db, env)))
    case LeftJoin(larg, rarg, quals) =>
      OuterJoin(quals, EvalFrom(larg, db, env), EvalFrom(rarg, db, env), NullScope(rarg), db, env)
  }

  function EvalTables(fs: seq<FromItem>, db: Db, env: Env): seq<Env>
    decreases fs, 0
  {
    if fs == [] then [map[]] else Product(EvalFrom(fs[0], db, env), EvalTables(fs[1..], db, env))
  }

  /** Each WITH query sees the ones before it. */
  function EvalCtes(ctes: seq<Cte>, db: Db, env: Env): Db
    decreases ctes, 0
  {
    if ctes == [] then db
    else
      var rows := RowsOf(ColumnNames(ctes[0].query), EvalSelect(ctes[0].query, db, env));
      EvalCtes(ctes[1..], db.(tables := db.tables[ctes[0].name := rows]), env)
  }

  function EvalSelect(s: Select, db: Db, env: Env): Tuples
    decreases s, 0
  {
    match s
    case Simple(ctes, distinct, targets, tables, cond, limit) =>
      var inner := EvalCtes(ctes, db, env);
      var rows := Project(targets, Keep(cond, EvalTables(tables, inner, env), inner, env), inner, env);
      Limited(limit, if distinct then Dedup(rows) else rows)
    case UnionAll(ctes, larg, rarg) =>
      var inner := EvalCtes(ctes, db, env);
      EvalSelect(larg, inner, env) + EvalSelect(rarg, inner, env)
  }

  // ---- First facts ----

  ghost predicate IsTrue(e: Expr, db: Db, env: Env) {
    Eval(e, db, env) == Bool(true)
  }

  function TruthOf(e: Expr, db: Db, env: Env): Kleene.Truth {
    ToTruth(Eval(e, db, env))
  }

  lemma {:induction false} EvalArgsAt(es: seq<Expr>, db: Db, env: Env)
    ensures forall i :: 0 <= i < |es| ==> EvalArgs(es, db, env)[i] == Eval(es[i], db, env)
  {
    if es != [] {
      EvalArgsAt(es[1..], db, env);
    }
  }

  /** The truth values of a list of expressions. */
  function Truths(es: seq<Expr>, db: Db, env: Env): (ts: seq<Kleene.Truth>)
    ensures |ts| == |es|
    ensures forall i :: 0 <= i < |es| ==> ts[i] == TruthOf(es[i], db, env)
  {
    EvalArgsAt(es, db, env);
    TruthsOf(EvalArgs(es, db, env))
  }
}
