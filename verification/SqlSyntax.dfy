/**
 The part of PostgreSQL's resolved SELECT syntax tree the query rewriter looks at. Column
 references are two-part names, and literals carry the type the parser gave them.
 */
module SqlSyntax {
  import opened Options
  import opened Calendar

  datatype Value =
    | Null
    | Bool(b: bool)
    | Int(i: int)
    | Num(r: real)
    | Str(s: string)
    | Time(t: Instant)

  datatype CmpOp = Eq | Ne | Lt | Le | Gt | Ge

  datatype BoolOp = AndOp | OrOp | NotOp

  /** The two kinds of temporal literal `parseTemporalConst` tells apart. */
  datatype LitType = DateLit | TimestampLit

  datatype ExtractField = YearOf | MonthNo | DayNo

  /** A temporal literal keeps its text and the instant `parseTimeString` reads in it. */
  datatype Expr =
    | Col(alias: string, name: string)
    | Lit(v: Value)
    | TimeLit(raw: Instant, typ: LitType, text: string)
    | Param(n: int)
    | Cmp(op: CmpOp, l: Expr, r: Expr)
    | Between(e: Expr, lo: Expr, hi: Expr)
    | Logic(bop: BoolOp, args: seq<Expr>)
    | NullTest(arg: Expr, isNull: bool)
    | IsNotTrue(arg: Expr)
    | Coalesce(first: Expr, second: Expr)
    | DateTruncFn(unit: Unit, arg: Expr)
    | Extract(field: ExtractField, arg: Expr)
    | CastDate(arg: Expr)
    | AddPeriod(arg: Expr, period: Unit)
    | InSub(test: Expr, sub: Select)
    | Exists(sub: Select)

  datatype FromItem =
    | Table(name: string, alias: string)
    | SubSelect(query: Select, alias: string)
    | LeftJoin(larg: FromItem, rarg: FromItem, quals: Expr)

  datatype Cte = Cte(name: string, query: Select)

  datatype Target = Target(name: string, e: Expr)

  datatype Select =
    | Simple(ctes: seq<Cte>, distinct: bool, targets: seq<Target>, tables: seq<FromItem>,
             cond: Option<Expr>, limit: Option<nat>)
    | UnionAll(ctes: seq<Cte>, larg: Select, rarg: Select)

  // ---- Node builders of the rewriter ----

  /** rewriter.go, andExpr. */
  function AndExpr(a: Expr, b: Expr): Expr {
    Logic(AndOp, [a, b])
  }

  /** rewriter.go, notExpr. */
  function NotExpr(e: Expr): Expr {
    Logic(NotOp, [e])
  }

  function Present(args: seq<Option<Expr>>): seq<Expr> {
    if args == [] then []
    else if args[0].Some? then [args[0].value] + Present(args[1..])
    else Present(args[1..])
  }

  /** rewriter.go, combineAnd and orExpr: nothing, the only argument, or one n-ary node. */
  function Combine(bop: BoolOp, args: seq<Expr>): Option<Expr> {
    if args == [] then None else if |args| == 1 then Some(args[0]) else Some(Logic(bop, args))
  }
}
