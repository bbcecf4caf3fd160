/**
 The evaluator against the standard (ISO/IEC 9075:1992): the truth tables of section 8.12, the
 comparison rules of 8.4, duplicates and limits, and the outer join of 7.5, each stated by what it
 gives and not by how it is computed.
 */
module SqlLaws {
  import opened Options
  import opened Calendar
  import opened SqlSyntax
  import opened SqlSemantics
  import Kleene

  // ---- Truth values ----

  /** False below unknown below true. */
  function Height(t: Kleene.Truth): int {
    match t
    case False => 0
    case Unknown => 1
    case True => 2
  }

  /** AND is the lower of two truth values, OR the higher, and NOT turns the order around. */
  lemma TruthTables(a: Kleene.Truth, b: Kleene.Truth)
    ensures Height(Kleene.And(a, b)) == if Height(a) <= Height(b) then Height(a) else Height(b)
    ensures Height(Kleene.Or(a, b)) == if Height(a) <= Height(b) then Height(b) else Height(a)
    ensures Height(Kleene.Not(a)) == 2 - Height(a)
    ensures Height(a) == Height(b) ==> a == b
    ensures Kleene.OfBool(true) == Kleene.True && Kleene.OfBool(false) == Kleene.False
  {
  }

  // ---- Comparisons ----

  /** A comparison with NULL is unknown; of two comparable values each operator has the opposite of its opposite. */
  lemma ComparisonRules(a: Value, b: Value)
    ensures forall op :: Compare(op, Null, b) == Compare(op, a, Null) == Kleene.Unknown
    ensures Compare(Ne, a, b) == Kleene.Not(Compare(Eq, a, b))
    ensures Compare(Ge, a, b) == Kleene.Not(Compare(Lt, a, b))
    ensures Compare(Gt, a, b) == Kleene.Not(Compare(Le, a, b))
    ensures Compare(Le, a, b) == Kleene.Or(Compare(Lt, a, b), Compare(Eq, a, b))
  {
  }

  /** Numbers, instants and Booleans are compared as numbers, false before true. */
  lemma ComparedByValue(x: real, y: real, m: int, n: int, p: bool, q: bool)
    ensures Compare(Lt, Num(x), Num(y)).True? <==> x < y
    ensures Compare(Eq, Num(x), Num(y)).True? <==> x == y
    ensures Compare(Lt, Int(m), Num(y)).True? <==> m as real < y
    ensures Compare(Lt, Num(x), Int(n)).True? <==> x < n as real
    ensures Compare(Lt, Int(m), Int(n)).True? <==> m < n
    ensures Compare(Eq, Int(m), Int(n)).True? <==> m == n
    ensures Compare(Lt, Time(m), Time(n)).True? <==> m < n
    ensures Compare(Eq, Time(m), Time(n)).True? <==> m == n
    ensures Compare(Lt, Bool(p), Bool(q)).True? <==> !p && q
    ensures Compare(Eq, Bool(p), Bool(q)).True? <==> p == q
  {
  }

  /** Strings are compared by their first different characters, and a proper prefix comes first. */
  lemma {:induction false} StringOrder(a: string, b: string)
    ensures OrderStrings(a, b).Equal? <==> a == b
    ensures OrderStrings(a, b).Less? <==>
            (a < b || exists k :: 0 <= k < |a| && k < |b| && a[..k] == b[..k] && a[k] < b[k])
    decreases |a|
  {
    if a != [] && b != [] && a[0] == b[0] {
      StringOrder(a[1..], b[1..]);
      assert a == [a[0]] + a[1..] && b == [b[0]] + b[1..];
      SharedFirst(a, b);
    } else if a != [] && b != [] {
      assert a[..0] == b[..0];
      FirstDiffers(a, b);
    }
  }

  lemma FirstDiffers(a: string, b: string)
    requires a != [] && b != [] && a[0] != b[0]
    ensures !(a < b)
    ensures forall k :: 0 < k < |a| && k < |b| ==> a[..k] != b[..k]
  {
    forall k | 0 < k < |a| && k < |b| ensures a[..k] != b[..k] {
      assert a[..k][0] != b[..k][0];
    }
  }

  lemma SharedFirst(a: string, b: string)
    requires a != [] && b != [] && a[0] == b[0]
    ensures (exists k :: 0 <= k < |a| && k < |b| && a[..k] == b[..k] && a[k] < b[k])
       <==> exists k :: 0 <= k < |a[1..]| && k < |b[1..]| && a[1..][..k] == b[1..][..k] && a[1..][k] < b[1..][k]
    ensures a < b <==> a[1..] < b[1..]
  {
    if k :| 0 <= k < |a| && k < |b| && a[..k] == b[..k] && a[k] < b[k] {
      assert k > 0 && a[1..][..k - 1] == a[..k][1..] && b[1..][..k - 1] == b[..k][1..];
      assert a[1..][k - 1] < b[1..][k - 1];
    }
    if k :| 0 <= k < |a[1..]| && k < |b[1..]| && a[1..][..k] == b[1..][..k] && a[1..][k] < b[1..][k] {
      assert a[..k + 1] == [a[0]] + a[1..][..k] && b[..k + 1] == [b[0]] + b[1..][..k];
      assert a[k + 1] < b[k + 1];
    }
    if a < b {
      assert b[1..][..|a[1..]|] == b[..|a|][1..] == a[1..];
    }
    if a[1..] < b[1..] {
      assert b[..|a|] == [b[0]] + b[1..][..|a[1..]|];
    }
  }

  /** Extracted fields: there is no year 0, the years before 1 AD count from -1, and the others are the calendar's. */
  lemma ExtractedFields(t: Instant)
    ensures ExtractValue(YearOf, Time(t)) != Int(0)
    ensures YearField(t) == 0 ==> ExtractValue(YearOf, Time(t)) == Int(-1)
    ensures YearField(t) >= 1 ==> ExtractValue(YearOf, Time(t)) == Int(YearField(t))
    ensures YearField(t) <= 0 ==> ExtractValue(YearOf, Time(t)).i + 1 == YearField(t)
    ensures ExtractValue(MonthNo, Time(t)) == Int(MonthField(t)) && ExtractValue(DayNo, Time(t)) == Int(DayField(t))
    ensures forall f :: ExtractValue(f, Null) == Null
  {
    hide YearField, MonthField, DayField;
  }

  // ---- Rows ----

  /** DISTINCT leaves every row, once. */
  lemma {:induction false} DistinctRows(rows: Tuples)
    ensures forall r :: r in Dedup(rows) <==> r in rows
    ensures forall i, j :: 0 <= i < j < |Dedup(rows)| ==> Dedup(rows)[i] != Dedup(rows)[j]
  {
    if rows != [] {
      var front, last := rows[..|rows| - 1], rows[|rows| - 1];
      DistinctRows(front);
      assert rows == front + [last];
    }
  }

  /** LIMIT leaves the first rows, as many as there are up to the limit. */
  lemma LimitedRows(limit: Option<nat>, rows: Tuples)
    ensures Limited(limit, rows) <= rows
    ensures |Limited(limit, rows)| == if limit.Some? && limit.value < |rows| then limit.value else |rows|
  {
  }

  /** WHERE leaves exactly the rows on which it is TRUE; without one all rows stay. */
  lemma {:induction false} KeptRows(cond: Option<Expr>, scopes: seq<Env>, db: Db, env: Env)
    ensures cond.None? ==> Keep(cond, scopes, db, env) == scopes
    ensures cond.Some? ==>
              forall s :: multiset(Keep(cond, scopes, db, env))[s]
                          == if IsTrue(cond.value, db, env + s) then multiset(scopes)[s] else 0
    decreases |scopes|
  {
    hide Eval;
    if scopes != [] {
      KeptRows(cond, scopes[1..], db, env);
      assert scopes == [scopes[0]] + scopes[1..];
    }
  }

  /** The matches of a left row are the joined rows on which ON is TRUE. */
  lemma {:induction false} MatchedRows(quals: Expr, l: Env, rs: seq<Env>, db: Db, env: Env)
    ensures forall m :: m in Matches(quals, l, rs, db, env)
              <==> exists r :: r in rs && m == l + r && IsTrue(quals, db, env + m)
    decreases |rs|
  {
    hide Eval;
    if rs != [] {
      MatchedRows(quals, l, rs[1..], db, env);
      assert rs == [rs[0]] + rs[1..];
      forall m ensures m in Matches(quals, l, rs, db, env)
                 <==> (m == l + rs[0] && IsTrue(quals, db, env + m)) || m in Matches(quals, l, rs[1..], db, env) {
      }
    }
  }

  /**
   A LEFT JOIN has the matched pairs, and each left row without a match once more, next to NULLs.
   */
  lemma {:induction false} OuterJoinRows(quals: Expr, ls: seq<Env>, rs: seq<Env>, nulls: Env, db: Db, env: Env)
    ensures forall m :: m in OuterJoin(quals, ls, rs, nulls, db, env)
              <==> exists l :: l in ls && JoinsTo(l, m, quals, rs, nulls, db, env)
    decreases |ls|
  {
    hide Eval, Matches;
    if ls != [] {
      var rest := OuterJoin(quals, ls[1..], rs, nulls, db, env);
      OuterJoinRows(quals, ls[1..], rs, nulls, db, env);
      assert ls == [ls[0]] + ls[1..];
      forall m ensures m in OuterJoin(quals, ls, rs, nulls, db, env)
                 <==> JoinsTo(ls[0], m, quals, rs, nulls, db, env) || m in rest {
      }
    }
  }

  predicate JoinsTo(l: Env, m: Env, quals: Expr, rs: seq<Env>, nulls: Env, db: Db, env: Env) {
    var matches := Matches(quals, l, rs, db, env);
    m in matches || (matches == [] && m == l + nulls)
  }

  /** FROM has one row for each pair of rows of its tables. */
  lemma {:induction false} ProductRows(ls: seq<Env>, rs: seq<Env>)
    ensures |Product(ls, rs)| == |ls| * |rs|
    ensures forall m :: m in Product(ls, rs) <==> exists l, r :: l in ls && r in rs && m == l + r
  {
    if ls != [] {
      ProductRows(ls[1..], rs);
      ExtendedRows(ls[0], rs);
      assert ls == [ls[0]] + ls[1..];
      assert |ls| * |rs| == |rs| + |ls[1..]| * |rs|;
    }
  }

  lemma {:induction false} ExtendedRows(l: Env, rs: seq<Env>)
    ensures |Extend(l, rs)| == |rs| && forall m :: m in Extend(l, rs) <==> exists r :: r in rs && m == l + r
  {
    if rs != [] {
      ExtendedRows(l, rs[1..]);
      assert rs == [rs[0]] + rs[1..];
    }
  }
}
