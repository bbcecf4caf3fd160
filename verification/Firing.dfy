/**
 When the structural suggestions fire, written out as conditions on the query a reader can check,
 and what they leave behind. Refusing more queries, or fewer, would break one of the equivalences.
 */
module Firing {
  import opened Options
  import opened SqlSyntax
  import opened Text
  import opened Frame
  import NormalForm
  import OrUnion
  import InExists
  import AntiJoin

  // ---- IN to EXISTS ----

  /** `column IN (SELECT column FROM one base table [WHERE ...])`, without WITH, DISTINCT or LIMIT. */
  predicate InShape(e: Expr) {
    && e.InSub? && e.test.Col? && e.sub.Simple? && |e.sub.ctes| == 0 && !e.sub.distinct && e.sub.limit == None
    && |e.sub.targets| == 1 && e.sub.targets[0].e.Col? && |e.sub.tables| == 1 && e.sub.tables[0].Table?
  }

  /** Such a test stands somewhere under the connectives. */
  predicate HoldsIn(e: Expr)
    decreases e
  {
    InShape(e) || (e.Logic? && exists i :: 0 <= i < |e.args| && HoldsIn(e.args[i]))
  }

  lemma {:induction false} InFires(e: Expr)
    ensures InExists.RewriteIn(e).1 != [] <==> HoldsIn(e)
    ensures !HoldsIn(InExists.RewriteIn(e).0)
    decreases e, 1
  {
    if e.InSub? {
    } else if InExists.IsNotInSite(e) {
      assert HoldsIn(e.args[0]);
      NotInLeavesNone(e.args[0].test, e.args[0].sub);
    } else if e.Logic? {
      InArgsFire(e.args);
    }
  }

  /** A test that is not directly under a NOT, somewhere under the connectives. */
  predicate HoldsPlainIn(e: Expr)
    decreases e
  {
    || InShape(e)
    || (e.Logic? && !HoldsNotInHere(e) && exists i :: 0 <= i < |e.args| && HoldsPlainIn(e.args[i]))
  }

  predicate HoldsNotInHere(e: Expr) {
    e.Logic? && e.bop.NotOp? && |e.args| == 1 && InShape(e.args[0])
  }

  predicate HoldsNotIn(e: Expr)
    decreases e
  {
    HoldsNotInHere(e) || (e.Logic? && exists i :: 0 <= i < |e.args| && HoldsNotIn(e.args[i]))
  }

  /** The kinds recorded are those of the tests: IN, and NOT IN where the NOT is the test's own. */
  lemma {:induction false} KindsAreRight(e: Expr)
    ensures InExists.InKind in InExists.RewriteIn(e).1 <==> HoldsPlainIn(e)
    ensures InExists.NotInKind in InExists.RewriteIn(e).1 <==> HoldsNotIn(e)
    decreases e, 1
  {
    if e.Logic? && !InExists.IsNotInSite(e) {
      ArgsKinds(e.args);
    }
  }

  lemma {:induction false} ArgsKinds(es: seq<Expr>)
    ensures InExists.InKind in InExists.RewriteInArgs(es).1 <==> exists i :: 0 <= i < |es| && HoldsPlainIn(es[i])
    ensures InExists.NotInKind in InExists.RewriteInArgs(es).1 <==> exists i :: 0 <= i < |es| && HoldsNotIn(es[i])
    decreases es, 0
  {
    hide HoldsPlainIn, HoldsNotIn, InExists.RewriteIn;
    if es != [] {
      KindsAreRight(es[0]);
      ArgsKinds(es[1..]);
      if i :| 0 <= i < |es[1..]| && HoldsPlainIn(es[1..][i]) {
        assert HoldsPlainIn(es[i + 1]);
      }
      if i :| 0 <= i < |es[1..]| && HoldsNotIn(es[1..][i]) {
        assert HoldsNotIn(es[i + 1]);
      }
    }
  }

  lemma NotInLeavesNone(test: Expr, sub: Select)
    requires InExists.Eligible(test, sub)
    ensures !HoldsIn(InExists.NotInToExists(test, sub))
  {
    hide InExists.Correlated;
    var not := NotExpr(Exists(InExists.Correlated(sub, InExists.NotInMatch(test, sub))));
    assert !HoldsIn(not.args[0]) && !HoldsIn(not);
    assert !HoldsIn(NullTest(test, false));
  }

  lemma {:induction false} InArgsFire(es: seq<Expr>)
    ensures InExists.RewriteInArgs(es).1 != [] <==> exists i :: 0 <= i < |es| && HoldsIn(es[i])
    ensures forall i :: 0 <= i < |es| ==> !HoldsIn(InExists.RewriteInArgs(es).0[i])
    decreases es, 0
  {
    hide HoldsIn, InExists.RewriteIn;
    if es != [] {
      InFires(es[0]);
      InArgsFire(es[1..]);
      if i :| 0 <= i < |es[1..]| && HoldsIn(es[1..][i]) {
        assert HoldsIn(es[i + 1]);
      }
    }
  }

  /** The suggestion is made for every query over one base table that holds such a test, and removes them all. */
  lemma InSuggestionFires(s: Select)
    ensures InExists.SuggestInToExists(s).Some? <==>
            && s.Simple? && |s.ctes| == 0 && |s.tables| == 1 && s.tables[0].Table?
            && s.cond.Some? && HoldsIn(s.cond.value)
    ensures InExists.SuggestInToExists(s).Some? ==>
              var t := InExists.SuggestInToExists(s).value;
              t.Simple? && t.cond.Some? && !HoldsIn(t.cond.value) && s == t.(cond := s.cond)
  {
    hide InExists.RewriteIn, HoldsIn;
    if s.Simple? && s.cond.Some? { InFires(s.cond.value); }
  }

  // ---- OR to UNION ALL ----

  /** The column of `column = constant`, in either order. */
  predicate EquatesColumn(e: Expr, col: Expr) {
    && e.Cmp? && e.op.Eq? && col.Col?
    && ((e.l == col && (e.r.Lit? || e.r.TimeLit?)) || (e.r == col && (e.l.Lit? || e.l.TimeLit?)))
  }

  lemma EquatesOne(e: Expr)
    ensures forall col :: EquatesColumn(e, col) <==> OrUnion.EqualityColumn(e) == Some(col)
  {
  }

  /** The OR to be split: the whole condition, or the only OR among the arguments of an AND. */
  predicate TheOr(cond: Expr, or: Expr) {
    && or.Logic? && or.bop.OrOp?
    && (cond == or
        || (cond.Logic? && cond.bop.AndOp?
            && exists i :: 0 <= i < |cond.args| && cond.args[i] == or
                 && forall j :: 0 <= j < |cond.args| && j != i ==> !(cond.args[j].Logic? && cond.args[j].bop.OrOp?)))
  }

  lemma {:induction false} OrsOf(es: seq<Expr>)
    ensures forall x :: x in OrUnion.Ors(es) <==> x in es && OrUnion.IsOr(x)
    ensures OrUnion.Ors(es) == [] <==> forall j :: 0 <= j < |es| ==> !OrUnion.IsOr(es[j])
  {
    if es != [] {
      OrsOf(es[1..]);
      assert forall j :: 0 < j < |es| ==> es[j] == es[1..][j - 1];
    }
  }

  lemma {:induction false} OnlyOr(es: seq<Expr>, i: nat)
    requires i < |es| && OrUnion.IsOr(es[i]) && forall j :: 0 <= j < |es| && j != i ==> !OrUnion.IsOr(es[j])
    ensures OrUnion.Ors(es) == [es[i]]
    decreases i
  {
    hide OrUnion.IsOr;
    assert forall j :: 0 <= j < |es[1..]| ==> es[1..][j] == es[j + 1];
    if i == 0 {
      OrsOf(es[1..]);
    } else {
      OnlyOr(es[1..], i - 1);
    }
  }

  lemma {:induction false} NoSecondOr(es: seq<Expr>, i: nat, j: nat)
    requires i < |es| && j < |es| && OrUnion.IsOr(es[i]) && OrUnion.IsOr(es[j]) && |OrUnion.Ors(es)| == 1
    ensures i == j
    decreases i
  {
    hide OrUnion.IsOr;
    OrsOf(es[1..]);
    assert forall k :: 0 < k < |es| ==> es[k] == es[1..][k - 1];
    if !OrUnion.IsOr(es[0]) {
      NoSecondOr(es[1..], i - 1, j - 1);
    }
  }

  lemma FactorsTheOr(cond: Expr)
    ensures OrUnion.FactorOr(cond).1 != [] ==>
              exists or :: TheOr(cond, or) && OrUnion.FactorOr(cond).1 == OrUnion.FlattenOr(or)
    ensures forall or :: TheOr(cond, or) ==> OrUnion.FactorOr(cond).1 == OrUnion.FlattenOr(or)
  {
    hide OrUnion.FlattenOr;
    if OrUnion.IsOr(cond) {
      assert TheOr(cond, cond);
    } else if cond.Logic? && cond.bop.AndOp? {
      var ors := OrUnion.Ors(cond.args);
      OrsOf(cond.args);
      forall or | TheOr(cond, or) ensures OrUnion.FactorOr(cond).1 == OrUnion.FlattenOr(or) {
        var i :| 0 <= i < |cond.args| && cond.args[i] == or
          && forall j :: 0 <= j < |cond.args| && j != i ==> !(cond.args[j].Logic? && cond.args[j].bop.OrOp?);
        OnlyOr(cond.args, i);
      }
      if |ors| == 1 {
        assert ors[0] in ors;
        var i :| 0 <= i < |cond.args| && cond.args[i] == ors[0];
        forall j | 0 <= j < |cond.args| && OrUnion.IsOr(cond.args[j]) ensures j == i {
          NoSecondOr(cond.args, i, j);
        }
        assert TheOr(cond, ors[0]);
      }
    }
  }

  /** Two to four leaves, each equating a column with a constant, and not all the same column. */
  predicate SplittableOr(or: Expr) {
    var leaves := OrUnion.FlattenOr(or);
    && 2 <= |leaves| <= 4
    && (forall i :: 0 <= i < |leaves| ==> OrUnion.EqualityColumn(leaves[i]).Some?)
    && exists i, j :: 0 <= i < j < |leaves| && OrUnion.EqualityColumn(leaves[i]) != OrUnion.EqualityColumn(leaves[j])
  }

  lemma SameColumnIff(leaves: seq<Expr>)
    requires leaves != [] && forall i :: 0 <= i < |leaves| ==> OrUnion.EqualityColumn(leaves[i]).Some?
    ensures OrUnion.SameColumn(leaves) <==>
            !exists i, j ::
              0 <= i < j < |leaves| && OrUnion.EqualityColumn(leaves[i]) != OrUnion.EqualityColumn(leaves[j])
  {
    hide OrUnion.EqualityColumn;
    if !OrUnion.SameColumn(leaves) {
      var i :| 0 <= i < |leaves| && OrUnion.EqualityColumn(leaves[i]) != OrUnion.EqualityColumn(leaves[0]);
      assert 0 < i;
    }
  }

  /** The suggestion is made for every plain query over one base table with such an OR, and for no other. */
  lemma OrSuggestionFires(s: Select)
    ensures OrUnion.OrToUnion(s).Some? <==>
            && s.Simple? && |s.ctes| == 0 && !s.distinct && s.limit == None && |s.tables| == 1 && s.tables[0].Table?
            && s.cond.Some? && exists or :: TheOr(s.cond.value, or) && SplittableOr(or)
  {
    hide OrUnion.FlattenOr, OrUnion.FactorOr, OrUnion.EqualityColumn, OrUnion.UnionOf, TheOr;
    if s.Simple? && s.cond.Some? {
      FactorsTheOr(s.cond.value);
      var leaves := OrUnion.FactorOr(s.cond.value).1;
      if OrUnion.AllSimpleEqualities(leaves) { SameColumnIff(leaves); }
    }
  }

  /** Leaves are what is left of an OR when no leaf is one. */
  lemma {:induction false} LeavesAreNoOrs(e: Expr)
    ensures forall x :: x in OrUnion.FlattenOr(e) ==> !OrUnion.IsOr(x) && NormalForm.PartOf(x, e)
    decreases e, 1
  {
    hide NormalForm.PartOf;
    if OrUnion.IsOr(e) {
      AllLeavesAreNoOrs(e.args);
      forall x | x in OrUnion.FlattenOr(e) ensures NormalForm.PartOf(x, e) {
        var i :| 0 <= i < |e.args| && NormalForm.PartOf(x, e.args[i]);
        PartOfArg(x, e, i);
      }
    } else {
      PartOfItself(e);
    }
  }

  lemma PartOfArg(x: Expr, e: Expr, i: nat)
    requires e.Logic? && i < |e.args| && NormalForm.PartOf(x, e.args[i])
    ensures NormalForm.PartOf(x, e)
  {
  }

  lemma PartOfItself(e: Expr)
    ensures NormalForm.PartOf(e, e)
  {
  }

  lemma {:induction false} AllLeavesAreNoOrs(es: seq<Expr>)
    ensures forall x :: x in OrUnion.FlattenAll(es) ==>
              !OrUnion.IsOr(x) && exists i :: 0 <= i < |es| && NormalForm.PartOf(x, es[i])
    decreases es, 0
  {
    hide NormalForm.PartOf, OrUnion.FlattenOr;
    if es != [] {
      LeavesAreNoOrs(es[0]);
      AllLeavesAreNoOrs(es[1..]);
      forall x | x in OrUnion.FlattenAll(es[1..]) ensures exists i :: 0 <= i < |es| && NormalForm.PartOf(x, es[i]) {
        var i :| 0 <= i < |es[1..]| && NormalForm.PartOf(x, es[1..][i]);
        assert NormalForm.PartOf(x, es[i + 1]);
      }
    }
  }

  // ---- The anti-join ----

  /** x is reached from e through ANDs, and is none itself. */
  predicate AndPart(x: Expr, e: Expr)
    decreases e
  {
    if e.Logic? && e.bop.AndOp? then exists i :: 0 <= i < |e.args| && AndPart(x, e.args[i]) else x == e
  }

  /** What stands under the casts. */
  function Uncast(e: Expr): Expr {
    if e.CastDate? then Uncast(e.arg) else e
  }

  /** A comparison of columns, constants and parameters, under any casts. */
  predicate PlainComparison(e: Expr) {
    && e.Cmp?
    && (Uncast(e.l).Col? || Uncast(e.l).Lit? || Uncast(e.l).TimeLit? || Uncast(e.l).Param?)
    && (Uncast(e.r).Col? || Uncast(e.r).Lit? || Uncast(e.r).TimeLit? || Uncast(e.r).Param?)
  }

  /** A column of the alias, names compared without regard to case. */
  predicate ColumnOf(e: Expr, alias: string, name: string) {
    e.Col? && Lower(e.alias) == Lower(alias) && Lower(e.name) == Lower(name)
  }

  /** Some equality of the ON clause has the column on one of its sides. */
  ghost predicate IsKey(quals: Expr, alias: string, name: string) {
    exists x: Expr :: AndPart(x, quals) && EquatesKey(x, alias, name)
  }

  predicate EquatesKey(x: Expr, alias: string, name: string) {
    x.Cmp? && x.op.Eq? && (ColumnOf(Uncast(x.l), alias, name) || ColumnOf(Uncast(x.r), alias, name))
  }

  /** `<alias>.<key> IS NULL`. */
  ghost predicate IsKeyTest(t: Expr, quals: Expr, alias: string) {
    && t.NullTest? && t.isNull && Uncast(t.arg).Col? && Lower(Uncast(t.arg).alias) == Lower(alias)
    && IsKey(quals, alias, Uncast(t.arg).name)
  }

  lemma {:induction false} UncastIs(e: Expr)
    ensures AntiJoin.ColumnUnder(e) == if Uncast(e).Col? then Some(Uncast(e)) else None
    ensures AntiJoin.OperandSimple(e) <==>
            Uncast(e).Col? || Uncast(e).Lit? || Uncast(e).TimeLit? || Uncast(e).Param?
    decreases e
  {
    if e.CastDate? { UncastIs(e.arg); }
  }

  lemma {:induction false} SplitAndParts(e: Expr)
    ensures forall x :: x in AntiJoin.SplitAnd(e) <==> AndPart(x, e)
    decreases e, 1
  {
    hide AndPart;
    if e.Logic? && e.bop.AndOp? {
      SplitAllParts(e.args);
      forall x ensures AndPart(x, e) <==> exists i :: 0 <= i < |e.args| && AndPart(x, e.args[i]) {
        UnfoldAndPart(x, e);
      }
    } else {
      forall x ensures AndPart(x, e) <==> x == e {
        UnfoldAndPart(x, e);
      }
    }
  }

  lemma UnfoldAndPart(x: Expr, e: Expr)
    ensures AndPart(x, e) <==>
            if e.Logic? && e.bop.AndOp? then exists i :: 0 <= i < |e.args| && AndPart(x, e.args[i]) else x == e
  {
  }

  lemma {:induction false} SplitAllParts(es: seq<Expr>)
    ensures forall x :: x in AntiJoin.SplitAll(es) <==> exists i :: 0 <= i < |es| && AndPart(x, es[i])
    decreases es, 0
  {
    hide AndPart, AntiJoin.SplitAnd;
    if es != [] {
      SplitAndParts(es[0]);
      SplitAllParts(es[1..]);
      forall x ensures x in AntiJoin.SplitAll(es) <==> exists i :: 0 <= i < |es| && AndPart(x, es[i]) {
        if i :| 0 <= i < |es[1..]| && AndPart(x, es[1..][i]) {
          assert AndPart(x, es[i + 1]);
        }
      }
    }
  }

  lemma {:induction false} OnSafeIff(e: Expr)
    ensures AntiJoin.OnSafe(e) <==> forall x :: AndPart(x, e) ==> PlainComparison(x)
    decreases e, 1
  {
    hide PlainComparison;
    if e.Logic? {
      LogicIsNoComparison(e);
      AllOnSafeIff(e.args);
      if e.bop.AndOp? {
        forall x ensures AndPart(x, e) <==> exists i :: 0 <= i < |e.args| && AndPart(x, e.args[i]) {
          UnfoldAndPart(x, e);
        }
      } else {
        assert AndPart(e, e);
      }
    } else {
      assert AndPart(e, e);
      ComparisonIff(e);
    }
  }

  lemma LogicIsNoComparison(e: Expr)
    requires e.Logic?
    ensures !PlainComparison(e)
  {
  }

  lemma ComparisonIff(e: Expr)
    requires !e.Logic?
    ensures AntiJoin.OnSafe(e) <==> PlainComparison(e)
  {
    if e.Cmp? {
      UncastIs(e.l);
      UncastIs(e.r);
    }
  }

  lemma {:induction false} AllOnSafeIff(es: seq<Expr>)
    ensures AntiJoin.AllOnSafe(es) <==>
            forall i, x :: 0 <= i < |es| && AndPart(x, es[i]) ==> PlainComparison(x)
    decreases es, 0
  {
    hide AndPart, PlainComparison, AntiJoin.OnSafe;
    if es != [] {
      OnSafeIff(es[0]);
      AllOnSafeIff(es[1..]);
      assert forall i :: 0 < i < |es| ==> es[i] == es[1..][i - 1];
    }
  }

  lemma KeyOfEquality(e: Expr, alias: string, name: string)
    requires !e.Logic?
    ensures Lower(name) in AntiJoin.KeyColumns(e, alias) <==> EquatesKey(e, alias, name)
  {
    if e.Cmp? {
      UncastIs(e.l);
      UncastIs(e.r);
    }
  }

  /** The collected keys are the lower-cased columns on either side of an equality. */
  lemma {:induction false} KeysIff(e: Expr, alias: string, name: string)
    requires AntiJoin.OnSafe(e)
    ensures Lower(name) in AntiJoin.KeyColumns(e, alias) <==> IsKey(e, alias, name)
    decreases e, 1
  {
    hide EquatesKey;
    if e.Logic? {
      AllKeysIff(e.args, alias, name);
      forall x ensures AndPart(x, e) <==> exists i :: 0 <= i < |e.args| && AndPart(x, e.args[i]) {
        UnfoldAndPart(x, e);
      }
    } else {
      KeyOfEquality(e, alias, name);
      assert AndPart(e, e);
    }
  }

  lemma {:induction false} AllKeysIff(es: seq<Expr>, alias: string, name: string)
    requires AntiJoin.AllOnSafe(es)
    ensures Lower(name) in AntiJoin.AllKeyColumns(es, alias) <==>
            exists i, x :: 0 <= i < |es| && AndPart(x, es[i]) && EquatesKey(x, alias, name)
    decreases es, 0
  {
    hide AndPart, EquatesKey, AntiJoin.KeyColumns, AntiJoin.OnSafe;
    if es != [] {
      KeysIff(es[0], alias, name);
      AllKeysIff(es[1..], alias, name);
      if i, x :| 0 <= i < |es[1..]| && AndPart(x, es[1..][i]) && EquatesKey(x, alias, name) {
        assert AndPart(x, es[i + 1]);
      }
      assert forall i :: 0 < i < |es| ==> es[i] == es[1..][i - 1];
    }
  }

  lemma PeeledIff(t: Expr, quals: Expr, alias: string)
    requires AntiJoin.OnSafe(quals)
    ensures AntiJoin.IsPeeled(t, alias, AntiJoin.KeyColumns(quals, alias)) <==> IsKeyTest(t, quals, alias)
  {
    hide AntiJoin.KeyColumns, AntiJoin.OnSafe, IsKey;
    if t.NullTest? {
      UncastIs(t.arg);
      if Uncast(t.arg).Col? {
        KeysIff(quals, alias, Uncast(t.arg).name);
      }
    }
  }

  lemma {:induction false} PeeledMembers(es: seq<Expr>, alias: string, keys: set<string>)
    ensures forall x :: x in AntiJoin.Peeled(es, alias, keys) <==> x in es && AntiJoin.IsPeeled(x, alias, keys)
    ensures forall x :: x in AntiJoin.KeptConjuncts(es, alias, keys) <==> x in es && !AntiJoin.IsPeeled(x, alias, keys)
  {
    hide AntiJoin.IsPeeled;
    if es != [] {
      PeeledMembers(es[1..], alias, keys);
    }
  }

  lemma {:induction false} AllAvoidIff(es: seq<Expr>, alias: string)
    ensures AllAvoid(es, alias) <==> forall i :: 0 <= i < |es| ==> Avoids(es[i], alias)
  {
    hide Avoids;
    if es != [] {
      AllAvoidIff(es[1..], alias);
      assert forall i :: 0 < i < |es| ==> es[i] == es[1..][i - 1];
      assert forall i :: 0 <= i < |es[1..]| ==> es[1..][i] == es[i + 1];
    }
  }

  /** A LEFT JOIN of two base tables under different aliases, in a query of its own. */
  predicate OneLeftJoin(s: Select) {
    && s.Simple? && |s.ctes| == 0 && s.cond.Some? && |s.tables| == 1
    && s.tables[0].LeftJoin? && s.tables[0].larg.Table? && s.tables[0].rarg.Table?
    && |s.tables[0].larg.alias| > 0 && |s.tables[0].rarg.alias| > 0
    && Lower(s.tables[0].larg.alias) != Lower(s.tables[0].rarg.alias)
  }

  /**
   The suggestion is made exactly for such a join with plain comparisons in ON, some test of a key of
   the right table among the conjuncts of WHERE, and no other mention of the right alias.
   */
  lemma AntiJoinFires(s: Select)
    ensures AntiJoin.AntiJoinToNotExists(s).Some? <==>
            && OneLeftJoin(s)
            && var quals, alias := s.tables[0].quals, s.tables[0].rarg.alias;
               && (forall x :: AndPart(x, quals) ==> PlainComparison(x))
               && (exists t :: AndPart(t, s.cond.value) && IsKeyTest(t, quals, alias))
               && (forall c :: AndPart(c, s.cond.value) && !IsKeyTest(c, quals, alias) ==> AliasNotIn(c, alias))
               && forall i :: 0 <= i < |s.targets| ==> AliasNotIn(s.targets[i].e, alias)
  {
    hide AntiJoin.OnSafe, AntiJoin.KeyColumns, AntiJoin.SplitAnd, AntiJoin.IsPeeled, AntiJoin.Peeled, IsKeyTest,
         AntiJoin.KeptConjuncts, AllAvoid, TargetsAvoid, Avoids, PlainComparison, AndPart, AntiJoin.NotExists,
         AliasNotIn;
    ShapeIff(s);
    if OneLeftJoin(s) {
      var quals, alias := s.tables[0].quals, s.tables[0].rarg.alias;
      OnSafeIff(quals);
      if AntiJoin.OnSafe(quals) {
        TestsIff(s.cond.value, quals, alias);
        TargetsIff(s.targets, alias);
        var keys := AntiJoin.KeyColumns(quals, alias);
        CombinesToSome(AntiJoin.KeptConjuncts(AntiJoin.SplitAnd(s.cond.value), alias, keys));
      }
    }
  }

  lemma CombinesToSome(kept: seq<Expr>)
    ensures forall x :: kept + [x] != []
  {
  }

  lemma ShapeIff(s: Select)
    ensures AntiJoin.AntiJoinShape(s) <==> OneLeftJoin(s)
  {
  }

  lemma TestsIff(cond: Expr, quals: Expr, alias: string)
    requires AntiJoin.OnSafe(quals)
    ensures var keys, conjuncts := AntiJoin.KeyColumns(quals, alias), AntiJoin.SplitAnd(cond);
            && (keys != {} && AntiJoin.Peeled(conjuncts, alias, keys) != []
                <==> exists t :: AndPart(t, cond) && IsKeyTest(t, quals, alias))
            && (AllAvoid(AntiJoin.KeptConjuncts(conjuncts, alias, keys), alias)
                <==> forall c :: AndPart(c, cond) && !IsKeyTest(c, quals, alias) ==> AliasNotIn(c, alias))
  {
    hide AntiJoin.OnSafe, AntiJoin.KeyColumns, AntiJoin.SplitAnd, AntiJoin.IsPeeled, AntiJoin.Peeled, IsKeyTest,
         AntiJoin.KeptConjuncts, AllAvoid, Avoids, AndPart, AliasNotIn;
    var keys, conjuncts := AntiJoin.KeyColumns(quals, alias), AntiJoin.SplitAnd(cond);
    var peeled, kept := AntiJoin.Peeled(conjuncts, alias, keys), AntiJoin.KeptConjuncts(conjuncts, alias, keys);
    SplitAndParts(cond);
    PeeledMembers(conjuncts, alias, keys);
    AllAvoidIff(kept, alias);
    forall t ensures AntiJoin.IsPeeled(t, alias, keys) <==> IsKeyTest(t, quals, alias) {
      PeeledIff(t, quals, alias);
    }
    forall c ensures Avoids(c, alias) <==> AliasNotIn(c, alias) {
      AvoidsIff(c, alias);
    }
    if peeled != [] {
      assert peeled[0] in peeled;
      PeeledHasKey(peeled[0], alias, keys);
    }
  }

  lemma PeeledHasKey(t: Expr, alias: string, keys: set<string>)
    requires AntiJoin.IsPeeled(t, alias, keys)
    ensures keys != {}
  {
  }

  lemma {:induction false} TargetsIff(ts: seq<Target>, alias: string)
    ensures TargetsAvoid(ts, alias) <==> forall i :: 0 <= i < |ts| ==> AliasNotIn(ts[i].e, alias)
  {
    hide Avoids, AliasNotIn;
    if ts != [] {
      AvoidsIff(ts[0].e, alias);
      TargetsIff(ts[1..], alias);
      assert forall i :: 0 < i < |ts| ==> ts[i] == ts[1..][i - 1];
    }
  }

  // ---- Mentioning an alias ----

  /** The aliases of all columns in an expression, those in its subqueries included. */
  function Aliases(e: Expr): set<string>
    decreases e, 0
  {
    match e
    case Col(alias, _) => {alias}
    case Lit(_) => {}
    case TimeLit(_, _, _) => {}
    case Param(_) => {}
    case Cmp(_, l, r) => Aliases(l) + Aliases(r)
    case Between(x, lo, hi) => Aliases(x) + Aliases(lo) + Aliases(hi)
    case Logic(_, args) => AliasesOfAll(args)
    case NullTest(arg, _) => Aliases(arg)
    case IsNotTrue(arg) => Aliases(arg)
    case Coalesce(first, second) => Aliases(first) + Aliases(second)
    case DateTruncFn(_, arg) => Aliases(arg)
    case Extract(_, arg) => Aliases(arg)
    case CastDate(arg) => Aliases(arg)
    case AddPeriod(arg, _) => Aliases(arg)
    case InSub(test, sub) => Aliases(test) + AliasesOfSelect(sub)
    case Exists(sub) => AliasesOfSelect(sub)
  }

  function AliasesOfAll(es: seq<Expr>): set<string>
    decreases es, 0
  {
    if es == [] then {} else Aliases(es[0]) + AliasesOfAll(es[1..])
  }

  function AliasesOfTargets(ts: seq<Target>): set<string>
    decreases ts, 0
  {
    if ts == [] then {} else Aliases(ts[0].e) + AliasesOfTargets(ts[1..])
  }

  function AliasesOfItem(f: FromItem): set<string>
    decreases f, 0
  {
    match f
    case Table(_, _) => {}
    case SubSelect(query, _) => AliasesOfSelect(query)
    case LeftJoin(larg, rarg, quals) => AliasesOfItem(larg) + AliasesOfItem(rarg) + Aliases(quals)
  }

  function AliasesOfTables(fs: seq<FromItem>): set<string>
    decreases fs, 0
  {
    if fs == [] then {} else AliasesOfItem(fs[0]) + AliasesOfTables(fs[1..])
  }

  function AliasesOfCtes(ctes: seq<Cte>): set<string>
    decreases ctes, 0
  {
    if ctes == [] then {} else AliasesOfSelect(ctes[0].query) + AliasesOfCtes(ctes[1..])
  }

  function AliasesOfSelect(s: Select): set<string>
    decreases s, 0
  {
    match s
    case Simple(ctes, _, targets, tables, cond, _) =>
      AliasesOfCtes(ctes) + AliasesOfTargets(targets) + AliasesOfTables(tables)
      + if cond.Some? then Aliases(cond.value) else {}
    case UnionAll(ctes, larg, rarg) => AliasesOfCtes(ctes) + AliasesOfSelect(larg) + AliasesOfSelect(rarg)
  }

  predicate Without(aliases: set<string>, alias: string) {
    forall a :: a in aliases ==> Lower(a) != Lower(alias)
  }

  predicate AliasNotIn(e: Expr, alias: string) {
    Without(Aliases(e), alias)
  }

  /** The reference check passes exactly the expressions in which no column has the alias. */
  lemma {:induction false} AvoidsIff(e: Expr, alias: string)
    ensures Avoids(e, alias) <==> AliasNotIn(e, alias)
    decreases e, 0
  {
    hide Lower;
    match e
    case Col(_, _) =>
    case Lit(_) =>
    case TimeLit(_, _, _) =>
    case Param(_) =>
    case Cmp(_, l, r) => AvoidsIff(l, alias); AvoidsIff(r, alias);
    case Between(x, lo, hi) => AvoidsIff(x, alias); AvoidsIff(lo, alias); AvoidsIff(hi, alias);
    case Logic(_, args) => AllAvoidIffWithout(args, alias);
    case NullTest(arg, _) => AvoidsIff(arg, alias);
    case IsNotTrue(arg) => AvoidsIff(arg, alias);
    case Coalesce(first, second) => AvoidsIff(first, alias); AvoidsIff(second, alias);
    case DateTruncFn(_, arg) => AvoidsIff(arg, alias);
    case Extract(_, arg) => AvoidsIff(arg, alias);
    case CastDate(arg) => AvoidsIff(arg, alias);
    case AddPeriod(arg, _) => AvoidsIff(arg, alias);
    case InSub(test, sub) => AvoidsIff(test, alias); SelectAvoidsIff(sub, alias);
    case Exists(sub) => SelectAvoidsIff(sub, alias);
  }

  lemma {:induction false} AllAvoidIffWithout(es: seq<Expr>, alias: string)
    ensures AllAvoid(es, alias) <==> Without(AliasesOfAll(es), alias)
    decreases es, 0
  {
    hide Avoids, Aliases, Lower;
    if es != [] {
      AvoidsIff(es[0], alias);
      AllAvoidIffWithout(es[1..], alias);
    }
  }

  lemma {:induction false} TargetsAvoidIff(ts: seq<Target>, alias: string)
    ensures TargetsAvoid(ts, alias) <==> Without(AliasesOfTargets(ts), alias)
    decreases ts, 0
  {
    hide Avoids, Aliases, Lower;
    if ts != [] {
      AvoidsIff(ts[0].e, alias);
      TargetsAvoidIff(ts[1..], alias);
    }
  }

  lemma {:induction false} FromAvoidsIff(f: FromItem, alias: string)
    ensures FromAvoids(f, alias) <==> Without(AliasesOfItem(f), alias)
    decreases f, 0
  {
    hide Avoids, SelectAvoids, Aliases, AliasesOfSelect, Lower;
    match f
    case Table(_, _) =>
    case SubSelect(query, _) => SelectAvoidsIff(query, alias);
    case LeftJoin(larg, rarg, quals) =>
      FromAvoidsIff(larg, alias);
      FromAvoidsIff(rarg, alias);
      AvoidsIff(quals, alias);
  }

  lemma {:induction false} TablesAvoidIff(fs: seq<FromItem>, alias: string)
    ensures TablesAvoid(fs, alias) <==> Without(AliasesOfTables(fs), alias)
    decreases fs, 0
  {
    hide FromAvoids, AliasesOfItem, Lower;
    if fs != [] {
      FromAvoidsIff(fs[0], alias);
      TablesAvoidIff(fs[1..], alias);
    }
  }

  lemma {:induction false} CtesAvoidIff(ctes: seq<Cte>, alias: string)
    ensures CtesAvoid(ctes, alias) <==> Without(AliasesOfCtes(ctes), alias)
    decreases ctes, 0
  {
    hide SelectAvoids, AliasesOfSelect, Lower;
    if ctes != [] {
      SelectAvoidsIff(ctes[0].query, alias);
      CtesAvoidIff(ctes[1..], alias);
    }
  }

  lemma {:induction false} SelectAvoidsIff(s: Select, alias: string)
    ensures SelectAvoids(s, alias) <==> Without(AliasesOfSelect(s), alias)
    decreases s, 0
  {
    hide Avoids, TargetsAvoid, TablesAvoid, CtesAvoid, Aliases, AliasesOfTargets, AliasesOfTables, AliasesOfCtes, Lower;
    CtesAvoidIff(s.ctes, alias);
    match s
    case Simple(ctes, _, targets, tables, cond, _) =>
      TargetsAvoidIff(targets, alias);
      TablesAvoidIff(tables, alias);
      if cond.Some? { AvoidsIff(cond.value, alias); }
    case UnionAll(ctes, larg, rarg) =>
      SelectAvoidsIff(larg, alias);
      SelectAvoidsIff(rarg, alias);
  }
}
