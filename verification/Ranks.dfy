/**
 Ranks with ties averaged, as the Spearman correlation uses them.
 */
module Ranks {
  // ---- What a rank is ----

  function Below(v: seq<real>, x: real): set<int> {
    set i | 0 <= i < |v| && v[i] < x
  }

  function Ties(v: seq<real>, x: real): set<int> {
    set i | 0 <= i < |v| && v[i] == x
  }

  /** The mean of the places that the ties of x take behind the smaller values. */
  function RankOf(v: seq<real>, x: real): real {
    |Below(v, x)| as real + (|Ties(v, x)| + 1) as real / 2.0
  }

  /** Twice the rank, which is a whole number. */
  function DoubleRank(v: seq<real>, x: real): int {
    2 * |Below(v, x)| + |Ties(v, x)| + 1
  }

  lemma DoubleRankIsTwiceRank(v: seq<real>, x: real)
    ensures DoubleRank(v, x) as real == 2.0 * RankOf(v, x)
  {
  }

  // ---- Order ----

  /** A larger value has a larger rank, and equal values share one. */
  lemma RankFollowsOrder(v: seq<real>, i: nat, j: nat)
    requires i < |v| && j < |v|
    ensures v[i] < v[j] <==> RankOf(v, v[i]) < RankOf(v, v[j])
    ensures v[i] == v[j] <==> RankOf(v, v[i]) == RankOf(v, v[j])
  {
    if v[i] < v[j] {
      SmallerRank(v, i, j);
    } else if v[j] < v[i] {
      SmallerRank(v, j, i);
    }
  }

  lemma SmallerRank(v: seq<real>, i: nat, j: nat)
    requires i < |v| && j < |v| && v[i] < v[j]
    ensures RankOf(v, v[i]) < RankOf(v, v[j])
  {
    var low, ties := Below(v, v[i]), Ties(v, v[i]);
    assert low + ties <= Below(v, v[j]);
    assert low !! ties;
    Cardinal(low + ties, Below(v, v[j]));
    assert i in ties && j in Ties(v, v[j]);
  }

  lemma Cardinal(a: set<int>, b: set<int>)
    requires a <= b
    ensures |a| <= |b|
  {
    assert b == a + (b - a);
  }

  // ---- The sum of all ranks ----

  /** The double ranks in v of the values of w, added up. */
  function DoubleRanks(v: seq<real>, w: seq<real>): int {
    if w == [] then 0 else DoubleRanks(v, w[..|w| - 1]) + DoubleRank(v, w[|w| - 1])
  }

  function Higher(w: seq<real>, x: real): set<int> {
    set i | 0 <= i < |w| && w[i] > x
  }

  lemma BelowMore(x: seq<real>, last: real, w: real)
    ensures |Below(x + [last], w)| == |Below(x, w)| + if last < w then 1 else 0
  {
    var y := x + [last];
    assert forall i :: i in Below(y, w) ==> i < |x| ==> i in Below(x, w);
    assert forall i :: i in Below(x, w) ==> y[i] == x[i];
    assert y[|x|] == last;
    if last < w {
      assert Below(y, w) == Below(x, w) + {|x|};
    } else {
      assert Below(y, w) == Below(x, w);
    }
  }

  lemma TiesMore(x: seq<real>, last: real, w: real)
    ensures |Ties(x + [last], w)| == |Ties(x, w)| + if last == w then 1 else 0
  {
    var y := x + [last];
    assert forall i :: i in Ties(y, w) ==> i < |x| ==> i in Ties(x, w);
    assert forall i :: i in Ties(x, w) ==> y[i] == x[i];
    assert y[|x|] == last;
    if last == w {
      assert Ties(y, w) == Ties(x, w) + {|x|};
    } else {
      assert Ties(y, w) == Ties(x, w);
    }
  }

  lemma HigherMore(x: seq<real>, last: real, w: real)
    ensures |Higher(x + [last], w)| == |Higher(x, w)| + if last > w then 1 else 0
  {
    var y := x + [last];
    assert forall i :: i in Higher(y, w) ==> i < |x| ==> i in Higher(x, w);
    assert forall i :: i in Higher(x, w) ==> y[i] == x[i];
    assert y[|x|] == last;
    if last > w {
      assert Higher(y, w) == Higher(x, w) + {|x|};
    } else {
      assert Higher(y, w) == Higher(x, w);
    }
  }

  lemma AppendedValue(v: seq<real>, w: real, x: real)
    ensures DoubleRank(v + [w], x) == DoubleRank(v, x) + if w < x then 2 else if w == x then 1 else 0
  {
    hide Below, Ties;
    BelowMore(v, w, x);
    TiesMore(v, w, x);
  }

  /** What a further value w adds to the ranks of the values in x. */
  lemma {:induction false} AppendedValues(v: seq<real>, w: real, x: seq<real>)
    ensures DoubleRanks(v + [w], x) == DoubleRanks(v, x) + 2 * |Higher(x, w)| + |Ties(x, w)|
  {
    hide DoubleRank, Higher, Ties;
    if x == [] {
      assert |Higher(x, w)| == 0 && |Ties(x, w)| == 0 by { ThreeWaySplit(x, w); }
    } else {
      var front, last := x[..|x| - 1], x[|x| - 1];
      assert x == front + [last];
      AppendedValues(v, w, front);
      AppendedValue(v, w, last);
      HigherMore(front, last, w);
      TiesMore(front, last, w);
    }
  }

  lemma ThreeWaySplit(v: seq<real>, x: real)
    ensures |Below(v, x)| + |Ties(v, x)| + |Higher(v, x)| == |v|
  {
    assert Upto(|v|) == Below(v, x) + Ties(v, x) + Higher(v, x);
    assert Below(v, x) !! Ties(v, x) && (Below(v, x) + Ties(v, x)) !! Higher(v, x);
  }

  function Upto(n: nat): (r: set<int>)
    ensures |r| == n && forall i :: i in r <==> 0 <= i < n
  {
    if n == 0 then {} else Upto(n - 1) + {n - 1}
  }

  lemma {:induction false} DoubleRanksAddUp(v: seq<real>)
    ensures DoubleRanks(v, v) == |v| * (|v| + 1)
  {
    hide DoubleRank, Below, Ties, Higher;
    if v != [] {
      var front, w := v[..|v| - 1], v[|v| - 1];
      assert v == front + [w];
      DoubleRanksAddUp(front);
      AppendedValues(front, w, front);
      AppendedValue(front, w, w);
      DoubleRankParts(front, w);
      ThreeWaySplit(front, w);
      SquareStep(|front|);
    }
  }

  /** The ranks in v of the values of w, added up. */
  function RankSum(v: seq<real>, w: seq<real>): real {
    if w == [] then 0.0 else RankSum(v, w[..|w| - 1]) + RankOf(v, w[|w| - 1])
  }

  lemma {:induction false} RankSumIsHalf(v: seq<real>, w: seq<real>)
    ensures 2.0 * RankSum(v, w) == DoubleRanks(v, w) as real
  {
    hide RankOf, DoubleRank;
    if w != [] {
      RankSumIsHalf(v, w[..|w| - 1]);
      DoubleRankIsTwiceRank(v, w[|w| - 1]);
    }
  }

  /** Averaging ties conserves the sum: the ranks add up to 1 + 2 + ... + n, whatever ties there are. */
  lemma RanksAddUp(v: seq<real>)
    ensures RankSum(v, v) == (|v| * (|v| + 1)) as real / 2.0
  {
    hide RankSum, DoubleRanks;
    RankSumIsHalf(v, v);
    DoubleRanksAddUp(v);
  }

  lemma DoubleRankParts(v: seq<real>, x: real)
    ensures DoubleRank(v, x) == 2 * |Below(v, x)| + |Ties(v, x)| + 1
  {
  }

  lemma SquareStep(n: nat)
    ensures (n + 1) * (n + 2) == n * (n + 1) + 2 * n + 2
  {
  }

  // ---- The sorted order ----

  /** Any result that `sort.Slice` may give: the indices of v, each once, in non-decreasing order of value. */
  predicate SortsIndices(idx: seq<int>, v: seq<real>) {
    && |idx| == |v|
    && (forall k :: 0 <= k < |idx| ==> 0 <= idx[k] < |v|)
    && (forall k, l :: 0 <= k < l < |idx| ==> idx[k] != idx[l])
    && (forall k, l :: 0 <= k <= l < |idx| ==> v[idx[k]] <= v[idx[l]])
  }

  function Elements(s: seq<int>): set<int> {
    set k | 0 <= k < |s| :: s[k]
  }

  lemma {:induction false} DistinctElements(s: seq<int>)
    requires forall k, l :: 0 <= k < l < |s| ==> s[k] != s[l]
    ensures |Elements(s)| == |s|
  {
    if s != [] {
      var front := s[..|s| - 1];
      DistinctElements(front);
      assert Elements(s) == Elements(front) + {s[|s| - 1]};
    }
  }

  lemma EveryIndexOccurs(idx: seq<int>, v: seq<real>, i: nat)
    requires SortsIndices(idx, v) && i < |v|
    ensures exists k :: 0 <= k < |idx| && idx[k] == i
  {
    DistinctElements(idx);
    var all := Upto(|v|);
    if i !in Elements(idx) {
      assert Elements(idx) <= all - {i};
      Cardinal(Elements(idx), all - {i});
    }
  }

  /** A maximal block of equal values in the sorted order. */
  predicate Block(idx: seq<int>, v: seq<real>, i: nat, j: nat) {
    && SortsIndices(idx, v) && i <= j < |v| && v[idx[i]] == v[idx[j]]
    && (i > 0 ==> v[idx[i - 1]] < v[idx[i]])
    && (j + 1 < |v| ==> v[idx[j]] < v[idx[j + 1]])
  }

  /** The place k holds a value smaller than, equal to or larger than that of the block i..j. */
  lemma PlaceInBlock(idx: seq<int>, v: seq<real>, i: nat, j: nat, k: nat)
    requires Block(idx, v, i, j) && k < |v|
    ensures v[idx[k]] < v[idx[i]] <==> k < i
    ensures v[idx[k]] == v[idx[i]] <==> i <= k <= j
  {
    assert k < i ==> v[idx[k]] <= v[idx[i - 1]];
    assert k > j ==> v[idx[j + 1]] <= v[idx[k]];
    assert i <= k <= j ==> v[idx[i]] <= v[idx[k]] <= v[idx[j]];
  }

  lemma BlockBelow(idx: seq<int>, v: seq<real>, i: nat, j: nat)
    requires Block(idx, v, i, j)
    ensures |Below(v, v[idx[i]])| == i
  {
    var x, before := v[idx[i]], idx[..i];
    forall b ensures b in Below(v, x) <==> b in Elements(before) {
      if b in Below(v, x) {
        EveryIndexOccurs(idx, v, b);
        var k :| 0 <= k < |idx| && idx[k] == b;
        PlaceInBlock(idx, v, i, j, k);
        assert before[k] == b;
      }
      if b in Elements(before) {
        var k :| 0 <= k < |before| && before[k] == b;
        PlaceInBlock(idx, v, i, j, k);
      }
    }
    assert Below(v, x) == Elements(before);
    DistinctElements(before);
  }

  lemma BlockTies(idx: seq<int>, v: seq<real>, i: nat, j: nat)
    requires Block(idx, v, i, j)
    ensures |Ties(v, v[idx[i]])| == j + 1 - i
  {
    var x, block := v[idx[i]], idx[i..j + 1];
    forall b ensures b in Ties(v, x) <==> b in Elements(block) {
      if b in Ties(v, x) {
        EveryIndexOccurs(idx, v, b);
        var k :| 0 <= k < |idx| && idx[k] == b;
        PlaceInBlock(idx, v, i, j, k);
        assert block[k - i] == b;
      }
      if b in Elements(block) {
        var k :| 0 <= k < |block| && block[k] == b;
        PlaceInBlock(idx, v, i, j, i + k);
      }
    }
    assert Ties(v, x) == Elements(block);
    DistinctElements(block);
  }

  /** The values of a maximal block of equal values share the mean of the block's places. */
  lemma BlockRank(idx: seq<int>, v: seq<real>, i: nat, j: nat)
    requires Block(idx, v, i, j)
    ensures RankOf(v, v[idx[i]]) == (i + j + 2) as real / 2.0
  {
    hide Below, Ties, Block;
    BlockBelow(idx, v, i, j);
    BlockTies(idx, v, i, j);
  }

  // ---- The loops ----

  /**
   calculator.go, rank. `idx` stands for the index order that `sort.Slice` leaves; it is not stable,
   and the ranks do not depend on how it orders ties.
   */
  method Rank(v: seq<real>, idx: seq<int>) returns (r: array<real>)
    requires SortsIndices(idx, v)
    ensures fresh(r) && r.Length == |v|
    ensures forall i :: 0 <= i < |v| ==> r[i] == RankOf(v, v[i])
  {
    hide RankOf;
    var n := |v|;
    r := new real[n];
    var i := 0;
    while i < n
      invariant 0 <= i <= n
      invariant 0 < i < n ==> v[idx[i - 1]] < v[idx[i]]
      invariant forall k :: 0 <= k < i ==> r[idx[k]] == RankOf(v, v[idx[k]])
    {
      var j := i;
      while j + 1 < n && v[idx[j + 1]] == v[idx[j]]
        invariant i <= j < n && v[idx[j]] == v[idx[i]]
      {
        j := j + 1;
      }
      var avgRank := (i + j + 2) as real / 2.0;
      BlockRank(idx, v, i, j);
      ghost var x := v[idx[i]];
      var k := i;
      while k <= j
        invariant i <= k <= j + 1
        invariant forall l :: 0 <= l < k ==> r[idx[l]] == RankOf(v, v[idx[l]])
      {
        assert v[idx[k]] == x;
        r[idx[k]] := avgRank;
        k := k + 1;
      }
      i := j + 1;
    }
    forall b | 0 <= b < n ensures r[b] == RankOf(v, v[b]) {
      EveryIndexOccurs(idx, v, b);
    }
  }
}
