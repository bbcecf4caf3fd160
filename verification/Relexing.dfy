/**
 Lexing the substituted query again: when it gives the query's own segments with each parameter
 replaced by the segments of its literal, and at which seams two neighbours fuse instead.
 */
module Relexing {
  import opened Text
  import opened BindScanner
  import opened BindLiterals

  // ---- Seams ----

  /** A one-character segment and the next character open a comment or a parameter together. */
  predicate Opens(x: string, c: char) {
    (x == "-" && c == '-') || (x == "/" && c == '*') || (x == "$" && '1' <= c <= '9')
  }

  /** The segment ends where it does even when the character c follows it. */
  predicate Seals(s: Segment, c: char) {
    match s.kind
    case Quoted => Run(Code, s.text) == Code && c != '\''
    case LineComment => c == '\n'
    case BlockComment => Run(Code, s.text) == Code
    case Parameter => !IsDigit(c)
    case Other => !Opens(s.text, c)
  }

  function Last(segments: seq<Segment>): Segment
    requires segments != []
  {
    segments[|segments| - 1]
  }

  // ---- More text after a segment ----

  /** A quoted string that ends inside a ends there in a + b; one that reaches the end of a, if it is closed. */
  lemma {:induction false} QuotedThen(a: string, b: string, i: nat)
    requires i <= |a| && b != []
    ensures QuotedEnd(a, i) < |a| ==> QuotedEnd(a + b, i) == QuotedEnd(a, i)
    ensures QuotedEnd(a, i) == |a| ==> (QuotedEnd(a + b, i) == |a| <==> Run(Quote, a[i..]) == Code && b[0] != '\'')
    decreases |a| - i
  {
    if i < |a| {
      assert (a + b)[i] == a[i] == a[i..][0] && a[i..][1..] == a[i + 1..];
      if a[i] != '\'' {
        QuotedThen(a, b, i + 1);
      } else if i + 1 < |a| && a[i + 1] == '\'' {
        QuotedThen(a, b, i + 2);
        assert a[i + 1..][0] == '\'' && a[i + 1..][1..] == a[i + 2..];
      } else if i + 1 == |a| {
        assert (a + b)[i + 1] == b[0] && a[i + 1..] == [];
      }
    }
  }

  lemma {:induction false} BlockThen(a: string, b: string, i: nat, m: Mode)
    requires i <= |a| && b != [] && (m.Block? || m.BlockStar?)
    requires m.BlockStar? ==> i == |a| || a[i] != '/'
    ensures BlockEnd(a, i) < |a| ==> BlockEnd(a + b, i) == BlockEnd(a, i)
    ensures BlockEnd(a, i) == |a| ==> (BlockEnd(a + b, i) == |a| <==> Run(m, a[i..]) == Code)
    decreases |a| - i
  {
    if i < |a| {
      assert (a + b)[i] == a[i] == a[i..][0] && a[i..][1..] == a[i + 1..];
      if StartsPair(a, i, '*', '/') {
        assert a[i + 1..][0] == '/' && a[i + 1..][1..] == a[i + 2..];
        assert Run(m, a[i..]) == Run(Code, a[i + 2..]);
      } else {
        BlockThen(a, b, i + 1, Step(m, a[i]));
        assert i + 1 == |a| ==> a[i + 1..] == [] && (a + b)[i + 1] == b[0];
      }
    }
  }

  /** Line comments and parameters end at the first character that is not theirs. */
  lemma LineThen(a: string, b: string, i: nat)
    requires i <= |a| && b != []
    ensures LineEnd(a, i) < |a| ==> LineEnd(a + b, i) == LineEnd(a, i)
    ensures LineEnd(a, i) == |a| ==> (LineEnd(a + b, i) == |a| <==> b[0] == '\n')
  {
    var e, f := LineEnd(a, i), LineEnd(a + b, i);
    assert forall k :: 0 <= k < |a| ==> (a + b)[k] == a[k];
    assert (a + b)[|a|] == b[0];
  }

  lemma DigitsThen(a: string, b: string, i: nat)
    requires i <= |a| && b != []
    ensures DigitsEnd(a, i) < |a| ==> DigitsEnd(a + b, i) == DigitsEnd(a, i)
    ensures DigitsEnd(a, i) == |a| ==> (DigitsEnd(a + b, i) == |a| <==> !IsDigit(b[0]))
  {
    var e, f := DigitsEnd(a, i), DigitsEnd(a + b, i);
    assert forall k :: 0 <= k < |a| ==> (a + b)[k] == a[k];
    assert (a + b)[|a|] == b[0];
  }

  /** The first segment is the same with b behind it: always when it ends inside a, else when it seals. */
  lemma SegmentThen(a: string, b: string, i: nat)
    requires i < |a| && b != []
    ensures var e := SegmentEnd(a, i);
            (KindAt(a + b, i) == KindAt(a, i) && SegmentEnd(a + b, i) == e)
            <==> (e == |a| ==> Seals(Segment(KindAt(a, i), a[i..e]), b[0]))
  {
    hide QuotedEnd, LineEnd, BlockEnd, DigitsEnd, Run;
    assert forall k :: 0 <= k < |a| ==> (a + b)[k] == a[k];
    assert (a + b)[|a|] == b[0];
    match KindAt(a, i)
    case Quoted =>
      QuotedThen(a, b, i + 1);
      RunQuoted(a, i);
      assert a[i..|a|] == a[i..];
    case LineComment => LineThen(a, b, i);
    case BlockComment =>
      BlockThen(a, b, i + 2, Block);
      RunBlock(a, i);
      assert a[i..|a|] == a[i..];
    case Parameter => DigitsThen(a, b, i + 1);
    case Other =>
      if i + 1 == |a| {
        assert a[i..i + 1] == [a[i]];
        OtherThen(a, b, i);
      }
  }

  lemma OtherThen(a: string, b: string, i: nat)
    requires i + 1 == |a| && b != [] && KindAt(a, i).Other?
    ensures KindAt(a + b, i).Other? <==> !Opens([a[i]], b[0])
  {
    assert (a + b)[i] == a[i] && (a + b)[i + 1] == b[0];
  }

  lemma RunQuoted(a: string, i: nat)
    requires i < |a| && a[i] == '\''
    ensures Run(Code, a[i..]) == Run(Quote, a[i + 1..])
  {
    assert a[i..][0] == '\'' && a[i..][1..] == a[i + 1..];
  }

  lemma RunBlock(a: string, i: nat)
    requires StartsPair(a, i, '/', '*')
    ensures Run(Code, a[i..]) == Run(Block, a[i + 2..])
  {
    assert a[i..][0] == '/' && a[i..][1..] == a[i + 1..];
    assert a[i + 1..][0] == '*' && a[i + 1..][1..] == a[i + 2..];
  }

  // ---- Lexing from a position is lexing the rest ----

  lemma {:induction false} QuotedShift(a: string, b: string, i: nat)
    requires i <= |b|
    ensures QuotedEnd(a + b, |a| + i) == |a| + QuotedEnd(b, i)
    decreases |b| - i
  {
    if i < |b| {
      assert (a + b)[|a| + i] == b[i];
      assert i + 1 < |b| ==> (a + b)[|a| + i + 1] == b[i + 1];
      if b[i] != '\'' {
        QuotedShift(a, b, i + 1);
      } else if i + 1 < |b| && b[i + 1] == '\'' {
        QuotedShift(a, b, i + 2);
      }
    }
  }

  lemma {:induction false} BlockShift(a: string, b: string, i: nat)
    requires i <= |b|
    ensures BlockEnd(a + b, |a| + i) == |a| + BlockEnd(b, i)
    decreases |b| - i
  {
    if i < |b| {
      assert (a + b)[|a| + i] == b[i];
      assert i + 1 < |b| ==> (a + b)[|a| + i + 1] == b[i + 1];
      BlockShift(a, b, i + 1);
    }
  }

  lemma LineShift(a: string, b: string, i: nat)
    requires i <= |b|
    ensures LineEnd(a + b, |a| + i) == |a| + LineEnd(b, i)
  {
    var e := LineEnd(b, i);
    assert forall k :: 0 <= k < |b| ==> (a + b)[|a| + k] == b[k];
    assert forall k :: |a| <= k < |a + b| ==> (a + b)[k] == b[k - |a|];
  }

  lemma DigitsShift(a: string, b: string, i: nat)
    requires i <= |b|
    ensures DigitsEnd(a + b, |a| + i) == |a| + DigitsEnd(b, i)
  {
    var e := DigitsEnd(b, i);
    assert forall k :: 0 <= k < |b| ==> (a + b)[|a| + k] == b[k];
    assert forall k :: |a| <= k < |a + b| ==> (a + b)[k] == b[k - |a|];
  }

  lemma SegmentShift(a: string, b: string, i: nat)
    requires i < |b|
    ensures KindAt(a + b, |a| + i) == KindAt(b, i) && SegmentEnd(a + b, |a| + i) == |a| + SegmentEnd(b, i)
  {
    hide QuotedEnd, LineEnd, BlockEnd, DigitsEnd;
    assert (a + b)[|a| + i] == b[i];
    assert i + 1 < |b| ==> (a + b)[|a| + i + 1] == b[i + 1];
    assert KindAt(a + b, |a| + i) == KindAt(b, i);
    match KindAt(b, i)
    case Quoted => QuotedShift(a, b, i + 1);
    case LineComment => LineShift(a, b, i);
    case BlockComment => BlockShift(a, b, i + 2);
    case Parameter => DigitsShift(a, b, i + 1);
    case Other =>
  }

  lemma UnfoldLex(r: string, i: nat)
    requires i <= |r|
    ensures i == |r| ==> Lex(r, i) == []
    ensures i < |r| ==>
              Lex(r, i) == [Segment(KindAt(r, i), r[i..SegmentEnd(r, i)])] + Lex(r, SegmentEnd(r, i))
  {
    hide KindAt, SegmentEnd;
  }

  lemma {:induction false} LexShift(a: string, b: string, i: nat)
    requires i <= |b|
    ensures Lex(a + b, |a| + i) == Lex(b, i)
    decreases |b| - i
  {
    hide KindAt, SegmentEnd, Lex;
    UnfoldLex(b, i);
    UnfoldLex(a + b, |a| + i);
    if i < |b| {
      var e := SegmentEnd(b, i);
      SegmentShift(a, b, i);
      LexShift(a, b, e);
      assert (a + b)[|a| + i..|a| + e] == b[i..e];
    }
  }

  // ---- One seam ----

  /** Behind the segments of a come those of b exactly when the last segment of a seals before b. */
  lemma {:induction false} LexSplit(a: string, b: string, i: nat, rest: seq<Segment>)
    requires i < |a| && b != []
    ensures Lex(a, i) != []
    ensures Lex(a + b, i) == Lex(a, i) + rest <==> Seals(Last(Lex(a, i)), b[0]) && rest == Lex(b, 0)
    decreases |a| - i
  {
    hide KindAt, SegmentEnd, Seals;
    var e := SegmentEnd(a, i);
    var first := Segment(KindAt(a, i), a[i..e]);
    assert Lex(a, i) == [first] + Lex(a, e);
    SegmentThen(a, b, i);
    assert (a + b)[i..e] == a[i..e];
    FirstSegment(a, b, i, Lex(a, e) + rest);
    assert Lex(a, i) + rest == [first] + (Lex(a, e) + rest);
    if e < |a| {
      LexSplit(a, b, e, rest);
      assert Last(Lex(a, i)) == Last(Lex(a, e));
    } else {
      assert Lex(a, e) == [];
      assert Lex(a, e) + rest == rest;
      LexShift(a, b, 0);
    }
  }

  /** The lexing of a + b starts with the first segment of a exactly when kind and end agree. */
  lemma FirstSegment(a: string, b: string, i: nat, rest: seq<Segment>)
    requires i < |a|
    ensures var e := SegmentEnd(a, i);
            Lex(a + b, i) == [Segment(KindAt(a, i), a[i..e])] + rest
            <==> && KindAt(a + b, i) == KindAt(a, i) && SegmentEnd(a + b, i) == e
                 && Lex(a + b, e) == rest
  {
    hide KindAt, SegmentEnd;
    var e, f := SegmentEnd(a, i), SegmentEnd(a + b, i);
    var s := Segment(KindAt(a + b, i), (a + b)[i..f]);
    assert Lex(a + b, i) == [s] + Lex(a + b, f);
    assert ([s] + Lex(a + b, f))[1..] == Lex(a + b, f);
    assert ([Segment(KindAt(a, i), a[i..e])] + rest)[1..] == rest;
    assert (a + b)[i..e] == a[i..e];
    assert |s.text| == f - i;
  }

  /** A segment of a query, lexed by itself, is that segment; and it seals before what follows it. */
  lemma SegmentAlone(r: string, p: nat)
    requires p < |r|
    ensures var e := SegmentEnd(r, p);
            var s := Segment(KindAt(r, p), r[p..e]);
            Lex(s.text, 0) == [s] && (e < |r| ==> Seals(s, r[e]))
  {
    hide QuotedEnd, LineEnd, BlockEnd, DigitsEnd, Seals, KindAt, SegmentEnd, Lex;
    var e := SegmentEnd(r, p);
    var a, b := r[p..e], r[e..];
    assert r == r[..p] + (a + b);
    SegmentShift(r[..p], a + b, 0);
    var k := KindAt(a + b, 0);
    if b == [] {
      assert a + b == a;
      WholeSegment(a);
    } else {
      SegmentThen(a, b, 0);
      if SegmentEnd(a, 0) == |a| {
        ShortKinds(a, b);
        WholeSegment(a);
        assert a[0..|a|] == a;
      }
    }
  }

  lemma WholeSegment(a: string)
    requires a != [] && SegmentEnd(a, 0) == |a|
    ensures Lex(a, 0) == [Segment(KindAt(a, 0), a)]
  {
    hide KindAt, SegmentEnd;
    assert a[0..|a|] == a && Lex(a, |a|) == [];
  }

  /** A segment of two or more characters shows its kind by itself, and only one-character ones are shorter. */
  lemma ShortKinds(a: string, b: string)
    requires a != [] && b != [] && SegmentEnd(a + b, 0) == |a|
    ensures KindAt(a, 0) == KindAt(a + b, 0)
  {
    hide QuotedEnd, BlockEnd;
    assert forall k :: 0 <= k < |a| ==> (a + b)[k] == a[k];
    if |a| == 1 {
      OneCharacterKinds(a + b);
    }
  }

  lemma OneCharacterKinds(r: string)
    requires r != [] && SegmentEnd(r, 0) == 1
    ensures KindAt(r, 0).Quoted? || KindAt(r, 0).Other?
  {
    hide QuotedEnd;
  }

  // ---- Whole queries ----

  predicate IsReplaced(s: Segment, lits: seq<string>) {
    s.kind.Parameter? && 1 <= Number(s) <= |lits|
  }

  /** A replaced parameter gives the segments of its literal, every other segment itself. */
  function Substituted(s: Segment, lits: seq<string>): seq<Segment> {
    if IsReplaced(s, lits) then Lex(RenderOne(s, lits), 0) else [s]
  }

  function SubstitutedAll(segments: seq<Segment>, lits: seq<string>): seq<Segment> {
    if segments == [] then [] else Substituted(segments[0], lits) + SubstitutedAll(segments[1..], lits)
  }

  /** The segments are lexed as they are, and nothing is substituted by the empty string. */
  ghost predicate Pieces(segments: seq<Segment>, lits: seq<string>) {
    forall s | s in segments :: RenderOne(s, lits) != [] && Substituted(s, lits) == Lex(RenderOne(s, lits), 0)
  }

  /** After segment k of the query, substituted, comes segment k + 1, substituted, and not more of the same. */
  predicate SeamHolds(segments: seq<Segment>, lits: seq<string>, k: nat)
    requires k + 1 < |segments|
  {
    hide Lex, RenderOne, Seals;
    var left, right := Substituted(segments[k], lits), RenderOne(segments[k + 1], lits);
    left != [] && right != [] && Seals(Last(left), right[0])
  }

  ghost predicate AllSeamsHold(segments: seq<Segment>, lits: seq<string>) {
    forall k :: 0 <= k < |segments| - 1 ==> SeamHolds(segments, lits, k)
  }

  lemma {:induction false} RelexPieces(segments: seq<Segment>, lits: seq<string>)
    requires Pieces(segments, lits)
    ensures Lex(Render(segments, lits), 0) == SubstitutedAll(segments, lits) <==> AllSeamsHold(segments, lits)
    decreases |segments|
  {
    hide Lex, RenderOne, Seals, Substituted, SeamHolds;
    if segments == [] {
      LexNothing();
    } else {
      var s, rest := segments[0], segments[1..];
      var piece := RenderOne(s, lits);
      assert s in segments && forall t :: t in rest ==> t in segments;
      if rest == [] {
        OneSegment(segments, lits);
      } else {
        RelexPieces(rest, lits);
        var tail := Render(rest, lits);
        assert rest[0] in segments && tail == RenderOne(rest[0], lits) + Render(rest[1..], lits);
        LexSplit(piece, tail, 0, SubstitutedAll(rest, lits));
        FirstSeam(segments, lits);
        SeamsMore(segments, lits);
      }
    }
  }

  lemma OneSegment(segments: seq<Segment>, lits: seq<string>)
    requires |segments| == 1
    ensures Render(segments, lits) == RenderOne(segments[0], lits)
    ensures SubstitutedAll(segments, lits) == Substituted(segments[0], lits)
  {
    hide RenderOne, Substituted;
    assert segments[1..] == [];
    assert Render(segments[1..], lits) == "" && SubstitutedAll(segments[1..], lits) == [];
    assert RenderOne(segments[0], lits) + "" == RenderOne(segments[0], lits);
  }

  lemma FirstSeam(segments: seq<Segment>, lits: seq<string>)
    requires |segments| > 1 && Pieces(segments, lits) && Lex(RenderOne(segments[0], lits), 0) != []
    ensures RenderOne(segments[1], lits) != []
    ensures SeamHolds(segments, lits, 0)
       <==> Seals(Last(Lex(RenderOne(segments[0], lits), 0)), RenderOne(segments[1], lits)[0])
  {
    hide Lex, RenderOne, Seals, Substituted;
    assert segments[0] in segments && segments[1] in segments;
  }

  lemma SeamsMore(segments: seq<Segment>, lits: seq<string>)
    requires |segments| > 1
    ensures AllSeamsHold(segments, lits) <==> SeamHolds(segments, lits, 0) && AllSeamsHold(segments[1..], lits)
  {
    hide SeamHolds;
    forall k: nat | k + 2 < |segments| ensures SeamHolds(segments, lits, k + 1) <==> SeamHolds(segments[1..], lits, k) {
      SeamLater(segments, lits, k);
    }
    if SeamHolds(segments, lits, 0) && AllSeamsHold(segments[1..], lits) {
      forall k | 0 <= k < |segments| - 1 ensures SeamHolds(segments, lits, k) {
        if k > 0 {
          assert SeamHolds(segments[1..], lits, k - 1);
        }
      }
    }
  }

  lemma SeamLater(segments: seq<Segment>, lits: seq<string>, k: nat)
    requires k + 2 < |segments|
    ensures SeamHolds(segments, lits, k + 1) <==> SeamHolds(segments[1..], lits, k)
  {
    hide Lex, RenderOne, Seals, Substituted;
    assert segments[1..][k] == segments[k + 1] && segments[1..][k + 1] == segments[k + 2];
  }

  lemma LexNothing()
    ensures Lex("", 0) == []
  {
  }

  lemma QueryPieces(r: string, lits: seq<string>)
    requires forall lit :: lit in lits ==> lit != []
    ensures Pieces(Lex(r, 0), lits)
  {
    hide Lex, SegmentEnd, KindAt;
    var segments := Lex(r, 0);
    forall s | s in segments ensures RenderOne(s, lits) != [] && Substituted(s, lits) == Lex(RenderOne(s, lits), 0) {
      var k :| 0 <= k < |segments| && segments[k] == s;
      var p := SegmentStart(r, 0, k);
      SegmentAlone(r, p);
      PieceOf(s, lits);
    }
  }

  lemma PieceOf(s: Segment, lits: seq<string>)
    requires s.text != [] && Lex(s.text, 0) == [s] && forall lit :: lit in lits ==> lit != []
    ensures RenderOne(s, lits) != [] && Substituted(s, lits) == Lex(RenderOne(s, lits), 0)
  {
    hide Lex;
    assert IsReplaced(s, lits) ==> lits[Number(s) - 1] in lits;
  }

  /**
   Any non-empty literals, any query: lexing the result gives the query's segments with each
   replaced parameter's literal lexed in its place, exactly when every seam holds.
   */
  lemma RelexingIff(r: string, lits: seq<string>)
    requires forall lit :: lit in lits ==> lit != []
    ensures Lex(Render(Lex(r, 0), lits), 0) == SubstitutedAll(Lex(r, 0), lits) <==> AllSeamsHold(Lex(r, 0), lits)
  {
    QueryPieces(r, lits);
    RelexPieces(Lex(r, 0), lits);
  }

  // ---- The literals bindLiteral prints ----

  /** No quote, slash or dollar sign, and a digit after every minus sign. */
  predicate Loose(s: string) {
    forall k :: 0 <= k < |s| ==> LooseAt(s, k)
  }

  predicate LooseAt(s: string, k: nat)
    requires k < |s|
  {
    s[k] != '\'' && s[k] != '/' && s[k] != '$' && (s[k] == '-' ==> k + 1 < |s| && IsDigit(s[k + 1]))
  }

  lemma {:induction false} LooseLast(s: string, i: nat)
    requires Loose(s) && i < |s|
    ensures Lex(s, i) != [] && Last(Lex(s, i)) == Segment(Other, [s[|s| - 1]])
    decreases |s| - i
  {
    assert LooseAt(s, i);
    assert KindAt(s, i).Other?;
    assert s[i..i + 1] == [s[i]];
    if i + 1 < |s| {
      LooseLast(s, i + 1);
    } else {
      assert Lex(s, i + 1) == [];
    }
  }

  lemma LooseConcat(a: string, b: string)
    requires Loose(a) && Loose(b)
    ensures Loose(a + b)
  {
    forall k | 0 <= k < |a + b| ensures LooseAt(a + b, k) {
      if k < |a| {
        assert LooseAt(a, k);
      } else {
        assert LooseAt(b, k - |a|);
      }
    }
  }

  lemma DigitsLoose(s: string)
    requires AllDigits(s)
    ensures Loose(s)
  {
    assert forall k :: 0 <= k < |s| ==> s[k] in s;
  }

  /** A sign in front of digits. */
  lemma SignedLoose(sign: char, digits: string)
    requires sign in {'+', '-'} && IsDigits(digits)
    ensures Loose([sign] + digits)
  {
    DigitsLoose(digits);
    assert digits[0] in digits;
    var s := [sign] + digits;
    forall k | 0 <= k < |s| ensures LooseAt(s, k) {
      if k > 0 {
        assert LooseAt(digits, k - 1);
      }
    }
  }

  lemma ExponentLoose(s: string)
    requires IsExponent(s)
    ensures Loose(s)
  {
    if s != [] {
      if IsDigits(s[1..]) {
        DigitsLoose(s[1..]);
        assert s == [s[0]] + s[1..];
        LooseConcat([s[0]], s[1..]);
      } else {
        SignedLoose(s[1], s[2..]);
        assert s == [s[0]] + ([s[1]] + s[2..]);
        LooseConcat([s[0]], [s[1]] + s[2..]);
      }
    }
  }

  lemma FractionLoose(s: string)
    requires IsFraction(s)
    ensures Loose(s)
  {
    hide IsExponent;
    if s != [] && s[0] == '.' {
      var e := DigitsEnd(s, 1);
      DigitsLoose(s[1..e]);
      ExponentLoose(s[e..]);
      LooseConcat("." + s[1..e], s[e..]);
      assert s == "." + s[1..e] + s[e..];
    } else {
      ExponentLoose(s);
    }
  }

  lemma DecimalLoose(s: string)
    requires IsDecimal(s)
    ensures s != [] && s[0] != '*' && Loose(s)
  {
    hide IsFraction;
    var start := if s[0] in {'+', '-'} then 1 else 0;
    var e := DigitsEnd(s, start);
    assert forall c :: c in s[start..e] ==> IsDigit(c);
    FractionLoose(s[e..]);
    DigitsLoose(s[..e][start..]);
    if start == 1 {
      SignedLoose(s[0], s[1..e]);
      assert s[..e] == [s[0]] + s[1..e];
    } else {
      assert s[..e] == s[0..e];
    }
    LooseConcat(s[..e], s[e..]);
    assert s == s[..e] + s[e..];
  }

  predicate EndsWithQuote(lit: string) {
    lit != [] && lit[|lit| - 1] == '\''
  }

  /** What a printed literal does at its seams: only a quoted one fuses behind it, and only with a quote. */
  ghost predicate LiteralSeams(lit: string) {
    && lit != [] && lit[0] != '*' && Lex(lit, 0) != []
    && forall c :: Seals(Last(Lex(lit, 0)), c) <==> !(EndsWithQuote(lit) && c == '\'')
  }

  lemma LooseSeams(s: string)
    requires s != [] && s[0] != '*' && Loose(s)
    ensures LiteralSeams(s)
  {
    LooseLast(s, 0);
    assert LooseAt(s, |s| - 1);
    LooseEnd(s[|s| - 1]);
  }

  /** The last character of a loose text opens nothing. */
  lemma LooseEnd(x: char)
    requires x != '-' && x != '/' && x != '$'
    ensures forall c :: Seals(Segment(Other, [x]), c)
  {
    assert [x][0] == x;
  }

  lemma QuotedSeams(s: string)
    ensures LiteralSeams(QuoteLiteral(s)) && Lex(QuoteLiteral(s), 0) == [Segment(Quoted, QuoteLiteral(s))]
  {
    hide DoubleQuotes, Run;
    var lit := QuoteLiteral(s);
    LiteralRoundTrip(s, []);
    assert lit + [] == lit;
    WholeSegment(lit);
    QuotedContained(Code, s);
  }

  lemma CastSeams(s: string, cast: string)
    requires cast != [] && cast[0] == ':' && Loose(cast)
    ensures LiteralSeams(QuoteLiteral(s) + cast)
  {
    hide DoubleQuotes, Run, Lex;
    var lit := QuoteLiteral(s);
    QuotedSeams(s);
    LexSplit(lit, cast, 0, Lex(cast, 0));
    LooseLast(cast, 0);
    var whole := Lex(lit + cast, 0);
    assert Last(whole) == Last(Lex(cast, 0));
    assert LooseAt(cast, |cast| - 1);
    LooseEnd(cast[|cast| - 1]);
    assert (lit + cast)[|lit + cast| - 1] == cast[|cast| - 1];
  }

  lemma BindLiteralSeams(v: string)
    ensures LiteralSeams(BindLiteral(v))
  {
    hide IsDecimal, QuoteLiteral, Lex, BindLiteral, TrimSpace, EqualFold, IsDateOnly, IsTimestamp, LiteralSeams;
    var cast := BindLiteralForm(v);
    var s, lit := TrimSpace(v), BindLiteral(v);
    if lit == s && IsDecimal(s) {
      DecimalLoose(s);
      LooseSeams(s);
    } else if lit in {"true", "false"} {
      LooseSeams(lit);
    } else if cast == "" {
      QuotedSeams(s);
      assert QuoteLiteral(s) + "" == QuoteLiteral(s);
    } else {
      CastSeams(s, cast);
    }
  }

  // ---- The exact seams that fuse ----

  /**
   Where a bind value fuses with its neighbour: two quotes meet, two minus signs meet, a dollar
   sign meets a number, or a parameter left in place meets a digit.
   */
  predicate Fuses(s: Segment, next: Segment, lits: seq<string>) {
    var right := RenderOne(next, lits);
    && right != []
    && (IsReplaced(s, lits) || IsReplaced(next, lits))
    && if IsReplaced(s, lits) then EndsWithQuote(RenderOne(s, lits)) && right[0] == '\''
       else
         || (s.kind.Quoted? && right[0] == '\'')
         || (s.kind.Parameter? && IsDigit(right[0]))
         || (s.kind.Other? && s.text == "-" && right[0] == '-')
         || (s.kind.Other? && s.text == "$" && '1' <= right[0] <= '9')
  }

  lemma SeamExactly(r: string, binds: seq<string>, k: nat)
    requires k + 1 < |Lex(r, 0)|
    ensures SeamHolds(Lex(r, 0), PrintedBinds(binds), k)
       <==> !Fuses(Lex(r, 0)[k], Lex(r, 0)[k + 1], PrintedBinds(binds))
  {
    hide Lex, KindAt, SegmentEnd, BindLiteral, Number, Run, Seals, Opens;
    var segments, lits := Lex(r, 0), PrintedBinds(binds);
    var s, next := segments[k], segments[k + 1];
    var p := OriginalSeam(r, k);
    if IsReplaced(next, lits) {
      BindLiteralSeams(binds[Number(next) - 1]);
    }
    if IsReplaced(s, lits) {
      BindLiteralSeams(binds[Number(s) - 1]);
    } else if IsReplaced(next, lits) {
      BeforeLiteral(s, RenderOne(next, lits)[0]);
    }
  }

  /** A segment that stands before a parameter in the query. */
  lemma BeforeLiteral(s: Segment, c: char)
    requires Seals(s, '$') && c != '*'
    ensures Seals(s, c) <==>
            !(|| (s.kind.Quoted? && c == '\'')
              || (s.kind.Parameter? && IsDigit(c))
              || (s.kind.Other? && s.text == "-" && c == '-')
              || (s.kind.Other? && s.text == "$" && '1' <= c <= '9'))
  {
    hide Run;
  }

  /** In the query itself every segment seals before the next. */
  lemma OriginalSeam(r: string, k: nat) returns (c: char)
    requires k + 1 < |Lex(r, 0)|
    ensures Lex(r, 0)[k + 1].text != [] && c == Lex(r, 0)[k + 1].text[0] && Seals(Lex(r, 0)[k], c)
    ensures Lex(r, 0)[k + 1].kind.Parameter? ==> c == '$'
  {
    hide Lex, SegmentEnd, Seals;
    var segments := Lex(r, 0);
    var p := SegmentStart(r, 0, k);
    var q := SegmentStart(r, 0, k + 1);
    c := r[q];
    SegmentAlone(r, p);
    assert segments[..k + 1] == segments[..k] + [segments[k]];
    ConcatSnoc(segments[..k], segments[k]);
    assert |r[0..q]| == |r[0..p] + r[p..SegmentEnd(r, p)]|;
  }

  /**
   Bind values, whole queries: lexing the substituted query gives the query's segments with each
   bound parameter replaced by its literal's, exactly when no bind value fuses with a neighbour.
   */
  lemma BindRelexing(r: string, binds: seq<string>)
    ensures Lex(Render(Lex(r, 0), PrintedBinds(binds)), 0) == SubstitutedAll(Lex(r, 0), PrintedBinds(binds))
       <==> forall k :: 0 <= k < |Lex(r, 0)| - 1 ==> !Fuses(Lex(r, 0)[k], Lex(r, 0)[k + 1], PrintedBinds(binds))
  {
    hide Lex, SeamHolds, Fuses, BindLiteral;
    var segments, lits := Lex(r, 0), PrintedBinds(binds);
    forall lit | lit in lits ensures lit != [] {
      var i :| 0 <= i < |lits| && lits[i] == lit;
      BindLiteralContained(Code, binds[i]);
    }
    RelexingIff(r, lits);
    if AllSeamsHold(segments, lits) {
      forall k | 0 <= k < |segments| - 1 ensures !Fuses(segments[k], segments[k + 1], lits) {
        assert SeamHolds(segments, lits, k);
        SeamExactly(r, binds, k);
      }
    }
    if forall k :: 0 <= k < |segments| - 1 ==> !Fuses(segments[k], segments[k + 1], lits) {
      forall k | 0 <= k < |segments| - 1 ensures SeamHolds(segments, lits, k) {
        SeamExactly(r, binds, k);
      }
    }
  }

  // ---- What substitution is for ----

  ghost predicate NoParameters(segments: seq<Segment>) {
    forall s :: s in segments ==> !s.kind.Parameter?
  }

  lemma {:induction false} LooseNoParameters(s: string, i: nat)
    requires Loose(s) && i <= |s|
    ensures NoParameters(Lex(s, i))
    decreases |s| - i
  {
    if i < |s| {
      assert LooseAt(s, i);
      assert KindAt(s, i).Other?;
      LooseNoParameters(s, i + 1);
    }
  }

  /** No literal bindLiteral prints lexes to a parameter, whatever it quotes. */
  lemma LiteralHasNoParameter(v: string)
    ensures NoParameters(Lex(BindLiteral(v), 0))
  {
    hide IsDecimal, QuoteLiteral, Lex, BindLiteral, TrimSpace, EqualFold, IsDateOnly, IsTimestamp, NoParameters,
         LiteralSeams;
    var cast := BindLiteralForm(v);
    var s, lit := TrimSpace(v), BindLiteral(v);
    if lit == s && IsDecimal(s) {
      DecimalLoose(s);
      LooseNoParameters(s, 0);
    } else if lit in {"true", "false"} {
      LooseNoParameters(lit, 0);
    } else {
      assert Loose(cast) && (cast != "" ==> cast[0] == ':');
      QuotedNoParameters(s, cast);
    }
  }

  lemma QuotedNoParameters(s: string, cast: string)
    requires Loose(cast) && (cast != "" ==> cast[0] == ':')
    ensures NoParameters(Lex(QuoteLiteral(s) + cast, 0))
  {
    hide QuoteLiteral, Lex, Loose;
    QuotedSeams(s);
    LooseNoParameters(cast, 0);
    if cast == "" {
      assert QuoteLiteral(s) + cast == QuoteLiteral(s);
    } else {
      LexSplit(QuoteLiteral(s), cast, 0, Lex(cast, 0));
    }
  }

  lemma {:induction false} SubstitutedNoParameters(segments: seq<Segment>, binds: seq<string>)
    requires forall s :: s in segments && s.kind.Parameter? ==> 1 <= Number(s) <= |binds|
    ensures NoParameters(SubstitutedAll(segments, PrintedBinds(binds)))
    decreases |segments|
  {
    hide Lex, BindLiteral, Number;
    if segments != [] {
      var s, lits := segments[0], PrintedBinds(binds);
      assert s in segments && forall t :: t in segments[1..] ==> t in segments;
      SubstitutedNoParameters(segments[1..], binds);
      if IsReplaced(s, lits) {
        LiteralHasNoParameter(binds[Number(s) - 1]);
      }
    }
  }

  /** With enough bind values and none fusing with a neighbour, no parameter is left in the result. */
  lemma NothingLeftToBind(r: string, binds: seq<string>)
    requires |binds| >= MaxParamNumber(r)
    requires forall k :: 0 <= k < |Lex(r, 0)| - 1 ==> !Fuses(Lex(r, 0)[k], Lex(r, 0)[k + 1], PrintedBinds(binds))
    ensures NoParameters(Lex(Render(Lex(r, 0), PrintedBinds(binds)), 0))
  {
    hide Lex, Fuses, BindLiteral, MaxParamNumber, Number;
    var segments := Lex(r, 0);
    BindRelexing(r, binds);
    forall s | s in segments && s.kind.Parameter? ensures 1 <= Number(s) <= |binds| {
      var k :| 0 <= k < |segments| && segments[k] == s;
      MaxParamCovers(r, k);
    }
    SubstitutedNoParameters(segments, binds);
  }

  // ---- When the highest number says that there are no parameters ----

  /**
   A dollar sign and a digit with nothing but strings and comments between them, in a text without
   parameters: the scan for the highest number removes what stands between, and takes the two for one.
   */
  predicate Splits(segments: seq<Segment>, dollar: bool) {
    if segments == [] then false
    else if !Survives(segments[0].kind) then Splits(segments[1..], dollar)
    else
      || (dollar && segments[0].text != [] && '1' <= segments[0].text[0] <= '9')
      || Splits(segments[1..], segments[0].text == "$")
  }

  /** Some parameter starts in a text. */
  ghost predicate HasStart(s: string) {
    exists p :: 0 <= p < |s| && StartsParameter(s, p)
  }

  lemma {:induction false} MaxNumberZero(s: string, i: nat)
    requires i <= |s|
    ensures MaxNumber(s, i) == 0 <==> forall p :: i <= p < |s| ==> !StartsParameter(s, p)
    decreases |s| - i
  {
    hide DigitsEnd;
    if i < |s| {
      if StartsParameter(s, i) {
        StartIsPositive(s, i);
        MaxNumberCovers(s, i, i);
      } else {
        MaxNumberZero(s, i + 1);
      }
    }
  }

  lemma StartIsPositive(s: string, i: nat)
    requires i < |s| && StartsParameter(s, i)
    ensures ParameterNumber(s[i + 1..DigitsEnd(s, i + 1)]) >= 1
  {
    var digits := s[i + 1..DigitsEnd(s, i + 1)];
    assert DigitsEnd(s, i + 1) > i + 1;
    assert digits[0] == s[i + 1] && AllDigits(digits);
    PositiveDigits(digits);
  }

  lemma StartInCons(c: char, s: string)
    ensures HasStart([c] + s) <==> (c == '$' && s != [] && '1' <= s[0] <= '9') || HasStart(s)
  {
    var whole := [c] + s;
    if HasStart(whole) {
      var p :| 0 <= p < |whole| && StartsParameter(whole, p);
      assert p > 0 ==> StartsParameter(s, p - 1);
    }
    if HasStart(s) {
      var p :| 0 <= p < |s| && StartsParameter(s, p);
      assert StartsParameter(whole, p + 1);
    }
    if c == '$' && s != [] && '1' <= s[0] <= '9' {
      assert StartsParameter(whole, 0);
    }
  }

  /** The surviving segments are single characters. */
  ghost predicate SingleSurvivors(segments: seq<Segment>) {
    forall s | s in segments && Survives(s.kind) :: |s.text| == 1
  }

  lemma {:induction false} SplitsIsStart(segments: seq<Segment>, dollar: bool)
    requires SingleSurvivors(segments)
    ensures Splits(segments, dollar) <==> HasStart((if dollar then "$" else "") + Strip(segments))
    decreases |segments|
  {
    hide HasStart;
    var prefix := if dollar then "$" else "";
    if segments == [] {
      NoStart(prefix);
      assert prefix + Strip(segments) == prefix;
    } else {
      var s, rest := segments[0], segments[1..];
      assert s in segments && forall t :: t in rest ==> t in segments;
      if !Survives(s.kind) {
        SplitsIsStart(rest, dollar);
        assert Strip(segments) == Strip(rest);
      } else {
        SplitsIsStart(rest, s.text == "$");
        var c, tail := s.text[0], Strip(rest);
        assert s.text == [c] && Strip(segments) == [c] + tail;
        StartInCons(c, tail);
        StartInCons('$', [c] + tail);
        assert "" + tail == tail && "" + ([c] + tail) == [c] + tail;
        assert s.text == "$" <==> c == '$';
      }
    }
  }

  lemma NoStart(s: string)
    requires |s| <= 1
    ensures !HasStart(s)
  {
  }

  lemma {:induction false} OthersAreSingle(r: string, i: nat)
    requires i <= |r| && NoParameters(Lex(r, i))
    ensures SingleSurvivors(Lex(r, i))
    decreases |r| - i
  {
    hide QuotedEnd, LineEnd, BlockEnd, DigitsEnd, KindAt;
    if i < |r| {
      var e := SegmentEnd(r, i);
      assert Lex(r, i)[0] in Lex(r, i) && forall t :: t in Lex(r, e) ==> t in Lex(r, i);
      OthersAreSingle(r, e);
    }
  }

  /**
   A text without parameters: the highest parameter number is 0 exactly when no dollar sign is split
   from a digit. In `$/**/1` one is, and the number is 1 although there is no parameter.
   */
  lemma MaxParamZeroIff(r: string)
    requires NoParameters(Lex(r, 0))
    ensures MaxParamNumber(r) == 0 <==> !Splits(Lex(r, 0), false)
  {
    hide Lex, Splits, Strip, MaxNumber;
    var s := Strip(Lex(r, 0));
    OthersAreSingle(r, 0);
    SplitsIsStart(Lex(r, 0), false);
    assert "" + s == s;
    MaxNumberZero(s, 0);
  }

  /** So after substitution the scan finds nothing more to bind exactly when the result splits no dollar sign. */
  lemma SubstitutedNeedsNoBinds(r: string, binds: seq<string>)
    requires |binds| >= MaxParamNumber(r)
    requires forall k :: 0 <= k < |Lex(r, 0)| - 1 ==> !Fuses(Lex(r, 0)[k], Lex(r, 0)[k + 1], PrintedBinds(binds))
    ensures var result := Render(Lex(r, 0), PrintedBinds(binds));
            MaxParamNumber(result) == 0 <==> !Splits(SubstitutedAll(Lex(r, 0), PrintedBinds(binds)), false)
  {
    hide Lex, Fuses, BindLiteral, MaxParamNumber, Splits, SubstitutedAll;
    NothingLeftToBind(r, binds);
    BindRelexing(r, binds);
    MaxParamZeroIff(Render(Lex(r, 0), PrintedBinds(binds)));
  }

  /** `$`, a comment and `1`: no parameter, and yet the scan asks for one bind value. */
  lemma SplitDollarCounts()
    ensures Lex("$/**/1", 0) == [Segment(Other, "$"), Segment(BlockComment, "/**/"), Segment(Other, "1")]
    ensures NoParameters(Lex("$/**/1", 0)) && MaxParamNumber("$/**/1") == 1
  {
    var r := "$/**/1";
    hide MaxNumber, Digits, Strip;
    assert Lex(r, 6) == [] && r[5..6] == "1" && Lex(r, 5) == [Segment(Other, "1")];
    assert BlockEnd(r, 3) == 5 && SegmentEnd(r, 1) == 5 && r[1..5] == "/**/";
    assert Lex(r, 1) == [Segment(BlockComment, "/**/"), Segment(Other, "1")];
    assert r[0..1] == "$";
    SplitDollarNumber([Segment(Other, "$"), Segment(BlockComment, "/**/"), Segment(Other, "1")]);
  }

  lemma SplitDollarNumber(segments: seq<Segment>)
    requires segments == [Segment(Other, "$"), Segment(BlockComment, "/**/"), Segment(Other, "1")]
    ensures MaxNumber(Strip(segments), 0) == 1
  {
    hide MaxNumber;
    assert segments[1..] == [Segment(BlockComment, "/**/"), Segment(Other, "1")];
    assert segments[1..][1..] == [Segment(Other, "1")] && segments[1..][1..][1..] == [];
    assert Strip(segments[1..][1..]) == "1" + "" == "1";
    assert Strip(segments[1..]) == "" + "1" == "1";
    assert Strip(segments) == "$" + "1" == "$1";
    NumberOfOne();
  }

  lemma NumberOfOne()
    ensures MaxNumber("$1", 0) == 1
  {
    var s := "$1";
    assert DigitsEnd(s, 2) == 2 && DigitsEnd(s, 1) == 2 && s[1..2] == "1";
    assert "1"[..0] == [] && Digits([]) == 0 && Digits("1") == 1;
    assert MaxNumber(s, 2) == 0 && ParameterNumber(s[1..2]) == 1;
  }
}
