/**
 How bind values are printed as SQL literals, and why putting them into a query leaves the
 scanner where it was: an automaton over single characters, the reference for the two index
 loops, ends in the same state after every segment.
 */
module BindLiterals {
  import opened Text
  import opened BindScanner

  // ---- Printing ----

  /** `strings.ReplaceAll(s, "'", "''")`. */
  function DoubleQuotes(s: string): string {
    if s == [] then [] else (if s[0] == '\'' then "''" else [s[0]]) + DoubleQuotes(s[1..])
  }

  /** param_subst.go, quoteSQLLiteral. */
  function QuoteLiteral(s: string): string {
    "'" + DoubleQuotes(s) + "'"
  }

  /** What a quoted string's content stands for. */
  function UndoubleQuotes(s: string): string {
    if s == [] then []
    else if s[0] == '\'' && |s| > 1 && s[1] == '\'' then ['\''] + UndoubleQuotes(s[2..])
    else [s[0]] + UndoubleQuotes(s[1..])
  }

  lemma {:induction false} UndoubleDouble(s: string)
    ensures UndoubleQuotes(DoubleQuotes(s)) == s
  {
    if s != [] {
      UndoubleDouble(s[1..]);
      var d := DoubleQuotes(s);
      if s[0] == '\'' {
        assert d[2..] == DoubleQuotes(s[1..]);
      } else {
        assert d[1..] == DoubleQuotes(s[1..]);
      }
    }
  }

  lemma {:induction false} ScanDoubled(r: string, i: nat, s: string, rest: string)
    requires i <= |r| && r[i..] == DoubleQuotes(s) + ("'" + rest)
    requires rest == [] || rest[0] != '\''
    ensures QuotedEnd(r, i) == |r| - |rest|
    decreases |s|
  {
    var tail := r[i..];
    assert forall k :: 0 <= k < |tail| ==> tail[k] == r[i + k];
    if s == [] {
      assert tail == "'" + rest;
      assert |tail| > 1 ==> tail[1] == rest[0];
    } else if s[0] == '\'' {
      assert tail == "''" + (DoubleQuotes(s[1..]) + ("'" + rest));
      assert r[i] == tail[0] == '\'' && r[i + 1] == tail[1] == '\'';
      assert r[i + 2..] == tail[2..] == DoubleQuotes(s[1..]) + ("'" + rest);
      ScanDoubled(r, i + 2, s[1..], rest);
    } else {
      assert tail == [s[0]] + (DoubleQuotes(s[1..]) + ("'" + rest));
      assert r[i] == tail[0];
      assert r[i + 1..] == tail[1..] == DoubleQuotes(s[1..]) + ("'" + rest);
      ScanDoubled(r, i + 1, s[1..], rest);
    }
  }

  /**
   The literal round trip, for every string: the quoted-segment scan over the printed literal,
   followed by anything that does not start with a quote, stops exactly at its end, and what it
   scanned un-doubles back to the string.
   */
  lemma LiteralRoundTrip(s: string, rest: string)
    requires rest == [] || rest[0] != '\''
    ensures var lit := QuoteLiteral(s);
            && QuotedEnd(lit + rest, 1) == |lit|
            && UndoubleQuotes(lit[1..|lit| - 1]) == s
  {
    var lit := QuoteLiteral(s);
    assert (lit + rest)[1..] == DoubleQuotes(s) + ("'" + rest);
    ScanDoubled(lit + rest, 1, s, rest);
    assert lit[1..|lit| - 1] == DoubleQuotes(s);
    UndoubleDouble(s);
  }

  // ---- bindLiteral ----

  predicate IsDigits(s: string) {
    s != [] && AllDigits(s)
  }

  /** `[eE][+-]?\d+` or nothing. */
  predicate IsExponent(s: string) {
    s == [] || (s[0] in {'e', 'E'} && (IsDigits(s[1..]) || (|s| > 1 && s[1] in {'+', '-'} && IsDigits(s[2..]))))
  }

  /** `(\.\d+)?([eE][+-]?\d+)?`. */
  predicate IsFraction(s: string) {
    if s != [] && s[0] == '.' then DigitsEnd(s, 1) > 1 && IsExponent(s[DigitsEnd(s, 1)..]) else IsExponent(s)
  }

  /** decimalRe: `^[+-]?\d+(\.\d+)?([eE][+-]?\d+)?$`. */
  predicate IsDecimal(s: string) {
    var start := if s != [] && s[0] in {'+', '-'} then 1 else 0;
    DigitsEnd(s, start) > start && IsFraction(s[DigitsEnd(s, start)..])
  }

  predicate DigitsAt(s: string, i: nat, n: nat) {
    i + n <= |s| && AllDigits(s[i..i + n])
  }

  predicate CharAt(s: string, i: nat, cs: set<char>) {
    i < |s| && s[i] in cs
  }

  predicate StartsWithDate(s: string) {
    DigitsAt(s, 0, 4) && CharAt(s, 4, {'-'}) && DigitsAt(s, 5, 2) && CharAt(s, 7, {'-'}) && DigitsAt(s, 8, 2)
  }

  /** dateOnlyRe. */
  predicate IsDateOnly(s: string) {
    |s| == 10 && StartsWithDate(s)
  }

  /** `[+-]\d{2}(:?\d{2})?|Z`. */
  predicate IsZone(s: string) {
    || s == "Z"
    || (CharAt(s, 0, {'+', '-'}) && DigitsAt(s, 1, 2)
        && (|s| == 3 || (|s| == 5 && DigitsAt(s, 3, 2)) || (|s| == 6 && CharAt(s, 3, {':'}) && DigitsAt(s, 4, 2))))
  }

  /** `(:\d{2}(\.\d{1,6})?)?` at position 16, and where it ends. */
  function SecondsEnd(s: string): (e: nat)
    requires |s| >= 16
    ensures e <= |s|
  {
    if CharAt(s, 16, {':'}) && DigitsAt(s, 17, 2) then
      if CharAt(s, 19, {'.'}) && 20 < DigitsEnd(s, 20) <= 26 then DigitsEnd(s, 20) else 19
    else 16
  }

  /** timestampRe. */
  predicate IsTimestamp(s: string) {
    && StartsWithDate(s) && CharAt(s, 10, {' ', 'T'}) && DigitsAt(s, 11, 2) && CharAt(s, 13, {':'})
    && DigitsAt(s, 14, 2)
    && (s[SecondsEnd(s)..] == [] || IsZone(s[SecondsEnd(s)..]))
  }

  /** param_subst.go, bindLiteral. */
  function BindLiteral(v: string): string {
    var s := TrimSpace(v);
    if s == [] then "''"
    else if IsDecimal(s) then s
    else if EqualFold(s, "true") then "true"
    else if EqualFold(s, "false") then "false"
    else if IsDateOnly(s) then QuoteLiteral(s) + "::date"
    else if IsTimestamp(s) then
      QuoteLiteral(s) + if s[SecondsEnd(s)..] != [] then "::timestamptz" else "::timestamp"
    else QuoteLiteral(s)
  }

  // ---- The character automaton ----

  datatype Mode = Code | Dash | Slash | Quote | Line | Block | BlockStar

  /** Code after one character that may open a comment or a string. */
  function FromCode(c: char): Mode {
    if c == '\'' then Quote else if c == '-' then Dash else if c == '/' then Slash else Code
  }

  function Step(m: Mode, c: char): Mode {
    match m
    case Code => FromCode(c)
    case Dash => if c == '-' then Line else FromCode(c)
    case Slash => if c == '*' then Block else FromCode(c)
    case Quote => if c == '\'' then Code else Quote
    case Line => if c == '\n' then Code else Line
    case Block => if c == '*' then BlockStar else Block
    case BlockStar => if c == '/' then Code else if c == '*' then BlockStar else Block
  }

  function Run(m: Mode, s: string): Mode
    decreases |s|
  {
    if s == [] then m else Run(Step(m, s[0]), s[1..])
  }

  lemma {:induction false} RunConcat(m: Mode, a: string, b: string)
    ensures Run(m, a + b) == Run(Run(m, a), b)
    decreases |a|
  {
    if a == [] {
      assert a + b == b;
    } else {
      assert (a + b)[1..] == a[1..] + b;
      RunConcat(Step(m, a[0]), a[1..], b);
    }
  }

  /** Outside strings and comments. */
  predicate InCode(m: Mode) {
    m.Code? || m.Dash? || m.Slash?
  }

  /** At the start of a segment the automaton is in code, and no pair is half read. */
  predicate Fresh(m: Mode, r: string, i: nat)
    requires i <= |r|
  {
    || i == |r|
    || m.Code?
    || (m.Dash? && r[i] != '-')
    || (m.Slash? && r[i] != '*')
    || (m.Line? && r[i] == '\n')
  }

  lemma {:induction false} QuotedRun(r: string, i: nat)
    requires i <= |r|
    ensures var e := QuotedEnd(r, i);
            Run(Quote, r[i..e]) == Code || e == |r|
    decreases |r| - i
  {
    if i < |r| {
      var e := QuotedEnd(r, i);
      if r[i] != '\'' {
        QuotedRun(r, i + 1);
        assert r[i..e] == [r[i]] + r[i + 1..e];
      } else if i + 1 < |r| && r[i + 1] == '\'' {
        QuotedRun(r, i + 2);
        assert r[i..e] == [r[i]] + ([r[i + 1]] + r[i + 2..e]);
        assert r[i..e][1..] == [r[i + 1]] + r[i + 2..e];
        assert r[i..e][1..][1..] == r[i + 2..e];
      } else {
        assert r[i..e] == [r[i]] && r[i..e][1..] == [];
      }
    }
  }

  lemma {:induction false} LineRun(s: string)
    requires forall k :: 0 <= k < |s| ==> s[k] != '\n'
    ensures Run(Line, s) == Line
  {
    if s != [] {
      LineRun(s[1..]);
    }
  }

  /** Until a block comment closes the automaton stays in it; where it closes it is back in code. */
  lemma {:induction false} BlockRun(r: string, i: nat, m: Mode)
    requires i <= |r| && (m.Block? || m.BlockStar?)
    requires m.BlockStar? ==> i == |r| || r[i] != '/'
    ensures var e := BlockEnd(r, i); Run(m, r[i..e]) == Code || e == |r|
    decreases |r| - i
  {
    if i < |r| {
      var e := BlockEnd(r, i);
      if StartsPair(r, i, '*', '/') {
        var t := r[i..e];
        assert t == ['*', '/'] && t[1..] == ['/'] && t[1..][1..] == [];
        assert Run(Step(Step(m, '*'), '/'), t[1..][1..]) == Code;
      } else {
        BlockRun(r, i + 1, Step(m, r[i]));
        assert r[i..e][0] == r[i] && r[i..e][1..] == r[i + 1..e];
      }
    }
  }

  lemma {:induction false} DigitsRun(m: Mode, s: string)
    requires InCode(m) && IsDigits(s)
    ensures Run(m, s) == Code
    decreases |s|
  {
    assert IsDigit(s[0]);
    if |s| > 1 {
      assert forall c :: c in s[1..] ==> c in s;
      DigitsRun(Code, s[1..]);
    } else {
      assert s[1..] == [];
    }
  }

  /**
   Every segment takes the automaton from a fresh state to a fresh state; parameters start in
   code and end in Code.
   */
  lemma SegmentRun(r: string, i: nat, m: Mode)
    requires i < |r| && Fresh(m, r, i)
    ensures var e := SegmentEnd(r, i);
            && Fresh(Run(m, r[i..e]), r, e)
            && (KindAt(r, i).Parameter? ==> InCode(m) && Run(m, r[i..e]) == Code)
            && (KindAt(r, i).Quoted? ==> InCode(m) && Step(m, r[i]) == Quote)
  {
    var e := SegmentEnd(r, i);
    var t := r[i..e];
    assert t[0] == r[i] && t[1..] == r[i + 1..e];
    match KindAt(r, i)
    case Quoted => QuotedRun(r, i + 1);
    case LineComment =>
      assert t[1..][0] == '-' && t[1..][1..] == r[i + 2..e];
      LineRun(r[i + 2..e]);
    case BlockComment =>
      assert t[1..][0] == '*' && t[1..][1..] == r[i + 2..e];
      BlockRun(r, i + 2, Block);
    case Parameter => DigitsRun(Code, r[i + 1..e]);
    case Other => assert t[1..] == [];
  }

  // ---- Substitution keeps the automaton in step ----

  /** The literal that takes the place of a parameter leaves code as code. */
  predicate Contained(m: Mode, lit: string) {
    Run(m, lit) == Code
  }

  /** Whether segment s, met in mode m, is replaced by a literal that leaves code. */
  predicate Breaks(m: Mode, s: Segment, lits: seq<string>) {
    s.kind.Parameter? && RenderOne(s, lits) != s.text && !Contained(m, RenderOne(s, lits))
  }

  /** The automaton has the same state after the first k segments of the query and of the result. */
  ghost predicate InStep(r: string, lits: seq<string>, k: nat) {
    k <= |Lex(r, 0)| && Run(Code, Render(Lex(r, 0)[..k], lits)) == Run(Code, Concat(Lex(r, 0)[..k]))
  }

  /** The automaton's state before segment k of the query. */
  function ModeBefore(r: string, k: nat): Mode
    requires k <= |Lex(r, 0)|
  {
    Run(Code, Concat(Lex(r, 0)[..k]))
  }

  lemma {:induction false} ConcatSnoc(a: seq<Segment>, s: Segment)
    ensures Concat(a + [s]) == Concat(a) + s.text
  {
    if a == [] {
      assert [s][1..] == [] && a + [s] == [s];
    } else {
      assert (a + [s])[1..] == a[1..] + [s];
      ConcatSnoc(a[1..], s);
    }
  }

  lemma {:induction false} RenderSnoc(a: seq<Segment>, s: Segment, lits: seq<string>)
    ensures Render(a + [s], lits) == Render(a, lits) + RenderOne(s, lits)
  {
    hide RenderOne;
    if a == [] {
      assert [s][1..] == [] && a + [s] == [s];
    } else {
      assert (a + [s])[1..] == a[1..] + [s];
      RenderSnoc(a[1..], s, lits);
    }
  }

  /** Where segment k starts. */
  lemma {:induction false} SegmentStart(r: string, i: nat, k: nat) returns (p: nat)
    requires i <= |r| && k < |Lex(r, i)|
    ensures i <= p < |r| && Lex(r, i)[k] == Segment(KindAt(r, p), r[p..SegmentEnd(r, p)])
    ensures Concat(Lex(r, i)[..k]) == r[i..p]
    decreases k
  {
    hide KindAt, SegmentEnd;
    if k == 0 {
      p := i;
    } else {
      var e := SegmentEnd(r, i);
      assert Lex(r, i)[1..] == Lex(r, e);
      p := SegmentStart(r, e, k - 1);
      assert Lex(r, i)[..k][1..] == Lex(r, e)[..k - 1];
      assert r[i..e] + r[e..p] == r[i..p];
    }
  }

  lemma {:induction false} FreshBefore(r: string, k: nat) returns (p: nat)
    requires k < |Lex(r, 0)|
    ensures p < |r| && Lex(r, 0)[k] == Segment(KindAt(r, p), r[p..SegmentEnd(r, p)])
    ensures Concat(Lex(r, 0)[..k]) == r[..p] && Fresh(ModeBefore(r, k), r, p)
    decreases k
  {
    hide KindAt, SegmentEnd, Lex;
    p := SegmentStart(r, 0, k);
    assert r[0..p] == r[..p];
    if k == 0 {
    } else {
      var q := FreshBefore(r, k - 1);
      var e := SegmentEnd(r, q);
      SegmentRun(r, q, ModeBefore(r, k - 1));
      assert Lex(r, 0)[..k] == Lex(r, 0)[..k - 1] + [Lex(r, 0)[k - 1]];
      ConcatSnoc(Lex(r, 0)[..k - 1], Lex(r, 0)[k - 1]);
      assert r[..q] + r[q..e] == r[..e];
      assert |r[..p]| == |r[..e]|;
      RunConcat(Code, r[..q], r[q..e]);
    }
  }

  lemma StepSegment(r: string, lits: seq<string>, k: nat)
    requires k < |Lex(r, 0)| && InStep(r, lits, k)
    ensures InStep(r, lits, k + 1) <==> !Breaks(ModeBefore(r, k), Lex(r, 0)[k], lits)
  {
    hide KindAt, SegmentEnd, Lex, RenderOne, Render, Concat;
    var segments := Lex(r, 0);
    var s, m := segments[k], ModeBefore(r, k);
    assert segments[..k + 1] == segments[..k] + [s];
    ConcatSnoc(segments[..k], s);
    RenderSnoc(segments[..k], s, lits);
    RunConcat(Code, Concat(segments[..k]), s.text);
    RunConcat(Code, Render(segments[..k], lits), RenderOne(s, lits));
    if s.kind.Parameter? {
      var p := FreshBefore(r, k);
      SegmentRun(r, p, m);
    } else {
      OtherRendersItself(s, lits);
    }
  }

  lemma OtherRendersItself(s: Segment, lits: seq<string>)
    requires !s.kind.Parameter?
    ensures RenderOne(s, lits) == s.text
  {
  }

  /**
   Substitution leaves the scanner in the same state after every segment exactly when no replaced
   parameter's literal leaves code from the state it is met in.
   */
  lemma {:induction false} SubstitutionInStep(r: string, lits: seq<string>)
    ensures (forall k :: 0 <= k <= |Lex(r, 0)| ==> InStep(r, lits, k))
       <==> forall k :: 0 <= k < |Lex(r, 0)| ==> !Breaks(ModeBefore(r, k), Lex(r, 0)[k], lits)
  {
    hide Lex, Breaks, InStep, ModeBefore;
    if forall k :: 0 <= k <= |Lex(r, 0)| ==> InStep(r, lits, k) {
      forall k | 0 <= k < |Lex(r, 0)| ensures !Breaks(ModeBefore(r, k), Lex(r, 0)[k], lits) {
        assert InStep(r, lits, k) && InStep(r, lits, k + 1);
        StepSegment(r, lits, k);
      }
    }
    if forall k :: 0 <= k < |Lex(r, 0)| ==> !Breaks(ModeBefore(r, k), Lex(r, 0)[k], lits) {
      forall k | 0 <= k <= |Lex(r, 0)| ensures InStep(r, lits, k) {
        InStepUpTo(r, lits, k);
      }
    }
  }

  lemma {:induction false} InStepUpTo(r: string, lits: seq<string>, k: nat)
    requires k <= |Lex(r, 0)|
    requires forall j :: 0 <= j < k ==> !Breaks(ModeBefore(r, j), Lex(r, 0)[j], lits)
    ensures InStep(r, lits, k)
    decreases k
  {
    hide Lex, Breaks, ModeBefore;
    if k == 0 {
      assert Lex(r, 0)[..0] == [];
    } else {
      InStepUpTo(r, lits, k - 1);
      StepSegment(r, lits, k - 1);
    }
  }

  // ---- The literals bindLiteral prints ----

  lemma {:induction false} DoubledRun(s: string)
    ensures Run(Quote, DoubleQuotes(s)) == Quote
  {
    if s != [] {
      DoubledRun(s[1..]);
      var head := if s[0] == '\'' then "''" else [s[0]];
      RunConcat(Quote, head, DoubleQuotes(s[1..]));
      assert head[1..] == if s[0] == '\'' then "'" else [];
      assert |head| == 2 ==> head[1..][1..] == [];
    }
  }

  /** A quoted literal is self-contained, whatever it quotes and whatever stands before it. */
  lemma QuotedContained(m: Mode, s: string)
    requires InCode(m)
    ensures Contained(m, QuoteLiteral(s))
  {
    var lit := QuoteLiteral(s);
    assert lit[0] == '\'' && lit[1..] == DoubleQuotes(s) + "'";
    DoubledRun(s);
    RunConcat(Quote, DoubleQuotes(s), "'");
    assert "'"[1..] == [];
  }

  predicate Plain(s: string) {
    forall c :: c in s ==> c != '\'' && c != '-' && c != '/'
  }

  lemma {:induction false} PlainRun(m: Mode, s: string)
    requires InCode(m) && Plain(s) && s != [] && !(m.Slash? && s[0] == '*')
    ensures Run(m, s) == Code
    decreases |s|
  {
    assert s[0] in s;
    if |s| > 1 {
      assert forall c :: c in s[1..] ==> c in s;
      PlainRun(Code, s[1..]);
    } else {
      assert s[1..] == [];
    }
  }

  lemma ExponentRun(s: string)
    requires IsExponent(s)
    ensures Run(Code, s) == Code
  {
    if s != [] {
      if IsDigits(s[1..]) {
        DigitsRun(Code, s[1..]);
      } else {
        assert s[1..][1..] == s[2..];
        DigitsRun(Step(Code, s[1]), s[2..]);
      }
    }
  }

  lemma FractionRun(s: string)
    requires IsFraction(s)
    ensures Run(Code, s) == Code
  {
    if s != [] && s[0] == '.' {
      var e := DigitsEnd(s, 1);
      assert s[1..] == s[1..e] + s[e..];
      RunConcat(Code, s[1..e], s[e..]);
      DigitsRun(Code, s[1..e]);
      ExponentRun(s[e..]);
    } else {
      ExponentRun(s);
    }
  }

  /** A bare decimal leaves code exactly when its minus sign meets another one. */
  lemma DecimalContained(m: Mode, s: string)
    requires InCode(m) && IsDecimal(s)
    ensures s != [] && (Contained(m, s) <==> !(m.Dash? && s[0] == '-'))
  {
    hide DigitsEnd, IsFraction, Run;
    var start := if s[0] in {'+', '-'} then 1 else 0;
    var e := DigitsEnd(s, start);
    if m.Dash? && s[0] == '-' {
      DecimalInComment(s);
    } else {
      var sign, body := s[..start], s[start..e];
      assert s == sign + (body + s[e..]);
      RunConcat(m, sign, body + s[e..]);
      var m1 := Run(m, sign);
      SignRun(m, sign);
      RunConcat(m1, body, s[e..]);
      DigitsRun(m1, body);
      FractionRun(s[e..]);
    }
  }

  lemma SignRun(m: Mode, sign: string)
    requires InCode(m) && |sign| <= 1 && (sign != [] ==> sign[0] in {'+', '-'} && !(m.Dash? && sign[0] == '-'))
    ensures InCode(Run(m, sign))
  {
    if sign != [] {
      assert sign[1..] == [];
    }
  }

  /** A second minus sign opens a line comment, and no decimal holds a line break to close it. */
  lemma DecimalInComment(s: string)
    requires IsDecimal(s) && s[0] == '-'
    ensures Run(Dash, s) == Line
  {
    var e := DigitsEnd(s, 1);
    DigitsHaveNoBreak(s[1..e]);
    FractionHasNoBreak(s[e..]);
    assert s[1..] == s[1..e] + s[e..];
    LineRun(s[1..]);
  }

  predicate NoBreak(s: string) {
    forall k :: 0 <= k < |s| ==> s[k] != '\n'
  }

  lemma DigitsHaveNoBreak(s: string)
    requires AllDigits(s)
    ensures NoBreak(s)
  {
    assert forall k :: 0 <= k < |s| ==> s[k] in s;
  }

  lemma FractionHasNoBreak(s: string)
    requires IsFraction(s)
    ensures NoBreak(s)
  {
    var rest := s;
    if s != [] && s[0] == '.' {
      rest := s[DigitsEnd(s, 1)..];
      DigitsHaveNoBreak(s[1..DigitsEnd(s, 1)]);
      assert s == [s[0]] + s[1..DigitsEnd(s, 1)] + rest;
    }
    if rest != [] {
      if IsDigits(rest[1..]) {
        DigitsHaveNoBreak(rest[1..]);
        assert rest == [rest[0]] + rest[1..];
      } else {
        DigitsHaveNoBreak(rest[2..]);
        assert rest == [rest[0], rest[1]] + rest[2..];
      }
    }
  }

  lemma QuotedCastContained(m: Mode, s: string, cast: string)
    requires InCode(m) && Plain(cast) && cast != [] && cast[0] == ':'
    ensures Contained(m, QuoteLiteral(s) + cast)
  {
    QuotedContained(m, s);
    RunConcat(m, QuoteLiteral(s), cast);
    PlainRun(Code, cast);
  }

  lemma QuoteStartsLiteral(s: string, cast: string)
    ensures QuoteLiteral(s) + cast != [] && (QuoteLiteral(s) + cast)[0] == '\''
  {
  }

  /**
   A value is never printed bare or cast unless it matches a whole pattern: bare decimals and
   Booleans, dates and timestamps quoted and cast, and everything else quoted.
   */
  lemma BindLiteralForm(v: string) returns (cast: string)
    ensures var lit, s := BindLiteral(v), TrimSpace(v);
            || (lit == s && IsDecimal(s))
            || (lit in {"true", "false"} && EqualFold(s, lit))
            || (lit == QuoteLiteral(s) + cast
                && (cast == "" || (cast == "::date" && IsDateOnly(s))
                    || (cast in {"::timestamptz", "::timestamp"} && IsTimestamp(s))))
  {
    hide IsDateOnly, StartsWithDate, IsDecimal, QuoteLiteral, SecondsEnd, TrimSpace, EqualFold;
    var s := TrimSpace(v);
    cast := "";
    if s == [] {
      EmptyLiteral();
    } else if IsDateOnly(s) {
      cast := "::date";
    } else if IsTimestamp(s) {
      cast := if s[SecondsEnd(s)..] != [] then "::timestamptz" else "::timestamp";
    }
    assert QuoteLiteral(s) + "" == QuoteLiteral(s);
  }

  /**
   Every literal bindLiteral prints is self-contained, next to anything that can stand before a
   parameter, except a negative number right after a minus sign.
   */
  lemma BindLiteralContained(m: Mode, v: string)
    requires InCode(m)
    ensures BindLiteral(v) != []
    ensures Contained(m, BindLiteral(v)) <==> !(m.Dash? && BindLiteral(v)[0] == '-')
  {
    hide IsDecimal, QuoteLiteral, Run, BindLiteral, TrimSpace, EqualFold, IsDateOnly, IsTimestamp;
    var cast := BindLiteralForm(v);
    var s, lit := TrimSpace(v), BindLiteral(v);
    if lit == s && IsDecimal(s) {
      DecimalContained(m, s);
    } else if lit in {"true", "false"} {
      PlainRun(m, lit);
    } else {
      QuoteStartsLiteral(s, cast);
      if cast == "" {
        QuotedContained(m, s);
        assert QuoteLiteral(s) + "" == QuoteLiteral(s);
      } else {
        QuotedCastContained(m, s, cast);
      }
    }
  }

  lemma EmptyLiteral()
    ensures QuoteLiteral([]) == "''"
  {
  }

  function PrintedBinds(binds: seq<string>): (lits: seq<string>)
    ensures |lits| == |binds|
    ensures forall i :: 0 <= i < |binds| ==> lits[i] == BindLiteral(binds[i])
  {
    seq(|binds|, i requires 0 <= i < |binds| => BindLiteral(binds[i]))
  }

  predicate StartsWithMinus(lit: string) {
    lit != [] && lit[0] == '-'
  }

  /** Segment k is a parameter right after a minus sign, bound to a negative number. */
  predicate MinusMeetsMinus(r: string, binds: seq<string>, k: nat)
    requires k < |Lex(r, 0)|
  {
    hide Lex, BindLiteral;
    var s := Lex(r, 0)[k];
    && s.kind.Parameter? && 1 <= Number(s) <= |binds|
    && ModeBefore(r, k).Dash? && StartsWithMinus(BindLiteral(binds[Number(s) - 1]))
  }

  /**
   Whole queries: substituting bind values leaves the scanner in the same state after every
   segment, even next to existing string literals, exactly when no negative number follows a
   minus sign.
   */
  lemma BindSubstitutionInStep(r: string, binds: seq<string>)
    ensures (forall k :: 0 <= k <= |Lex(r, 0)| ==> InStep(r, PrintedBinds(binds), k))
       <==> forall k :: 0 <= k < |Lex(r, 0)| ==> !MinusMeetsMinus(r, binds, k)
  {
    hide Lex, InStep, BindLiteral;
    var lits := PrintedBinds(binds);
    SubstitutionInStep(r, lits);
    forall k | 0 <= k < |Lex(r, 0)|
      ensures Breaks(ModeBefore(r, k), Lex(r, 0)[k], lits) <==> MinusMeetsMinus(r, binds, k)
    {
      BreaksWhen(r, binds, k);
    }
  }

  lemma BreaksWhen(r: string, binds: seq<string>, k: nat)
    requires k < |Lex(r, 0)|
    ensures Breaks(ModeBefore(r, k), Lex(r, 0)[k], PrintedBinds(binds)) <==> MinusMeetsMinus(r, binds, k)
  {
    hide Lex, BindLiteral, Run, KindAt, SegmentEnd, Number;
    var s, m, lits := Lex(r, 0)[k], ModeBefore(r, k), PrintedBinds(binds);
    if s.kind.Parameter? {
      var p := FreshBefore(r, k);
      SegmentRun(r, p, m);
      if 1 <= Number(s) <= |binds| {
        BindLiteralContained(m, binds[Number(s) - 1]);
      }
    }
  }

  /** `1-$1` with the bind `-5` becomes `1--5`, the rest of which is a comment. */
  lemma MinusNegativeIsComment()
    ensures Render(Lex("1-$1", 0), ["-5"]) == "1--5" && Run(Code, "1-$1") == Code && Run(Code, "1--5") == Line
  {
    hide Lex, Render, Run;
    LexOfMinus();
    RenderOfMinus();
    RunsOfMinus();
  }

  lemma LexOfMinus()
    ensures Lex("1-$1", 0) == [Segment(Other, "1"), Segment(Other, "-"), Segment(Parameter, "$1")]
  {
    var r := "1-$1";
    assert Lex(r, 4) == [];
    assert DigitsEnd(r, 3) == 4 && SegmentEnd(r, 2) == 4 && r[2..4] == "$1";
    assert Lex(r, 2) == [Segment(Parameter, "$1")];
    assert r[1..2] == "-" && Lex(r, 1) == [Segment(Other, "-"), Segment(Parameter, "$1")];
    assert r[0..1] == "1";
  }

  lemma RenderOfMinus()
    ensures Render([Segment(Other, "1"), Segment(Other, "-"), Segment(Parameter, "$1")], ["-5"]) == "1--5"
  {
    var segments := [Segment(Other, "1"), Segment(Other, "-"), Segment(Parameter, "$1")];
    assert "$1"[1..] == "1" && Number(Segment(Parameter, "$1")) == 1;
    assert segments[1..] == [Segment(Other, "-"), Segment(Parameter, "$1")];
    assert segments[1..][1..] == [Segment(Parameter, "$1")];
    assert segments[1..][1..][1..] == [];
  }

  lemma RunsOfMinus()
    ensures Run(Code, "1-$1") == Code && Run(Code, "1--5") == Line
  {
    RunConcat(Code, "1-", "$1");
    RunConcat(Code, "1-", "-5");
    assert "1-" + "$1" == "1-$1" && "1-" + "-5" == "1--5";
    assert "1-"[1..] == "-" && "-"[1..] == [] && "-5"[1..] == "5" && "5"[1..] == [] && "1"[1..] == []
      && "$1"[1..] == "1";
  }
}
