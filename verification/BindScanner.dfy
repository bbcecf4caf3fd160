/**
 The bind substituter's two hand-written scanners, over one lexing of the query text into quoted
 strings, comments, parameters and other characters.
 */
module BindScanner {
  import opened Text

  datatype Kind = Quoted | LineComment | BlockComment | Parameter | Other

  datatype Segment = Segment(kind: Kind, text: string)

  // ---- Where a segment ends ----

  /** The end of a quoted string, scanning from inside it; a doubled quote does not end it. */
  function QuotedEnd(r: string, i: nat): (e: nat)
    requires i <= |r|
    ensures i <= e <= |r|
    decreases |r| - i
  {
    if i == |r| then i
    else if r[i] != '\'' then QuotedEnd(r, i + 1)
    else if i + 1 < |r| && r[i + 1] == '\'' then QuotedEnd(r, i + 2)
    else i + 1
  }

  function LineEnd(r: string, i: nat): (e: nat)
    requires i <= |r|
    ensures i <= e <= |r|
    ensures e < |r| ==> r[e] == '\n'
    ensures forall k :: i <= k < e ==> r[k] != '\n'
    decreases |r| - i
  {
    if i == |r| || r[i] == '\n' then i else LineEnd(r, i + 1)
  }

  function BlockEnd(r: string, i: nat): (e: nat)
    requires i <= |r|
    ensures i <= e <= |r|
    decreases |r| - i
  {
    if i == |r| then i
    else if r[i] == '*' && i + 1 < |r| && r[i + 1] == '/' then i + 2
    else BlockEnd(r, i + 1)
  }

  function DigitsEnd(r: string, i: nat): (e: nat)
    requires i <= |r|
    ensures i <= e <= |r|
    ensures forall k :: i <= k < e ==> IsDigit(r[k])
    ensures e < |r| ==> !IsDigit(r[e])
    decreases |r| - i
  {
    if i == |r| || !IsDigit(r[i]) then i else DigitsEnd(r, i + 1)
  }

  predicate StartsPair(r: string, i: nat, a: char, b: char) {
    i + 1 < |r| && r[i] == a && r[i + 1] == b
  }

  /** A `$` followed by a digit other than 0. */
  predicate StartsParameter(r: string, i: nat) {
    i + 1 < |r| && r[i] == '$' && '1' <= r[i + 1] <= '9'
  }

  function KindAt(r: string, i: nat): Kind
    requires i < |r|
  {
    if r[i] == '\'' then Quoted
    else if StartsPair(r, i, '-', '-') then LineComment
    else if StartsPair(r, i, '/', '*') then BlockComment
    else if StartsParameter(r, i) then Parameter
    else Other
  }

  function SegmentEnd(r: string, i: nat): (e: nat)
    requires i < |r|
    ensures i < e <= |r|
  {
    match KindAt(r, i)
    case Quoted => QuotedEnd(r, i + 1)
    case LineComment => LineEnd(r, i)
    case BlockComment => BlockEnd(r, i + 2)
    case Parameter => DigitsEnd(r, i + 1)
    case Other => i + 1
  }

  function Lex(r: string, i: nat): seq<Segment>
    requires i <= |r|
    decreases |r| - i
  {
    if i == |r| then []
    else [Segment(KindAt(r, i), r[i..SegmentEnd(r, i)])] + Lex(r, SegmentEnd(r, i))
  }

  function Concat(segments: seq<Segment>): string {
    if segments == [] then "" else segments[0].text + Concat(segments[1..])
  }

  /** The lexing loses nothing, for every input. */
  lemma {:induction false} LexLossless(r: string, i: nat)
    requires i <= |r|
    ensures Concat(Lex(r, i)) == r[i..]
    decreases |r| - i
  {
    if i < |r| {
      var e := SegmentEnd(r, i);
      LexLossless(r, e);
      assert Lex(r, i)[1..] == Lex(r, e);
      assert r[i..e] + r[e..] == r[i..];
    }
  }

  // ---- Replacing parameters ----

  /** The number of a parameter segment. */
  function Number(s: Segment): nat {
    if s.text != "" && AllDigits(s.text[1..]) then Digits(s.text[1..]) else 0
  }

  function RenderOne(s: Segment, lits: seq<string>): string {
    if s.kind.Parameter? && 1 <= Number(s) <= |lits| then lits[Number(s) - 1] else s.text
  }

  /** Only parameter segments are replaced. */
  function Render(segments: seq<Segment>, lits: seq<string>): string {
    if segments == [] then "" else RenderOne(segments[0], lits) + Render(segments[1..], lits)
  }

  predicate Survives(k: Kind) {
    k.Parameter? || k.Other?
  }

  /** Quoted strings and comments go, everything else stays. */
  function Strip(segments: seq<Segment>): string {
    if segments == [] then ""
    else (if Survives(segments[0].kind) then segments[0].text else "") + Strip(segments[1..])
  }

  /** param_subst.go, replaceDollarParams: rendering the segments. */
  method ReplaceDollarParams(r: string, lits: seq<string>) returns (b: string)
    ensures b == Render(Lex(r, 0), lits)
  {
    hide SegmentEnd, KindAt, RenderOne, Lex, Render;
    LexEnd(r, lits);
    b := "";
    var i := 0;
    while i < |r|
      invariant 0 <= i <= |r|
      invariant b + Render(Lex(r, i), lits) == Render(Lex(r, 0), lits)
      decreases |r| - i
    {
      UnfoldRender(r, i, lits);
      b, i := CopySegment(r, i, lits, b);
    }
  }

  /** The switch in the loop of replaceDollarParams. */
  method CopySegment(r: string, i: nat, lits: seq<string>, before: string) returns (b: string, next: nat)
    requires i < |r|
    ensures next == SegmentEnd(r, i)
    ensures b == before + RenderOne(Segment(KindAt(r, i), r[i..next]), lits)
  {
    hide Number, QuotedEnd, BlockEnd, LineEnd, DigitsEnd;
    if r[i] == '\'' {
      b, next := CopyQuoted(r, i, before);
    } else if StartsPair(r, i, '-', '-') {
      b, next := CopyLine(r, i, before);
    } else if StartsPair(r, i, '/', '*') {
      b, next := CopyBlock(r, i, before);
    } else if StartsParameter(r, i) {
      next := ScanDigits(r, i + 1);
      var num := ParameterNumber(r[i + 1..next]);
      b := before + if 1 <= num <= |lits| then lits[num - 1] else r[i..next];
      NumberOfSlice(r, i, next);
    } else {
      b, next := before + [r[i]], i + 1;
    }
  }

  function ParameterNumber(digits: string): nat {
    if AllDigits(digits) then Digits(digits) else 0
  }

  /** `$10` is parameter 10. */
  lemma NumberOfDecimal(n: nat)
    ensures Number(Segment(Parameter, "$" + Decimal(n))) == n
  {
    DigitsOfDecimal(n);
    assert ("$" + Decimal(n))[1..] == Decimal(n);
  }

  /** A dollar sign and a positive number, up to the next character that is no digit, is one parameter. */
  lemma ParameterIsLexed(n: nat, rest: string)
    requires n > 0 && (rest == "" || !IsDigit(rest[0]))
    ensures Lex("$" + Decimal(n) + rest, 0)
         == [Segment(Parameter, "$" + Decimal(n))] + Lex("$" + Decimal(n) + rest, |Decimal(n)| + 1)
  {
    hide Decimal, Digits, DigitsEnd, Lex;
    var r, digits := "$" + Decimal(n) + rest, Decimal(n);
    DigitsOfDecimal(n);
    PositiveFirst(n);
    assert r[0] == '$' && r[1] == digits[0];
    assert KindAt(r, 0) == Parameter;
    assert forall k :: 1 <= k < 1 + |digits| ==> r[k] == digits[k - 1] && digits[k - 1] in digits;
    assert 1 + |digits| < |r| ==> r[1 + |digits|] == rest[0];
    assert DigitsEnd(r, 1) == 1 + |digits|;
    assert r[0..1 + |digits|] == "$" + digits;
    FirstOfLex(r);
  }

  lemma FirstOfLex(r: string)
    requires r != ""
    ensures var e := SegmentEnd(r, 0); Lex(r, 0) == [Segment(KindAt(r, 0), r[0..e])] + Lex(r, e)
  {
    hide KindAt, SegmentEnd;
  }

  lemma {:induction false} PositiveFirst(n: nat)
    requires n > 0
    ensures Decimal(n) != [] && '1' <= Decimal(n)[0] <= '9'
  {
    if n >= 10 { PositiveFirst(n / 10); }
  }

  lemma NumberOfSlice(r: string, i: nat, j: nat)
    requires i < j <= |r|
    ensures Number(Segment(Parameter, r[i..j])) == ParameterNumber(r[i + 1..j])
  {
    assert r[i..j][1..] == r[i + 1..j];
  }

  lemma LexEnd(r: string, lits: seq<string>)
    ensures Render(Lex(r, |r|), lits) == "" && Strip(Lex(r, |r|)) == ""
  {
  }

  lemma UnfoldRender(r: string, i: nat, lits: seq<string>)
    requires i < |r|
    ensures var e := SegmentEnd(r, i);
            Render(Lex(r, i), lits) == RenderOne(Segment(KindAt(r, i), r[i..e]), lits) + Render(Lex(r, e), lits)
  {
    hide SegmentEnd, KindAt, RenderOne;
    assert Lex(r, i)[1..] == Lex(r, SegmentEnd(r, i));
  }

  method ScanDigits(r: string, i: nat) returns (j: nat)
    requires i <= |r|
    ensures j == DigitsEnd(r, i)
  {
    j := i;
    while j < |r| && IsDigit(r[j])
      invariant i <= j <= |r| && DigitsEnd(r, j) == DigitsEnd(r, i)
    {
      j := j + 1;
    }
  }

  method CopyQuoted(r: string, start: nat, before: string) returns (b: string, i: nat)
    requires start < |r| && r[start] == '\''
    ensures i == QuotedEnd(r, start + 1) && b == before + r[start..i]
  {
    b := before + [r[start]];
    i := start + 1;
    while i < |r|
      invariant start < i <= |r| && b == before + r[start..i]
      invariant QuotedEnd(r, i) == QuotedEnd(r, start + 1)
    {
      b := b + [r[i]];
      assert r[start..i + 1] == r[start..i] + [r[i]];
      if r[i] == '\'' {
        if i + 1 < |r| && r[i + 1] == '\'' {
          b := b + [r[i + 1]];
          assert r[start..i + 2] == r[start..i + 1] + [r[i + 1]];
          i := i + 2;
          continue;
        }
        i := i + 1;
        return;
      }
      i := i + 1;
    }
  }

  method CopyLine(r: string, start: nat, before: string) returns (b: string, i: nat)
    requires start < |r|
    ensures i == LineEnd(r, start) && b == before + r[start..i]
  {
    b, i := before, start;
    while i < |r| && r[i] != '\n'
      invariant start <= i <= |r| && b == before + r[start..i]
      invariant LineEnd(r, i) == LineEnd(r, start)
    {
      b := b + [r[i]];
      assert r[start..i + 1] == r[start..i] + [r[i]];
      i := i + 1;
    }
  }

  method CopyBlock(r: string, start: nat, before: string) returns (b: string, i: nat)
    requires StartsPair(r, start, '/', '*')
    ensures i == BlockEnd(r, start + 2) && b == before + r[start..i]
  {
    b := before + [r[start]] + [r[start + 1]];
    i := start + 2;
    while i < |r|
      invariant start + 2 <= i <= |r| && b == before + r[start..i]
      invariant BlockEnd(r, i) == BlockEnd(r, start + 2)
    {
      b := b + [r[i]];
      assert r[start..i + 1] == r[start..i] + [r[i]];
      if r[i] == '*' && i + 1 < |r| && r[i + 1] == '/' {
        b := b + [r[i + 1]];
        assert r[start..i + 2] == r[start..i + 1] + [r[i + 1]];
        i := i + 2;
        return;
      }
      i := i + 1;
    }
  }

  /** param_subst.go, stripQuotedAndComments: the same scan without writing. */
  method StripQuotedAndComments(r: string) returns (b: string)
    ensures b == Strip(Lex(r, 0))
  {
    hide QuotedEnd, BlockEnd, LineEnd, DigitsEnd, Lex, Strip;
    LexEnd(r, []);
    b := "";
    var i := 0;
    while i < |r|
      invariant 0 <= i <= |r|
      invariant b + Strip(Lex(r, i)) == Strip(Lex(r, 0))
    {
      if r[i] == '\'' {
        UnfoldStrip(r, i);
        i := SkipQuoted(r, i + 1);
      } else if StartsPair(r, i, '-', '-') {
        UnfoldStrip(r, i);
        i := SkipLine(r, i);
      } else if StartsPair(r, i, '/', '*') {
        UnfoldStrip(r, i);
        i := SkipBlock(r, i + 2);
      } else {
        OneCharacter(r, i);
        b := b + [r[i]];
        i := i + 1;
      }
    }
  }

  lemma UnfoldStrip(r: string, i: nat)
    requires i < |r|
    ensures var e := SegmentEnd(r, i);
            Strip(Lex(r, i)) == (if Survives(KindAt(r, i)) then r[i..e] else "") + Strip(Lex(r, e))
  {
    hide SegmentEnd, KindAt;
    assert Lex(r, i)[1..] == Lex(r, SegmentEnd(r, i));
  }

  /** Stripping character by character is stripping segment by segment: digits stand for themselves. */
  lemma OneCharacter(r: string, i: nat)
    requires i < |r| && Survives(KindAt(r, i))
    ensures Strip(Lex(r, i)) == [r[i]] + Strip(Lex(r, i + 1))
  {
    hide Lex, Strip, KindAt, SegmentEnd, DigitsEnd;
    UnfoldStrip(r, i);
    SurvivorEnd(r, i);
    var e := SegmentEnd(r, i);
    assert r[i..e] == [r[i]] + r[i + 1..e];
    if KindAt(r, i).Parameter? {
      DigitsStrip(r, i + 1);
    }
  }

  lemma SurvivorEnd(r: string, i: nat)
    requires i < |r| && Survives(KindAt(r, i))
    ensures SegmentEnd(r, i) == if KindAt(r, i).Parameter? then DigitsEnd(r, i + 1) else i + 1
  {
    hide QuotedEnd, BlockEnd, LineEnd, DigitsEnd, KindAt;
  }

  lemma {:induction false} DigitsStrip(r: string, i: nat)
    requires i <= |r|
    ensures Strip(Lex(r, i)) == r[i..DigitsEnd(r, i)] + Strip(Lex(r, DigitsEnd(r, i)))
    decreases |r| - i
  {
    hide Lex, Strip;
    if i < |r| && IsDigit(r[i]) {
      UnfoldStrip(r, i);
      DigitsStrip(r, i + 1);
      assert r[i..i + 1] + r[i + 1..DigitsEnd(r, i)] == r[i..DigitsEnd(r, i)];
    }
  }

  method SkipQuoted(r: string, start: nat) returns (i: nat)
    requires start <= |r|
    ensures i == QuotedEnd(r, start)
  {
    i := start;
    while i < |r|
      invariant start <= i <= |r| && QuotedEnd(r, i) == QuotedEnd(r, start)
    {
      if r[i] == '\'' {
        if i + 1 < |r| && r[i + 1] == '\'' {
          i := i + 2;
          continue;
        }
        i := i + 1;
        return;
      }
      i := i + 1;
    }
  }

  method SkipLine(r: string, start: nat) returns (i: nat)
    requires start <= |r|
    ensures i == LineEnd(r, start)
  {
    i := start;
    while i < |r| && r[i] != '\n'
      invariant start <= i <= |r| && LineEnd(r, i) == LineEnd(r, start)
    {
      i := i + 1;
    }
  }

  method SkipBlock(r: string, start: nat) returns (i: nat)
    requires start <= |r|
    ensures i == BlockEnd(r, start)
  {
    i := start;
    while i < |r|
      invariant start <= i <= |r| && BlockEnd(r, i) == BlockEnd(r, start)
    {
      if r[i] == '*' && i + 1 < |r| && r[i + 1] == '/' {
        i := i + 2;
        return;
      }
      i := i + 1;
    }
  }

  // ---- The highest parameter number ----

  /** The largest number among the matches of `\$[1-9]\d*` in s from position i on. */
  function MaxNumber(s: string, i: nat): nat
    requires i <= |s|
    decreases |s| - i
  {
    if i == |s| then 0
    else if StartsParameter(s, i) then
      var e := DigitsEnd(s, i + 1);
      var n, rest := ParameterNumber(s[i + 1..e]), MaxNumber(s, e);
      if n > rest then n else rest
    else MaxNumber(s, i + 1)
  }

  function MaxParamNumber(r: string): nat {
    MaxNumber(Strip(Lex(r, 0)), 0)
  }

  /** param_subst.go, maxParamNumber: the loop over the matches. */
  method MaxParam(r: string) returns (max: nat)
    ensures max == MaxParamNumber(r)
  {
    var s := StripQuotedAndComments(r);
    max := 0;
    var i := 0;
    while i < |s|
      invariant 0 <= i <= |s|
      invariant MaxNumber(s, 0) == if MaxNumber(s, i) > max then MaxNumber(s, i) else max
    {
      if StartsParameter(s, i) {
        var j := ScanDigits(s, i + 1);
        var v := ParameterNumber(s[i + 1..j]);
        if v > max {
          max := v;
        }
        i := j;
      } else {
        i := i + 1;
      }
    }
  }

  lemma {:induction false} MaxNumberCovers(s: string, i: nat, p: nat)
    requires i <= p < |s| && StartsParameter(s, p)
    ensures MaxNumber(s, i) >= ParameterNumber(s[p + 1..DigitsEnd(s, p + 1)])
    decreases |s| - i
  {
    if i < p {
      if StartsParameter(s, i) {
        assert !IsDigit(s[p]);
        MaxNumberCovers(s, DigitsEnd(s, i + 1), p);
      } else {
        MaxNumberCovers(s, i + 1, p);
      }
    }
  }

  /** A positive maximum is the number of some match. */
  lemma {:induction false} MaxNumberAttained(s: string, i: nat) returns (p: nat)
    requires i <= |s| && MaxNumber(s, i) > 0
    ensures i <= p < |s| && StartsParameter(s, p)
    ensures MaxNumber(s, i) == ParameterNumber(s[p + 1..DigitsEnd(s, p + 1)])
    decreases |s| - i
  {
    if StartsParameter(s, i) {
      var e := DigitsEnd(s, i + 1);
      p := i;
      if ParameterNumber(s[i + 1..e]) <= MaxNumber(s, e) && MaxNumber(s, e) > 0 {
        p := MaxNumberAttained(s, e);
      }
    } else {
      p := MaxNumberAttained(s, i + 1);
    }
  }

  lemma {:induction false} MoreDigitsMore(a: string, b: string)
    requires AllDigits(a) && AllDigits(a + b)
    ensures Digits(a) <= Digits(a + b)
    decreases |b|
  {
    if b == [] {
      assert a + b == a;
    } else {
      var front := b[..|b| - 1];
      assert (a + b)[..|a + b| - 1] == a + front;
      assert AllDigits(a + front) by {
        assert forall k :: 0 <= k < |a + front| ==> (a + front)[k] == (a + b)[k];
      }
      assert IsDigit((a + b)[|a + b| - 1]);
      MoreDigitsMore(a, front);
    }
  }

  lemma {:induction false} StripConcat(a: seq<Segment>, b: seq<Segment>)
    ensures Strip(a + b) == Strip(a) + Strip(b)
  {
    if a == [] {
      assert a + b == b;
    } else {
      assert (a + b)[1..] == a[1..] + b;
      StripConcat(a[1..], b);
    }
  }

  /** A parameter segment is `$`, a digit other than 0 and more digits. */
  lemma {:induction false} ParameterShape(r: string, i: nat, k: nat)
    requires i <= |r| && k < |Lex(r, i)| && Lex(r, i)[k].kind.Parameter?
    ensures var t := Lex(r, i)[k].text;
            |t| >= 2 && t[0] == '$' && '1' <= t[1] <= '9' && AllDigits(t[1..])
    decreases k
  {
    if k == 0 {
      var e := SegmentEnd(r, i);
      assert r[i..e][1..] == r[i + 1..e];
      assert AllDigits(r[i + 1..e]);
    } else {
      assert Lex(r, i)[1..] == Lex(r, SegmentEnd(r, i));
      ParameterShape(r, SegmentEnd(r, i), k - 1);
    }
  }

  /** maxParamNumber is at least the number of every parameter the replacer meets. */
  lemma MaxParamCovers(r: string, k: nat)
    requires k < |Lex(r, 0)| && Lex(r, 0)[k].kind.Parameter?
    ensures 1 <= Number(Lex(r, 0)[k]) <= MaxParamNumber(r)
  {
    hide Lex, Strip, MaxNumber, DigitsEnd, Digits, AllDigits;
    var segments := Lex(r, 0);
    var t := segments[k].text;
    var head, tail := Strip(segments[..k]), Strip(segments[k + 1..]);
    var s := Strip(segments);
    ParameterShape(r, 0, k);
    StripAround(segments, k);
    var p := |head|;
    assert s[p..] == t + tail;
    assert s[p] == t[0] && s[p + 1] == t[1];
    assert s[p + 1..] == t[1..] + tail;
    MaxNumberCovers(s, 0, p);
    DigitsReach(s, p + 1, t[1..], tail);
    PositiveDigits(t[1..]);
  }

  lemma StripAround(segments: seq<Segment>, k: nat)
    requires k < |segments| && Survives(segments[k].kind)
    ensures Strip(segments) == Strip(segments[..k]) + (segments[k].text + Strip(segments[k + 1..]))
  {
    assert segments == segments[..k] + segments[k..];
    assert segments[k..][1..] == segments[k + 1..];
    StripConcat(segments[..k], segments[k..]);
  }

  lemma PositiveDigits(digits: string)
    requires digits != [] && AllDigits(digits) && digits[0] != '0'
    ensures Digits(digits) >= 1
  {
    assert IsDigit(digits[0]);
    assert digits == [digits[0]] + digits[1..];
    assert [digits[0]][..0] == [] && Digits([digits[0]]) >= 1;
    MoreDigitsMore([digits[0]], digits[1..]);
  }

  lemma DigitsReach(s: string, p: nat, digits: string, tail: string)
    requires p <= |s| && s[p..] == digits + tail && AllDigits(digits)
    ensures ParameterNumber(s[p..DigitsEnd(s, p)]) >= Digits(digits)
  {
    var e := DigitsEnd(s, p);
    assert forall k :: p <= k < p + |digits| ==> s[k] == s[p..][k - p] == digits[k - p];
    assert forall k :: p <= k < p + |digits| ==> IsDigit(s[k]);
    var more := s[p + |digits|..e];
    assert s[p..e] == digits + more by {
      assert s[p..p + |digits|] == digits;
    }
    assert AllDigits(s[p..e]);
    MoreDigitsMore(digits, more);
  }

  /** With as many literals as maxParamNumber asks for, no parameter segment is left unreplaced. */
  lemma NoParameterLeft(r: string, lits: seq<string>, k: nat)
    requires |lits| >= MaxParamNumber(r) && k < |Lex(r, 0)| && Lex(r, 0)[k].kind.Parameter?
    ensures 1 <= Number(Lex(r, 0)[k]) <= |lits|
    ensures RenderOne(Lex(r, 0)[k], lits) == lits[Number(Lex(r, 0)[k]) - 1]
  {
    MaxParamCovers(r, k);
  }
}
