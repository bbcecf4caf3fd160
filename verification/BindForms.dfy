/**
 Which literal a bind value is printed as, read off its text: the patterns are written out as
 concatenations, apart from the position scans that recognise them.
 */
module BindForms {
  import opened Text
  import opened BindScanner
  import opened BindLiterals

  // ---- The patterns as concatenations ----

  predicate IsSign(s: string) {
    s == "+" || s == "-"
  }

  /** `\.\d+` or nothing. */
  predicate FractionPart(s: string) {
    s == "" || (s[0] == '.' && IsDigits(s[1..]))
  }

  /** `[eE][+-]?\d+` or nothing. */
  predicate ExponentPart(s: string) {
    || s == ""
    || ((s[0] == 'e' || s[0] == 'E')
        && (IsDigits(s[1..]) || (|s| > 1 && IsSign(s[1..2]) && IsDigits(s[2..]))))
  }

  ghost predicate DecimalOf(s: string, sign: string, whole: string, fraction: string, exponent: string) {
    && s == sign + whole + fraction + exponent
    && (sign == "" || IsSign(sign)) && IsDigits(whole) && FractionPart(fraction) && ExponentPart(exponent)
  }

  /** A sign, digits, a fraction and an exponent, all but the digits optional. */
  ghost predicate DecimalText(s: string) {
    exists sign, whole, fraction, exponent :: DecimalOf(s, sign, whole, fraction, exponent)
  }

  /** Four digits, two and two, with hyphens between them. */
  predicate DateText(s: string) {
    && |s| == 10 && AllDigits(s[..4]) && s[4] == '-' && AllDigits(s[5..7]) && s[7] == '-' && AllDigits(s[8..])
  }

  /** Hours and minutes. */
  predicate ClockText(s: string) {
    |s| == 5 && AllDigits(s[..2]) && s[2] == ':' && AllDigits(s[3..])
  }

  /** Nothing, seconds, or seconds with one to six digits of a fraction. */
  predicate SecondsPart(s: string) {
    || s == ""
    || (|s| == 3 && s[0] == ':' && AllDigits(s[1..]))
    || (5 <= |s| <= 10 && s[0] == ':' && AllDigits(s[1..3]) && s[3] == '.' && AllDigits(s[4..]))
  }

  /** `Z`, or a sign and two digits, four digits, or two and two with a colon. */
  predicate ZoneText(s: string) {
    || s == "Z"
    || (|s| == 3 && IsSign(s[..1]) && AllDigits(s[1..]))
    || (|s| == 5 && IsSign(s[..1]) && AllDigits(s[1..]))
    || (|s| == 6 && IsSign(s[..1]) && AllDigits(s[1..3]) && s[3] == ':' && AllDigits(s[4..]))
  }

  predicate MomentOf(s: string, date: string, between: string, clock: string, seconds: string, zone: string) {
    && s == date + between + clock + seconds + zone
    && DateText(date) && (between == " " || between == "T") && ClockText(clock) && SecondsPart(seconds)
  }

  /** A date, a blank or `T`, and a time of day, without a zone. */
  ghost predicate LocalText(s: string) {
    exists date, between, clock, seconds :: MomentOf(s, date, between, clock, seconds, "")
  }

  /** The same with a zone behind it. */
  ghost predicate ZonedText(s: string) {
    exists date, between, clock, seconds, zone ::
      MomentOf(s, date, between, clock, seconds, zone) && ZoneText(zone)
  }

  // ---- Scans and concatenations agree ----

  lemma DigitsEndAt(s: string, i: nat, j: nat)
    requires i <= j <= |s| && AllDigits(s[i..j]) && (j == |s| || !IsDigit(s[j]))
    ensures DigitsEnd(s, i) == j
  {
    var e := DigitsEnd(s, i);
    assert forall k :: i <= k < j ==> s[k] == s[i..j][k - i] && s[k] in s[i..j];
  }

  lemma DigitsEndDigits(s: string, i: nat)
    requires i <= |s|
    ensures AllDigits(s[i..DigitsEnd(s, i)])
  {
  }

  lemma ExponentIff(s: string)
    ensures IsExponent(s) <==> ExponentPart(s)
    ensures ExponentPart(s) && s != "" ==> !IsDigit(s[0]) && s[0] != '.'
  {
    if |s| > 1 {
      assert s[1..2] == [s[1]];
      assert IsSign(s[1..2]) <==> s[1] in {'+', '-'};
    }
  }

  lemma FractionIff(s: string)
    ensures IsFraction(s) <==>
            exists fraction, exponent :: s == fraction + exponent && FractionPart(fraction) && ExponentPart(exponent)
  {
    if IsFraction(s) {
      FractionSplits(s);
    }
    if fraction, exponent :| s == fraction + exponent && FractionPart(fraction) && ExponentPart(exponent) {
      FractionJoins(fraction, exponent);
    }
  }

  lemma FractionSplits(s: string)
    requires IsFraction(s)
    ensures exists fraction, exponent :: s == fraction + exponent && FractionPart(fraction) && ExponentPart(exponent)
  {
    hide IsExponent, ExponentPart;
    var e := if s != [] && s[0] == '.' then DigitsEnd(s, 1) else 0;
    ExponentIff(s[e..]);
    assert s == s[..e] + s[e..];
    if e > 0 {
      DigitsEndDigits(s, 1);
      assert s[..e][1..] == s[1..e] && s[..e][0] == '.';
    }
    assert FractionPart(s[..e]) && ExponentPart(s[e..]);
  }

  lemma FractionJoins(fraction: string, exponent: string)
    requires FractionPart(fraction) && ExponentPart(exponent)
    ensures IsFraction(fraction + exponent)
  {
    hide IsExponent, ExponentPart;
    var s := fraction + exponent;
    ExponentIff(exponent);
    if fraction == "" {
      assert s == exponent;
    } else {
      assert s[1..|fraction|] == fraction[1..];
      assert |fraction| < |s| ==> s[|fraction|] == exponent[0];
      DigitsEndAt(s, 1, |fraction|);
      assert s[|fraction|..] == exponent;
    }
  }

  /** decimalRe matches exactly the decimals. */
  lemma DecimalIff(s: string)
    ensures IsDecimal(s) <==> DecimalText(s)
  {
    if IsDecimal(s) {
      DecimalSplits(s);
    }
    if DecimalText(s) {
      var sign, whole, fraction, exponent :| DecimalOf(s, sign, whole, fraction, exponent);
      DecimalJoins(sign, whole, fraction, exponent);
    }
  }

  lemma DecimalSplits(s: string)
    requires IsDecimal(s)
    ensures DecimalText(s)
  {
    hide IsFraction, FractionPart, ExponentPart, DecimalText;
    var start := if s != [] && s[0] in {'+', '-'} then 1 else 0;
    var e := DigitsEnd(s, start);
    DigitsEndDigits(s, start);
    FractionIff(s[e..]);
    var fraction, exponent :| s[e..] == fraction + exponent && FractionPart(fraction) && ExponentPart(exponent);
    var sign, whole := s[..start], s[start..e];
    assert s == sign + whole + s[e..];
    DecimalIsText(s, sign, whole, fraction, exponent);
  }

  lemma DecimalIsText(s: string, sign: string, whole: string, fraction: string, exponent: string)
    requires s == sign + whole + (fraction + exponent)
    requires (sign == "" || IsSign(sign)) && IsDigits(whole) && FractionPart(fraction) && ExponentPart(exponent)
    ensures DecimalText(s)
  {
    hide FractionPart, ExponentPart, IsSign, IsDigits;
    assert s == sign + whole + fraction + exponent;
    assert DecimalOf(s, sign, whole, fraction, exponent);
  }

  lemma DecimalJoins(sign: string, whole: string, fraction: string, exponent: string)
    requires DecimalOf(sign + whole + fraction + exponent, sign, whole, fraction, exponent)
    ensures IsDecimal(sign + whole + fraction + exponent)
  {
    hide IsFraction, ExponentPart, IsExponent, IsDecimal;
    var rest := fraction + exponent;
    FractionIff(rest);
    ExponentIff(exponent);
    assert fraction != "" ==> rest[0] == fraction[0];
    assert fraction == "" ==> rest == exponent;
    assert sign + whole + fraction + exponent == sign + whole + rest;
    DecimalScan(sign, whole, rest);
  }

  lemma DecimalScan(sign: string, whole: string, rest: string)
    requires (sign == "" || IsSign(sign)) && IsDigits(whole) && IsFraction(rest) && (rest == "" || !IsDigit(rest[0]))
    ensures IsDecimal(sign + whole + rest)
  {
    hide IsFraction;
    var s := sign + whole + rest;
    var start, e := |sign|, |sign| + |whole|;
    assert s[start..e] == whole && s[e..] == rest;
    assert sign != "" ==> s[0] == sign[0];
    assert whole[0] in whole && s[start] == whole[0];
    assert e < |s| ==> s[e] == rest[0];
    DigitsEndAt(s, start, e);
  }

  /** dateOnlyRe matches exactly the dates. */
  lemma DateIff(s: string)
    ensures IsDateOnly(s) <==> DateText(s)
    ensures |s| >= 10 ==> (StartsWithDate(s) <==> DateText(s[..10]))
  {
    if |s| >= 10 {
      var d := s[..10];
      assert d[..4] == s[0..4] && d[5..7] == s[5..7] && d[8..] == s[8..10];
      assert |s| == 10 ==> d == s;
    }
  }

  lemma ZoneIff(s: string)
    ensures IsZone(s) <==> ZoneText(s)
  {
    if |s| >= 3 {
      assert IsSign(s[..1]) <==> s[0] in {'+', '-'} by { assert s[..1] == [s[0]]; }
      assert |s| == 3 ==> s[1..] == s[1..3];
      assert |s| == 5 ==> s[1..] == s[1..3] + s[3..5];
      assert |s| == 6 ==> s[4..] == s[4..6];
    }
  }

  /** What can stand where the seconds end. */
  lemma ZoneStart(zone: string)
    requires zone == "" || ZoneText(zone)
    ensures zone != "" ==> zone[0] in {'Z', '+', '-'}
  {
    assert zone != "" ==> zone[..1] == [zone[0]];
  }

  /** The scan for the seconds stops where the seconds stop. */
  lemma SecondsScan(head: string, seconds: string, zone: string)
    requires |head| == 16 && SecondsPart(seconds) && (zone == "" || ZoneText(zone))
    ensures SecondsEnd(head + seconds + zone) == 16 + |seconds|
  {
    hide ZoneText;
    ZoneStart(zone);
    var s := head + seconds + zone;
    assert s[16..16 + |seconds|] == seconds && s[16 + |seconds|..] == zone;
    assert zone != "" ==> s[16 + |seconds|] == zone[0];
    if seconds != "" {
      assert s[16] == seconds[0] && s[17..19] == seconds[1..3];
      if |seconds| > 3 {
        assert s[19] == seconds[3] && s[20..16 + |seconds|] == seconds[4..];
        DigitsEndAt(s, 20, 16 + |seconds|);
      }
    }
  }

  lemma SecondsOf(s: string)
    requires |s| >= 16
    ensures SecondsEnd(s) >= 16 && SecondsPart(s[16..SecondsEnd(s)])
  {
    var e := SecondsEnd(s);
    var t := s[16..e];
    if e == 19 {
      assert t[1..] == s[17..19];
    } else if e > 19 {
      DigitsEndDigits(s, 20);
      assert t[1..3] == s[17..19] && t[4..] == s[20..e];
    }
  }

  /** timestampRe matches exactly the local and the zoned timestamps, and they end in a zone or not. */
  lemma TimestampIff(s: string)
    ensures IsTimestamp(s) <==> LocalText(s) || ZonedText(s)
    ensures LocalText(s) ==> SecondsEnd(s) == |s|
    ensures ZonedText(s) ==> SecondsEnd(s) < |s|
  {
    if IsTimestamp(s) {
      TimestampSplits(s);
    }
    if LocalText(s) {
      var date, between, clock, seconds :| MomentOf(s, date, between, clock, seconds, "");
      TimestampJoins(s, date, between, clock, seconds, "");
    }
    if ZonedText(s) {
      var date, between, clock, seconds, zone :|
        MomentOf(s, date, between, clock, seconds, zone) && ZoneText(zone);
      TimestampJoins(s, date, between, clock, seconds, zone);
    }
  }

  lemma TimestampSplits(s: string)
    requires IsTimestamp(s)
    ensures LocalText(s) || ZonedText(s)
  {
    hide IsZone, ZoneText, SecondsPart, SecondsEnd, LocalText, ZonedText;
    var e := SecondsEnd(s);
    DateIff(s);
    SecondsOf(s);
    ZoneIff(s[e..]);
    var clock := s[11..16];
    assert clock[..2] == s[11..13] && clock[3..] == s[14..16];
    assert s[10..11] == [s[10]];
    assert s == s[..10] + s[10..11] + clock + s[16..e] + s[e..];
    assert MomentOf(s, s[..10], s[10..11], clock, s[16..e], s[e..]);
    MomentIsText(s, s[..10], s[10..11], clock, s[16..e], s[e..]);
  }

  lemma MomentIsText(s: string, date: string, between: string, clock: string, seconds: string, zone: string)
    requires MomentOf(s, date, between, clock, seconds, zone)
    ensures zone == "" ==> LocalText(s)
    ensures ZoneText(zone) ==> ZonedText(s)
  {
    hide ZoneText, DateText, ClockText, SecondsPart;
  }

  lemma TimestampJoins(s: string, date: string, between: string, clock: string, seconds: string, zone: string)
    requires MomentOf(s, date, between, clock, seconds, zone) && (zone == "" || ZoneText(zone))
    ensures IsTimestamp(s) && SecondsEnd(s) == |s| - |zone|
  {
    hide ZoneText, IsZone, SecondsPart, SecondsEnd;
    var head := date + between + clock;
    SecondsScan(head, seconds, zone);
    assert s == head + seconds + zone && s[..10] == date;
    DateIff(s);
    ZoneIff(zone);
    assert s[10] == between[0] && s[11..16] == clock;
    assert s[11..13] == clock[..2] && s[13] == clock[2] && s[14..16] == clock[3..];
    assert s[SecondsEnd(s)..] == zone;
  }

  // ---- Ending in a zone ----

  /** timestampTZRe: the text ends in a zone, whatever stands before it. */
  ghost predicate EndsInZone(s: string) {
    exists front, zone :: s == front + zone && ZoneText(zone)
  }

  /** Behind the date there is no sign in a local timestamp, and its last character is a digit. */
  lemma NoSignBehindDate(s: string, date: string, between: string, clock: string, seconds: string)
    requires MomentOf(s, date, between, clock, seconds, "")
    ensures |s| >= 16 && IsDigit(s[|s| - 1]) && forall k :: 10 <= k < |s| ==> s[k] != '+' && s[k] != '-'
  {
    assert s == date + between + clock + seconds;
    assert s[10] == between[0] && s[11..16] == clock && s[16..] == seconds;
    assert forall k :: 11 <= k < 16 ==> s[k] == clock[k - 11];
    assert forall k :: 16 <= k < |s| ==> s[k] == seconds[k - 16];
    ClockCharacters(clock);
    SecondsCharacters(seconds);
  }

  lemma ClockCharacters(clock: string)
    requires ClockText(clock)
    ensures IsDigit(clock[4]) && forall k :: 0 <= k < 5 ==> IsDigit(clock[k]) || clock[k] == ':'
  {
    assert clock[..2][0] in clock[..2] && clock[..2][1] in clock[..2];
    assert clock[3..][0] in clock[3..] && clock[3..][1] in clock[3..];
  }

  lemma SecondsCharacters(seconds: string)
    requires SecondsPart(seconds)
    ensures forall k :: 0 <= k < |seconds| ==> IsDigit(seconds[k]) || seconds[k] == ':' || seconds[k] == '.'
    ensures seconds != "" ==> IsDigit(seconds[|seconds| - 1])
  {
    if |seconds| == 3 {
      assert forall k :: 1 <= k < 3 ==> seconds[k] == seconds[1..][k - 1] && seconds[1..][k - 1] in seconds[1..];
    } else if seconds != "" {
      assert forall k :: 1 <= k < 3 ==> seconds[k] == seconds[1..3][k - 1] && seconds[1..3][k - 1] in seconds[1..3];
      assert forall k :: 4 <= k < |seconds| ==>
          seconds[k] == seconds[4..][k - 4] && seconds[4..][k - 4] in seconds[4..];
    }
  }

  /** Of the timestamps, exactly the zoned ones end in a zone. */
  lemma ZonedIsEnding(s: string)
    ensures ZonedText(s) ==> EndsInZone(s)
    ensures LocalText(s) ==> !EndsInZone(s)
  {
    hide ZoneText, DateText, ClockText, SecondsPart;
    if ZonedText(s) {
      var date, between, clock, seconds, zone :|
        MomentOf(s, date, between, clock, seconds, zone) && ZoneText(zone);
      assert s == (date + between + clock + seconds) + zone;
    }
    if LocalText(s) && EndsInZone(s) {
      var date, between, clock, seconds :| MomentOf(s, date, between, clock, seconds, "");
      var front, zone :| s == front + zone && ZoneText(zone);
      ZoneCharacters(zone);
      assert zone[0] == s[|front|] && zone[|zone| - 1] == s[|s| - 1];
      NoSignBehindDate(s, date, between, clock, seconds);
    }
  }

  lemma ZoneCharacters(zone: string)
    requires ZoneText(zone)
    ensures zone == "Z" || (3 <= |zone| <= 6 && zone[0] in {'+', '-'})
  {
    assert |zone| >= 3 ==> zone[..1] == [zone[0]];
  }

  // ---- What is printed ----

  /** The patterns exclude one another: each kind of text is printed in one way. */
  lemma PatternsApart(s: string)
    ensures !(LocalText(s) && ZonedText(s))
    ensures LocalText(s) || ZonedText(s) ==> |s| >= 16 && !DateText(s)
    ensures DecimalText(s) ==> !DateText(s) && !LocalText(s) && !ZonedText(s)
  {
    TimestampIff(s);
    DecimalIff(s);
    DateIff(s);
    if IsDecimal(s) && |s| >= 10 && StartsWithDate(s) {
      DateIsNoDecimal(s);
    }
  }

  /** After four digits a decimal goes on with anything but a hyphen. */
  lemma DateIsNoDecimal(s: string)
    requires |s| >= 10 && StartsWithDate(s)
    ensures !IsDecimal(s)
  {
    assert s[0..4][0] in s[0..4] && IsDigit(s[0]);
    DigitsEndAt(s, 0, 4);
    assert s[4..][0] == '-';
  }

  lemma BooleanIsNoPattern(s: string)
    requires EqualFold(s, "true") || EqualFold(s, "false")
    ensures s != [] && |s| < 10 && !DecimalText(s)
  {
    DecimalIff(s);
    assert |Lower(s)| == |s| && LowerChar(s[0]) == Lower(s)[0];
    assert |Lower("true")| == 4 && |Lower("false")| == 5 && Lower("true")[0] == 't' && Lower("false")[0] == 'f';
    assert !IsDigit(s[0]) && s[0] !in {'+', '-'};
  }

  ghost predicate MatchesNothing(s: string) {
    && !DecimalText(s) && !EqualFold(s, "true") && !EqualFold(s, "false")
    && !DateText(s) && !LocalText(s) && !ZonedText(s)
  }

  /**
   The printed form of every bind value, by its text without the space around it: decimals as they
   are, Booleans in small letters, dates and timestamps quoted and cast, with `timestamptz` exactly
   for those with a zone, and everything else quoted.
   */
  lemma BindLiteralByText(v: string)
    ensures var s, lit := TrimSpace(v), BindLiteral(v);
            && (DecimalText(s) ==> lit == s)
            && (EqualFold(s, "true") ==> lit == "true")
            && (EqualFold(s, "false") ==> lit == "false")
            && (DateText(s) ==> lit == QuoteLiteral(s) + "::date")
            && (LocalText(s) ==> lit == QuoteLiteral(s) + "::timestamp")
            && (ZonedText(s) ==> lit == QuoteLiteral(s) + "::timestamptz")
            && (MatchesNothing(s) ==> lit == QuoteLiteral(s))
  {
    hide DecimalText, DateText, LocalText, ZonedText, IsDecimal, IsDateOnly, IsTimestamp, QuoteLiteral, TrimSpace,
         SecondsEnd, EqualFold;
    var s := TrimSpace(v);
    DecimalIff(s);
    DateIff(s);
    TimestampIff(s);
    PatternsApart(s);
    DateLength(s);
    TrueIsNotFalse(s);
    EmptyLiteral();
    DecimalNotEmpty(s);
    if EqualFold(s, "true") || EqualFold(s, "false") {
      BooleanIsNoPattern(s);
    }
  }

  lemma TrueIsNotFalse(s: string)
    ensures !(EqualFold(s, "true") && EqualFold(s, "false"))
  {
    assert |Lower("true")| == 4 && |Lower("false")| == 5;
  }

  lemma DecimalNotEmpty(s: string)
    ensures DecimalText(s) ==> s != []
  {
    DecimalIff(s);
  }

  lemma DateLength(s: string)
    ensures DateText(s) ==> |s| == 10
  {
  }

  /** And conversely: a cast or a bare text is printed for nothing else. */
  lemma PrintedOnlyFor(v: string)
    ensures var s, lit := TrimSpace(v), BindLiteral(v);
            && (lit == QuoteLiteral(s) + "::timestamptz" <==> ZonedText(s))
            && (lit == QuoteLiteral(s) + "::timestamptz" <==> IsTimestamp(s) && EndsInZone(s))
            && (lit == QuoteLiteral(s) + "::timestamp" <==> LocalText(s))
            && (lit == QuoteLiteral(s) + "::timestamp" <==> IsTimestamp(s) && !EndsInZone(s))
            && (lit == QuoteLiteral(s) + "::date" <==> DateText(s))
            && (lit != [] && lit[0] != '\'' <==> DecimalText(s) || EqualFold(s, "true") || EqualFold(s, "false"))
  {
    hide DecimalText, DateText, LocalText, ZonedText, QuoteLiteral, TrimSpace, EqualFold, BindLiteral, IsTimestamp,
         EndsInZone;
    var s := TrimSpace(v);
    BindLiteralByText(v);
    TimestampIff(s);
    ZonedIsEnding(s);
    BareStart(s);
    FormsDiffer(s);
  }

  lemma BareStart(s: string)
    ensures DecimalText(s) ==> s != [] && s[0] != '\''
  {
    DecimalIff(s);
    if s != [] && s[0] == '\'' {
      assert DigitsEnd(s, 0) == 0;
      assert !IsDecimal(s);
    }
  }

  /** The four quoted forms end in four different ways, and all start with a quote. */
  lemma FormsDiffer(s: string)
    ensures var q := QuoteLiteral(s);
            && q != [] && q[0] == '\''
            && q != q + "::date" && q != q + "::timestamp" && q != q + "::timestamptz"
            && q + "::date" != q + "::timestamp" && q + "::date" != q + "::timestamptz"
            && q + "::timestamp" != q + "::timestamptz"
  {
    hide DoubleQuotes;
    var q := QuoteLiteral(s);
    assert |q + "::date"| == |q| + 6 && |q + "::timestamp"| == |q| + 11 && |q + "::timestamptz"| == |q| + 13;
  }
}
