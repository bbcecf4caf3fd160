/** String functions of Go's standard library that the modelled code calls. */
module Text {
  import opened Options

  /** The Latin-1 part of `unicode.IsSpace`. */
  predicate IsSpace(c: char) {
    c in {'\t', '\n', ' ', '\r', 11 as char, 12 as char, 133 as char, 160 as char}
  }

  function TrimLeft(s: string): string {
    if s != [] && IsSpace(s[0]) then TrimLeft(s[1..]) else s
  }

  function TrimRight(s: string): string {
    if s != [] && IsSpace(s[|s| - 1]) then TrimRight(s[..|s| - 1]) else s
  }

  /** `strings.TrimSpace`. */
  function TrimSpace(s: string): string {
    TrimRight(TrimLeft(s))
  }

  predicate Trimmed(s: string) {
    s != [] ==> !IsSpace(s[0]) && !IsSpace(s[|s| - 1])
  }

  lemma TrimSpaceOfTrimmed(s: string)
    requires Trimmed(s)
    ensures TrimSpace(s) == s
  {
  }

  lemma {:induction false} TrimLeftShape(s: string)
    ensures |TrimLeft(s)| <= |s| && TrimLeft(s) == s[|s| - |TrimLeft(s)|..]
    ensures TrimLeft(s) != [] ==> !IsSpace(TrimLeft(s)[0])
  {
    if s != [] && IsSpace(s[0]) {
      TrimLeftShape(s[1..]);
    }
  }

  lemma {:induction false} TrimRightShape(s: string)
    ensures |TrimRight(s)| <= |s| && TrimRight(s) == s[..|TrimRight(s)|]
    ensures TrimRight(s) != [] ==> !IsSpace(TrimRight(s)[|TrimRight(s)| - 1])
  {
    if s != [] && IsSpace(s[|s| - 1]) {
      TrimRightShape(s[..|s| - 1]);
    }
  }

  /** Tab to carriage return, the blank, and the two Latin-1 spaces. */
  lemma SpaceCodes(c: char)
    ensures IsSpace(c) <==> 9 <= c as int <= 13 || c as int == 32 || c as int == 133 || c as int == 160
  {
  }

  predicate AllSpace(s: string) {
    forall i :: 0 <= i < |s| ==> IsSpace(s[i])
  }

  lemma {:induction false} TrimLeftRemoves(s: string)
    ensures |TrimLeft(s)| <= |s| && TrimLeft(s) == s[|s| - |TrimLeft(s)|..]
    ensures AllSpace(s[..|s| - |TrimLeft(s)|])
  {
    if s != [] && IsSpace(s[0]) {
      TrimLeftRemoves(s[1..]);
      var n := |s| - |TrimLeft(s)|;
      assert s[..n] == [s[0]] + s[1..][..n - 1];
    }
  }

  lemma {:induction false} TrimRightRemoves(s: string)
    ensures |TrimRight(s)| <= |s| && TrimRight(s) == s[..|TrimRight(s)|] && AllSpace(s[|TrimRight(s)|..])
  {
    if s != [] && IsSpace(s[|s| - 1]) {
      TrimRightRemoves(s[..|s| - 1]);
      var n := |TrimRight(s)|;
      assert s[n..] == s[..|s| - 1][n..] + [s[|s| - 1]];
    }
  }

  /** TrimSpace takes space away at both ends, and all of it. */
  lemma TrimSpaceRemoves(s: string) returns (before: string, after: string)
    ensures s == before + TrimSpace(s) + after && AllSpace(before) && AllSpace(after) && Trimmed(TrimSpace(s))
  {
    hide IsSpace, TrimLeft, TrimRight, AllSpace;
    var left := TrimLeft(s);
    TrimLeftRemoves(s);
    TrimRightRemoves(left);
    TrimLeftShape(s);
    TrimRightShape(left);
    before, after := s[..|s| - |left|], left[|TrimRight(left)|..];
    assert s == before + left && left == TrimRight(left) + after;
    TrimmedBoth(s);
  }

  lemma TrimmedBoth(s: string)
    ensures Trimmed(TrimSpace(s))
  {
    hide IsSpace, TrimLeft, TrimRight;
    TrimLeftShape(s);
    TrimRightShape(TrimLeft(s));
  }

  function LowerChar(c: char): char {
    if 'A' <= c <= 'Z' then c + ' ' else c
  }

  /** `strings.ToLower` on ASCII letters. */
  function Lower(s: string): (r: string)
    ensures |r| == |s|
    ensures forall i :: 0 <= i < |s| ==> r[i] == LowerChar(s[i])
  {
    if s == [] then [] else [LowerChar(s[0])] + Lower(s[1..])
  }

  /** `strings.EqualFold` on ASCII letters. */
  predicate EqualFold(a: string, b: string) {
    Lower(a) == Lower(b)
  }

  /** A number in decimal. */
  function Decimal(n: nat): string {
    if n < 10 then [(n + '0' as int) as char] else Decimal(n / 10) + [(n % 10 + '0' as int) as char]
  }

  function Zeros(n: int): string
    decreases n
  {
    if n <= 0 then "" else "0" + Zeros(n - 1)
  }

  /** A number filled up with zeros, as Go's date layouts print it. */
  function Padded(n: int, width: nat): string {
    var digits := Decimal(if n < 0 then -n else n);
    (if n < 0 then "-" else "") + Zeros(width - |digits|) + digits
  }

  predicate IsDigit(c: char) {
    '0' <= c <= '9'
  }

  predicate AllDigits(s: string) {
    forall c :: c in s ==> IsDigit(c)
  }

  /** The number a string of digits spells. */
  function Digits(s: string): (n: nat)
    requires AllDigits(s)
  {
    if s == [] then 0
    else
      assert IsDigit(s[|s| - 1]);
      10 * Digits(s[..|s| - 1]) + (s[|s| - 1] as int - '0' as int)
  }

  /** Reading what is printed gives the number back. */
  lemma {:induction false} DigitsOfDecimal(n: nat)
    ensures Decimal(n) != [] && AllDigits(Decimal(n)) && Digits(Decimal(n)) == n
    decreases n
  {
    var last := [(n % 10 + '0' as int) as char];
    if n >= 10 {
      DigitsOfDecimal(n / 10);
      var front := Decimal(n / 10);
      assert forall c :: c in front + last ==> c in front || c == last[0];
      assert (front + last)[..|front + last| - 1] == front;
    } else {
      assert last[..0] == [];
    }
  }

  lemma {:induction false} DigitsBehindZeros(n: int, s: string)
    requires AllDigits(s)
    ensures AllDigits(Zeros(n) + s) && Digits(Zeros(n) + s) == Digits(s)
    ensures |Zeros(n)| == if n < 0 then 0 else n
    decreases n
  {
    if n > 0 {
      DigitsBehindZeros(n - 1, s);
      assert Zeros(n) + s == "0" + (Zeros(n - 1) + s);
      ZeroInFront(Zeros(n - 1) + s);
    } else {
      assert Zeros(n) + s == s;
    }
  }

  lemma {:induction false} ZeroInFront(s: string)
    requires AllDigits(s)
    ensures AllDigits("0" + s) && Digits("0" + s) == Digits(s)
  {
    assert forall c :: c in "0" + s ==> c == '0' || c in s;
    var whole := "0" + s;
    if s == [] {
      assert whole[..|whole| - 1] == [] && whole[|whole| - 1] == '0';
    } else {
      var front := s[..|s| - 1];
      assert forall c :: c in front ==> c in s;
      ZeroInFront(front);
      assert whole[..|whole| - 1] == "0" + front && whole[|whole| - 1] == s[|s| - 1];
    }
  }

  lemma {:induction false} DecimalWidth(n: nat, width: nat)
    requires n < Power10(width) && width > 0
    ensures |Decimal(n)| <= width
  {
    if n >= 10 {
      DecimalWidth(n / 10, width - 1);
    }
  }

  function Power10(n: nat): nat {
    if n == 0 then 1 else 10 * Power10(n - 1)
  }

  /** A number that fits is printed in exactly the width, and reads back as itself. */
  lemma PaddedReadsBack(n: nat, width: nat)
    requires n < Power10(width) && width > 0
    ensures |Padded(n, width)| == width && AllDigits(Padded(n, width)) && Digits(Padded(n, width)) == n
  {
    hide Decimal, Digits, Zeros, Power10, AllDigits;
    DigitsOfDecimal(n);
    DecimalWidth(n, width);
    DigitsBehindZeros(width - |Decimal(n)|, Decimal(n));
    assert Padded(n, width) == Zeros(width - |Decimal(n)|) + Decimal(n);
  }

  /** `strconv.ParseInt(strings.TrimSpace(s), 10, 64)`. */
  function ParseInt64(s: string): Option<int> {
    var t := TrimSpace(s);
    var signed := t != [] && t[0] in {'+', '-'};
    var digits := if signed then t[1..] else t;
    if digits == [] || !AllDigits(digits) then None
    else
      var n := (if signed && t[0] == '-' then -1 else 1) * Digits(digits);
      if -0x8000_0000_0000_0000 <= n < 0x8000_0000_0000_0000 then Some(n) else None
  }

  /** Digits are read with a sign or without, within 64 bits. */
  lemma ParseOfDigits(sign: string, digits: string)
    requires sign in {"", "-", "+"} && digits != [] && AllDigits(digits)
    ensures var n := if sign == "-" then -(Digits(digits) as int) else Digits(digits);
            ParseInt64(sign + digits)
            == if -0x8000_0000_0000_0000 <= n < 0x8000_0000_0000_0000 then Some(n) else None
  {
    hide Digits;
    var t := sign + digits;
    assert digits[0] in digits && digits[|digits| - 1] in digits;
    assert IsDigit(digits[0]) && IsDigit(digits[|digits| - 1]);
    assert t[|t| - 1] == digits[|digits| - 1];
    assert t[0] == if sign == "" then digits[0] else sign[0];
    TrimSpaceOfTrimmed(t);
    assert sign != "" ==> t[1..] == digits;
    assert sign == "" ==> t == digits;
  }
}
