/** The `%d` printer of lib/stdio.c and the parser of lib/stdlib.c: inverse to each other. */
module PrintParse {

  /** `struct printf_conversion`, for an int */
  datatype Conversion = Conversion(minus: bool, plus: bool, space: bool, zero: bool, group: bool, width: int, precision: int)

  const INT_MIN: int := -0x8000_0000
  const INT_MAX: int := 0x7FFF_FFFF
  const BUF: nat := 64

  // ---------------------------------------------------------------- characters

  predicate IsDigit(c: char) { '0' <= c <= '9' }

  predicate IsSpace(c: char) { c == ' ' || c == '\t' || c == '\n' || c == '\r' || c as int == 11 || c as int == 12 }

  function DigitOf(d: nat): (c: char)
    requires d < 10
    ensures IsDigit(c) && Value(c) == d
  {
    "0123456789"[d]
  }

  function Value(c: char): int { c as int - '0' as int }

  function Repeat(c: char, n: nat): (s: string)
    ensures |s| == n && forall i | 0 <= i < n :: s[i] == c
  {
    seq(n, _ => c)
  }

  function Reverse(s: string): (r: string)
    ensures |r| == |s|
  {
    if s == [] then [] else Reverse(s[1..]) + [s[0]]
  }

  // ---------------------------------------------------------------- what is printed

  /** The digits in the buffer, least significant first, with a comma before every third one if they are grouped. */
  function Digits(value: nat, group: bool, cnt: nat): string {
    if value == 0 then []
    else (if group && cnt > 0 && cnt % 3 == 0 then [','] else []) + [DigitOf(value % 10)] + Digits(value / 10, group, cnt + 1)
  }

  /** The sign character, if there is one */
  function Sign(negative: bool, c: Conversion): string {
    if c.plus then (if negative then "-" else "+")
    else if c.space then (if negative then "-" else " ") else if negative then "-" else ""
  }

  function Max(a: int, b: int): int { if a > b then a else b }
  function Min(a: int, b: int): int { if a < b then a else b }

  /** The digits filled up with zeros to the precision, as far as the buffer goes, still in reverse. */
  function Precise(value: nat, c: Conversion): string {
    var d := Digits(value, c.group, 0);
    d + Repeat('0', Max(0, Min(if c.precision < 0 then 1 else c.precision, BUF - 1) - |d|))
  }

  function PadCnt(value: nat, negative: bool, c: Conversion): nat {
    Max(0, c.width - |Precise(value, c)| - |Sign(negative, c)|)
  }

  /** What %d prints for an integer with the given absolute value and sign. */
  function Printed(value: nat, negative: bool, c: Conversion): string {
    var pad := PadCnt(value, negative, c);
    Repeat(' ', if !c.minus && !c.zero then pad else 0) + Sign(negative, c)
    + Repeat('0', if c.zero then pad else 0) + Reverse(Precise(value, c)) + Repeat(' ', if c.minus then pad else 0)
  }

  /** A 64-bit number has at most 20 digits and six commas. */
  lemma {:induction false} DigitsFit(value: nat, group: bool, cnt: nat, n: nat, bound: nat)
    requires bound == Power10(n) && value < bound
    ensures |Digits(value, group, cnt)| <= n + (n + (cnt + 2) % 3) / 3
    decreases n
  {
    if value != 0 {
      assert n > 0;
      DigitsFit(value / 10, group, cnt + 1, n - 1, Power10(n - 1));
    }
  }

  function Power10(n: nat): (p: nat)
    ensures p > 0
  {
    if n == 0 then 1 else 10 * Power10(n - 1)
  }

  lemma Power20()
    ensures Power10(20) == 100000000000000000000
  {
    assert Power10(5) == 100000;
    assert Power10(10) == 10000000000;
    assert Power10(15) == 1000000000000000;
  }

  /** `*cp++ = c` */
  method PutChar(buf: array<char>, at: nat, c: char) returns (cp: nat)
    requires at < buf.Length
    modifies buf
    ensures cp == at + 1 && buf[..cp] == old(buf[..at]) + [c]
  {
    buf[at] := c;
    cp := at + 1;
  }

  /** The first part of format_integer: the digits go into the buffer in reverse. */
  method AccumulateDigits(buf: array<char>, value: nat, group: bool) returns (cp: nat)
    requires value < 0x1_0000_0000_0000_0000 && buf.Length == BUF
    modifies buf
    ensures cp <= 27 && buf[..cp] == Digits(value, group, 0)
  {
    hide Digits;
    var digitCnt, rest := 0, value;
    cp := 0;
    Power20();
    DigitsFit(value, group, 0, 20, Power10(20));
    hide Power10;
    ghost var all := Digits(value, group, 0);
    assert all == buf[..cp] + Digits(rest, group, digitCnt);
    while rest > 0
      invariant cp <= |all| <= 27 && all == buf[..cp] + Digits(rest, group, digitCnt)
    {
      ghost var was := buf[..cp];
      DigitsStep(rest, group, digitCnt);
      ghost var later := Digits(rest / 10, group, digitCnt + 1);
      if group && digitCnt > 0 && digitCnt % 3 == 0 {
        assert all == was + ([','] + [DigitOf(rest % 10)] + later);
        cp := PutChar(buf, cp, ',');
      }
      ghost var mid := buf[..cp];
      assert all == mid + [DigitOf(rest % 10)] + later;
      cp := PutChar(buf, cp, "0123456789"[rest % 10]);
      rest := rest / 10;
      digitCnt := digitCnt + 1;
    }
    NoDigits(group, digitCnt);
  }

  lemma DigitsStep(value: nat, group: bool, cnt: nat)
    requires value > 0
    ensures Digits(value, group, cnt) ==
            (if group && cnt > 0 && cnt % 3 == 0 then [','] else []) + [DigitOf(value % 10)] + Digits(value / 10, group, cnt + 1)
  { }

  lemma NoDigits(group: bool, cnt: nat)
    ensures Digits(0, group, cnt) == []
  { }

  /** The second part: zeros up to the precision, but never beyond the buffer. */
  method MatchPrecision(buf: array<char>, start: nat, precision: int) returns (cp: nat)
    requires start <= 27 && buf.Length == BUF
    modifies buf
    ensures cp < BUF && buf[..cp] == old(buf[..start]) + Repeat('0', Max(0, Min(precision, BUF - 1) - start))
  {
    cp := start;
    while cp < precision && cp < BUF - 1
      invariant start <= cp < BUF && (cp == start || cp <= precision)
      invariant buf[..cp] == old(buf[..start]) + Repeat('0', cp - start)
    {
      ghost var was := buf[..cp];
      buf[cp] := '0';
      cp := cp + 1;
      assert buf[..cp] == was + ['0'];
    }
  }

  /** The third part: what is in the buffer is put out from the end. */
  method OutputReversed(buf: array<char>, start: nat, before: string) returns (out: string)
    requires start <= buf.Length
    ensures out == before + Reverse(buf[..start])
  {
    out := before;
    var cp: nat := start;
    while cp > 0
      invariant cp <= start && out + Reverse(buf[..cp]) == before + Reverse(buf[..start])
    {
      assert buf[..cp] == buf[..cp - 1] + [buf[cp - 1]];
      ReverseSnoc(buf[..cp - 1], buf[cp - 1]);
      cp := cp - 1;
      out := out + [buf[cp]];
    }
  }

  // ---------------------------------------------------------------- the digits, in plain terms

  /** A string without its commas */
  function Plain(s: string): string {
    if s == [] then [] else (if s[0] == ',' then [] else [s[0]]) + Plain(s[1..])
  }

  /** The decimal digits of a value: none for zero, no leading zero, and with grouping a comma in front of every third
      digit from the right, other than the first. */
  ghost predicate IsNumeral(d: string, value: nat, group: bool) {
    && (value == 0 <==> d == []) && (d != [] ==> IsDigit(d[0]) && d[0] != '0')
    && (forall k | 0 <= k < |d| :: IsDigit(d[k]) <==> !(group && (|d| - 1 - k) % 4 == 3))
    && (forall k | 0 <= k < |d| && !IsDigit(d[k]) :: d[k] == ',')
    && Number(Plain(d)) == value
  }

  /** How many characters are in the buffer after cnt digits */
  function Filled(cnt: nat): nat { cnt + if cnt == 0 then 0 else (cnt - 1) / 3 }

  /** The buffer holds digits, and commas where the groups end. */
  lemma {:induction false} DigitsPlaced(value: nat, group: bool, cnt: nat)
    ensures var d := Digits(value, group, cnt);
            && (forall k | 0 <= k < |d| :: IsDigit(d[k]) <==> !(group && (Filled(cnt) + k) % 4 == 3))
            && (forall k | 0 <= k < |d| && !IsDigit(d[k]) :: d[k] == ',')
  {
    if value != 0 {
      DigitsPlaced(value / 10, group, cnt + 1);
      DigitsStep(value, group, cnt);
      FilledNext(cnt);
      hide Digits, Filled;
      var c: string := if group && cnt > 0 && cnt % 3 == 0 then [','] else [];
      var d, rest := Digits(value, group, cnt), Digits(value / 10, group, cnt + 1);
      assert forall k | |c| < k < |d| :: d[k] == rest[k - |c| - 1];
    }
  }

  lemma FilledNext(cnt: nat)
    ensures Filled(cnt + 1) == Filled(cnt) + (if cnt > 0 && cnt % 3 == 0 then 2 else 1)
    ensures Filled(cnt) % 4 == 3 <==> cnt > 0 && cnt % 3 == 0
  { }

  /** They stand for the value. */
  lemma {:induction false} DigitsValue(value: nat, group: bool, cnt: nat)
    ensures NumR(Plain(Digits(value, group, cnt))) == value
  {
    if value != 0 {
      var rest := Digits(value / 10, group, cnt + 1);
      var c := DigitOf(value % 10);
      DigitsValue(value / 10, group, cnt + 1);
      DigitsStep(value, group, cnt);
      hide Digits, NumR, Plain, DigitOf;
      PlainDigit(c, rest, group && cnt > 0 && cnt % 3 == 0);
      NumRCons(c, Plain(rest));
    }
  }

  lemma PlainDigit(c: char, rest: string, comma: bool)
    requires IsDigit(c)
    ensures Plain((if comma then [','] else []) + [c] + rest) == [c] + Plain(rest)
  {
    PlainCons(c, rest);
    if comma {
      PlainCons(',', [c] + rest);
      assert [','] + [c] + rest == [','] + ([c] + rest);
    } else {
      assert [] + [c] + rest == [c] + rest;
    }
  }

  /** The most significant digit is not zero. */
  lemma {:induction false} TopDigit(value: nat, group: bool, cnt: nat)
    ensures var d := Digits(value, group, cnt);
            (value == 0 <==> d == []) && (d != [] ==> IsDigit(d[|d| - 1]) && d[|d| - 1] != '0')
  {
    if value != 0 {
      var d, rest := Digits(value, group, cnt), Digits(value / 10, group, cnt + 1);
      TopDigit(value / 10, group, cnt + 1);
      DigitsStep(value, group, cnt);
      hide Digits;
      assert d[|d| - 1] == if rest == [] then DigitOf(value % 10) else rest[|rest| - 1];
    }
  }

  lemma NumRCons(c: char, s: string)
    ensures NumR([c] + s) == Value(c) + 10 * NumR(s)
  { }

  lemma PlainCons(c: char, s: string)
    ensures Plain([c] + s) == (if c == ',' then [] else [c]) + Plain(s)
  { }

  lemma {:induction false} PlainSnoc(s: string, c: char)
    ensures Plain(s + [c]) == Plain(s) + if c == ',' then [] else [c]
  {
    if s != [] {
      assert (s + [c])[1..] == s[1..] + [c];
      PlainSnoc(s[1..], c);
    }
  }

  lemma {:induction false} PlainReverse(s: string)
    ensures Plain(Reverse(s)) == Reverse(Plain(s))
  {
    if s != [] {
      PlainReverse(s[1..]);
      PlainSnoc(Reverse(s[1..]), s[0]);
      var p := Plain(s[1..]);
      if s[0] == ',' {
        assert [] + p == p && Reverse(p) + [] == Reverse(p);
      } else {
        assert ([s[0]] + p)[1..] == p;
      }
    }
  }

  lemma {:induction false} ReverseAt(s: string, k: nat)
    requires k < |s|
    ensures Reverse(s)[k] == s[|s| - 1 - k]
  {
    if k < |s| - 1 {
      ReverseAt(s[1..], k);
    }
  }

  lemma {:induction false} ReverseAppend(s: string, t: string)
    ensures Reverse(s + t) == Reverse(t) + Reverse(s)
  {
    if s == [] {
      assert s + t == t;
    } else {
      assert (s + t)[1..] == s[1..] + t;
      ReverseAppend(s[1..], t);
    }
  }

  lemma NumeralIs(value: nat, group: bool)
    ensures IsNumeral(Reverse(Digits(value, group, 0)), value, group)
  {
    var b := Digits(value, group, 0);
    var d := Reverse(b);
    DigitsPlaced(value, group, 0);
    DigitsValue(value, group, 0);
    TopDigit(value, group, 0);
    PlainReverse(b);
    NumberReverse(Plain(b));
    hide Digits, Reverse, Plain, Number, NumR;
    forall k | 0 <= k < |d|
      ensures d[k] == b[|b| - 1 - k]
    {
      ReverseAt(b, k);
    }
  }

  lemma ZerosReversed(n: nat)
    ensures Reverse(Repeat('0', n)) == Repeat('0', n)
  {
    forall k | 0 <= k < n
      ensures Reverse(Repeat('0', n))[k] == '0'
    {
      ReverseAt(Repeat('0', n), k);
    }
  }

  /** What is in the buffer, from the end: zeros up to the precision, and the numeral. */
  lemma BodyIs(value: nat, c: Conversion) returns (zeros: nat, numeral: string)
    ensures Reverse(Precise(value, c)) == Repeat('0', zeros) + numeral && IsNumeral(numeral, value, c.group)
    ensures zeros > 0 ==> zeros + |numeral| == Min(if c.precision < 0 then 1 else c.precision, BUF - 1)
    ensures zeros + |numeral| >= Min(if c.precision < 0 then 1 else c.precision, BUF - 1)
  {
    var d := Digits(value, c.group, 0);
    zeros := Max(0, Min(if c.precision < 0 then 1 else c.precision, BUF - 1) - |d|);
    numeral := Reverse(d);
    NumeralIs(value, c.group);
    ReverseAppend(d, Repeat('0', zeros));
    ZerosReversed(zeros);
  }

  /** `format_integer` for base 10 and a signed conversion: the sign the flags ask for, at least as many digits as the
      precision, and padding to the width, in front, behind or as zeros after the sign. */
  method FormatInteger(value: nat, negative: bool, c: Conversion)
    returns (out: string, ghost sign: string, ghost zeros: nat, ghost numeral: string, ghost pad: nat)
    requires value < 0x1_0000_0000_0000_0000
    ensures out == Printed(value, negative, c)
    ensures sign == if negative then "-" else if c.plus then "+" else if c.space then " " else ""
    ensures IsNumeral(numeral, value, c.group)
    ensures zeros > 0 ==> zeros + |numeral| == Min(if c.precision < 0 then 1 else c.precision, 63)
    ensures zeros + |numeral| >= Min(if c.precision < 0 then 1 else c.precision, 63)
    ensures pad == Max(0, c.width - |sign| - zeros - |numeral|)
    ensures !c.minus && !c.zero ==> out == Repeat(' ', pad) + sign + Repeat('0', zeros) + numeral
    ensures c.minus && !c.zero ==> out == sign + Repeat('0', zeros) + numeral + Repeat(' ', pad)
    ensures !c.minus && c.zero ==> out == sign + Repeat('0', pad) + Repeat('0', zeros) + numeral
    ensures c.minus && c.zero ==> out == sign + Repeat('0', pad) + Repeat('0', zeros) + numeral + Repeat(' ', pad)
    ensures !(c.minus && c.zero) ==> |out| == Max(c.width, |sign| + zeros + |numeral|)
  {
    sign := Sign(negative, c);
    pad := PadCnt(value, negative, c);
    zeros, numeral := BodyIs(value, c);
    out := Format(value, negative, c);
    hide Reverse, Precise, IsNumeral;
    assert |Precise(value, c)| == |Reverse(Precise(value, c))| == zeros + |numeral|;
    LayoutIs(sign, pad, zeros, numeral, c);
  }

  lemma LayoutIs(sign: string, pad: nat, zeros: nat, numeral: string, c: Conversion)
    ensures var out := Repeat(' ', if !c.minus && !c.zero then pad else 0) + sign + Repeat('0', if c.zero then pad else 0)
                       + (Repeat('0', zeros) + numeral) + Repeat(' ', if c.minus then pad else 0);
            && (!c.minus && !c.zero ==> out == Repeat(' ', pad) + sign + Repeat('0', zeros) + numeral)
            && (c.minus && !c.zero ==> out == sign + Repeat('0', zeros) + numeral + Repeat(' ', pad))
            && (!c.minus && c.zero ==> out == sign + Repeat('0', pad) + Repeat('0', zeros) + numeral)
            && (c.minus && c.zero ==> out == sign + Repeat('0', pad) + Repeat('0', zeros) + numeral + Repeat(' ', pad))
  { }

  /** Its parts in order: sign, digits, precision, padding, output */
  method Format(value: nat, negative: bool, c: Conversion) returns (out: string)
    requires value < 0x1_0000_0000_0000_0000
    ensures out == Printed(value, negative, c)
  {
    var buf := new char[BUF];
    var sign := "";
    if c.plus {
      sign := if negative then "-" else "+";
    } else if c.space {
      sign := if negative then "-" else " ";
    } else if negative {
      sign := "-";
    }
    var cp := AccumulateDigits(buf, value, c.group);
    cp := MatchPrecision(buf, cp, if c.precision < 0 then 1 else c.precision);
    assert sign == Sign(negative, c) && buf[..cp] == Precise(value, c);
    var padCnt := c.width - cp - |sign|;
    if padCnt < 0 {
      padCnt := 0;
    }
    assert padCnt == PadCnt(value, negative, c);
    out := Emit(buf, cp, sign, padCnt, c);
  }

  /** The last part of format_integer: padding, sign, digits */
  method Emit(buf: array<char>, cp: nat, sign: string, padCnt: nat, c: Conversion) returns (out: string)
    requires cp <= buf.Length
    ensures out == Repeat(' ', if !c.minus && !c.zero then padCnt else 0) + sign
                   + Repeat('0', if c.zero then padCnt else 0) + Reverse(buf[..cp]) + Repeat(' ', if c.minus then padCnt else 0)
  {
    hide Reverse;
    out := "";
    if !c.minus && !c.zero {
      out := OutputDup(' ', padCnt, out);
    }
    assert out == Repeat(' ', if !c.minus && !c.zero then padCnt else 0);
    out := out + sign;
    ghost var signed := out;
    if c.zero {
      out := OutputDup('0', padCnt, out);
    }
    assert out == signed + Repeat('0', if c.zero then padCnt else 0);
    out := OutputReversed(buf, cp, out);
    ghost var body := out;
    if c.minus {
      out := OutputDup(' ', padCnt, out);
    }
    assert out == body + Repeat(' ', if c.minus then padCnt else 0);
  }

  lemma {:induction false} ReverseSnoc(s: string, c: char)
    ensures Reverse(s + [c]) == [c] + Reverse(s)
  {
    if s != [] {
      assert (s + [c])[1..] == s[1..] + [c];
      ReverseSnoc(s[1..], c);
    }
  }

  /** `output_dup` */
  method OutputDup(ch: char, cnt: nat, out: string) returns (r: string)
    ensures r == out + Repeat(ch, cnt)
  {
    r := out;
    for i := 0 to cnt
      invariant r == out + Repeat(ch, i)
    {
      r := r + [ch];
    }
  }

  // ---------------------------------------------------------------- what is parsed

  function SkipSpaces(s: string): string {
    if s != [] && IsSpace(s[0]) then SkipSpaces(s[1..]) else s
  }

  function LeadingDigits(s: string): (r: string)
    ensures |r| <= |s| && r == s[..|r|] && (forall i | 0 <= i < |r| :: IsDigit(r[i]))
    ensures (|r| < |s| ==> !IsDigit(s[|r|]))
  {
    if s != [] && IsDigit(s[0]) then [s[0]] + LeadingDigits(s[1..]) else []
  }

  /** The number a string of decimal digits stands for */
  function Number(s: string): int {
    if s == [] then 0 else 10 * Number(s[..|s| - 1]) + Value(s[|s| - 1])
  }

  /** The integer at the front of a string: blanks, a sign, digits */
  function Parsed(s: string): int {
    var t := SkipSpaces(s);
    if t != [] && t[0] == '-' then 0 - Number(LeadingDigits(t[1..]))
    else Number(LeadingDigits(if t != [] && t[0] == '+' then t[1..] else t))
  }

  lemma {:induction false} NumberGrows(s: string, k: nat)
    requires k <= |s| && forall i | 0 <= i < |s| :: IsDigit(s[i])
    ensures 0 <= Number(s[..k]) <= Number(s)
  {
    if k < |s| {
      var n := |s| - 1;
      NumberGrows(s[..n], k);
      assert s[..n][..k] == s[..k];
    } else {
      assert s[..k] == s;
      if s != [] {
        NumberGrows(s[..|s| - 1], |s| - 1);
        assert s[..|s| - 1][..|s| - 1] == s[..|s| - 1];
      }
    }
  }

  /** The last loop of atoi. As long as the number fits an int, so does every intermediate value, because the value is
      built up negated. */
  method ParseDigits(s: string, start: nat) returns (value: int)
    requires start <= |s| && Number(LeadingDigits(s[start..])) <= 0 - INT_MIN
    ensures value == 0 - Number(LeadingDigits(s[start..]))
  {
    var i := start;
    ghost var digits := LeadingDigits(s[start..]);
    NumberNothing(digits);
    hide LeadingDigits, Number;
    value := 0;
    while i < |s| && IsDigit(s[i])
      invariant start <= i <= |s| && i - start <= |digits| && value == 0 - Number(digits[..i - start])
    {
      DigitNext(s, start, i);
      assert INT_MIN <= value * 10 - Value(s[i]) <= value * 10 <= 0;
      value := value * 10 - Value(s[i]);
      i := i + 1;
    }
    DigitsEnd(s, start, i);
    assert digits[..i - start] == digits;
  }

  lemma NumberNothing(s: string)
    ensures Number(s[..0]) == 0
  { }

  lemma DigitNext(s: string, start: nat, i: nat)
    requires start <= i < |s| && i - start <= |LeadingDigits(s[start..])| && IsDigit(s[i])
    ensures var digits, k := LeadingDigits(s[start..]), i - start;
            && k < |digits| && Number(digits[..k + 1]) == 10 * Number(digits[..k]) + Value(s[i])
            && 0 <= Number(digits[..k]) && Number(digits[..k + 1]) <= Number(digits)
  {
    var digits, k := LeadingDigits(s[start..]), i - start;
    assert s[i] == s[start..][k];
    assert digits[..k + 1] == digits[..k] + [s[i]];
    hide LeadingDigits;
    NumberSnoc(digits[..k], s[i]);
    NumberGrows(digits, k);
    NumberGrows(digits, k + 1);
  }

  lemma DigitsEnd(s: string, start: nat, i: nat)
    requires start <= i <= |s| && i - start <= |LeadingDigits(s[start..])| && (i < |s| ==> !IsDigit(s[i]))
    ensures i - start == |LeadingDigits(s[start..])|
  { }

  lemma NumberSnoc(s: string, c: char)
    ensures Number(s + [c]) == 10 * Number(s) + Value(c)
  { }

  method SkipBlanks(s: string) returns (i: nat)
    ensures i <= |s| && s[i..] == SkipSpaces(s)
    ensures (forall k | 0 <= k < i :: IsSpace(s[k])) && (i < |s| ==> !IsSpace(s[i]))
  {
    i := 0;
    while i < |s| && IsSpace(s[i])
      invariant i <= |s| && SkipSpaces(s[i..]) == SkipSpaces(s) && forall k | 0 <= k < i :: IsSpace(s[k])
    {
      assert s[i..][1..] == s[i + 1..];
      i := i + 1;
    }
  }

  lemma LeadingIs(s: string, i: nat)
    requires i <= |s|
    ensures var d := LeadingDigits(s[i..]);
            && i + |d| <= |s| && d == s[i..i + |d|] && (forall k | i <= k < i + |d| :: IsDigit(s[k]))
            && (i + |d| < |s| ==> !IsDigit(s[i + |d|]))
  {
    var d := LeadingDigits(s[i..]);
    hide LeadingDigits;
    assert s[i..][..|d|] == s[i..i + |d|];
    assert forall k | i <= k < i + |d| :: s[k] == d[k - i];
    assert |d| < |s[i..]| ==> s[i..][|d|] == s[i + |d|];
  }

  /** `atoi`: white space up to from, a sign perhaps, digits up to end. */
  method Atoi(s: string) returns (value: int, ghost from: nat, ghost start: nat, ghost end: nat)
    requires INT_MIN <= Parsed(s) <= INT_MAX
    ensures value == Parsed(s) && from <= start <= end <= |s|
    ensures (forall k | 0 <= k < from :: IsSpace(s[k])) && (from < |s| ==> !IsSpace(s[from]))
    ensures start == if from < |s| && (s[from] == '+' || s[from] == '-') then from + 1 else from
    ensures (forall k | start <= k < end :: IsDigit(s[k])) && (end < |s| ==> !IsDigit(s[end]))
    ensures value == if from < start && s[from] == '-' then 0 - Number(s[start..end]) else Number(s[start..end])
  {
    hide LeadingDigits, Number, SkipSpaces;
    var i := SkipBlanks(s);
    from := i;
    ghost var t := s[i..];
    var negative := false;
    if i < |s| && s[i] == '+' {
      i := i + 1;
    } else if i < |s| && s[i] == '-' {
      negative := true;
      i := i + 1;
    }
    assert s[i..] == if t != [] && (t[0] == '+' || t[0] == '-') then t[1..] else t;
    assert Parsed(s) == if negative then 0 - Number(LeadingDigits(s[i..])) else Number(LeadingDigits(s[i..]));
    start, end := i, i + |LeadingDigits(s[i..])|;
    LeadingIs(s, i);
    value := ParseDigits(s, i);
    if !negative {
      assert 0 - value <= INT_MAX;
      value := 0 - value;
    }
  }

  // ---------------------------------------------------------------- the digits stand for the value

  /** The number a string of digits stands for, least significant first */
  function NumR(b: string): int {
    if b == [] then 0 else Value(b[0]) + 10 * NumR(b[1..])
  }

  lemma {:induction false} NumberReverse(b: string)
    ensures Number(Reverse(b)) == NumR(b)
  {
    if b != [] {
      var r := Reverse(b[1..]);
      NumberReverse(b[1..]);
      assert (r + [b[0]])[..|r|] == r;
    }
  }

  ghost predicate AllDigits(s: string) { forall i | 0 <= i < |s| :: IsDigit(s[i]) }

  lemma {:induction false} NumRZeros(b: string, n: nat)
    ensures NumR(b + Repeat('0', n)) == NumR(b)
  {
    if b == [] {
      assert b + Repeat('0', n) == Repeat('0', n);
      if n > 0 {
        assert Repeat('0', n)[1..] == [] + Repeat('0', n - 1);
        NumRZeros([], n - 1);
      }
    } else {
      assert (b + Repeat('0', n))[1..] == b[1..] + Repeat('0', n);
      NumRZeros(b[1..], n);
    }
  }

  lemma {:induction false} NumberZeros(n: nat, s: string)
    ensures Number(Repeat('0', n) + s) == Number(s)
    decreases |s|, n
  {
    var z := Repeat('0', n) + s;
    if s == [] {
      if n > 0 {
        assert z[..|z| - 1] == Repeat('0', n - 1) + s;
        NumberZeros(n - 1, s);
      }
    } else {
      assert z[..|z| - 1] == Repeat('0', n) + s[..|s| - 1];
      NumberZeros(n, s[..|s| - 1]);
    }
  }

  lemma {:induction false} NumRBound(b: string)
    requires AllDigits(b)
    ensures 0 <= NumR(b) < Power10(|b|)
  {
    if b != [] {
      NumRBound(b[1..]);
    }
  }

  /** Without commas the buffer holds digits only, and they stand for the value. */
  lemma {:induction false} PlainDigits(value: nat, group: bool, cnt: nat)
    requires ',' !in Digits(value, group, cnt)
    ensures AllDigits(Digits(value, group, cnt)) && NumR(Digits(value, group, cnt)) == value
  {
    if value != 0 {
      var d := Digits(value, group, cnt);
      var rest := Digits(value / 10, group, cnt + 1);
      var comma: string := if group && cnt > 0 && cnt % 3 == 0 then [','] else [];
      assert d == comma + ([DigitOf(value % 10)] + rest);
      assert forall x | x in comma :: x in d;
      assert d == [DigitOf(value % 10)] + rest;
      assert forall x | x in rest :: x in d;
      PlainDigits(value / 10, group, cnt + 1);
      assert d[1..] == rest;
    }
  }

  lemma {:induction false} NoCommas(value: nat, cnt: nat)
    ensures ',' !in Digits(value, false, cnt)
  {
    if value != 0 {
      NoCommas(value / 10, cnt + 1);
    }
  }

  // ---------------------------------------------------------------- with commas

  /** The most significant group: what follows the last comma in the buffer */
  function Top(b: string): string {
    if b == [] then [] else if ',' in b[1..] then Top(b[1..]) else if b[0] == ',' then b[1..] else b
  }

  /** Each group but the top one is complete; the top one has at most three digits. */
  ghost predicate Grouped(d: string, value: nat, cnt: nat) {
    if ',' in d then |Top(d)| <= 3 && AllDigits(Top(d))
    else AllDigits(d) && |d| <= (if value == 0 then 0 else if cnt == 0 then 3 else (3 - cnt % 3) % 3)
  }

  lemma {:induction false} TopSmall(value: nat, cnt: nat)
    ensures Grouped(Digits(value, true, cnt), value, cnt)
  {
    if value == 0 {
      NoDigits(true, cnt);
      hide Digits;
    } else {
      TopSmall(value / 10, cnt + 1);
      DigitsStep(value, true, cnt);
      hide Digits, Grouped;
      GroupedStep(DigitOf(value % 10), Digits(value / 10, true, cnt + 1), value, cnt);
    }
  }

  lemma GroupedStep(c: char, rest: string, value: nat, cnt: nat)
    requires value > 0 && Grouped(rest, value / 10, cnt + 1) && IsDigit(c)
    ensures Grouped((if cnt > 0 && cnt % 3 == 0 then [','] else []) + [c] + rest, value, cnt)
  {
    GroupedDigit(c, rest, value, cnt);
    hide Grouped, Top, AllDigits;
    if cnt > 0 && cnt % 3 == 0 {
      GroupedComma([c] + rest, value, cnt);
      assert [','] + [c] + rest == [','] + ([c] + rest);
    } else {
      assert [] + [c] + rest == [c] + rest;
    }
  }

  /** One more digit in a group that is not yet full */
  lemma GroupedDigit(c: char, rest: string, value: nat, cnt: nat)
    requires value > 0 && Grouped(rest, value / 10, cnt + 1) && IsDigit(c)
    ensures var tail := [c] + rest;
            if cnt > 0 && cnt % 3 == 0 then
              (if ',' in tail then |Top(tail)| <= 3 && AllDigits(Top(tail)) else AllDigits(tail) && |tail| <= 3)
            else Grouped(tail, value, cnt)
  { }

  /** A comma in front of a group that is full, or the top one */
  lemma GroupedComma(tail: string, value: nat, cnt: nat)
    requires if ',' in tail then |Top(tail)| <= 3 && AllDigits(Top(tail)) else AllDigits(tail) && |tail| <= 3
    ensures Grouped([','] + tail, value, cnt)
  { }

  lemma TopZeros(b: string, n: nat)
    ensures Top(b + Repeat('0', n)) == if ',' in b then Top(b) + Repeat('0', n) else b + Repeat('0', n)
  {
    var z := b + Repeat('0', n);
    if b == [] {
      assert z == Repeat('0', n);
      assert n > 0 ==> ',' !in z[1..] && z[0] != ',';
    } else {
      var rest := b[1..] + Repeat('0', n);
      assert z[1..] == rest;
      TopZeros(b[1..], n);
      assert ',' in rest <==> ',' in b[1..];
    }
  }

  // ---------------------------------------------------------------- the round trip

  lemma {:induction false} LeadingThrough(x: string, y: string)
    requires AllDigits(x)
    ensures LeadingDigits(x + y) == x + LeadingDigits(y)
  {
    if x == [] {
      assert x + y == y;
    } else {
      assert (x + y)[1..] == x[1..] + y;
      LeadingThrough(x[1..], y);
    }
  }

  lemma {:induction false} LeadingStops(x: string, y: string)
    requires !AllDigits(x)
    ensures LeadingDigits(x + y) == LeadingDigits(x)
  {
    assert (x + y)[0] == x[0];
    if IsDigit(x[0]) {
      assert (x + y)[1..] == x[1..] + y;
      LeadingStops(x[1..], y);
    }
  }

  lemma {:induction false} ReverseHas(s: string)
    ensures AllDigits(Reverse(s)) <==> AllDigits(s)
  {
    if s != [] {
      ReverseHas(s[1..]);
      DigitsSplit(Reverse(s[1..]), [s[0]]);
      DigitsSplit([s[0]], s[1..]);
      assert s == [s[0]] + s[1..];
    }
  }

  lemma DigitsSplit(x: string, y: string)
    ensures AllDigits(x + y) <==> AllDigits(x) && AllDigits(y)
  {
    var z := x + y;
    assert forall i | 0 <= i < |x| :: z[i] == x[i];
    assert forall i | 0 <= i < |y| :: z[|x| + i] == y[i];
  }

  ghost predicate DigitsAndCommas(b: string) { forall i | 0 <= i < |b| :: IsDigit(b[i]) || b[i] == ',' }

  /** Reading from the most significant end stops at the first comma, that is, behind the top group. */
  lemma {:induction false} LeadingTop(b: string, y: string)
    requires DigitsAndCommas(b) && (y == [] || !IsDigit(y[0]))
    ensures LeadingDigits(Reverse(b) + y) == Reverse(Top(b))
  {
    if b == [] {
      assert Reverse(b) + y == y;
    } else {
      var r := Reverse(b[1..]);
      assert Reverse(b) + y == r + ([b[0]] + y);
      ReverseHas(b[1..]);
      if ',' in b[1..] {
        LeadingTop(b[1..], []);
        assert r + [] == r;
        LeadingStops(r, [b[0]] + y);
      } else {
        LeadingThrough(r, [b[0]] + y);
        assert ([b[0]] + y)[1..] == y;
      }
    }
  }

  lemma {:induction false} DigitChars(value: nat, group: bool, cnt: nat)
    ensures DigitsAndCommas(Digits(value, group, cnt))
    ensures value > 0 ==> Digits(value, group, cnt) != []
  {
    if value != 0 {
      DigitChars(value / 10, group, cnt + 1);
    }
  }

  /** The most significant character in the buffer is a digit. */
  lemma {:induction false} LastIsDigit(value: nat, group: bool, cnt: nat)
    requires value > 0
    ensures var d := Digits(value, group, cnt); d != [] && IsDigit(d[|d| - 1])
  {
    if value / 10 > 0 {
      LastIsDigit(value / 10, group, cnt + 1);
    }
  }

  lemma {:induction false} ReverseFirst(s: string)
    requires s != []
    ensures Reverse(s)[0] == s[|s| - 1]
  {
    if |s| > 1 {
      ReverseFirst(s[1..]);
    }
  }

  /** What is read of the digits that are printed */
  function ReadBack(value: nat, group: bool): int {
    var d := Digits(value, group, 0);
    NumR(if ',' in d then Top(d) else d)
  }

  /** It is the value exactly if there is no comma to stop at. */
  lemma ReadBackIs(value: nat, group: bool)
    ensures ReadBack(value, group) == value <==> !group || value < 1000
  {
    var d := Digits(value, group, 0);
    if !group {
      NoCommas(value, 0);
      PlainDigits(value, group, 0);
    } else if value < 1000 {
      FewDigits(value);
      PlainDigits(value, group, 0);
    } else {
      TopSmall(value, 0);
      assert Power10(3) == 1000 && Power10(2) == 100;
      if ',' in d {
        NumRBound(Top(d));
        PowerGrows(|Top(d)|, 3);
      } else {
        PlainDigits(value, group, 0);
        NumRBound(d);
        PowerGrows(|d|, 3);
      }
    }
  }

  lemma {:induction false} PowerGrows(m: nat, n: nat)
    requires m <= n
    ensures Power10(m) <= Power10(n)
  {
    if m < n {
      PowerGrows(m, n - 1);
    }
  }

  lemma FewDigits(value: nat)
    requires value < 1000
    ensures ',' !in Digits(value, true, 0)
  {
    assert Digits(value / 1000, true, 3) == [];
    assert value / 10 / 10 / 10 == value / 1000;
    assert ',' !in Digits(value / 10 / 10, true, 2);
    assert ',' !in Digits(value / 10, true, 1);
  }

  /** Reading the zero padding and the digits, whatever follows that is not a digit. */
  lemma BodyRead(value: nat, c: Conversion, zeros: nat, y: string)
    requires y == [] || !IsDigit(y[0])
    ensures Number(LeadingDigits(Repeat('0', zeros) + Reverse(Precise(value, c)) + y)) == ReadBack(value, c.group)
  {
    var d, b, z := Digits(value, c.group, 0), Precise(value, c), Repeat('0', zeros);
    var n := |b| - |d|;
    assert b == d + Repeat('0', n);
    DigitChars(value, c.group, 0);
    assert z + Reverse(b) + y == z + (Reverse(b) + y);
    LeadingThrough(z, Reverse(b) + y);
    LeadingTop(b, y);
    NumberZeros(zeros, Reverse(Top(b)));
    NumberReverse(Top(b));
    TopZeros(d, n);
    NumRZeros(d, n);
    NumRZeros(Top(d), n);
  }

  lemma {:induction false} SpacesSkipped(n: nat, y: string)
    ensures SkipSpaces(Repeat(' ', n) + y) == SkipSpaces(y)
  {
    if n == 0 {
      assert Repeat(' ', n) + y == y;
    } else {
      assert (Repeat(' ', n) + y)[1..] == Repeat(' ', n - 1) + y;
      SpacesSkipped(n - 1, y);
    }
  }

  /** The printed digits, if there are any, start with a digit; there are none only for zero. */
  lemma BodyStarts(value: nat, c: Conversion, zeros: nat)
    ensures var body := Repeat('0', zeros) + Reverse(Precise(value, c));
            if body == [] then value == 0 else IsDigit(body[0])
  {
    var d, b, z := Digits(value, c.group, 0), Precise(value, c), Repeat('0', zeros);
    var body := z + Reverse(b);
    if value > 0 {
      LastIsDigit(value, c.group, 0);
    }
    if b != [] {
      ReverseFirst(b);
      assert |b| > |d| ==> b[|b| - 1] == '0';
      assert zeros == 0 ==> body[0] == Reverse(b)[0];
    }
  }

  lemma {:induction false} SpacesOnly(n: nat)
    ensures SkipSpaces(Repeat(' ', n)) == []
  {
    SpacesSkipped(n, []);
    assert Repeat(' ', n) + [] == Repeat(' ', n);
  }

  /** Blanks and the sign are read as what they are. */
  lemma SignRead(negative: bool, c: Conversion, spaces: nat, body: string, tail: nat)
    requires body == [] || IsDigit(body[0])
    ensures var n := Number(LeadingDigits(body + Repeat(' ', tail)));
            Parsed(Repeat(' ', spaces) + Sign(negative, c) + (body + Repeat(' ', tail))) == if negative then 0 - n
              else n
  {
    hide LeadingDigits, Number;
    var y, g := body + Repeat(' ', tail), Sign(negative, c);
    assert Repeat(' ', spaces) + g + y == Repeat(' ', spaces) + (g + y);
    SpacesSkipped(spaces, g + y);
    if body == [] {
      SpacesOnly(tail);
      assert y == Repeat(' ', tail);
      NothingRead(tail);
    } else {
      assert y[0] == body[0] && SkipSpaces(y) == y;
    }
    if g == " " {
      assert (g + y)[1..] == y;
    } else if g == "" {
      assert g + y == y;
    } else {
      assert (g + y)[1..] == y && (g + y)[0] == g[0];
    }
  }

  lemma NothingRead(n: nat)
    ensures LeadingDigits(Repeat(' ', n)) == [] && Number([]) == 0 && LeadingDigits([]) == []
  { }

  /** Reading back what %d printed gives the integer, for every width, precision and flag, unless grouping put a comma
      in. */
  lemma RoundTrip(v: int, c: Conversion)
    requires INT_MIN <= v <= INT_MAX
    ensures var out := Printed(if v < 0 then 0 - v else v, v < 0, c);
            && INT_MIN <= Parsed(out) <= INT_MAX
            && (Parsed(out) == v <==> !c.group || -1000 < v < 1000)
  {
    var value: nat := if v < 0 then 0 - v else v;
    PrintedRead(value, v < 0, c);
    ReadBackIs(value, c.group);
    ReadBackSmall(value, c.group);
    hide Printed, Parsed, ReadBack;
  }

  lemma PrintedRead(value: nat, negative: bool, c: Conversion)
    ensures Parsed(Printed(value, negative, c)) == if negative then 0 - ReadBack(value, c.group)
              else ReadBack(value, c.group)
  {
    var pad := PadCnt(value, negative, c);
    var spaces: nat := if !c.minus && !c.zero then pad else 0;
    var zeros: nat := if c.zero then pad else 0;
    var tail: nat := if c.minus then pad else 0;
    BodyStarts(value, c, zeros);
    SpaceNoDigit(tail);
    BodyRead(value, c, zeros, Repeat(' ', tail));
    var body := Repeat('0', zeros) + Reverse(Precise(value, c));
    SignRead(negative, c, spaces, body, tail);
    hide Precise, PadCnt, Sign, Repeat, Reverse, Parsed, LeadingDigits, Number, ReadBack;
    Assoc(Repeat(' ', spaces), Sign(negative, c), Repeat('0', zeros), Reverse(Precise(value, c)), Repeat(' ', tail));
  }

  lemma Assoc(a: string, b: string, c: string, d: string, e: string)
    ensures a + b + c + d + e == a + b + ((c + d) + e)
  { }

  lemma SpaceNoDigit(n: nat)
    ensures Repeat(' ', n) == [] || !IsDigit(Repeat(' ', n)[0])
  { }

  lemma ReadBackSmall(value: nat, group: bool)
    ensures 0 <= ReadBack(value, group) && (ReadBack(value, group) == value || ReadBack(value, group) < 1000 <= value)
  {
    ReadBackIs(value, group);
    if group && value >= 1000 {
      var d := Digits(value, group, 0);
      TopSmall(value, 0);
      assert Power10(3) == 1000 && Power10(2) == 100;
      if ',' in d {
        NumRBound(Top(d));
        PowerGrows(|Top(d)|, 3);
      } else {
        PlainDigits(value, group, 0);
      }
    }
  }
}
