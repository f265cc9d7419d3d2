/** Integer conversions and bounded output of printf (lib/stdio.c), after section 7.19.6.1 of
    ISO C99. */
module Stdio {
  import opened Sequences
  import opened Stdlib
  import opened Words

  /** struct integer_base; `x` is the prefix letter or empty. */
  datatype Base = Base(base: nat, digits: string, x: string, group: nat)

  const BASE_D := Base(10, "0123456789", "", 3)
  const BASE_O := Base(8, "01234567", "", 3)
  const BASE_X_LOWER := Base(16, "0123456789abcdef", "x", 4)
  const BASE_X_UPPER := Base(16, "0123456789ABCDEF", "X", 4)

  type IntegerBase = b: Base | b in {BASE_D, BASE_O, BASE_X_LOWER, BASE_X_UPPER} witness BASE_D

  /** struct printf_conversion, without the argument type. */
  datatype Conversion = Conversion(minus: bool, plus: bool, space: bool, pound: bool, zero: bool, group: bool,
                                   width: i32, precision: i32)

  // ----- what text denotes

  /** The value of a digit character in the base, or -1. */
  function DigitIn(b: Base, c: char): int {
    var d := if '0' <= c <= '9' then c as int - '0' as int
             else if 'a' <= c <= 'f' then 10 + (c as int - 'a' as int)
             else if 'A' <= c <= 'F' then 10 + (c as int - 'A' as int) else -1;
    if d < b.base then d else -1
  }

  /** The number the digits in `s` denote, high digit first; other characters are skipped. */
  function Value(b: Base, s: string): (n: int)
    ensures n >= 0
  {
    if s == "" then 0
    else
      var d, front := DigitIn(b, s[|s| - 1]), Value(b, s[..|s| - 1]);
      if d >= 0 then MulNat(b.base, front); b.base * front + d else front
  }

  lemma MulNat(x: nat, y: int)
    requires y >= 0
    ensures x * y >= 0
  {
  }

  /** The same with the low digit first, as digits are put in the buffer. */
  function LowValue(b: Base, s: string): (n: int)
    ensures n >= 0
  {
    if s == "" then 0
    else
      var d, rest := DigitIn(b, s[0]), LowValue(b, s[1..]);
      if d >= 0 then MulNat(b.base, rest); d + b.base * rest else rest
  }

  lemma {:induction false} ReverseValue(b: Base, s: string)
    ensures Value(b, Reverse(s)) == LowValue(b, s)
  {
    if s != "" {
      ReverseValue(b, s[1..]);
      var r := Reverse(s[1..]) + [s[0]];
      assert r[..|r| - 1] == Reverse(s[1..]) && r[|r| - 1] == s[0];
    }
  }

  lemma DigitChar(b: IntegerBase, i: nat)
    requires i < b.base
    ensures i < |b.digits| && DigitIn(b, b.digits[i]) == i
  {
    if i < 8 {
      SmallDigit(b, i);
    } else {
      LargeDigit(b, i);
    }
  }

  lemma SmallDigit(b: IntegerBase, i: nat)
    requires i < 8
    ensures i < |b.digits| && DigitIn(b, b.digits[i]) == i
  {
    assert i == 0 || i == 1 || i == 2 || i == 3 || i == 4 || i == 5 || i == 6 || i == 7;
  }

  lemma LargeDigit(b: IntegerBase, i: nat)
    requires 8 <= i < b.base
    ensures i < |b.digits| && DigitIn(b, b.digits[i]) == i
  {
    assert i == 8 || i == 9 || i == 10 || i == 11 || i == 12 || i == 13 || i == 14 || i == 15;
  }

  // ----- the digits of a number

  /** The low digit of `v` when `k` digits are out already; with grouping, a comma goes before
      every full group. */
  function Piece(b: IntegerBase, group: bool, v: nat, k: nat): (s: string)
    ensures 1 <= |s| <= 2
  {
    DigitChar(b, v % b.base);
    if group && k > 0 && k % b.group == 0 then [',', b.digits[v % b.base]] else [b.digits[v % b.base]]
  }

  /** The digits of `v`, low digit first. */
  function LowDigits(b: IntegerBase, group: bool, v: nat, k: nat): (s: string)
    decreases v
  {
    if v == 0 then "" else Recompose(v, b.base); Piece(b, group, v, k) + LowDigits(b, group, v / b.base, k + 1)
  }

  lemma LowPush(b: Base, c: char, rest: string)
    ensures DigitIn(b, c) >= 0 ==> LowValue(b, [c] + rest) == DigitIn(b, c) + b.base * LowValue(b, rest)
    ensures DigitIn(b, c) < 0 ==> LowValue(b, [c] + rest) == LowValue(b, rest)
  {
    assert ([c] + rest)[1..] == rest;
  }

  /** One digit, with its comma if any. */
  lemma PieceValue(b: IntegerBase, group: bool, v: nat, k: nat, rest: string)
    ensures LowValue(b, Piece(b, group, v, k) + rest) == v % b.base + b.base * LowValue(b, rest)
  {
    hide DigitIn, LowValue;
    DigitChar(b, v % b.base);
    var c := b.digits[v % b.base];
    LowPush(b, c, rest);
    LowPush(b, ',', [c] + rest);
    CommaNoDigit(b);
    assert [',', c] + rest == [','] + ([c] + rest);
  }

  lemma Recompose(v: nat, base: nat)
    requires base >= 2
    ensures v == v % base + base * (v / base) && (v > 0 ==> 0 <= v / base < v)
  {
  }

  lemma {:induction false} LowDigitsValue(b: IntegerBase, group: bool, v: nat, k: nat)
    ensures LowValue(b, LowDigits(b, group, v, k)) == v
    decreases v
  {
    hide DigitIn, LowValue, Piece;
    if v > 0 {
      Recompose(v, b.base);
      PieceValue(b, group, v, k, LowDigits(b, group, v / b.base, k + 1));
      LowDigitsValue(b, group, v / b.base, k + 1);
    } else {
      LowEmpty(b);
    }
  }

  lemma LowEmpty(b: Base)
    ensures LowValue(b, "") == 0
  {
  }

  lemma CommaNoDigit(b: Base)
    ensures DigitIn(b, ',') == -1 && DigitIn(b, ' ') == -1 && DigitIn(b, '+') == -1 && DigitIn(b, '-') == -1
    ensures DigitIn(b, 'x') == -1 && DigitIn(b, 'X') == -1 && (b.base > 0 ==> DigitIn(b, '0') == 0)
  {
  }

  function Power8(n: nat): nat { if n == 0 then 1 else 8 * Power8(n - 1) }

  /** A number below 8 to the n has at most n digits, and at most a comma with each. */
  lemma {:induction false} LowDigitsLength(b: IntegerBase, group: bool, v: nat, k: nat, n: nat)
    requires v < Power8(n)
    ensures |LowDigits(b, group, v, k)| <= 2 * n
    decreases n
  {
    if v > 0 && n > 0 {
      LowDigitsLength(b, group, v / b.base, k + 1, n - 1);
    }
  }

  lemma WordDigits(b: IntegerBase, group: bool, v: u64)
    ensures |LowDigits(b, group, v, 0)| <= 44
  {
    assert Power8(22) >= TWO64 by {
      assert Power8(4) == 4096 && Power8(8) == 4096 * 4096;
      assert Power8(12) == 4096 * Power8(8) && Power8(16) == 4096 * Power8(12) && Power8(20) == 4096 * Power8(16);
    }
    LowDigitsLength(b, group, v, 0, 22);
  }

  // ----- the whole conversion

  function Repeat(c: char, n: int): (s: string)
    ensures |s| == if n < 0 then 0 else n
    ensures forall i :: 0 <= i < |s| ==> s[i] == c
  {
    if n <= 0 then "" else Repeat(c, n - 1) + [c]
  }

  /** What the buffer holds, low digit first: digits, zeros up to the precision or to all but one
      of the buffer's 64 characters, and the 0 that # asks for in octal. */
  function Buffered(b: IntegerBase, c: Conversion, v: u64): (s: string) {
    var digits := LowDigits(b, c.group, v, 0);
    var precision := if c.precision < 0 then 1 else c.precision;
    var s := digits + Repeat('0', (if precision < 63 then precision else 63) - |digits|);
    if c.pound && b.base == 8 && (s == "" || s[|s| - 1] != '0') then s + "0" else s
  }

  function Sign(c: Conversion, isSigned: bool, negative: bool): (s: string) {
    if !isSigned then "" else if negative then "-" else if c.plus then "+" else if c.space then " " else ""
  }

  function Prefix(b: IntegerBase, c: Conversion, v: u64): (s: string) {
    if c.pound && v != 0 && b.x != "" then "0" + b.x else ""
  }

  /** Characters besides padding. */
  function Payload(b: IntegerBase, c: Conversion, v: u64, isSigned: bool, negative: bool): nat {
    |Sign(c, isSigned, negative)| + |Prefix(b, c, v)| + |Buffered(b, c, v)|
  }

  /** pad_cnt: computed in an int, where a width near INT_MIN wraps around, and not negative. */
  function PadCnt(b: IntegerBase, c: Conversion, v: u64, isSigned: bool, negative: bool): nat {
    var pad := ToI32(c.width - Payload(b, c, v, isSigned, negative));
    if pad < 0 then 0 else pad
  }

  /** Everything before the digits: padding, sign, prefix and zeros. */
  function Front(b: IntegerBase, c: Conversion, v: u64, isSigned: bool, negative: bool): string {
    var pad := PadCnt(b, c, v, isSigned, negative);
    Repeat(' ', if c.minus || c.zero then 0 else pad) + Sign(c, isSigned, negative) + Prefix(b, c, v)
      + Repeat('0', if c.zero then pad else 0)
  }

  function Formatted(b: IntegerBase, c: Conversion, v: u64, isSigned: bool, negative: bool): (s: string) {
    var pad := PadCnt(b, c, v, isSigned, negative);
    Front(b, c, v, isSigned, negative) + Reverse(Buffered(b, c, v)) + Repeat(' ', if c.minus then pad else 0)
  }

  // ----- what it means

  lemma {:induction false} LowZeros(b: Base, s: string, n: nat)
    requires b.base > 0
    ensures LowValue(b, s + Repeat('0', n)) == LowValue(b, s)
  {
    if s != "" {
      var t := s + Repeat('0', n);
      assert t[1..] == s[1..] + Repeat('0', n);
      LowZeros(b, s[1..], n);
    } else {
      assert s + Repeat('0', n) == Repeat('0', n);
      AllZeros(b, Repeat('0', n));
    }
  }

  lemma {:induction false} AllZeros(b: Base, s: string)
    requires b.base > 0 && forall i :: 0 <= i < |s| ==> s[i] == '0'
    ensures LowValue(b, s) == 0
  {
    if s != "" { AllZeros(b, s[1..]); }
  }

  lemma BufferedValue(b: IntegerBase, c: Conversion, v: u64)
    ensures LowValue(b, Buffered(b, c, v)) == v
  {
    hide LowValue, LowDigits;
    var digits := LowDigits(b, c.group, v, 0);
    var precision := if c.precision < 0 then 1 else c.precision;
    var n := (if precision < 63 then precision else 63) - |digits|;
    var s := digits + Repeat('0', n);
    LowDigitsValue(b, c.group, v, 0);
    if n > 0 {
      LowZeros(b, digits, n);
    } else {
      assert s == digits;
    }
    LowZeros(b, s, 1);
    assert Repeat('0', 1) == "0";
  }

  /** The buffer's 64 characters are enough. */
  lemma BufferedFits(b: IntegerBase, c: Conversion, v: u64)
    ensures |Buffered(b, c, v)| <= 64
  {
    hide LowDigits;
    WordDigits(b, c.group, v);
  }

  /** Text before the digits that is worth nothing, and blanks after, leave the value. */
  lemma {:induction false} ValueAfter(b: Base, front: string, s: string)
    requires Value(b, front) == 0
    ensures Value(b, front + s) == Value(b, s)
  {
    if s == "" {
      assert front + s == front;
    } else {
      var t := front + s;
      assert t[..|t| - 1] == front + s[..|s| - 1] && t[|t| - 1] == s[|s| - 1];
      ValueAfter(b, front, s[..|s| - 1]);
    }
  }

  lemma {:induction false} ValueBefore(b: Base, s: string, back: string)
    requires forall i :: 0 <= i < |back| ==> back[i] == ' '
    ensures Value(b, s + back) == Value(b, s)
  {
    if back == "" {
      assert s + back == s;
    } else {
      var t := s + back;
      assert t[..|t| - 1] == s + back[..|back| - 1] && t[|t| - 1] == ' ';
      ValueBefore(b, s, back[..|back| - 1]);
    }
  }

  /** Characters that are no digits, or zeros, are worth nothing. */
  lemma {:induction false} Worthless(b: Base, s: string)
    requires forall i :: 0 <= i < |s| ==> DigitIn(b, s[i]) <= 0
    ensures Value(b, s) == 0
  {
    if s != "" { Worthless(b, s[..|s| - 1]); }
  }

  /** The digits of the output, with everything else skipped, denote the value. */
  lemma FormattedValue(b: IntegerBase, c: Conversion, v: u64, isSigned: bool, negative: bool)
    ensures Value(b, Formatted(b, c, v, isSigned, negative)) == v
  {
    hide Value, LowValue, Buffered, LowDigits, DigitIn, Repeat, PadCnt;
    var front, body := Front(b, c, v, isSigned, negative), Reverse(Buffered(b, c, v));
    var back := Repeat(' ', if c.minus then PadCnt(b, c, v, isSigned, negative) else 0);
    BufferedValue(b, c, v);
    ReverseValue(b, Buffered(b, c, v));
    CommaNoDigit(b);
    Worthless(b, front);
    ValueAfter(b, front, body);
    ValueBefore(b, front + body, back);
  }

  /** pad_cnt is the room left in the field, exactly unless the subtraction wraps: then it is large. */
  lemma PadCntIs(b: IntegerBase, c: Conversion, v: u64, isSigned: bool, negative: bool)
    ensures var payload, pad := Payload(b, c, v, isSigned, negative), PadCnt(b, c, v, isSigned, negative);
      && payload <= 67
      && pad == if c.width - payload < -TWO31 then c.width - payload + TWO32
                else if c.width > payload then c.width - payload else 0
  {
    hide Buffered;
    BufferedFits(b, c, v);
  }

  /** The contents, and the padding once, or twice if both flags `-` and `0` are set. */
  lemma PaddedLength(b: IntegerBase, c: Conversion, v: u64, isSigned: bool, negative: bool)
    ensures |Formatted(b, c, v, isSigned, negative)| ==
      Payload(b, c, v, isSigned, negative) + (if c.minus && c.zero then 2 else 1) * PadCnt(b, c, v, isSigned, negative)
  {
    hide Buffered, Sign, Prefix, PadCnt;
    ReverseIndex(Buffered(b, c, v));
  }

  /** The output is as wide as the field or as its contents, whichever is more, exactly unless
      there is padding to do and both flags `-` and `0` are set, or the pad count wraps. */
  lemma FormattedLength(b: IntegerBase, c: Conversion, v: u64, isSigned: bool, negative: bool)
    ensures var n, payload := |Formatted(b, c, v, isSigned, negative)|, Payload(b, c, v, isSigned, negative);
      n == (if c.width > payload then c.width else payload) <==>
        !(c.minus && c.zero && c.width > payload) && c.width - payload >= -TWO31
  {
    hide Formatted, Payload, PadCnt;
    PadCntIs(b, c, v, isSigned, negative);
    PaddedLength(b, c, v, isSigned, negative);
  }

  lemma {:induction false} DigitsOnly(b: IntegerBase, group: bool, v: nat, k: nat)
    ensures forall ch :: ch in LowDigits(b, group, v, k) ==> ch == ',' || (DigitIn(b, ch) >= 0 && CaseOk(b, ch))
    decreases v
  {
    if v > 0 {
      Recompose(v, b.base);
      DigitChar(b, v % b.base);
      DigitCase(b, v % b.base);
      DigitsOnly(b, group, v / b.base, k + 1);
    }
  }

  lemma DigitCase(b: IntegerBase, i: nat)
    requires i < |b.digits|
    ensures CaseOk(b, b.digits[i])
  {
    assert i < 8 || i == 8 || i == 9 || i == 10 || i == 11 || i == 12 || i == 13 || i == 14 || i == 15;
    assert i < 8 ==> i == 0 || i == 1 || i == 2 || i == 3 || i == 4 || i == 5 || i == 6 || i == 7;
  }

  lemma BodyChars(b: IntegerBase, c: Conversion, v: u64)
    ensures forall ch :: ch in Reverse(Buffered(b, c, v)) ==> ch == ',' || (DigitIn(b, ch) >= 0 && CaseOk(b, ch))
  {
    hide LowDigits, DigitIn;
    assert CaseOk(b, '0');
    hide CaseOk;
    DigitsOnly(b, c.group, v, 0);
    CommaNoDigit(b);
    var s := Buffered(b, c, v);
    assert forall ch :: ch in s ==> ch == ',' || (DigitIn(b, ch) >= 0 && CaseOk(b, ch));
    ReverseIndex(s);
    forall ch | ch in Reverse(s) ensures ch in s {
      var i :| 0 <= i < |s| && Reverse(s)[i] == ch;
      assert s[|s| - 1 - i] == ch;
    }
  }

  /** A minus sign is printed exactly for a negative number, a plus sign exactly when one is asked
      for and the number is signed and not negative, the prefix letter exactly for a nonzero
      hexadecimal number with #. */
  lemma FormattedSigns(b: IntegerBase, c: Conversion, v: u64, isSigned: bool, negative: bool)
    ensures var out := Formatted(b, c, v, isSigned, negative);
      && ('-' in out <==> isSigned && negative)
      && ('+' in out <==> isSigned && !negative && c.plus)
      && (('x' in out || 'X' in out) <==> c.pound && v != 0 && b.base == 16)
  {
    hide Formatted;
    MarkChar(b, c, v, isSigned, negative, '-');
    MarkChar(b, c, v, isSigned, negative, '+');
    MarkChar(b, c, v, isSigned, negative, 'x');
    MarkChar(b, c, v, isSigned, negative, 'X');
  }

  /** Padding and digits hold none of these. */
  lemma MarkChar(b: IntegerBase, c: Conversion, v: u64, isSigned: bool, negative: bool, ch: char)
    requires ch in "-+xX"
    ensures ch in Formatted(b, c, v, isSigned, negative) <==> ch in Sign(c, isSigned, negative) || ch in Prefix(b, c, v)
  {
    hide Buffered, DigitIn, Reverse, Repeat, Sign, Prefix, PadCnt;
    BodyChars(b, c, v);
    CommaNoDigit(b);
    var pad := PadCnt(b, c, v, isSigned, negative);
    var body, back := Reverse(Buffered(b, c, v)), Repeat(' ', if c.minus then pad else 0);
    var a, z := Repeat(' ', if c.minus || c.zero then 0 else pad), Repeat('0', if c.zero then pad else 0);
    OnlyChar(a, ' ');
    OnlyChar(z, '0');
    OnlyChar(back, ' ');
    InParts(a, Sign(c, isSigned, negative), Prefix(b, c, v), z, body, back, ch);
  }

  lemma InParts(a: string, b: string, c: string, d: string, e: string, f: string, ch: char)
    ensures ch in a + b + c + d + e + f <==> ch in a || ch in b || ch in c || ch in d || ch in e || ch in f
  {
  }

  lemma OnlyChar(s: string, c: char)
    requires forall i :: 0 <= i < |s| ==> s[i] == c
    ensures forall ch :: ch in s ==> ch == c
  {
  }

  // ----- grouping and precision

  /** How many characters the first `k` digits take, with a comma before every full group. */
  function Grouped(g: nat, k: nat): nat
    requires g > 0
  {
    if k == 0 then 0 else k + (k - 1) / g
  }

  lemma GroupedNext(g: nat, k: nat)
    requires g == 3 || g == 4
    ensures Grouped(g, k + 1) == Grouped(g, k) + if k > 0 && k % g == 0 then 2 else 1
    ensures (Grouped(g, k) + 1) % (g + 1) == 0 <==> k > 0 && k % g == 0
    ensures k > 0 && k % g == 0 ==> (Grouped(g, k) + 2) % (g + 1) != 0
  {
  }

  /** Counted from the low end, a comma stands exactly at every (group + 1)-th place, and never
      last. */
  lemma {:induction false} CommaPlaces(b: IntegerBase, group: bool, v: nat, k: nat, p: nat)
    requires p < |LowDigits(b, group, v, k)|
    ensures var s := LowDigits(b, group, v, k);
      && (s[p] == ',' <==> group && (p + Grouped(b.group, k) + 1) % (b.group + 1) == 0)
      && s[|s| - 1] != ','
    decreases v
  {
    hide Piece, Grouped;
    Recompose(v, b.base);
    PieceComma(b, group, v, k);
    GroupedNext(b.group, k);
    var piece, rest := Piece(b, group, v, k), LowDigits(b, group, v / b.base, k + 1);
    if rest != "" {
      CommaPlaces(b, group, v / b.base, k + 1, if p >= |piece| then p - |piece| else 0);
    }
  }

  lemma PieceComma(b: IntegerBase, group: bool, v: nat, k: nat)
    ensures var s, comma := Piece(b, group, v, k), group && k > 0 && k % b.group == 0;
      |s| == (if comma then 2 else 1) && (s[0] == ',' <==> comma) && s[|s| - 1] != ','
  {
    hide DigitIn;
    DigitChar(b, v % b.base);
    CommaNoDigit(b);
  }

  /** The high digit is not zero. */
  lemma {:induction false} HighDigit(b: IntegerBase, group: bool, v: nat, k: nat)
    ensures var s := LowDigits(b, group, v, k); if v == 0 then s == "" else s != "" && DigitIn(b, s[|s| - 1]) > 0
    decreases v
  {
    hide DigitIn;
    if v > 0 {
      Recompose(v, b.base);
      DigitChar(b, v % b.base);
      var piece, rest := Piece(b, group, v, k), LowDigits(b, group, v / b.base, k + 1);
      HighDigit(b, group, v / b.base, k + 1);
      if rest == "" {
        assert piece + rest == piece;
        DivZero(v, b.base);
      }
    }
  }

  lemma DivZero(v: nat, base: nat)
    requires base >= 2 && v > 0
    ensures v / base == 0 ==> v % base == v
  {
  }

  /** The buffer holds the digits, grouped; zeros up to the precision or to 63 characters; and with
      # in octal, a leading zero. */
  lemma BufferedShape(b: IntegerBase, c: Conversion, v: u64)
    ensures var s, n := Buffered(b, c, v), |LowDigits(b, c.group, v, 0)|;
      var want := if c.precision < 0 then 1 else if c.precision < 63 then c.precision else 63;
      && (n == 0 <==> v == 0) && n <= |s| && (n > 0 ==> DigitIn(b, s[n - 1]) > 0)
      && (if n < want then want else n) <= |s| <= (if n < want then want else n) + 1
      && (forall r :: 0 <= r < n ==> (s[r] == ',' <==> c.group && (r + 1) % (b.group + 1) == 0))
      && (forall r :: n <= r < |s| ==> s[r] == '0')
      && (c.pound && b.base == 8 ==> s != "" && s[|s| - 1] == '0')
      && (|s| == (if n < want then want else n) + 1 ==> c.pound && b.base == 8)
  {
    hide LowDigits, DigitIn;
    HighDigit(b, c.group, v, 0);
    var digits := LowDigits(b, c.group, v, 0);
    forall r | 0 <= r < |digits| ensures digits[r] == ',' <==> c.group && (r + 1) % (b.group + 1) == 0 {
      CommaPlaces(b, c.group, v, 0, r);
    }
  }

  /** The same in the output, from the right end of the number. */
  lemma FormattedGroups(b: IntegerBase, c: Conversion, v: u64, isSigned: bool, negative: bool)
    ensures var out, s, n := Formatted(b, c, v, isSigned, negative), Buffered(b, c, v), |LowDigits(b, c.group, v, 0)|;
      var end := |out| - if c.minus then PadCnt(b, c, v, isSigned, negative) else 0;
      && n <= |s| <= end
      && (forall i :: end - n <= i < end ==> (out[i] == ',' <==> c.group && (end - i) % (b.group + 1) == 0))
      && (forall i :: end - |s| <= i < end - n ==> out[i] == '0')
  {
    hide LowDigits, Buffered, PadCnt, Front, Reverse;
    var out, s, n := Formatted(b, c, v, isSigned, negative), Buffered(b, c, v), |LowDigits(b, c.group, v, 0)|;
    var front := Front(b, c, v, isSigned, negative);
    BufferedShape(b, c, v);
    ReverseIndex(s);
    var end := |front| + |s|;
    forall i | |front| <= i < end ensures out[i] == s[end - 1 - i] {
      assert out[i] == Reverse(s)[i - |front|];
    }
  }

  // ----- where everything stands

  /** The same conversion in a field of no width. */
  function Bare(c: Conversion): Conversion { c.(width := 0) }

  function SignLength(c: Conversion, isSigned: bool, negative: bool): nat {
    if isSigned && (negative || c.plus || c.space) then 1 else 0
  }

  function PrefixLength(b: IntegerBase, c: Conversion, v: u64): nat {
    if c.pound && v != 0 && b.base == 16 then 2 else 0
  }

  lemma BareText(b: IntegerBase, c: Conversion, v: u64, isSigned: bool, negative: bool)
    ensures Formatted(b, Bare(c), v, isSigned, negative) ==
      Sign(c, isSigned, negative) + Prefix(b, c, v) + Reverse(Buffered(b, c, v))
  {
    hide Buffered, Reverse, PadCnt, Sign, Prefix, Repeat;
    SameButWidth(b, c, v, isSigned, negative);
    PadCntIs(b, Bare(c), v, isSigned, negative);
    NoPad(' ');
    NoPad('0');
    var sign, prefix, body := Sign(c, isSigned, negative), Prefix(b, c, v), Reverse(Buffered(b, c, v));
    assert "" + sign + prefix + "" + body + "" == sign + prefix + body;
  }

  lemma SameButWidth(b: IntegerBase, c: Conversion, v: u64, isSigned: bool, negative: bool)
    ensures Buffered(b, Bare(c), v) == Buffered(b, c, v) && Prefix(b, Bare(c), v) == Prefix(b, c, v)
    ensures Sign(Bare(c), isSigned, negative) == Sign(c, isSigned, negative)
  {
    hide LowDigits, Repeat;
  }

  /** Without padding: the sign, the prefix, then digits and commas, letters in the case asked for. */
  lemma BareParts(b: IntegerBase, c: Conversion, v: u64, isSigned: bool, negative: bool)
    ensures var s, n, k := Formatted(b, Bare(c), v, isSigned, negative), SignLength(c, isSigned, negative),
                           SignLength(c, isSigned, negative) + PrefixLength(b, c, v);
      && k <= |s|
      && (n == 1 ==> s[0] == if negative then '-' else if c.plus then '+' else ' ')
      && (n < k ==> s[n..k] == if b == BASE_X_UPPER then "0X" else "0x")
      && forall i :: k <= i < |s| ==> s[i] == ',' || (DigitIn(b, s[i]) >= 0 && CaseOk(b, s[i]))
  {
    hide Formatted, Buffered, Reverse, DigitIn, CaseOk;
    BareText(b, c, v, isSigned, negative);
    BodyChars(b, c, v);
    var s, body := Formatted(b, Bare(c), v, isSigned, negative), Reverse(Buffered(b, c, v));
    var marks := Sign(c, isSigned, negative) + Prefix(b, c, v);
    forall i | |marks| <= i < |s| ensures s[i] == ',' || (DigitIn(b, s[i]) >= 0 && CaseOk(b, s[i])) {
      assert s[i] == body[i - |marks|] && s[i] in body;
    }
  }

  predicate CaseOk(b: IntegerBase, ch: char) {
    && (b == BASE_X_LOWER ==> !('A' <= ch <= 'F'))
    && (b == BASE_X_UPPER ==> !('a' <= ch <= 'f'))
  }

  /** Where the padding goes: blanks before everything; with `-`, after everything; with `0`, zeros
      between the sign and prefix and the digits; and with both, both. */
  lemma PaddingPlace(b: IntegerBase, c: Conversion, v: u64, isSigned: bool, negative: bool)
    ensures var out, s := Formatted(b, c, v, isSigned, negative), Formatted(b, Bare(c), v, isSigned, negative);
      var k, n := SignLength(c, isSigned, negative) + PrefixLength(b, c, v), |out| - |s|;
      && n >= 0 && k <= |s|
      && (!c.minus && !c.zero ==> out == Repeat(' ', n) + s)
      && (c.minus && !c.zero ==> out == s + Repeat(' ', n))
      && (!c.minus && c.zero ==> out == s[..k] + Repeat('0', n) + s[k..])
      && (c.minus && c.zero ==> n % 2 == 0 && out == s[..k] + Repeat('0', n / 2) + s[k..] + Repeat(' ', n / 2))
  {
    hide Buffered, Reverse, PadCnt, Repeat, Sign, Prefix, SignLength, PrefixLength;
    BareText(b, c, v, isSigned, negative);
    MarkLengths(b, c, v, isSigned, negative);
    var sign, prefix, body := Sign(c, isSigned, negative), Prefix(b, c, v), Reverse(Buffered(b, c, v));
    Placed(c.minus, c.zero, PadCnt(b, c, v, isSigned, negative), sign, prefix, body);
  }

  lemma MarkLengths(b: IntegerBase, c: Conversion, v: u64, isSigned: bool, negative: bool)
    ensures |Sign(c, isSigned, negative)| == SignLength(c, isSigned, negative)
    ensures |Prefix(b, c, v)| == PrefixLength(b, c, v)
  {
  }

  /** The order of output, with nothing where there is no padding. */
  lemma Placed(minus: bool, zero: bool, pad: nat, sign: string, prefix: string, body: string)
    ensures var out := Repeat(' ', if minus || zero then 0 else pad) + sign + prefix
        + Repeat('0', if zero then pad else 0) + body + Repeat(' ', if minus then pad else 0);
      var s := sign + prefix + body; var k, n := |sign| + |prefix|, |out| - |s|;
      && n == (if minus && zero then 2 * pad else pad)
      && (!minus && !zero ==> out == Repeat(' ', n) + s)
      && (minus && !zero ==> out == s + Repeat(' ', n))
      && (!minus && zero ==> out == s[..k] + Repeat('0', n) + s[k..])
      && (minus && zero ==> out == s[..k] + Repeat('0', n / 2) + s[k..] + Repeat(' ', n / 2))
  {
    hide Repeat;
    NoPad(' ');
    NoPad('0');
    var s, k := sign + prefix + body, |sign| + |prefix|;
    assert s[..k] == sign + prefix && s[k..] == body;
    if !minus && !zero {
      assert Repeat(' ', pad) + sign + prefix + "" + body + "" == Repeat(' ', pad) + s;
    }
  }

  // ----- atoi and %d

  const PLAIN := Conversion(false, false, false, false, false, false, 0, -1)

  lemma {:induction false} NumberIsValue(s: string)
    requires forall c :: c in s ==> IsDigit(c)
    ensures Number(s) == Value(BASE_D, s)
  {
    if s != "" {
      var front := s[..|s| - 1];
      assert forall c :: c in front ==> c in s;
      NumberIsValue(front);
      assert s[|s| - 1] in s;
    }
  }

  lemma {:induction false} DecimalDigits(v: nat, k: nat)
    ensures forall c :: c in LowDigits(BASE_D, false, v, k) ==> IsDigit(c)
    decreases v
  {
    if v > 0 {
      DigitChar(BASE_D, v % 10);
      DecimalDigits(v / 10, k + 1);
      SmallChars(v % 10);
    }
  }

  lemma SmallChars(i: nat)
    requires i < 10
    ensures IsDigit(BASE_D.digits[i])
  {
    assert i == 0 || i == 1 || i == 2 || i == 3 || i == 4 || i == 5 || i == 6 || i == 7 || i == 8 || i == 9;
  }

  /** "%d" prints at least one digit and only digits after the sign. */
  lemma PlainBody(v: u64)
    ensures var body := Reverse(Buffered(BASE_D, PLAIN, v)); body != "" && forall c :: c in body ==> IsDigit(c)
  {
    hide LowDigits;
    DecimalDigits(v, 0);
    var s := Buffered(BASE_D, PLAIN, v);
    assert s == LowDigits(BASE_D, false, v, 0) + Repeat('0', 1 - |LowDigits(BASE_D, false, v, 0)|);
    ReverseIndex(s);
    forall c | c in Reverse(s) ensures c in s {
      var i :| 0 <= i < |s| && Reverse(s)[i] == c;
    }
  }

  lemma PlainText(v: u64, negative: bool)
    ensures Formatted(BASE_D, PLAIN, v, true, negative) ==
      (if negative then "-" else "") + Reverse(Buffered(BASE_D, PLAIN, v))
  {
    hide Buffered, Reverse, PadCnt;
    PadCntIs(BASE_D, PLAIN, v, true, negative);
    NoPad(' ');
    NoPad('0');
  }

  lemma DenotesPlain(negative: bool, body: string)
    requires body != "" && forall c :: c in body ==> IsDigit(c)
    ensures Denotes((if negative then "-" else "") + body) == if negative then 0 - Number(body) else Number(body)
  {
    hide Number;
    var s := (if negative then "-" else "") + body;
    PrefixWhole(body);
    assert body[0] in body;
    if negative {
      assert s[1..] == body;
    } else {
      assert s == body;
    }
  }

  /** atoi reads back what "%d" prints, for every int. */
  lemma AtoiInverts(n: i32)
    ensures Denotes(Formatted(BASE_D, PLAIN, if n < 0 then 0 - n else n, true, n < 0)) == n
  {
    hide Buffered, Value, LowValue, Denotes, Formatted, Number;
    var v := if n < 0 then 0 - n else n;
    var body := Reverse(Buffered(BASE_D, PLAIN, v));
    PlainBody(v);
    BufferedValue(BASE_D, PLAIN, v);
    ReverseValue(BASE_D, Buffered(BASE_D, PLAIN, v));
    NumberIsValue(body);
    PlainText(v, n < 0);
    DenotesPlain(n < 0, body);
  }

  // ----- the code

  /** Puts the next digit, and its comma if any, in the buffer. */
  method PutDigit(buf: array<char>, cp: nat, b: IntegerBase, group: bool, v: nat, k: nat) returns (next: nat)
    requires cp + |Piece(b, group, v, k)| <= buf.Length
    modifies buf
    ensures next == cp + |Piece(b, group, v, k)| && buf[..next] == old(buf[..cp]) + Piece(b, group, v, k)
  {
    DigitChar(b, v % b.base);
    next := cp;
    if group && k > 0 && k % b.group == 0 {
      buf[next] := ',';
      next := next + 1;
    }
    buf[next] := b.digits[v % b.base];
    next := next + 1;
  }

  /** The digit loop of format_integer: what is in the buffer and what is still to come are the
      number's digits throughout. */
  method FillDigits(buf: array<char>, b: IntegerBase, group: bool, v: u64) returns (cp: nat)
    requires buf.Length == 64
    modifies buf
    ensures cp <= 44 && buf[..cp] == LowDigits(b, group, v, 0)
  {
    hide Piece;
    WordDigits(b, group, v);
    ghost var all := LowDigits(b, group, v, 0);
    var value: nat, digitCnt := v, 0;
    cp := 0;
    while value > 0
      invariant cp <= |all| && buf[..cp] + LowDigits(b, group, value, digitCnt) == all
      decreases value
    {
      Recompose(value, b.base);
      ghost var piece, rest := Piece(b, group, value, digitCnt), LowDigits(b, group, value / b.base, digitCnt + 1);
      assert buf[..cp] + (piece + rest) == (buf[..cp] + piece) + rest;
      cp := PutDigit(buf, cp, b, group, value, digitCnt);
      value := value / b.base;
      digitCnt := digitCnt + 1;
    }
  }

  /** output_dup, with the characters output so far as a string. */
  method OutputDup(out: string, ch: char, cnt: nat) returns (r: string)
    ensures r == out + Repeat(ch, cnt)
  {
    r := out;
    var left := cnt;
    while left > 0
      invariant 0 <= left <= cnt && r == out + Repeat(ch, cnt - left)
    {
      left := left - 1;
      r := r + [ch];
    }
  }

  /** Zeros up to the precision, and the leading 0 of octal. */
  method FillZeros(buf: array<char>, start: nat, b: IntegerBase, c: Conversion, ghost v: u64) returns (cp: nat)
    requires buf.Length == 64 && start <= 44 && buf[..start] == LowDigits(b, c.group, v, 0)
    modifies buf
    ensures cp <= 64 && buf[..cp] == Buffered(b, c, v)
  {
    hide LowDigits;
    var precision := if c.precision < 0 then 1 else c.precision;
    cp := start;
    ghost var digits := buf[..start];
    while cp < precision && cp < 63
      invariant start <= cp <= 63 && (cp == start || cp <= precision) && buf[..cp] == digits + Repeat('0', cp - start)
    {
      buf[cp] := '0';
      cp := cp + 1;
    }
    if c.pound && b.base == 8 && (cp == 0 || buf[cp - 1] != '0') {
      buf[cp] := '0';
      cp := cp + 1;
    }
  }

  /** The loop that outputs the buffer backwards. */
  method OutputBuffer(out: string, buf: array<char>, n: nat) returns (r: string)
    requires n <= buf.Length
    ensures r == out + Reverse(buf[..n])
  {
    r := out;
    var cp := n;
    ghost var s := buf[..n];
    assert out + Reverse(s[n..]) == out;
    while cp > 0
      invariant 0 <= cp <= n && r == out + Reverse(s[cp..])
    {
      cp := cp - 1;
      assert s[cp..][1..] == s[cp + 1..] && s[cp..][0] == buf[cp];
      r := r + [buf[cp]];
    }
    assert s[0..] == s;
  }

  /** format_integer. The buffer accesses are in bounds, and the output is the specified text. */
  method FormatInteger(v: u64, isSigned: bool, negative: bool, b: IntegerBase, c: Conversion) returns (out: string)
    ensures out == Formatted(b, c, v, isSigned, negative)
  {
    hide Buffered, LowDigits, Formatted, ToI32;
    var sign := "";
    if isSigned {
      if c.plus {
        sign := if negative then "-" else "+";
      } else if c.space {
        sign := if negative then "-" else " ";
      } else if negative {
        sign := "-";
      }
    }
    var x := if c.pound && v != 0 then b.x else "";
    var buf := new char[64];
    var cp := FillDigits(buf, b, c.group, v);
    cp := FillZeros(buf, cp, b, c, v);
    var padCnt: int := ToI32(c.width - cp - (if x != "" then 2 else 0) - |sign|);
    if padCnt < 0 {
      padCnt := 0;
    }
    out := Emit(b, c, v, isSigned, negative, sign, x, buf, cp, padCnt);
  }

  /** The output statements at the end of format_integer. */
  method Emit(b: IntegerBase, c: Conversion, ghost v: u64, ghost isSigned: bool, ghost negative: bool,
              sign: string, x: string, buf: array<char>, cp: nat, padCnt: nat) returns (out: string)
    requires cp <= buf.Length && buf[..cp] == Buffered(b, c, v) && sign == Sign(c, isSigned, negative)
    requires Prefix(b, c, v) == (if x != "" then "0" + x else "")
    requires padCnt == PadCnt(b, c, v, isSigned, negative)
    ensures out == Formatted(b, c, v, isSigned, negative)
  {
    hide Buffered, Reverse, Sign, Prefix, PadCnt, Repeat;
    NoPad(' ');
    NoPad('0');
    out := EmitFront(c, sign, x, padCnt);
    assert out == Front(b, c, v, isSigned, negative);
    ghost var body := Front(b, c, v, isSigned, negative) + Reverse(Buffered(b, c, v));
    out := OutputBuffer(out, buf, cp);
    assert out == body == body + "";
    if c.minus {
      out := OutputDup(out, ' ', padCnt);
    }
  }

  /** Padding, sign and prefix. */
  method EmitFront(c: Conversion, sign: string, x: string, padCnt: nat) returns (out: string)
    ensures out == Repeat(' ', if c.minus || c.zero then 0 else padCnt) + sign
      + (if x != "" then "0" + x else "") + Repeat('0', if c.zero then padCnt else 0)
  {
    hide Repeat;
    NoPad(' ');
    NoPad('0');
    out := "";
    if !c.minus && !c.zero {
      out := OutputDup(out, ' ', padCnt);
    }
    ghost var a := Repeat(' ', if c.minus || c.zero then 0 else padCnt);
    assert out == a;
    out := out + sign;
    if x != "" {
      out := out + "0";
      out := out + x;
    }
    assert out == a + sign + (if x != "" then "0" + x else "");
    if c.zero {
      out := OutputDup(out, '0', padCnt);
    }
  }

  lemma NoPad(ch: char)
    ensures Repeat(ch, 0) == ""
  {
  }

  /** vsnprintf, given the characters `text` that the conversions output, each passed through
      vsnprintf_helper: as many as fit are stored, always terminated unless there is no room at
      all, nothing else is touched, and the full length is returned. */
  method Vsnprintf(buffer: array<char>, bufSize: nat, text: string) returns (length: nat)
    requires bufSize <= buffer.Length
    modifies buffer
    ensures length == |text| && (bufSize == 0 ==> buffer[..] == old(buffer[..]))
    ensures bufSize > 0 ==>
      var n := if |text| < bufSize then |text| else bufSize - 1;
      buffer[..n] == text[..n] && buffer[n] == '\0' && buffer[n + 1..] == old(buffer[n + 1..])
  {
    var maxLength := if bufSize > 0 then bufSize - 1 else 0;
    var p := 0;
    length := 0;
    for i := 0 to |text|
      invariant length == i && p == (if i < maxLength then i else maxLength)
      invariant forall k :: 0 <= k < p ==> buffer[k] == text[k]
      invariant forall k :: p <= k < buffer.Length ==> buffer[k] == old(buffer[k])
    {
      if length < maxLength {
        buffer[p] := text[i];
        p := p + 1;
      }
      length := length + 1;
    }
    if bufSize > 0 {
      buffer[p] := '\0';
    }
  }
}
