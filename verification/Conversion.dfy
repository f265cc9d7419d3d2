/** Conversion specifications of printf: parse_conversion in lib/stdio.c up to the length
    modifier, after section 7.19.6.1 of ISO C99. */
module Conversions {
  import opened Options
  import opened Stdio
  import opened Stdlib
  import opened Words

  const FLAGS := "-+ #0'"

  /** A width or precision: `*` takes the next argument. */
  datatype Field = Star | Digits(d: string)

  /** What stands between the `%` and the length modifier. */
  datatype Spec = Spec(flags: string, width: Field, precision: Option<Field>)

  // ----- the grammar

  predicate IsFlag(c: char) { c in FLAGS }

  function FieldText(f: Field): string {
    if f.Star? then "*" else f.d
  }

  function PrecisionText(p: Option<Field>): string {
    if p.None? then "" else "." + FieldText(p.value)
  }

  function Text(x: Spec): string {
    x.flags + FieldText(x.width) + PrecisionText(x.precision)
  }

  /** `s` starts with `f`, which ends where no more of it can follow. */
  ghost predicate FieldAt(s: string, f: Field) {
    if f.Star? then s != "" && s[0] == '*'
    else
      && !(s != "" && s[0] == '*')
      && f.d <= s && (forall i :: 0 <= i < |f.d| ==> IsDigit(s[i]))
      && !(|f.d| < |s| && IsDigit(s[|f.d|]))
  }

  ghost predicate FlagsAt(s: string, flags: string) {
    && flags <= s && (forall i :: 0 <= i < |flags| ==> IsFlag(s[i]))
    && !(|flags| < |s| && IsFlag(s[|flags|]))
  }

  ghost predicate PrecisionAt(s: string, p: Option<Field>) {
    if p.None? then !(s != "" && s[0] == '.') else s != "" && s[0] == '.' && FieldAt(s[1..], p.value)
  }

  ghost predicate Splits(s: string, x: Spec) {
    && FlagsAt(s, x.flags)
    && var t := s[|x.flags|..];
    && FieldAt(t, x.width) && PrecisionAt(t[|FieldText(x.width)|..], x.precision)
  }

  lemma FlagsUnique(s: string, f: string, g: string)
    requires FlagsAt(s, f) && FlagsAt(s, g)
    ensures f == g
  {
  }

  lemma FieldUnique(s: string, f: Field, g: Field)
    requires FieldAt(s, f) && FieldAt(s, g)
    ensures f == g
  {
  }

  /** A format can be read in one way only. */
  lemma SplitUnique(s: string, x: Spec, y: Spec)
    requires Splits(s, x) && Splits(s, y)
    ensures x == y
  {
    FlagsUnique(s, x.flags, y.flags);
    var t := s[|x.flags|..];
    FieldUnique(t, x.width, y.width);
    var u := t[|FieldText(x.width)|..];
    if x.precision.Some? && y.precision.Some? {
      FieldUnique(u[1..], x.precision.value, y.precision.value);
    }
  }

  /** The part of the format read is the text of what was read. */
  lemma SplitText(s: string, x: Spec)
    requires Splits(s, x)
    ensures Text(x) <= s
  {
    hide FieldAt, PrecisionAt, FieldText, PrecisionText;
    var t := s[|x.flags|..];
    FieldPrefix(t, x.width);
    var u := t[|FieldText(x.width)|..];
    PrecisionPrefix(u, x.precision);
    assert s == x.flags + FieldText(x.width) + PrecisionText(x.precision) + u[|PrecisionText(x.precision)|..];
  }

  lemma FieldPrefix(s: string, f: Field)
    requires FieldAt(s, f)
    ensures |FieldText(f)| <= |s| && s == FieldText(f) + s[|FieldText(f)|..]
  {
  }

  lemma PrecisionPrefix(s: string, p: Option<Field>)
    requires PrecisionAt(s, p)
    ensures |PrecisionText(p)| <= |s| && s == PrecisionText(p) + s[|PrecisionText(p)|..]
  {
    hide FieldAt;
    if p.Some? {
      FieldPrefix(s[1..], p.value);
      assert s == "." + s[1..];
    }
  }

  // ----- what it means

  /** The int a field stands for; digits wrap around at 32 bits. */
  function Worth(f: Field, arg: i32): i32
    requires f.Digits? ==> forall c :: c in f.d ==> IsDigit(c)
  {
    if f.Star? then arg else ToI32(Number(f.d))
  }

  predicate AllDigits(f: Field) { f.Digits? ==> forall c :: c in f.d ==> IsDigit(c) }

  predicate Digital(x: Spec) {
    AllDigits(x.width) && (x.precision.Some? ==> AllDigits(x.precision.value))
  }

  function Stars(x: Spec): nat {
    (if x.width.Star? then 1 else 0) + if x.precision == Some(Star) then 1 else 0
  }

  /** The width as given: a negative one asks for `-`. */
  function GivenWidth(x: Spec, args: nat -> i32): i32
    requires Digital(x)
  {
    Worth(x.width, args(0))
  }

  /** A negative precision counts as none. */
  function GivenPrecision(x: Spec, args: nat -> i32): i32
    requires Digital(x)
  {
    if x.precision.None? then -1 else Worth(x.precision.value, args(if x.width.Star? then 1 else 0))
  }

  function Meaning(x: Spec, args: nat -> i32): Conversion
    requires Digital(x)
  {
    var w, p := GivenWidth(x, args), GivenPrecision(x, args);
    Conversion('-' in x.flags || w < 0, '+' in x.flags, ' ' in x.flags && '+' !in x.flags, '#' in x.flags,
               '0' in x.flags && '-' !in x.flags && p < 0, '\'' in x.flags,
               if w < 0 then ToI32(0 - w) else w, if p < 0 then -1 else p)
  }

  /** Flag by flag: `-` is set by its character or a negative width; a plus sign overrules a space;
      `-` and a precision overrule `0`. */
  lemma FlagByFlag(x: Spec, args: nat -> i32)
    requires Digital(x)
    ensures var c, w, p := Meaning(x, args), GivenWidth(x, args), GivenPrecision(x, args);
      && (c.minus <==> '-' in x.flags || w < 0)
      && (c.plus <==> '+' in x.flags) && (c.space <==> ' ' in x.flags && '+' !in x.flags)
      && (c.pound <==> '#' in x.flags) && (c.group <==> '\'' in x.flags)
      && (c.zero <==> '0' in x.flags && '-' !in x.flags && p < 0)
      && (w != -TWO31 ==> c.width == AskedWidth(x, args)) && c.precision == (if p < 0 then -1 else p)
  {
  }

  /** Arguments are taken in the order of the stars; digits stand for the number they denote. */
  lemma ArgumentOrder(x: Spec, args: nat -> i32)
    requires Digital(x)
    ensures x.width.Star? ==> GivenWidth(x, args) == args(0)
    ensures x.precision == Some(Star) ==> GivenPrecision(x, args) == args(if x.width.Star? then 1 else 0)
    ensures x.width.Digits? && Number(x.width.d) < TWO31 ==> GivenWidth(x, args) == Number(x.width.d)
    ensures x.precision.None? ==> GivenPrecision(x, args) == -1
    ensures x.precision.Some? && x.precision.value.Digits? && Number(x.precision.value.d) < TWO31 ==>
      GivenPrecision(x, args) == Number(x.precision.value.d)
  {
  }

  /** Over all formats: `-` or a negative width sets the number to the left, `0` fills with zeros after
      sign and prefix unless `-` or a precision is given, and otherwise blanks come first. The sign
      printed for a number that is not negative is `+` or else a space, as asked for. */
  lemma FormatPlace(x: Spec, args: nat -> i32, b: IntegerBase, v: u64, isSigned: bool, negative: bool)
    requires Digital(x)
    ensures var c, w, p := Meaning(x, args), GivenWidth(x, args), GivenPrecision(x, args);
      var out, s := Formatted(b, c, v, isSigned, negative), Formatted(b, Bare(c), v, isSigned, negative);
      var left, zeros := '-' in x.flags || w < 0, '0' in x.flags && '-' !in x.flags && p < 0;
      var n := |out| - |s|; var k := (if isSigned && (negative || '+' in x.flags || ' ' in x.flags) then 1 else 0)
        + if '#' in x.flags && v != 0 && b.base == 16 then 2 else 0;
      && n >= 0 && k <= |s|
      && (!left && !zeros ==> out == Repeat(' ', n) + s)
      && (left && !zeros ==> out == s + Repeat(' ', n))
      && (!left && zeros ==> out == s[..k] + Repeat('0', n) + s[k..])
      && (isSigned && negative ==> s[0] == '-')
      && (isSigned && !negative && '+' in x.flags ==> s[0] == '+')
      && (isSigned && !negative && '+' !in x.flags && ' ' in x.flags ==> s[0] == ' ')
  {
    hide Formatted, Meaning, GivenWidth, GivenPrecision, Repeat, DigitIn, CaseOk;
    FlagByFlag(x, args);
    PaddingPlace(b, Meaning(x, args), v, isSigned, negative);
    BareParts(b, Meaning(x, args), v, isSigned, negative);
  }

  /** printf sets `-` and `0` together exactly for a `0` without a `-`, a negative width and no
      precision. */
  lemma BothPads(x: Spec, args: nat -> i32)
    requires Digital(x)
    ensures var c := Meaning(x, args);
      c.minus && c.zero <==> '0' in x.flags && '-' !in x.flags && GivenWidth(x, args) < 0 && GivenPrecision(x, args) < 0
  {
  }

  /** Digits give a negative width only when they overflow an int. */
  lemma DigitsNotNegative(x: Spec, args: nat -> i32)
    requires Digital(x) && x.width.Digits? && Number(x.width.d) < TWO31
    ensures GivenWidth(x, args) == Number(x.width.d) && !(Meaning(x, args).minus && Meaning(x, args).zero)
  {
  }

  /** The field width a format asks for: a negative one counts without its sign. */
  function AskedWidth(x: Spec, args: nat -> i32): nat
    requires Digital(x)
  {
    var w: int := GivenWidth(x, args);
    if w < 0 then -w else w
  }

  /** INT_MIN keeps its sign when negated, and so does the width; the room left then wraps around to
      the right number, unless there is nothing to print. */
  lemma PadFromWidth(x: Spec, args: nat -> i32, b: IntegerBase, v: u64, isSigned: bool, negative: bool)
    requires Digital(x)
    ensures var c := Meaning(x, args); var payload, asked := Payload(b, c, v, isSigned, negative), AskedWidth(x, args);
      PadCnt(b, c, v, isSigned, negative) ==
        if asked <= payload || (asked == TWO31 && payload == 0) then 0 else asked - payload
  {
    hide Payload, PadCnt, GivenPrecision;
    PadCntIs(b, Meaning(x, args), v, isSigned, negative);
  }

  /** The field law over all formats and arguments: the output is as wide as the field asked for or
      as its contents, whichever is more, exactly unless a negative width meets a `0` and leaves
      room, or the width is INT_MIN and there is nothing to print. */
  lemma FieldLaw(x: Spec, args: nat -> i32, b: IntegerBase, v: u64, isSigned: bool, negative: bool)
    requires Digital(x)
    ensures var c := Meaning(x, args);
      var payload, asked, w := Payload(b, c, v, isSigned, negative), AskedWidth(x, args), GivenWidth(x, args);
      |Formatted(b, c, v, isSigned, negative)| == (if asked > payload then asked else payload) <==>
        && !('0' in x.flags && '-' !in x.flags && w < 0 && GivenPrecision(x, args) < 0 && asked > payload)
        && !(w == -TWO31 && payload == 0)
  {
    hide Formatted, Payload, PadCnt, Meaning, GivenPrecision;
    BothPads(x, args);
    PadFromWidth(x, args, b, v, isSigned, negative);
    PaddedLength(b, Meaning(x, args), v, isSigned, negative);
  }

  /** "%*.0d" with the arguments INT_MIN and 0 prints nothing, in a field of 2^31. */
  lemma IntMinPrintsNothing(args: nat -> i32)
    requires args(0) == -TWO31
    ensures var x := Spec("", Star, Some(Digits("0")));
      && Splits("*.0d", x) && Digital(x) && AskedWidth(x, args) == TWO31
      && Formatted(BASE_D, Meaning(x, args), 0, true, false) == ""
  {
    hide Splits, Formatted, PadCnt, Buffered;
    var x := Spec("", Star, Some(Digits("0")));
    SplitsStarZero();
    ZeroText();
    var c := Meaning(x, args);
    NothingBuffered(c);
    PadFromWidth(x, args, BASE_D, 0, true, false);
    PaddedLength(BASE_D, c, 0, true, false);
  }

  lemma SplitsStarZero()
    ensures Splits("*.0d", Spec("", Star, Some(Digits("0"))))
  {
    assert "*.0d"[0..] == "*.0d" && "*.0d"[1..] == ".0d" && ".0d"[1..] == "0d";
  }

  lemma ZeroText()
    ensures (forall c :: c in "0" ==> IsDigit(c)) && Number("0") == 0
  {
    assert "0"[..0] == "";
  }

  lemma NothingBuffered(c: Conversion)
    requires c.precision == 0 && !c.pound
    ensures Buffered(BASE_D, c, 0) == ""
  {
    assert LowDigits(BASE_D, c.group, 0, 0) == "";
  }

  /** "%0*d" with the arguments -5 and 7 prints 9 characters in a field of 5. */
  lemma NegativeStarPadsTwice(args: nat -> i32)
    requires args(0) == -5
    ensures var x := Spec("0", Star, None); var c := Meaning(x, args);
      && Splits("0*d", x) && c.minus && c.zero && c.width == 5
      && |Formatted(BASE_D, c, 7, true, false)| == 9
  {
    hide Splits, Formatted, PadCnt, Buffered;
    var x := Spec("0", Star, None);
    var c := Meaning(x, args);
    SplitsZeroStar();
    SevenBuffered(c);
    PadFromWidth(x, args, BASE_D, 7, true, false);
    PaddedLength(BASE_D, c, 7, true, false);
  }

  lemma SplitsZeroStar()
    ensures Splits("0*d", Spec("0", Star, None))
  {
    assert "0*d"[1..] == "*d" && "*d"[1..] == "d";
  }

  lemma SevenBuffered(c: Conversion)
    requires c.precision == -1 && !c.pound && !c.group
    ensures Buffered(BASE_D, c, 7) == "7"
  {
    assert LowDigits(BASE_D, false, 7, 0) == "7";
    assert Buffered(BASE_D, c, 7) == "7" + Repeat('0', 0);
  }

  // ----- the code

  /** The flags alone. */
  function FlagBits(f: string): Conversion {
    Conversion('-' in f, '+' in f, ' ' in f && '+' !in f, '#' in f, '0' in f && '-' !in f, '\'' in f, 0, -1)
  }

  function WithWidth(c: Conversion, w: i32): Conversion {
    c.(minus := c.minus || w < 0, width := if w < 0 then ToI32(0 - w) else w)
  }

  function WithPrecision(c: Conversion, p: i32): Conversion {
    c.(zero := c.zero && p < 0, precision := if p < 0 then -1 else p)
  }

  lemma MeaningBySteps(x: Spec, args: nat -> i32)
    requires Digital(x)
    ensures Meaning(x, args) ==
      WithPrecision(WithWidth(FlagBits(x.flags), GivenWidth(x, args)), GivenPrecision(x, args))
  {
    hide GivenWidth, GivenPrecision, ToI32;
  }

  /** The flag loop, and what a flag cancels. */
  method ParseFlags(s: string) returns (c: Conversion, i: nat)
    ensures i <= |s| && FlagsAt(s, s[..i])
    ensures c == FlagBits(s[..i])
  {
    i := 0;
    c := Conversion(false, false, false, false, false, false, 0, -1);
    while i < |s| && IsFlag(s[i])
      invariant i <= |s| && (forall j :: 0 <= j < i ==> IsFlag(s[j]))
      invariant var f := s[..i];
        c == Conversion('-' in f, '+' in f, ' ' in f, '#' in f, '0' in f, '\'' in f, 0, -1)
    {
      assert s[..i + 1] == s[..i] + [s[i]];
      match s[i] {
        case '-' => c := c.(minus := true);
        case '+' => c := c.(plus := true);
        case ' ' => c := c.(space := true);
        case '#' => c := c.(pound := true);
        case '0' => c := c.(zero := true);
        case _ => c := c.(group := true);
      }
      i := i + 1;
    }
    if c.minus { c := c.(zero := false); }
    if c.plus { c := c.(space := false); }
  }

  /** The digit loop of a width or precision. */
  method ParseNumber(s: string) returns (value: i32, i: nat)
    ensures i <= |s| && (forall j :: 0 <= j < i ==> IsDigit(s[j])) && !(i < |s| && IsDigit(s[i]))
    ensures (forall c :: c in s[..i] ==> IsDigit(c)) && value == ToI32(Number(s[..i]))
  {
    hide ToI32;
    WrapSmall(0);
    value, i := 0, 0;
    while i < |s| && IsDigit(s[i])
      invariant i <= |s| && (forall j :: 0 <= j < i ==> IsDigit(s[j]))
      invariant (forall c :: c in s[..i] ==> IsDigit(c)) && value == ToI32(Number(s[..i]))
    {
      var d := DigitValue(s[i]);
      assert s[..i + 1][..i] == s[..i];
      WrapStep(Number(s[..i]), -d);
      value := ToI32(10 * value - -d);
      i := i + 1;
    }
  }

  /** A width or precision; `arg` is the argument a `*` would take. */
  method ParseField(s: string, arg: i32) returns (value: i32, i: nat, star: bool, ghost f: Field)
    ensures FieldAt(s, f) && AllDigits(f) && i == |FieldText(f)| <= |s| && value == Worth(f, arg) && star == f.Star?
  {
    star := s != "" && s[0] == '*';
    if star {
      value, i, f := arg, 1, Star;
    } else {
      value, i := ParseNumber(s);
      f := Digits(s[..i]);
    }
  }

  /** Width: a negative one is turned around and sets `-`. */
  method ParseWidth(s: string, arg: i32, c0: Conversion) returns (c: Conversion, i: nat, star: bool, ghost f: Field)
    ensures FieldAt(s, f) && AllDigits(f) && i == |FieldText(f)| <= |s| && star == f.Star?
    ensures c == WithWidth(c0, Worth(f, arg))
  {
    var w: int;
    w, i, star, f := ParseField(s, arg);
    if w < 0 {
      c := c0.(width := ToI32(0 - w), minus := true);
    } else {
      c := c0.(width := w);
    }
  }

  /** Precision, if any: it cancels `0` unless it is negative. */
  method ParsePrecision(s: string, arg: i32, c0: Conversion)
    returns (c: Conversion, i: nat, star: bool, ghost f: Option<Field>)
    requires c0.precision == -1
    ensures PrecisionAt(s, f) && (f.Some? ==> AllDigits(f.value)) && star == (f == Some(Star))
    ensures i == |PrecisionText(f)| <= |s|
    ensures c == WithPrecision(c0, if f.None? then -1 else Worth(f.value, arg))
  {
    c, i, star, f := c0, 0, false, None;
    if s != "" && s[0] == '.' {
      var p;
      ghost var digits;
      p, i, star, digits := ParseField(s[1..], arg);
      c, i, f := c.(precision := if p < 0 then -1 else p), i + 1, Some(digits);
    }
    if c.precision >= 0 { c := c.(zero := false); }
  }

  /** parse_conversion up to the length modifier: the one reading of the format, where it ends,
      how many arguments it took and what it means. */
  method ParseConversion(format: string, args: nat -> i32)
    returns (c: Conversion, at: nat, used: nat, ghost x: Spec)
    ensures Splits(format, x) && Digital(x) && at == |Text(x)| && used == Stars(x) && c == Meaning(x, args)
  {
    hide FieldAt, FlagsAt, PrecisionAt, Worth, ToI32, AllDigits, Meaning, WithPrecision;
    var i, j, k, widthStar, precisionStar;
    ghost var width, precision;
    c, i := ParseFlags(format);
    c, j, widthStar, width := ParseWidth(format[i..], args(0), c);
    used := if widthStar then 1 else 0;
    c, k, precisionStar, precision := ParsePrecision(format[i..][j..], args(used), c);
    used := used + if precisionStar then 1 else 0;
    at := i + j + k;
    x := Spec(format[..i], width, precision);
    MeaningBySteps(x, args);
  }
}
