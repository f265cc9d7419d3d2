/** Headers of ustar archives (lib/ustar.c), the "ustar Interchange Format" of the pax utility in
    the Single UNIX Specification, version 3. */
module Ustar {
  import opened Options
  import Sequences
  import opened Stdio
  import opened Words

  datatype FileType = Regular | Directory

  /** What ustar_parse_header reports. */
  datatype Parsed = Eof | Error(message: string) | Entry(name: string, kind: FileType, size: nat)

  /** A C string's characters: bytes other than 0. */
  predicate Text(s: string) { forall c :: c in s ==> 0 < c as int < 256 }

  // ----- names

  predicate Antisocial(s: string) { "/" <= s || "./" <= s || "../" <= s }

  /** strchr (s, '/') + 1, where there is a slash. */
  function AfterSlash(s: string): (r: string)
    requires '/' in s
    ensures |r| < |s| && r == s[|s| - |r|..]
  {
    if s[0] == '/' then s[1..] else AfterSlash(s[1..])
  }

  /** strip_antisocial_prefixes. */
  function Strip(s: string): (r: string)
    decreases |s|
  {
    if Antisocial(s) then
      assert '/' in s by { assert s[0] == '/' || s[1] == '/' || s[2] == '/'; }
      Strip(AfterSlash(s))
    else if s == "" || s == ".." then "." else s
  }

  lemma DotIsSafe()
    ensures !Antisocial(".") && "." != ".." && "." != ""
  {
    assert "."[0] == '.' && |"."| == 1 && |".."| == 2;
  }

  /** The name left is never dangerous, and is "." or an end of the name given. */
  lemma {:induction false} StripSafe(s: string)
    ensures var r := Strip(s); !Antisocial(r) && r != "" && r != ".."
    ensures Strip(s) == "." || (|Strip(s)| <= |s| && Strip(s) == s[|s| - |Strip(s)|..])
    decreases |s|
  {
    DotIsSafe();
    if Antisocial(s) {
      assert '/' in s by { assert s[0] == '/' || s[1] == '/' || s[2] == '/'; }
      StripSafe(AfterSlash(s));
    }
  }

  lemma StripIdempotent(s: string)
    ensures Strip(Strip(s)) == Strip(s)
  {
    StripSafe(s);
  }

  /** A name without such a prefix stays as it is, unless it is empty or "..". */
  lemma StripKeeps(s: string)
    requires !Antisocial(s)
    ensures Strip(s) == if s == "" || s == ".." then "." else s
  {
  }

  /** Each prefix is dropped, and nothing else: what follows it decides. */
  lemma StripDrops(p: string, t: string)
    requires p in {"/", "./", "../"}
    ensures Strip(p + t) == Strip(t)
  {
    var s := p + t;
    assert Antisocial(s) by { assert p <= s; }
    SlashEnds(p, t);
  }

  /** So a name is stripped of all of its leading prefixes and of nothing else. */
  lemma {:induction false} StripAll(ps: seq<string>, t: string)
    requires (forall i :: 0 <= i < |ps| ==> ps[i] in {"/", "./", "../"}) && !Antisocial(t)
    ensures Strip(Joined(ps) + t) == if t == "" || t == ".." then "." else t
  {
    if ps == [] {
      assert Joined(ps) + t == t;
      StripKeeps(t);
    } else {
      assert Joined(ps) + t == ps[0] + (Joined(ps[1..]) + t);
      StripDrops(ps[0], Joined(ps[1..]) + t);
      StripAll(ps[1..], t);
    }
  }

  /** Every name is some of these prefixes and then a name without one. */
  lemma {:induction false} Prefixes(s: string) returns (ps: seq<string>, t: string)
    ensures s == Joined(ps) + t && (forall i :: 0 <= i < |ps| ==> ps[i] in {"/", "./", "../"}) && !Antisocial(t)
    decreases |s|
  {
    hide Antisocial;
    if Antisocial(s) {
      var p := FirstPrefix(s);
      ps, t := Prefixes(s[|p|..]);
      JoinedMore(p, ps, t);
      ps := [p] + ps;
    } else {
      ps, t := [], s;
    }
  }

  lemma FirstPrefix(s: string) returns (p: string)
    requires Antisocial(s)
    ensures p in {"/", "./", "../"} && 0 < |p| <= |s| && s == p + s[|p|..]
  {
    p := if "/" <= s then "/" else if "./" <= s then "./" else "../";
  }

  lemma JoinedMore(p: string, ps: seq<string>, t: string)
    ensures Joined([p] + ps) + t == p + (Joined(ps) + t)
  {
    assert ([p] + ps)[1..] == ps;
    assert p + (Joined(ps) + t) == (p + Joined(ps)) + t;
  }

  function Joined(ps: seq<string>): string {
    if ps == [] then "" else ps[0] + Joined(ps[1..])
  }

  lemma SlashEnds(p: string, t: string)
    requires p in {"/", "./", "../"}
    ensures '/' in p + t && AfterSlash(p + t) == t
  {
    var s := p + t;
    assert s[|p| - 1] == '/' && s[|p|..] == t;
    if p == "./" {
      assert s[1..][0] == '/' && s[1..][1..] == t;
    } else if p == "../" {
      var u := s[2..];
      assert s[1..][0] == '.' && s[1..][1..] == u && u[0] == '/' && u[1..] == t;
      assert '/' in u && '/' in s[1..] && AfterSlash(u) == t && AfterSlash(s[1..]) == t;
    } else {
      assert s[1..] == t;
    }
  }

  /** The loop of strip_antisocial_prefixes. */
  method StripPrefixes(fileName: string) returns (r: string)
    ensures r == Strip(fileName)
  {
    r := fileName;
    while "/" <= r || "./" <= r || "../" <= r
      invariant Strip(r) == Strip(fileName)
      decreases |r|
    {
      assert '/' in r by { assert r[0] == '/' || r[1] == '/' || r[2] == '/'; }
      r := AfterSlash(r);
    }
    r := if r == "" || r == ".." then "." else r;
  }

  // ----- checksums

  const CHKSUM: nat := 148
  const CHKSUM_END: nat := 156
  const HEADER_SIZE: nat := 512

  /** The sum of the first `n` bytes, with the checksum field read as spaces. */
  function Sum(h: string, n: nat): (s: int)
    requires n <= |h|
    ensures s >= 0
  {
    if n == 0 then 0 else Sum(h, n - 1) + if CHKSUM <= n - 1 < CHKSUM_END then 32 else h[n - 1] as int
  }

  /** The checksum does not depend on what the checksum field holds. */
  lemma {:induction false} SumIndependent(h: string, g: string, n: nat)
    requires n <= |h| && n <= |g| && forall i :: 0 <= i < n && !(CHKSUM <= i < CHKSUM_END) ==> h[i] == g[i]
    ensures Sum(h, n) == Sum(g, n)
  {
    if n > 0 { SumIndependent(h, g, n - 1); }
  }

  /** Any other byte counts in full. */
  lemma {:induction false} SumChange(h: string, i: nat, c: char, n: nat)
    requires i < |h| && n <= |h|
    ensures Sum(h[i := c], n) ==
      Sum(h, n) + if i < n && !(CHKSUM <= i < CHKSUM_END) then c as int - h[i] as int else 0
    decreases n
  {
    if n > 0 { SumChange(h, i, c, n - 1); }
  }

  lemma {:induction false} SumSpaces(h: string, n: nat)
    requires n <= |h| && forall i :: 0 <= i < n ==> h[i] == ' '
    ensures Sum(h, n) == 32 * n
  {
    if n > 0 { SumSpaces(h, n - 1); }
  }

  lemma {:induction false} SumBound(h: string, n: nat)
    requires n <= |h| && forall i :: 0 <= i < |h| ==> h[i] as int < 256
    ensures Sum(h, n) <= 255 * n
  {
    if n > 0 { SumBound(h, n - 1); }
  }

  /** calculate_chksum. */
  method CalculateChksum(h: string) returns (chksum: u32)
    requires |h| == HEADER_SIZE && forall i :: 0 <= i < |h| ==> h[i] as int < 256
    ensures chksum == Sum(h, HEADER_SIZE)
  {
    chksum := 0;
    for i := 0 to HEADER_SIZE
      invariant chksum == Sum(h, i) <= 255 * i
    {
      SumBound(h, i + 1);
      chksum := chksum + if CHKSUM <= i < CHKSUM_END then 32 else h[i] as int;
    }
  }

  // ----- octal fields

  predicate OctalDigit(c: char) { '0' <= c <= '7' }

  /** parse_octal_field from offset `ofs` on, with the value read so far; unsigned long has 32
      bits. */
  function ParseOctal(s: string, ofs: nat, value: nat): Option<nat>
    requires ofs <= |s|
    decreases |s| - ofs
  {
    if ofs == |s| then None
    else if OctalDigit(s[ofs]) then
      if value > (TWO32 - 1) / 8 then None else ParseOctal(s, ofs + 1, s[ofs] as int - '0' as int + 8 * value)
    else if s[ofs] == ' ' || s[ofs] == '\0' then
      if ofs > 0 then Some(value) else None
    else None
  }

  /** parse_octal_field. */
  method ParseOctalField(s: string) returns (r: Option<nat>)
    ensures r == ParseOctal(s, 0, 0)
  {
    var value: u32 := 0;
    var ofs := 0;
    while ofs < |s|
      invariant ofs <= |s| && ParseOctal(s, 0, 0) == ParseOctal(s, ofs, value)
    {
      var c := s[ofs];
      if '0' <= c <= '7' {
        if value > (TWO32 - 1) / 8 {
          return None;
        }
        value := c as int - '0' as int + value * 8;
      } else if c == ' ' || c == '\0' {
        return if ofs > 0 then Some(value) else None;
      } else {
        return None;
      }
      ofs := ofs + 1;
    }
    r := None;
  }

  lemma {:induction false} PrefixBelow(t: string, k: nat)
    requires k <= |t| && forall c :: c in t ==> OctalDigit(c)
    ensures Value(BASE_O, t[..k]) <= Value(BASE_O, t)
    decreases |t|
  {
    if k < |t| {
      var front := t[..|t| - 1];
      assert forall c :: c in front ==> c in t;
      assert t[|t| - 1] in t;
      PrefixBelow(front, k);
      assert front[..k] == t[..k];
    } else {
      assert t[..k] == t;
    }
  }

  /** A field that begins with octal digits and a null byte is read as their value. */
  lemma {:induction false} ParseDigitsOf(s: string, t: string, k: nat)
    requires k <= |t| < |s| && t <= s && s[|t|] == '\0' && t != ""
    requires (forall c :: c in t ==> OctalDigit(c)) && Value(BASE_O, t) < TWO32
    ensures ParseOctal(s, k, Value(BASE_O, t[..k])) == Some(Value(BASE_O, t))
    decreases |t| - k
  {
    if k < |t| {
      ParseDigitsOf(s, t, k + 1);
      var next := t[..k + 1];
      assert next[..|next| - 1] == t[..k] && next[|next| - 1] == t[k] && t[k] in t && s[k] == t[k];
      PrefixBelow(t, k + 1);
    } else {
      assert t[..k] == t;
    }
  }

  /** What parse_octal_field accepts: one or more octal digits, then a space or a null byte, with a
      value that fits in 32 bits, which is the result. */
  ghost predicate OctalAt(s: string, k: nat) {
    && 0 < k < |s| && (s[k] == ' ' || s[k] == '\0') && (forall i :: 0 <= i < k ==> OctalDigit(s[i]))
    && Value(BASE_O, s[..k]) < TWO32
  }

  lemma {:induction false} ParseOctalStep(s: string, ofs: nat, k: nat)
    requires ofs <= k < |s| && (forall i :: 0 <= i < k ==> OctalDigit(s[i])) && !OctalDigit(s[k])
    requires Value(BASE_O, s[..ofs]) < TWO32
    ensures ParseOctal(s, ofs, Value(BASE_O, s[..ofs])) ==
      if OctalAt(s, k) then Some(Value(BASE_O, s[..k])) else None
    decreases k - ofs
  {
    hide Value;
    if ofs < k {
      NextOctal(s, ofs);
      PrefixBelow(s[..k], ofs + 1);
      assert s[..k][..ofs + 1] == s[..ofs + 1];
      if Value(BASE_O, s[..ofs]) <= (TWO32 - 1) / 8 {
        ParseOctalStep(s, ofs + 1, k);
      }
    }
  }

  lemma NextOctal(s: string, i: nat)
    requires i < |s| && OctalDigit(s[i])
    ensures Value(BASE_O, s[..i + 1]) == 8 * Value(BASE_O, s[..i]) + (s[i] as int - '0' as int)
  {
    var t := s[..i + 1];
    assert t[..|t| - 1] == s[..i] && t[|t| - 1] == s[i];
  }

  /** Exactly these fields are accepted, with the value of their digits. */
  lemma ParseOctalIff(s: string, v: nat)
    ensures ParseOctal(s, 0, 0) == Some(v) <==> exists k: nat :: OctalAt(s, k) && Value(BASE_O, s[..k]) == v
  {
    hide Value, ParseOctal;
    var k := DigitsEnd(s, 0);
    EmptyValue();
    assert s[..0] == "";
    if k < |s| {
      ParseOctalStep(s, 0, k);
    } else {
      NoEnd(s, 0, 0);
    }
    forall j: nat | OctalAt(s, j) ensures j == k {
    }
  }

  /** Where the digits end. */
  function DigitsEnd(s: string, i: nat): (k: nat)
    requires i <= |s|
    ensures i <= k <= |s| && (forall j :: i <= j < k ==> OctalDigit(s[j])) && (k < |s| ==> !OctalDigit(s[k]))
    decreases |s| - i
  {
    if i < |s| && OctalDigit(s[i]) then DigitsEnd(s, i + 1) else i
  }

  lemma {:induction false} NoEnd(s: string, ofs: nat, value: nat)
    requires ofs <= |s| && forall j :: ofs <= j < |s| ==> OctalDigit(s[j])
    ensures ParseOctal(s, ofs, value) == None
    decreases |s| - ofs
  {
    if ofs < |s| && value <= (TWO32 - 1) / 8 { NoEnd(s, ofs + 1, s[ofs] as int - '0' as int + 8 * value); }
  }

  // ----- the header

  /** A width as an int. */
  type Width = w: int | 0 <= w < 0x8000_0000

  /** The "%0*o" conversion of a width. */
  function Octal(v: u32, width: Width): string {
    Formatted(BASE_O, Conversion(false, false, false, false, true, false, width, -1), v, false, false)
  }

  lemma {:induction false} PlainLength(v: nat, k: nat, n: nat)
    requires v < Power8(n)
    ensures |LowDigits(BASE_O, false, v, k)| <= n && forall c :: c in LowDigits(BASE_O, false, v, k) ==> OctalDigit(c)
    decreases n
  {
    if v > 0 && n > 0 {
      Recompose(v, 8);
      OctalChars(v % 8);
      PlainLength(v / 8, k + 1, n - 1);
    }
  }

  lemma OctalChars(i: nat)
    requires i < 8
    ensures OctalDigit(BASE_O.digits[i])
  {
    assert i == 0 || i == 1 || i == 2 || i == 3 || i == 4 || i == 5 || i == 6 || i == 7;
  }

  /** The zeros and the digits of an octal field. */
  lemma OctalShape(v: u32, width: Width)
    ensures var digits := LowDigits(BASE_O, false, v, 0); var s := digits + Repeat('0', 1 - |digits|);
      && Octal(v, width) == Repeat('0', width - |s|) + Sequences.Reverse(s)
      && |Octal(v, width)| == if width > |s| then width else |s|
  {
    hide LowDigits, Sequences.Reverse;
    var c := Conversion(false, false, false, false, true, false, width, -1);
    PadCntIs(BASE_O, c, v, false, false);
    FormattedLength(BASE_O, c, v, false, false);
  }

  /** A number that fits is printed in exactly its field, in octal digits that denote it. */
  lemma OctalField(v: u32, width: Width)
    requires 1 <= width && v < Power8(width)
    ensures |Octal(v, width)| == width && Value(BASE_O, Octal(v, width)) == v
    ensures forall c :: c in Octal(v, width) ==> OctalDigit(c)
  {
    hide LowDigits, Value, Formatted, Sequences.Reverse;
    PlainLength(v, 0, width);
    FormattedValue(BASE_O, Conversion(false, false, false, false, true, false, width, -1), v, false, false);
    OctalShape(v, width);
    var digits := LowDigits(BASE_O, false, v, 0);
    var s := digits + Repeat('0', 1 - |digits|);
    assert forall ch :: ch in s ==> OctalDigit(ch);
    Sequences.ReverseIndex(s);
    forall ch | ch in Sequences.Reverse(s) ensures OctalDigit(ch) {
      var i :| 0 <= i < |s| && Sequences.Reverse(s)[i] == ch;
      assert s[|s| - 1 - i] in s;
    }
  }

  function TypeFlag(kind: FileType): char { if kind.Regular? then '0' else '5' }

  /** A field's bytes: its text, then null bytes. */
  function FieldByte(text: string, i: nat): char { if i < |text| then text[i] else '\0' }

  /** Permissions 0644 for a file, 0755 for a directory. */
  function Mode(kind: FileType): u32 { if kind.Regular? then 420 else 493 }

  const MTIME: u32 := 1136102400

  /** Byte `i` of the header, with `chksum` in the checksum field. */
  function HeaderByte(name: string, kind: FileType, size: u32, chksum: string, i: nat): char {
    if i < 100 then FieldByte(name, i)
    else if i < 108 then FieldByte(Octal(Mode(kind), 7), i - 100)
    else if i < 116 then FieldByte("0000000", i - 108)
    else if i < 124 then FieldByte("0000000", i - 116)
    else if i < 136 then FieldByte(Octal(size, 11), i - 124)
    else if i < 148 then FieldByte(Octal(MTIME, 11), i - 136)
    else if i < 156 then FieldByte(chksum, i - 148)
    else if i == 156 then TypeFlag(kind)
    else if i < 257 then '\0'
    else if i < 263 then FieldByte("ustar", i - 257)
    else if i < 265 then '0'
    else if i < 297 then FieldByte("root", i - 265)
    else if i < 329 then FieldByte("root", i - 297)
    else '\0'
  }

  function Header(name: string, kind: FileType, size: u32, chksum: string): (h: string)
    ensures |h| == HEADER_SIZE && forall i :: 0 <= i < |h| ==> h[i] == HeaderByte(name, kind, size, chksum, i)
  {
    seq(HEADER_SIZE, i requires 0 <= i < HEADER_SIZE => HeaderByte(name, kind, size, chksum, i))
  }

  lemma Powers8()
    ensures Power8(7) == 2097152 && Power8(11) == 2097152 * 4096
  {
    assert Power8(4) == 4096 && Power8(7) == 512 * Power8(4) && Power8(11) == 4096 * Power8(7);
  }

  /** The octal fields have their full width, and so leave room for a null byte. */
  lemma FieldWidths(kind: FileType, size: u32)
    ensures |Octal(Mode(kind), 7)| == 7 && |Octal(size, 11)| == 11 && |Octal(MTIME, 11)| == 11
    ensures forall c :: c in Octal(Mode(kind), 7) || c in Octal(size, 11) || c in Octal(MTIME, 11) ==> OctalDigit(c)
  {
    hide Octal;
    Powers8();
    OctalField(Mode(kind), 7);
    OctalField(size, 11);
    OctalField(MTIME, 11);
  }

  lemma HeaderBytes(name: string, kind: FileType, size: u32, chksum: string)
    requires Text(name) && Text(chksum)
    ensures forall i :: 0 <= i < HEADER_SIZE ==> Header(name, kind, size, chksum)[i] as int < 256
  {
    hide Octal;
    FieldWidths(kind, size);
    forall i: nat | i < HEADER_SIZE ensures HeaderByte(name, kind, size, chksum, i) as int < 256 {
      ByteRange(name, i);
      ByteRange(Octal(Mode(kind), 7), i - 100);
      ByteRange("0000000", i - 108);
      ByteRange("0000000", i - 116);
      ByteRange(Octal(size, 11), i - 124);
      ByteRange(Octal(MTIME, 11), i - 136);
      ByteRange(chksum, i - 148);
      ByteRange("ustar", i - 257);
      ByteRange("root", i - 265);
      ByteRange("root", i - 297);
    }
  }

  lemma ByteRange(text: string, i: int)
    requires Text(text)
    ensures 0 <= i ==> FieldByte(text, i) as int < 256
  {
    if 0 <= i < |text| { assert text[i] in text; }
  }

  /** The header with its checksum. */
  function Complete(name: string, kind: FileType, size: u32): (h: string)
    requires Text(name)
    ensures |h| == HEADER_SIZE
  {
    HeaderBytes(name, kind, size, "");
    SumBound(Header(name, kind, size, ""), HEADER_SIZE);
    Header(name, kind, size, Octal(Sum(Header(name, kind, size, ""), HEADER_SIZE), 7))
  }

  /** The header is filled as far as byte `n`, and null from there on. */
  ghost predicate FilledTo(h: string, name: string, kind: FileType, size: u32, n: nat) {
    && |h| == HEADER_SIZE && n <= HEADER_SIZE
    && (forall i :: 0 <= i < n ==> h[i] == HeaderByte(name, kind, size, "", i))
    && (forall i :: n <= i < HEADER_SIZE ==> h[i] == '\0')
  }

  /** strlcpy or snprintf of a text that fits into the field at `ofs`. */
  method PutField(header: array<char>, ofs: nat, fieldSize: nat, text: string)
    requires ofs + fieldSize <= header.Length && |text| < fieldSize
    modifies header
    ensures forall i :: 0 <= i < header.Length ==>
      header[i] == if ofs <= i < ofs + |text| then text[i - ofs] else if i == ofs + |text| then '\0' else old(header[i])
  {
    for k := 0 to |text|
      invariant forall i :: 0 <= i < header.Length ==>
        header[i] == if ofs <= i < ofs + k then text[i - ofs] else old(header[i])
    {
      header[ofs + k] := text[k];
    }
    header[ofs + |text|] := '\0';
  }

  /** Fills the next field of a header that is null from there on. */
  method PutNext(header: array<char>, ofs: nat, fieldSize: nat, text: string, ghost name: string, ghost kind: FileType,
    ghost size: u32)
    requires FilledTo(header[..], name, kind, size, ofs) && ofs + fieldSize <= HEADER_SIZE && |text| < fieldSize
    requires forall i :: ofs <= i < ofs + fieldSize ==> HeaderByte(name, kind, size, "", i) == FieldByte(text, i - ofs)
    modifies header
    ensures FilledTo(header[..], name, kind, size, ofs + fieldSize)
  {
    hide HeaderByte;
    PutField(header, ofs, fieldSize, text);
  }

  /** Everything but the checksum. */
  method FillHeader(header: array<char>, name: string, kind: FileType, size: u32)
    requires header.Length == HEADER_SIZE && |name| <= 99
    modifies header
    ensures header[..] == Header(name, kind, size, "")
  {
    hide Octal;
    for i := 0 to HEADER_SIZE
      invariant forall k :: 0 <= k < i ==> header[k] == '\0'
    {
      header[i] := '\0';
    }
    FieldWidths(kind, size);
    PutNext(header, 0, 100, name, name, kind, size);
    PutNext(header, 100, 8, Octal(Mode(kind), 7), name, kind, size);
    PutNext(header, 108, 8, "0000000", name, kind, size);
    PutNext(header, 116, 8, "0000000", name, kind, size);
    PutNext(header, 124, 12, Octal(size, 11), name, kind, size);
    PutNext(header, 136, 12, Octal(MTIME, 11), name, kind, size);
    FillRest(header, name, kind, size);
  }

  method FillRest(header: array<char>, name: string, kind: FileType, size: u32)
    requires header.Length == HEADER_SIZE && FilledTo(header[..], name, kind, size, 148)
    modifies header
    ensures header[..] == Header(name, kind, size, "")
  {
    hide Octal;
    assert FilledTo(header[..], name, kind, size, 156);
    header[156] := TypeFlag(kind);
    assert FilledTo(header[..], name, kind, size, 257);
    PutNext(header, 257, 6, "ustar", name, kind, size);
    header[263], header[264] := '0', '0';
    assert FilledTo(header[..], name, kind, size, 265);
    PutNext(header, 265, 32, "root", name, kind, size);
    PutNext(header, 297, 32, "root", name, kind, size);
  }

  /** ustar_make_header: fails exactly on a stripped name of more than 99 characters. */
  method MakeHeader(fileName: string, kind: FileType, size: i32, header: array<char>) returns (ok: bool)
    requires Text(fileName) && header.Length == HEADER_SIZE
    modifies header
    ensures ok <==> |Strip(fileName)| <= 99
    ensures ok ==> Text(Strip(fileName)) && header[..] == Complete(Strip(fileName), kind, ToU32(size))
    ensures !ok ==> header[..] == old(header[..])
  {
    hide Octal, HeaderByte;
    var name := StripPrefixes(fileName);
    if |name| > 99 {
      return false;
    }
    StripText(fileName);
    FillHeader(header, name, kind, ToU32(size));
    ghost var h := header[..];
    HeaderBytes(name, kind, ToU32(size), "");
    var chksum := CalculateChksum(header[..]);
    SumBound(h, HEADER_SIZE);
    ChksumWidth(chksum);
    PutField(header, CHKSUM, 8, Octal(chksum, 7));
    ChksumPut(h, header[..], name, kind, ToU32(size), Octal(chksum, 7));
    ok := true;
  }

  lemma StripText(s: string)
    requires Text(s)
    ensures Text(Strip(s))
  {
    hide Strip;
    StripSafe(s);
    var r := Strip(s);
    if r == "." {
      assert Text(".");
    } else {
      forall c | c in r ensures c in s {
        var i :| 0 <= i < |r| && r[i] == c;
        assert s[|s| - |r| + i] == c;
      }
    }
  }

  lemma ChksumWidth(chksum: u32)
    requires chksum <= 255 * HEADER_SIZE
    ensures |Octal(chksum, 7)| == 7 && Value(BASE_O, Octal(chksum, 7)) == chksum
    ensures forall c :: c in Octal(chksum, 7) ==> OctalDigit(c)
  {
    hide Octal;
    Powers8();
    OctalField(chksum, 7);
  }

  lemma ChksumPut(h: string, g: string, name: string, kind: FileType, size: u32, chksum: string)
    requires h == Header(name, kind, size, "") && |g| == HEADER_SIZE && |chksum| == 7
    requires forall i :: 0 <= i < |g| ==>
      g[i] == if CHKSUM <= i < CHKSUM + 7 then chksum[i - CHKSUM] else if i == CHKSUM + 7 then '\0' else h[i]
    ensures g == Header(name, kind, size, chksum)
  {
    hide Octal;
    forall i: nat | i < HEADER_SIZE ensures g[i] == HeaderByte(name, kind, size, chksum, i) {
      assert h[i] == HeaderByte(name, kind, size, "", i);
    }
  }

  // ----- parsing

  /** A null-terminated string in a field. */
  function CString(s: string): string {
    if s == "" || s[0] == '\0' then "" else [s[0]] + CString(s[1..])
  }

  /** What ustar_parse_header makes of any 512 bytes. */
  function Parse(h: string): Parsed
    requires |h| == HEADER_SIZE
  {
    var chksum := ParseOctal(h[148..156], 0, 0);
    var size := ParseOctal(h[124..136], 0, 0);
    if forall i :: 0 <= i < HEADER_SIZE ==> h[i] == '\0' then Eof
    else if h[257..263] != "ustar\0" then Error("not a ustar archive")
    else if h[263] != '0' || h[264] != '0' then Error("invalid ustar version")
    else if chksum.None? then Error("corrupt chksum field")
    else if chksum.value != Sum(h, HEADER_SIZE) then Error("checksum mismatch")
    else if h[99] != '\0' || h[345] != '\0' then Error("file name too long")
    else if h[156] != '0' && h[156] != '5' then Error("unimplemented file type")
    else if h[156] == '5' then Entry(Strip(CString(h[0..100])), Directory, 0)
    else if size.None? then Error("corrupt file size field")
    else if size.value > TWO31 - 1 then Error("file too large")
    else Entry(Strip(CString(h[0..100])), Regular, size.value)
  }

  /** A size that was read and fits in an int. */
  predicate SizeOk(size: Option<nat>) { size.Some? && size.value < TWO31 }

  /** Exactly these headers are read as an entry, and what it is. */
  lemma ParseAccepts(h: string)
    requires |h| == HEADER_SIZE
    ensures Parse(h).Entry? <==>
      && h[257..263] == "ustar\0" && h[263] == h[264] == '0'
      && ParseOctal(h[148..156], 0, 0) == Some(Sum(h, HEADER_SIZE))
      && h[99] == h[345] == '\0'
      && (h[156] == '0' || h[156] == '5') && (h[156] == '0' ==> SizeOk(ParseOctal(h[124..136], 0, 0)))
    ensures Parse(h).Entry? ==>
      && Parse(h).name == Strip(CString(h[0..100]))
      && (h[156] == '5' ==> Parse(h).kind == Directory && Parse(h).size == 0)
      && (h[156] == '0' ==> Parse(h).kind == Regular && Some(Parse(h).size) == ParseOctal(h[124..136], 0, 0))
    ensures Parse(h).Eof? <==> forall i :: 0 <= i < HEADER_SIZE ==> h[i] == '\0'
  {
    hide Sum, ParseOctal, Strip, CString;
  }

  /** An entry is read only from a header whose checksum field holds its sum. */
  lemma ChecksumHolds(h: string)
    requires |h| == HEADER_SIZE && Parse(h).Entry?
    ensures ParseOctal(h[148..156], 0, 0) == Some(Sum(h, HEADER_SIZE))
  {
    hide Sum, ParseOctal, Strip, CString;
  }

  /** So one byte changed anywhere outside the checksum field is found out. */
  lemma OneByteDetected(h: string, i: nat, c: char)
    requires |h| == HEADER_SIZE && Parse(h).Entry?
    requires i < HEADER_SIZE && !(CHKSUM <= i < CHKSUM_END) && c != h[i]
    ensures !Parse(h[i := c]).Entry?
  {
    hide Parse, Sum, ParseOctal;
    ChecksumHolds(h);
    SumChange(h, i, c, HEADER_SIZE);
    assert h[i := c][148..156] == h[148..156];
    if Parse(h[i := c]).Entry? { ChecksumHolds(h[i := c]); }
  }

  /** is_all_zeros. */
  method IsAllZeros(block: string) returns (b: bool)
    ensures b <==> forall i :: 0 <= i < |block| ==> block[i] == '\0'
  {
    for i := 0 to |block|
      invariant forall k :: 0 <= k < i ==> block[k] == '\0'
    {
      if block[i] != '\0' {
        return false;
      }
    }
    b := true;
  }

  /** ustar_parse_header. */
  method ParseHeader(h: string) returns (r: Parsed)
    requires |h| == HEADER_SIZE && forall i :: 0 <= i < |h| ==> h[i] as int < 256
    ensures r == Parse(h)
  {
    hide ParseOctal, Sum, CString, Strip;
    var zeros := IsAllZeros(h);
    if zeros {
      return Eof;
    }
    if h[257..263] != "ustar\0" {
      return Error("not a ustar archive");
    } else if h[263] != '0' || h[264] != '0' {
      return Error("invalid ustar version");
    }
    var chksum := ParseOctalField(h[148..156]);
    if chksum.None? {
      return Error("corrupt chksum field");
    }
    var sum := CalculateChksum(h);
    if chksum.value != sum {
      return Error("checksum mismatch");
    } else if h[99] != '\0' || h[345] != '\0' {
      return Error("file name too long");
    } else if h[156] != '0' && h[156] != '5' {
      return Error("unimplemented file type");
    }
    var sizeUl := 0;
    if h[156] == '0' {
      var size := ParseOctalField(h[124..136]);
      if size.None? {
        return Error("corrupt file size field");
      } else if size.value > TWO31 - 1 {
        return Error("file too large");
      }
      sizeUl := size.value;
    }
    var name := StripPrefixes(CString(h[0..100]));
    r := Entry(name, if h[156] == '0' then Regular else Directory, sizeUl);
  }

  // ----- the round trip

  lemma {:induction false} CStringOf(s: string, t: string)
    requires t <= s && |t| < |s| && s[|t|] == '\0' && '\0' !in t
    ensures CString(s) == t
  {
    if t != "" {
      assert s[0] == t[0] && t[0] in t;
      CStringOf(s[1..], t[1..]);
    }
  }

  /** An octal field of a header reads back as the number printed. */
  lemma FieldReads(field: string, v: u32, width: Width)
    requires 1 <= width && v < Power8(width) && |field| == width + 1
    requires forall i :: 0 <= i < |field| ==> field[i] == FieldByte(Octal(v, width), i)
    ensures ParseOctal(field, 0, 0) == Some(v as nat)
  {
    hide Octal, Value, ParseOctal;
    OctalField(v, width);
    var t := Octal(v, width);
    assert t <= field;
    ParseDigitsOf(field, t, 0);
    EmptyValue();
    assert t[..0] == "";
  }

  lemma EmptyValue()
    ensures Value(BASE_O, "") == 0
  {
  }

  /** What parsing the header made for any name, type and size gives: the stripped name, the type
      and the size, 0 for a directory; but a negative size of a regular file comes back too large. */
  lemma RoundTrip(fileName: string, kind: FileType, size: i32)
    requires Text(fileName) && |Strip(fileName)| <= 99
    ensures Text(Strip(fileName))
    ensures Parse(Complete(Strip(fileName), kind, ToU32(size))) ==
      if kind.Directory? then Entry(Strip(fileName), Directory, 0)
      else if size >= 0 then Entry(Strip(fileName), Regular, size)
      else Error("file too large")
  {
    hide Octal, Sum, ParseOctal, CString, Strip, HeaderByte;
    var name, u := Strip(fileName), ToU32(size);
    StripText(fileName);
    StripIdempotent(fileName);
    var plain := Header(name, kind, u, "");
    HeaderBytes(name, kind, u, "");
    SumBound(plain, HEADER_SIZE);
    var chksum := Sum(plain, HEADER_SIZE);
    ChksumWidth(chksum);
    var h := Complete(name, kind, u);
    HeaderFields(name, kind, u, Octal(chksum, 7), h);
    SumIndependent(h, plain, HEADER_SIZE);
    Powers8();
    FieldReads(h[148..156], chksum, 7);
    FieldReads(h[124..136], u, 11);
    CStringOf(h[0..100], name);
  }

  /** The fields of a header that the parser looks at. */
  lemma HeaderFields(name: string, kind: FileType, size: u32, chksum: string, h: string)
    requires Text(name) && |name| <= 99 && |chksum| == 7 && h == Header(name, kind, size, chksum)
    ensures name <= h[0..100] && h[0..100][|name|] == '\0' && '\0' !in name
    ensures forall i :: 0 <= i < 12 ==> h[124..136][i] == FieldByte(Octal(size, 11), i)
    ensures forall i :: 0 <= i < 8 ==> h[148..156][i] == FieldByte(chksum, i)
    ensures h[156] == TypeFlag(kind) && h[257..263] == "ustar\0" && h[263] == '0' && h[264] == '0'
    ensures h[99] == '\0' && h[345] == '\0'
    ensures forall i :: 0 <= i < HEADER_SIZE && !(CHKSUM <= i < CHKSUM_END) ==> h[i] == Header(name, kind, size, "")[i]
  {
    hide Octal;
    assert forall i :: 0 <= i < |name| ==> h[0..100][i] == name[i];
    assert h[257..263] == "ustar\0" by {
      assert h[257] == 'u' && h[258] == 's' && h[259] == 't' && h[260] == 'a' && h[261] == 'r' && h[262] == '\0';
    }
  }

  /** The fields the parser does not look at: permissions, owner and time read back too. */
  lemma OtherFields(name: string, kind: FileType, size: u32)
    requires Text(name) && |name| <= 99
    ensures var h := Complete(name, kind, size);
      && ParseOctal(h[100..108], 0, 0) == Some(if kind.Regular? then 6 * 64 + 4 * 8 + 4 else 7 * 64 + 5 * 8 + 5)
      && ParseOctal(h[136..148], 0, 0) == Some(1136102400)
      && h[108..116] == "0000000\0" && h[116..124] == "0000000\0"
      && CString(h[265..297]) == "root" && CString(h[297..329]) == "root"
  {
    hide Octal, Sum, ParseOctal, CString, HeaderByte;
    var h := Complete(name, kind, size);
    HeaderBytes(name, kind, size, "");
    SumBound(Header(name, kind, size, ""), HEADER_SIZE);
    var chksum := Octal(Sum(Header(name, kind, size, ""), HEADER_SIZE), 7);
    RestOfHeader(name, kind, size, chksum, h);
    Powers8();
    FieldReads(h[100..108], Mode(kind), 7);
    FieldReads(h[136..148], MTIME, 11);
    CStringOf(h[265..297], "root");
    CStringOf(h[297..329], "root");
  }

  lemma RestOfHeader(name: string, kind: FileType, size: u32, chksum: string, h: string)
    requires h == Header(name, kind, size, chksum)
    ensures forall i :: 0 <= i < 8 ==> h[100..108][i] == FieldByte(Octal(Mode(kind), 7), i)
    ensures forall i :: 0 <= i < 12 ==> h[136..148][i] == FieldByte(Octal(MTIME, 11), i)
    ensures h[108..116] == "0000000\0" && h[116..124] == "0000000\0"
    ensures "root" <= h[265..297] && h[265..297][4] == '\0' && "root" <= h[297..329] && h[297..329][4] == '\0'
  {
    hide Octal;
  }
}
