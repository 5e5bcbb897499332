/** Encoding and decoding of special characters in ezxml (src/external/ezxml/ezxml.c). */
module Escapes {
  import Utf

  const NUL: char := '\U{0}'
  const VT: char := '\U{B}'
  const FF: char := '\U{C}'

  predicate IsSpace(c: char) { c in {' ', '\t', '\n', '\r', VT, FF} }

  // ----- encoding -----

  function EncodeChar(c: char, a: bool): string {
    match c
    case '&' => "&amp;"
    case '<' => "&lt;"
    case '>' => "&gt;"
    case '"' => if a then "&quot;" else "\""
    case '\n' => if a then "&#xA;" else "\n"
    case '\t' => if a then "&#x9;" else "\t"
    case '\r' => "&#xD;"
    case _ => [c]
  }

  /** The text of a C string: what comes before the first NUL. */
  function CString(s: string): string {
    if s == "" || s[0] == NUL then "" else [s[0]] + CString(s[1..])
  }

  function Encode(s: string, a: bool): string {
    if s == "" || s[0] == NUL then "" else EncodeChar(s[0], a) + Encode(s[1..], a)
  }

  /**
   * ezxml_ampencode: len is -1 for "up to the terminator". Every piece is written, with its terminator, inside the
   * buffer of max bytes, which grows first when fewer than 10 bytes are left.
   */
  method AmpEncode(s: string, len: int, dst: string, max: nat, a: bool) returns (dst': string, max': nat)
    requires -1 <= len && |dst| <= max
    ensures dst' == dst + Encode(if 0 <= len <= |s| then s[..len] else s, a)
    ensures max <= max' && |dst'| <= max'
    ensures len != 0 ==> |dst'| + 4 <= max'
  {
    hide EncodeChar;
    ghost var t := if 0 <= len <= |s| then s[..len] else s;
    dst', max' := dst, max;
    var i := 0;
    while i != len
      invariant 0 <= i <= |t| && max <= max' && |dst'| <= max'
      invariant 0 < i ==> |dst'| + 4 <= max'
      invariant dst' + Encode(t[i..], a) == dst + Encode(t, a)
      invariant i == |t| && t != s ==> i == len
      decreases |t| - i
    {
      while |dst'| + 10 > max'
        invariant max <= max'
        decreases |dst'| + 10 - max'
      {
        max' := max' + Utf.BUFSIZE;
      }
      if i == |s| || s[i] == NUL {
        EncodeStops(t, i, a);
        assert dst' + "" == dst';
        return;
      }
      EncodeStep(t, i, a);
      var piece := EncodeChar(s[i], a);
      assert |dst'| + |piece| + 1 <= max';
      assert (dst' + piece) + Encode(t[i + 1..], a) == dst' + Encode(t[i..], a);
      dst' := dst' + piece;
      i := i + 1;
    }
    EncodeStops(t, i, a);
    assert dst' + "" == dst';
  }

  lemma EncodeStops(t: string, i: nat, a: bool)
    ensures i == |t| ==> Encode(t[i..], a) == ""
    ensures i < |t| && t[i] == NUL ==> Encode(t[i..], a) == ""
  {
  }

  lemma EncodeStep(t: string, i: nat, a: bool)
    requires i < |t| && t[i] != NUL
    ensures Encode(t[i..], a) == EncodeChar(t[i], a) + Encode(t[i + 1..], a)
    ensures |EncodeChar(t[i], a)| <= 6
  {
    hide EncodeChar;
    assert t[i..][1..] == t[i + 1..];
    PieceFits(t[i], a);
  }

  /** What a character is encoded as. */
  lemma EncodingOf(a: bool)
    ensures Encode("&", a) == "&amp;" && Encode("<", a) == "&lt;" && Encode(">", a) == "&gt;"
    ensures Encode("\r", a) == "&#xD;"
    ensures Encode("\"", true) == "&quot;" && Encode("\n", true) == "&#xA;" && Encode("\t", true) == "&#x9;"
    ensures Encode("\"", false) == "\"" && Encode("\n", false) == "\n" && Encode("\t", false) == "\t"
    ensures forall c :: c !in {NUL, '&', '<', '>', '\r', '"', '\n', '\t'} ==> Encode([c], a) == [c]
  {
    forall c, b ensures c != NUL ==> Encode([c], b) == EncodeChar(c, b) {
      assert [c][1..] == "";
    }
  }

  /** Text is encoded character by character, up to its first NUL. */
  lemma {:induction false} EncodeSplits(s: string, t: string, a: bool)
    requires NUL !in s
    ensures Encode(s + t, a) == Encode(s, a) + Encode(t, a)
    ensures Encode(s + [NUL] + t, a) == Encode(s, a)
  {
    hide EncodeChar;
    if s == "" {
      assert s + t == t && s + [NUL] + t == [NUL] + t;
    } else {
      assert (s + t)[1..] == s[1..] + t && (s + [NUL] + t)[1..] == s[1..] + [NUL] + t;
      EncodeSplits(s[1..], t, a);
    }
  }

  lemma {:induction false} CStringSplits(s: string, t: string)
    requires NUL !in s
    ensures CString(s + [NUL] + t) == s && CString(s) == s
  {
    if s == "" {
      assert s + [NUL] + t == [NUL] + t;
    } else {
      assert (s + [NUL] + t)[1..] == s[1..] + [NUL] + t;
      CStringSplits(s[1..], t);
    }
  }

  lemma PieceFits(c: char, a: bool)
    ensures 1 <= |EncodeChar(c, a)| <= 6
  {
  }

  // ----- numbers of character references: strtol -----

  const LONG_MAX: int := 0x7FFF_FFFF_FFFF_FFFF

  function DigitOf(c: char): int {
    if '0' <= c <= '9' then c as int - '0' as int
    else if 'a' <= c <= 'z' then c as int - 'a' as int + 10
    else if 'A' <= c <= 'Z' then c as int - 'A' as int + 10
    else -1
  }

  predicate IsDigit(c: char, base: nat) { 0 <= DigitOf(c) < base }

  /** The length of the leading run of digits. */
  function Run(s: string, base: nat): (n: nat)
    ensures n <= |s| && (n < |s| ==> !IsDigit(s[n], base))
    ensures forall k :: 0 <= k < n ==> IsDigit(s[k], base)
  {
    if s == "" || !IsDigit(s[0], base) then 0 else 1 + Run(s[1..], base)
  }

  function Value(s: string, base: nat): nat {
    if s == "" then 0
    else Value(s[..|s| - 1], base) * base + if IsDigit(s[|s| - 1], base) then DigitOf(s[|s| - 1]) else 0
  }

  function Spaces(s: string): (n: nat)
    ensures n <= |s|
  {
    if s == "" || !IsSpace(s[0]) then 0 else 1 + Spaces(s[1..])
  }

  function Clamp(v: int): int {
    if v > LONG_MAX then LONG_MAX else if v < -LONG_MAX - 1 then -LONG_MAX - 1 else v
  }

  /** The value and the number of characters read; none are read when there is no number. */
  function Strtol(s: string, base: nat): (r: (int, nat))
    ensures r.1 <= |s|
  {
    var w := Spaces(s);
    var signed := w < |s| && s[w] in {'+', '-'};
    var g := if signed then w + 1 else w;
    var prefix := base == 16 && g + 2 < |s| && s[g] == '0' && s[g + 1] in {'x', 'X'} && IsDigit(s[g + 2], base);
    var p := if prefix then g + 2 else g;
    var n := Run(s[p..], base);
    if n == 0 then (0, 0)
    else
      var v: int := Value(s[p..][..n], base);
      (Clamp(if signed && s[w] == '-' then -v else v), p + n)
  }

  // ----- decoding -----

  /** Character content, an attribute value, or a cdata section: t is '&', ' ' or 'c'. */
  datatype Mode = Text | Attribute | Cdata

  /** Section 2.11 of XML 1.0. */
  function LineEnds(s: string): string {
    if s == "" then ""
    else if s[0] == '\r' then "\n" + LineEnds(if |s| > 1 && s[1] == '\n' then s[2..] else s[1..])
    else [s[0]] + LineEnds(s[1..])
  }

  predicate EndsInCr(s: string) {
    |s| > 0 && (s[|s| - 1] == '\r' || (|s| > 1 && s[|s| - 1] == '\n' && s[|s| - 2] == '\r'))
  }

  /** What follows a carriage return and the line feed that may belong to it. */
  function PastCr(s: string): string
    requires s != ""
  {
    if |s| > 1 && s[1] == '\n' then s[2..] else s[1..]
  }

  lemma CrStep(rest: string)
    requires rest != "" && rest[0] == '\r'
    ensures LineEnds(rest) == "\n" + LineEnds(PastCr(rest))
    ensures EndsInCr(rest) <==> PastCr(rest) == "" || EndsInCr(PastCr(rest))
  {
  }

  lemma OtherStep(rest: string)
    requires rest != "" && rest[0] != '\r'
    ensures LineEnds(rest) == [rest[0]] + LineEnds(rest[1..])
    ensures EndsInCr(rest) <==> rest[1..] != "" && EndsInCr(rest[1..])
  {
  }

  /** A carriage return becomes a line feed in place; the rest moves down over its line feed. */
  method ReplaceCr(s: string, i: nat) returns (s': string)
    requires i < |s| && s[i] == '\r'
    ensures i < |s'| && s'[..i + 1] == s[..i] + "\n" && s'[i + 1..] == PastCr(s[i..])
  {
    s' := s[i := '\n'];
    if i + 1 < |s| && s[i + 1] == '\n' {
      assert s[i..][2..] == s[i + 2..];
      s' := s'[..i + 1] + s[i + 2..];
    }
  }

  /**
   * The first loop of ezxml_decode. The cursor steps over the terminator, and past tells so, exactly when the text
   * ends in a carriage return or in a carriage return and a line feed.
   */
  method NormalizeLineEnds(text: string) returns (s: string, past: bool)
    ensures s == LineEnds(text)
    ensures past <==> EndsInCr(text)
  {
    hide LineEnds, EndsInCr, PastCr;
    s := text;
    var i := 0;
    LineEndsOfNothing();
    ghost var done, rest := "", text;
    while i < |s|
      invariant 0 <= i <= |s| && s[i..] == rest && s[..i] == done && done + LineEnds(rest) == LineEnds(text)
      invariant rest != "" && EndsInCr(rest) <==> EndsInCr(text)
      decreases |rest|
    {
      while i < |s| && s[i] == '\r'
        invariant 0 <= i <= |s| && s[i..] == rest && s[..i] == done && done + LineEnds(rest) == LineEnds(text)
        invariant rest == "" || EndsInCr(rest) <==> EndsInCr(text)
        decreases |rest|
      {
        CrStep(rest);
        PastCrIsShorter(rest);
        s := ReplaceCr(s, i);
        assert done + ("\n" + LineEnds(PastCr(rest))) == (done + "\n") + LineEnds(PastCr(rest));
        done, rest := done + "\n", PastCr(rest);
        i := i + 1;
      }
      if i == |s| {
        return s, true;
      }
      OtherStep(rest);
      assert rest[0] == s[i] && rest[1..] == s[i + 1..] && s[..i + 1] == s[..i] + [s[i]];
      assert done + ([s[i]] + LineEnds(rest[1..])) == (done + [s[i]]) + LineEnds(rest[1..]);
      done, rest := done + [s[i]], rest[1..];
      i := i + 1;
    }
    past := false;
    assert done + "" == done == s;
  }

  /** Decoding this text runs over its terminator. */
  method FinalCrOverruns() returns (s: string, past: bool)
    ensures past && s == "a\n"
  {
    s, past := NormalizeLineEnds("a\r");
    assert "a\r"[1..] == "\r";
  }

  /** A carriage return with the line feed that may follow it becomes one line feed; all else stays. */
  lemma {:induction false} LineEndsAre(s: string, t: string)
    requires '\r' !in s
    ensures LineEnds(s + t) == s + LineEnds(t) && LineEnds(s) == s
    ensures LineEnds("\r\n" + t) == "\n" + LineEnds(t)
    ensures t == "" || t[0] != '\n' ==> LineEnds("\r" + t) == "\n" + LineEnds(t)
  {
    assert ("\r\n" + t)[2..] == t && ("\r" + t)[1..] == t;
    if s == "" {
      assert s + t == t && LineEnds("") == "";
    } else {
      LineEndsAre(s[1..], t);
      assert (s + t)[1..] == s[1..] + t && s == [s[0]] + s[1..];
    }
  }

  lemma PastCrIsShorter(rest: string)
    requires rest != ""
    ensures |PastCr(rest)| < |rest|
  {
  }

  lemma LineEndsOfNothing()
    ensures LineEnds("") == "" && !EndsInCr("")
  {
  }

  const ENTITIES: seq<(string, string)> := [("lt;", "&#60;"), ("gt;", "&#62;"), ("quot;", "&#34;"),
                                            ("apos;", "&#39;"), ("amp;", "&#38;")]

  /** The first default entity whose name begins s, or their number. */
  function EntityAt(s: string): (k: nat)
    ensures k <= |ENTITIES| && (k < |ENTITIES| ==> ENTITIES[k].0 <= s)
  {
    if "lt;" <= s then 0
    else if "gt;" <= s then 1
    else if "quot;" <= s then 2
    else if "apos;" <= s then 3
    else if "amp;" <= s then 4
    else 5
  }

  /** The number of a reference that starts with "&#", and the place where reading it stopped. */
  function Reference(s: string): (r: (int, nat))
    requires "&#" <= s
    ensures 2 <= r.1 <= |s|
  {
    if |s| > 2 && s[2] == 'x' then
      var (c, n) := Strtol(s[3..], 16);
      (c, n + 3)
    else
      var (c, n) := Strtol(s[2..], 10);
      (c, n + 2)
  }

  predicate IsReference(s: string) {
    "&#" <= s && Reference(s).0 != 0 && Reference(s).1 < |s| && s[Reference(s).1] == ';'
  }

  predicate IsEntity(s: string) {
    "&" <= s && !("&#" <= s) && EntityAt(s[1..]) < |ENTITIES|
  }

  function Chars(b: seq<nat>): (s: string)
    ensures |s| == |b|
  {
    seq(|b|, i requires 0 <= i < |b| => (b[i] % 0x100) as char)
  }

  /** The bytes written for a character reference; a char keeps the low eight bits of a negative number. */
  function RefBytes(c: int): string {
    if c < 0x80 then [(c % 0x100) as char] else Chars(Utf.CodeBytes(c))
  }

  /** A negative number or one below 0x80 is one char, congruent to it modulo 0x100; any other number is written as its
      bytes, which for each that UTF-8 can encode are its encoding. */
  lemma RefBytesAre(c: int)
    ensures var b := RefBytes(c);
      if c < 0x80 then |b| == 1 && b[0] as int < 0x100 && (c - b[0] as int) % 0x100 == 0
      else |b| == |Utf.CodeBytes(c)| && forall i :: 0 <= i < |b| ==> b[i] as int == Utf.CodeBytes(c)[i]
    ensures 0 <= c < 0x110000 ==> Utf.CodeBytes(c) == Utf.Utf8(c)
  {
    hide Utf.CodeBytes;
    if c >= 0x80 {
      Utf.AreAllBytes(c);
    }
    if 0 <= c < 0x110000 {
      Utf.CodeWritesUtf8(c);
    }
  }

  function Expanded(s: string): string
    requires IsEntity(s)
  {
    var (name, value) := ENTITIES[EntityAt(s[1..])];
    value + s[1..][|name|..]
  }

  /** Ampersands that do not begin a character reference. */
  function Loose(s: string): nat {
    if s == "" then 0 else (if s[0] == '&' && !("&#" <= s) then 1 else 0) + Loose(s[1..])
  }

  lemma {:induction false} LooseSuffix(s: string, k: nat)
    requires k <= |s|
    ensures Loose(s[k..]) <= Loose(s)
  {
    if k > 0 {
      LooseSuffix(s[1..], k - 1);
      assert s[1..][k - 1..] == s[k..];
    }
  }

  /** Expanding an entity leaves fewer loose ampersands, so decoding ends. */
  lemma LooseExpanded(s: string)
    requires IsEntity(s)
    ensures Loose(Expanded(s)) < Loose(s)
  {
    var (name, value) := ENTITIES[EntityAt(s[1..])];
    var rest := s[1..][|name|..];
    LooseSuffix(s[1..], |name|);
    var d, e := value[2], value[3];
    assert Expanded(s) == "&#" + [d, e, ';'] + rest;
    NotLoose(d, e, rest);
  }

  lemma NotLoose(d: char, e: char, rest: string)
    requires d != '&' && e != '&'
    ensures Loose("&#" + [d, e, ';'] + rest) == Loose(rest)
  {
    var s := "&#" + [d, e, ';'] + rest;
    assert s[1..][1..][1..][1..][1..] == rest;
    assert Loose(s[1..][1..][1..][1..]) == Loose(rest);
    assert Loose(s[1..][1..][1..]) == Loose(rest);
    assert Loose(s[1..][1..]) == Loose(rest);
    assert s[1..][0] == '#' && Loose(s[1..]) == Loose(rest);
  }

  /** What decoding makes of the text from the cursor on. */
  function DecodeFrom(s: string, t: Mode): string
    decreases Loose(s), |s|
  {
    if s == "" then ""
    else if t != Cdata && IsReference(s) then
      LooseSuffix(s, Reference(s).1 + 1);
      RefBytes(Reference(s).0) + DecodeFrom(s[Reference(s).1 + 1..], t)
    else if t != Cdata && IsEntity(s) then
      LooseExpanded(s);
      DecodeFrom(Expanded(s), t)
    else
      LooseSuffix(s, 1);
      [if t == Attribute && IsSpace(s[0]) then ' ' else s[0]] + DecodeFrom(s[1..], t)
  }

  function Decoded(s: string, t: Mode): string { DecodeFrom(LineEnds(s), t) }

  // ----- a reference is overwritten in place -----

  lemma {:induction false} ValueBits(s: string, base: nat)
    requires base == 10 || base == 16
    ensures Utf.Bits(Value(s, base)) <= 4 * |s|
  {
    if s != "" {
      var v := Value(s[..|s| - 1], base);
      ValueBits(s[..|s| - 1], base);
      Utf.BitsMonotone(Value(s, base), 16 * v + 15);
      FourMoreBits(v);
    }
  }

  lemma FourMoreBits(v: nat)
    ensures Utf.Bits(16 * v + 15) == Utf.Bits(v) + 4
  {
    assert Utf.Bits(2 * v + 1) == 1 + Utf.Bits(v);
    assert Utf.Bits(4 * v + 3) == 2 + Utf.Bits(v);
    assert Utf.Bits(8 * v + 7) == 3 + Utf.Bits(v);
  }

  lemma StrtolBits(s: string, base: nat)
    requires base == 10 || base == 16
    ensures Strtol(s, base).0 > 0 ==> Utf.Bits(Strtol(s, base).0) <= 4 * Strtol(s, base).1
  {
    hide Utf.Bits, Value;
    var (c, e) := Strtol(s, base);
    if c > 0 {
      var w := Spaces(s);
      var g := if w < |s| && s[w] in {'+', '-'} then w + 1 else w;
      var prefix := base == 16 && g + 2 < |s| && s[g] == '0' && s[g + 1] in {'x', 'X'} && IsDigit(s[g + 2], base);
      var p := if prefix then g + 2 else g;
      var n := Run(s[p..], base);
      ValueBits(s[p..][..n], base);
      Utf.BitsMonotone(c, Value(s[p..][..n], base));
    }
  }

  lemma {:induction false} PayloadBytes(c: nat, b: nat)
    ensures |Utf.Payload(c, b)| == b
  {
    if b > 0 {
      PayloadBytes(c, b - 1);
    }
  }

  lemma EightBits(c: nat)
    requires c >= 0x80
    ensures Utf.Bits(c) >= 8
  {
    Utf.Powers();
    Utf.BitsAre(0x80, 7);
    Utf.BitsMonotone(0x80, c);
  }

  /** The bytes of a reference never reach the semicolon that ends it, so the rest can be moved down onto it. */
  lemma ReferenceFits(s: string)
    requires IsReference(s)
    ensures |RefBytes(Reference(s).0)| <= Reference(s).1
  {
    hide Strtol, Utf.Bits, Utf.Head;
    var (c, e) := Reference(s);
    if c >= 0x80 {
      StrtolBits(s[2..], 10);
      if |s| > 2 && s[2] == 'x' {
        StrtolBits(s[3..], 16);
      }
      EightBits(c);
      PayloadBytes(c, Utf.PayloadLength(c));
    }
  }

  // ----- the decoding loop -----

  method FindEntity(s: string) returns (k: nat)
    ensures k == EntityAt(s)
  {
    k := 0;
    while k < |ENTITIES| && !(ENTITIES[k].0 <= s)
      invariant k <= |ENTITIES|
      invariant forall j :: 0 <= j < k ==> !(ENTITIES[j].0 <= s)
    {
      k := k + 1;
    }
    assert ENTITIES[0].0 == "lt;" && ENTITIES[1].0 == "gt;" && ENTITIES[2].0 == "quot;";
    assert ENTITIES[3].0 == "apos;" && ENTITIES[4].0 == "amp;";
  }

  lemma Plain(s: string, t: Mode)
    requires s != "" && s[0] != '&' && !(t == Attribute && IsSpace(s[0]))
    ensures DecodeFrom(s, t) == [s[0]] + DecodeFrom(s[1..], t)
  {
  }

  /** The characters the decoding loop steps over. */
  method SkipPlain(s: string, from: nat, t: Mode) returns (i: nat)
    requires from <= |s|
    ensures from <= i <= |s| && (i < |s| ==> s[i] == '&' || IsSpace(s[i]))
    ensures s[..from] + DecodeFrom(s[from..], t) == s[..i] + DecodeFrom(s[i..], t)
    ensures Loose(s[i..]) <= Loose(s[from..])
  {
    hide DecodeFrom, Loose;
    i := from;
    while i < |s| && s[i] != '&' && !IsSpace(s[i])
      invariant from <= i <= |s|
      invariant s[..from] + DecodeFrom(s[from..], t) == s[..i] + DecodeFrom(s[i..], t)
      invariant Loose(s[i..]) <= Loose(s[from..])
    {
      Plain(s[i..], t);
      LooseSuffix(s[i..], 1);
      assert s[i..][1..] == s[i + 1..] && s[..i + 1] == s[..i] + [s[i]];
      assert s[..i] + ([s[i]] + DecodeFrom(s[i + 1..], t)) == s[..i + 1] + DecodeFrom(s[i + 1..], t);
      i := i + 1;
    }
  }

  ghost predicate Shrinks(rest: string, rest': string) {
    Loose(rest') < Loose(rest) || (Loose(rest') == Loose(rest) && |rest'| < |rest|)
  }

  lemma ReferenceStep(rest: string, t: Mode)
    requires t != Cdata && IsReference(rest)
    ensures var (c, e) := Reference(rest);
      DecodeFrom(rest, t) == RefBytes(c) + DecodeFrom(rest[e + 1..], t) && Shrinks(rest, rest[e + 1..])
  {
    hide Reference, RefBytes, Loose;
    LooseSuffix(rest, Reference(rest).1 + 1);
  }

  lemma EntityStep(rest: string, t: Mode)
    requires t != Cdata && IsEntity(rest)
    ensures DecodeFrom(rest, t) == DecodeFrom(Expanded(rest), t) && Shrinks(rest, Expanded(rest))
  {
    hide Expanded, EntityAt, Loose;
    LooseExpanded(rest);
  }

  lemma OtherCharStep(rest: string, t: Mode)
    requires rest != "" && (t == Cdata || (!IsReference(rest) && !IsEntity(rest)))
    ensures DecodeFrom(rest, t)
         == [if t == Attribute && IsSpace(rest[0]) then ' ' else rest[0]] + DecodeFrom(rest[1..], t)
    ensures Shrinks(rest, rest[1..])
  {
    hide IsReference, IsEntity, IsSpace, Loose;
    LooseSuffix(rest, 1);
  }

  /**
   * One turn of the decoding loop on the text from the cursor on: out is written and stepped over, and the text from
   * the cursor on becomes rest'.
   */
  method DecodeOne(rest: string, t: Mode) returns (out: string, rest': string)
    requires rest != ""
    ensures DecodeFrom(rest, t) == out + DecodeFrom(rest', t)
    ensures Shrinks(rest, rest')
  {
    hide DecodeFrom, Shrinks, Reference, RefBytes, EntityAt;
    if t != Cdata && "&#" <= rest {
      var (c, e) := Reference(rest);
      if c == 0 || !(e < |rest| && rest[e] == ';') {
        OtherCharStep(rest, t);
        out, rest' := rest[..1], rest[1..];
      } else {
        ReferenceStep(rest, t);
        out, rest' := RefBytes(c), rest[e + 1..];
      }
    } else if t != Cdata && rest[0] == '&' {
      var k := FindEntity(rest[1..]);
      if k < |ENTITIES| {
        EntityStep(rest, t);
        var (name, value) := ENTITIES[k];
        out, rest' := "", value + rest[1..][|name|..];
        assert "" + DecodeFrom(rest', t) == DecodeFrom(rest', t);
      } else {
        OtherCharStep(rest, t);
        out, rest' := rest[..1], rest[1..];
      }
    } else {
      OtherCharStep(rest, t);
      out, rest' := if t == Attribute && IsSpace(rest[0]) then " " else rest[..1], rest[1..];
    }
  }

  /** ezxml_decode with the default entities. */
  method Decode(text: string, t: Mode) returns (s: string, past: bool)
    ensures s == Decoded(text, t)
    ensures past <==> EndsInCr(text)
  {
    hide DecodeFrom, Loose, LineEnds, EndsInCr, Spliced;
    s, past := NormalizeLineEnds(text);
    ghost var all := s;
    var i := 0;
    assert s[..0] + DecodeFrom(s[0..], t) == DecodeFrom(all, t);
    while true
      invariant 0 <= i <= |s| && s[..i] + DecodeFrom(s[i..], t) == DecodeFrom(all, t)
      decreases Loose(s[i..]), |s| - i
    {
      i := SkipPlain(s, i, t);
      if i == |s| {
        DecodeNothing(t);
        assert s[..i] + "" == s;
        return;
      }
      var out, rest := DecodeOne(s[i..], t);
      AssocConcat(s[..i], out, DecodeFrom(rest, t));
      s, i := Spliced(s, i, out, rest), i + |out|;
    }
  }

  /** The buffer after out has been written at the cursor and the rest moved up to it. */
  function Spliced(s: string, i: nat, out: string, rest: string): (r: string)
    requires i <= |s|
    ensures i + |out| <= |r| && r[..i + |out|] == s[..i] + out && r[i + |out|..] == rest
  {
    s[..i] + out + rest
  }

  lemma AssocConcat(a: string, b: string, c: string)
    ensures a + (b + c) == (a + b) + c
  {
  }

  lemma DecodeNothing(t: Mode)
    ensures DecodeFrom("", t) == ""
  {
  }

  // ----- character references -----

  function DigitChar(d: nat): char
    requires d < 16
  {
    if d < 10 then '0' + d as char else 'A' + (d - 10) as char
  }

  /** A number in base 10 or 16. */
  function Numeral(c: nat, base: nat): (s: string)
    requires base == 10 || base == 16
    ensures s != "" && s[|s| - 1] == DigitChar(c % base)
    ensures c > 0 ==> s[0] != '0'
  {
    if c < base then [DigitChar(c)] else Numeral(c / base, base) + [DigitChar(c % base)]
  }

  lemma DigitIs(d: nat, base: nat)
    requires (base == 10 || base == 16) && d < base
    ensures IsDigit(DigitChar(d), base) && DigitOf(DigitChar(d)) == d
    ensures !IsSpace(DigitChar(d)) && DigitChar(d) != '+' && DigitChar(d) != '-'
  {
  }

  lemma {:induction false} NumeralDigits(c: nat, base: nat)
    requires base == 10 || base == 16
    ensures forall k :: 0 <= k < |Numeral(c, base)| ==> IsDigit(Numeral(c, base)[k], base)
    ensures !IsSpace(Numeral(c, base)[0]) && Numeral(c, base)[0] != '+' && Numeral(c, base)[0] != '-'
    ensures Value(Numeral(c, base), base) == c
  {
    hide IsDigit, DigitOf, IsSpace, DigitChar;
    var s := Numeral(c, base);
    DigitIs(c % base, base);
    if c < base {
      assert s[..|s| - 1] == "" && Value("", base) == 0;
      assert c % base == c;
    } else {
      NumeralDigits(c / base, base);
      assert s[..|s| - 1] == Numeral(c / base, base);
    }
  }

  lemma {:induction false} RunIs(s: string, rest: string, base: nat)
    requires forall k :: 0 <= k < |s| ==> IsDigit(s[k], base)
    requires rest == "" || !IsDigit(rest[0], base)
    ensures Run(s + rest, base) == |s|
    decreases s
  {
    if s == "" {
      assert s + rest == rest;
    } else {
      assert (s + rest)[1..] == s[1..] + rest;
      RunIs(s[1..], rest, base);
    }
  }

  /** Reading a numeral gives the number, and stops after it. */
  lemma StrtolReadsNumeral(c: nat, base: nat, rest: string)
    requires base == 10 || base == 16
    requires c > 0 && rest != "" && rest[0] == ';'
    ensures Strtol(Numeral(c, base) + rest, base) == (Clamp(c), |Numeral(c, base)|)
  {
    hide IsSpace, Numeral;
    NumeralDigits(c, base);
    var d := Numeral(c, base);
    var s := d + rest;
    assert s[0] == d[0] != '0';
    RunIs(d, rest, base);
    assert s[0..] == s && s[..|d|] == d;
  }

  /** A reference to a number, in decimal or in hexadecimal. */
  function CharRef(c: nat, base: nat): string
    requires base == 10 || base == 16
  {
    "&#" + (if base == 16 then "x" else "") + Numeral(c, base) + ";"
  }

  /** A character reference is replaced by its bytes, and what it stands for is not decoded again. */
  lemma CharRefDecodes(c: nat, base: nat, rest: string, t: Mode)
    requires base == 10 || base == 16
    requires 0 < c <= LONG_MAX && t != Cdata
    ensures DecodeFrom(CharRef(c, base) + rest, t) == RefBytes(c) + DecodeFrom(rest, t)
  {
    hide Strtol, Numeral, RefBytes, Loose;
    var s := CharRef(c, base) + rest;
    var d := Numeral(c, base);
    StrtolReadsNumeral(c, base, ";" + rest);
    NumeralDigits(c, base);
    if base == 16 {
      assert s[3..] == d + (";" + rest);
      assert s[|d| + 4..] == rest;
    } else {
      assert s[2..] == d + (";" + rest);
      assert s[|d| + 3..] == rest;
      assert IsDigit(s[2], 10) && s[2] != 'x';
    }
    assert IsReference(s);
  }

  /** A reference to a Unicode scalar value becomes its UTF-8 encoding. */
  lemma ScalarRefDecodes(c: nat, base: nat, rest: string, t: Mode)
    requires base == 10 || base == 16
    requires 0 < c && Utf.IsScalar(c) && t != Cdata
    ensures DecodeFrom(CharRef(c, base) + rest, t) == Chars(Utf.Utf8(c)) + DecodeFrom(rest, t)
  {
    hide DecodeFrom, CharRef, Utf.Utf8, Utf.MultiByte;
    CharRefDecodes(c, base, rest, t);
    Utf.CodeWritesUtf8(c);
    if c < 0x80 {
      assert Utf.CodeBytes(c) == [c];
      assert Chars([c]) == [c as char];
    }
  }

  // ----- every way to spell a number -----

  const LOWER := "0123456789abcdef"
  const UPPER := "0123456789ABCDEF"

  /** c is the digit for v, in either case. */
  predicate Stands(c: char, v: nat, base: nat) {
    v < base && v < 16 && (c == LOWER[v] || c == UPPER[v])
  }

  /** d spells the number with these digits, in either case and with any leading zeros. */
  predicate Spells(d: string, ls: seq<nat>, base: nat) {
    |d| == |ls| > 0 && forall k :: 0 <= k < |d| ==> Stands(d[k], ls[k], base)
  }

  function Positional(ls: seq<nat>, base: nat): nat {
    if ls == [] then 0 else Positional(ls[..|ls| - 1], base) * base + ls[|ls| - 1]
  }

  lemma DigitsAre(c: char, v: nat, base: nat)
    requires base == 10 || base == 16
    ensures Stands(c, v, base) <==> IsDigit(c, base) && DigitOf(c) == v
  {
  }

  lemma {:induction false} SpellingsAre(d: string, ls: seq<nat>, base: nat)
    requires (base == 10 || base == 16) && Spells(d, ls, base)
    ensures d != "" && (forall k :: 0 <= k < |d| ==> IsDigit(d[k], base)) && Value(d, base) == Positional(ls, base)
    decreases |d|
  {
    hide IsDigit, DigitOf, Stands;
    forall k | 0 <= k < |d| ensures IsDigit(d[k], base) && DigitOf(d[k]) == ls[k] {
      DigitsAre(d[k], ls[k], base);
    }
    var n := |d| - 1;
    if n > 0 {
      SpellingsAre(d[..n], ls[..n], base);
    } else {
      assert d[..n] == "" && ls[..n] == [];
    }
  }

  /** Reading any spelling of a number, after spaces, a sign and in base 16 the prefix of C, gives the number and stops
      after it. */
  lemma StrtolReads(w: string, sign: string, prefix: string, d: string, ls: seq<nat>, base: nat, rest: string)
    requires base == 10 || base == 16
    requires (forall c :: c in w ==> IsSpace(c)) && sign in {"", "+", "-"}
    requires prefix == "" || (base == 16 && prefix in {"0x", "0X"})
    requires Spells(d, ls, base) && (rest == "" || !exists l: nat :: Stands(rest[0], l, base))
    requires prefix == "" ==> !(base == 16 && d == "0" && |rest| > 1 && rest[0] in {'x', 'X'} && IsDigit(rest[1], 16))
    ensures Strtol(w + sign + prefix + d + rest, base)
         == (Signed(sign, Positional(ls, base)), |w| + |sign| + |prefix| + |d|)
  {
    hide IsSpace, IsDigit, Signed, Spells, Value, Run, Spaces, Strtol, Positional, Stands;
    SpellingsAre(d, ls, base);
    NoDigit(rest, base);
    StrtolParts(w, sign, prefix, d, rest, base);
    StrtolIs(w + sign + prefix + d + rest, |w|, sign, prefix + d + rest, |prefix|, d, base);
  }

  lemma StrtolParts(w: string, sign: string, prefix: string, d: string, rest: string, base: nat)
    requires base == 10 || base == 16
    requires (forall c :: c in w ==> IsSpace(c)) && sign in {"", "+", "-"}
    requires prefix == "" || (base == 16 && prefix in {"0x", "0X"})
    requires d != "" && (forall k :: 0 <= k < |d| ==> IsDigit(d[k], base)) && (rest == "" || !IsDigit(rest[0], base))
    requires prefix == "" ==> !(base == 16 && d == "0" && |rest| > 1 && rest[0] in {'x', 'X'} && IsDigit(rest[1], 16))
    ensures var s, more, g := w + sign + prefix + d + rest, prefix + d + rest, |w| + |sign|;
      && more != "" && more[0] !in {'+', '-'} && Spaces(s) == |w| < |s| && s[|w|] == (sign + more)[0]
      && g + |prefix| <= |s| && Run(s[g + |prefix|..], base) == |d| && s[g + |prefix|..][..|d|] == d
      && (base == 16 && g + 2 < |s| && s[g] == '0' && s[g + 1] in {'x', 'X'} && IsDigit(s[g + 2], base)
          <==> |prefix| == 2)
  {
    hide IsSpace, IsDigit, Run, Spaces;
    var tail := d + rest;
    var more := prefix + tail;
    var s := w + sign + prefix + d + rest;
    assert prefix + d + rest == more && s == w + sign + prefix + tail;
    Slices(w, sign, prefix, tail);
    FirstOfNumber(sign, prefix, d, rest, base);
    SpacesAre(w, sign + more);
    RunIs(d, rest, base);
    PrefixIs(s, |w| + |sign|, prefix, d, rest, base);
    assert tail[..|d|] == d;
  }

  /** The number with its sign, within the limits of a long. */
  function Signed(sign: string, v: int): int { Clamp(if sign == "-" then -v else v) }

  lemma Slices(w: string, sign: string, prefix: string, tail: string)
    ensures var s := w + sign + prefix + tail;
      && s == w + (sign + (prefix + tail)) && s[|w| + |sign|..] == prefix + tail
      && s[|w| + |sign| + |prefix|..] == tail
      && (sign + (prefix + tail) != "" ==> |w| < |s| && s[|w|] == (sign + (prefix + tail))[0])
  {
    var s := w + sign + prefix + tail;
    assert s == w + (sign + (prefix + tail));
    assert s == (w + sign) + (prefix + tail);
    assert s == (w + sign + prefix) + tail;
  }

  lemma StrtolIs(s: string, w: nat, sign: string, more: string, prefix: nat, d: string, base: nat)
    requires sign in {"", "+", "-"} && more != "" && more[0] !in {'+', '-'}
    requires Spaces(s) == w < |s| && s[w] == (sign + more)[0]
    requires var g := w + |sign|;
      && prefix in {0, 2} && g + prefix <= |s| && 0 < |d| == Run(s[g + prefix..], base) && s[g + prefix..][..|d|] == d
      && (base == 16 && g + 2 < |s| && s[g] == '0' && s[g + 1] in {'x', 'X'} && IsDigit(s[g + 2], base)
          <==> prefix == 2)
    ensures Strtol(s, base) == (Signed(sign, Value(d, base)), w + |sign| + prefix + |d|)
  {
    hide IsDigit, Clamp, Value, Run, Spaces;
    assert (sign + more)[0] == if sign == "" then more[0] else sign[0];
  }

  lemma NoDigit(rest: string, base: nat)
    requires base == 10 || base == 16
    requires rest == "" || !exists l: nat :: Stands(rest[0], l, base)
    ensures rest == "" || !IsDigit(rest[0], base)
  {
    if rest != "" && IsDigit(rest[0], base) {
      DigitsAre(rest[0], DigitOf(rest[0]), base);
    }
  }

  lemma FirstOfNumber(sign: string, prefix: string, d: string, rest: string, base: nat)
    requires (base == 10 || base == 16) && sign in {"", "+", "-"} && prefix in {"", "0x", "0X"}
    requires d != "" && IsDigit(d[0], base)
    ensures var s := sign + prefix + d + rest; s != "" && !IsSpace(s[0])
    ensures (prefix + d + rest)[0] !in {'+', '-'} && sign + (prefix + d + rest) == sign + prefix + d + rest
  {
    assert (prefix + d + rest)[0] == if prefix == "" then d[0] else prefix[0];
    assert sign != "" ==> (sign + prefix + d + rest)[0] == sign[0];
    assert sign == "" ==> sign + prefix + d + rest == prefix + d + rest;
    assert sign + (prefix + d + rest) == sign + prefix + d + rest;
  }

  lemma {:induction false} SpacesAre(w: string, s: string)
    requires (forall c :: c in w ==> IsSpace(c)) && s != "" && !IsSpace(s[0])
    ensures Spaces(w + s) == |w|
  {
    if w == "" {
      assert w + s == s;
    } else {
      assert (w + s)[1..] == w[1..] + s;
      SpacesAre(w[1..], s);
    }
  }

  /** The prefix is taken for one exactly when it is one. */
  lemma PrefixIs(s: string, g: nat, prefix: string, d: string, rest: string, base: nat)
    requires (base == 10 || base == 16) && g <= |s| && s[g..] == prefix + d + rest
    requires prefix == "" || (base == 16 && prefix in {"0x", "0X"})
    requires d != "" && forall k :: 0 <= k < |d| ==> IsDigit(d[k], base)
    requires rest == "" || !IsDigit(rest[0], base)
    requires prefix == "" ==> !(base == 16 && d == "0" && |rest| > 1 && rest[0] in {'x', 'X'} && IsDigit(rest[1], 16))
    ensures (base == 16 && g + 2 < |s| && s[g] == '0' && s[g + 1] in {'x', 'X'} && IsDigit(s[g + 2], base)) <==>
      prefix != ""
  {
    var t := prefix + d + rest;
    assert forall k :: 0 <= k < |t| ==> s[g + k] == s[g..][k];
    if prefix != "" {
      assert t[0] == '0' && t[1] == prefix[1] && t[2] == d[0];
    } else {
      assert t[0] == d[0];
      if |d| > 1 {
        assert t[1] == d[1];
      } else {
        assert |rest| > 0 ==> t[1] == rest[0];
        assert |rest| > 1 ==> t[2] == rest[1];
        assert d == [d[0]];
      }
    }
  }

  /** Every reference to a number other than 0 is decoded to the bytes of the number, however it is spelled: with spaces
      before it, a sign, and in hexadecimal the prefix of C too; beyond the limits of a long it is the limit. */
  lemma SignedRefDecodes(w: string, sign: string, prefix: string, d: string, ls: seq<nat>, base: nat, rest: string,
                         t: Mode)
    requires (base == 10 || base == 16) && t != Cdata
    requires (forall c :: c in w ==> IsSpace(c)) && sign in {"", "+", "-"}
    requires prefix == "" || (base == 16 && prefix in {"0x", "0X"})
    requires Spells(d, ls, base) && Positional(ls, base) != 0
    ensures var n: int := Positional(ls, base);
      var v := if sign == "-" then -n else n;
      DecodeFrom("&#" + (if base == 16 then "x" else "") + (w + sign + prefix + d) + ";" + rest, t)
      == RefBytes(if v > LONG_MAX then LONG_MAX else if v < -LONG_MAX - 1 then -LONG_MAX - 1 else v)
         + DecodeFrom(rest, t)
  {
    hide Strtol, Spells, Value, RefBytes, Loose, Stands, IsDigit, DigitOf, Positional, DecodeFrom;
    var n := w + sign + prefix + d;
    SemicolonStops(base);
    StrtolReads(w, sign, prefix, d, ls, base, ";" + rest);
    FirstOfSpelling(w, sign, prefix, d, ls, base);
    assert n + (";" + rest) == w + sign + prefix + d + (";" + rest);
    SpelledReference(n, base, rest);
    ReferenceStep("&#" + (if base == 16 then "x" else "") + n + ";" + rest, t);
  }

  lemma FirstOfSpelling(w: string, sign: string, prefix: string, d: string, ls: seq<nat>, base: nat)
    requires (base == 10 || base == 16) && (forall c :: c in w ==> IsSpace(c)) && sign in {"", "+", "-"}
    requires (prefix == "" || (base == 16 && prefix in {"0x", "0X"})) && Spells(d, ls, base)
    ensures var n := w + sign + prefix + d; n != "" && (base == 10 ==> n[0] != 'x')
  {
    var n := w + sign + prefix + d;
    if w != "" {
      assert n[0] == w[0] && w[0] in w;
    } else if sign != "" {
      assert n[0] == sign[0];
    } else if prefix != "" {
      assert n[0] == prefix[0];
    } else {
      assert n == d;
      if base == 10 {
        FirstDigit(d, ls);
      }
    }
  }

  lemma SpelledReference(n: string, base: nat, rest: string)
    requires (base == 10 || base == 16) && n != "" && (base == 10 ==> n[0] != 'x')
    requires var (c, e) := Strtol(n + (";" + rest), base); e == |n| && c != 0
    ensures var s := "&#" + (if base == 16 then "x" else "") + n + ";" + rest;
      IsReference(s) && Reference(s).0 == Strtol(n + (";" + rest), base).0 && s[Reference(s).1 + 1..] == rest
  {
    hide Strtol;
    var s := "&#" + (if base == 16 then "x" else "") + n + ";" + rest;
    if base == 16 {
      assert s[3..] == n + (";" + rest) && s[|n| + 4..] == rest;
    } else {
      assert s[2..] == n + (";" + rest) && s[|n| + 3..] == rest;
    }
  }

  /** A number that is 0, or is not followed by a semicolon, is no reference, and its ampersand stays. */
  lemma OtherNumberStays(d: string, ls: seq<nat>, base: nat, rest: string, t: Mode)
    requires (base == 10 || base == 16) && Spells(d, ls, base) && t != Cdata
    requires rest == "" || !exists l: nat :: Stands(rest[0], l, base)
    requires !(base == 16 && d == "0" && |rest| > 1 && rest[0] in {'x', 'X'} && IsDigit(rest[1], 16))
    requires Positional(ls, base) == 0 || rest == "" || rest[0] != ';'
    ensures var tail := (if base == 16 then "x" else "") + d + rest;
      DecodeFrom("&#" + tail, t) == "&" + DecodeFrom("#" + tail, t)
  {
    hide Strtol, Spells, Value, RefBytes, Loose, Stands, IsDigit, DigitOf, Positional, DecodeFrom;
    var tail := (if base == 16 then "x" else "") + d + rest;
    var s := "&#" + tail;
    StrtolReads("", "", "", d, ls, base, rest);
    assert "" + "" + "" + d + rest == d + rest;
    SpellingsAre(d, ls, base);
    assert s[1..] == "#" + tail;
    if base == 16 {
      assert s[3..] == d + rest && (Reference(s).1 < |s| ==> s[Reference(s).1] == rest[0]);
    } else {
      FirstDigit(d, ls);
      assert s[2..] == d + rest && s[2] == d[0];
      assert Reference(s).1 < |s| ==> s[Reference(s).1] == rest[0];
    }
    assert Signed("", 0) == 0;
    assert !IsReference(s);
    assert "&#" <= s;
    OtherCharStep(s, t);
    assert !IsSpace('&');
  }

  /** An ampersand that begins neither a reference nor the name of a default entity stays. */
  lemma OtherAmpersandStays(rest: string, t: Mode)
    requires !("#" <= rest) && t != Cdata
    requires !("lt;" <= rest) && !("gt;" <= rest) && !("quot;" <= rest) && !("apos;" <= rest) && !("amp;" <= rest)
    ensures DecodeFrom("&" + rest, t) == "&" + DecodeFrom(rest, t)
  {
    hide DecodeFrom;
    var s := "&" + rest;
    assert s[1..] == rest;
    assert rest != "" ==> rest[..1] == [rest[0]] && s[1] == rest[0];
    OtherCharStep(s, t);
  }

  /** White space becomes a space in an attribute; every other character stays, and in cdata all do. */
  lemma OtherCharsStay(c: char, rest: string, t: Mode)
    requires t == Cdata || c != '&'
    ensures DecodeFrom([c] + rest, t)
         == [if t == Attribute && c in {' ', '\t', '\n', '\r', VT, FF} then ' ' else c] + DecodeFrom(rest, t)
  {
    hide DecodeFrom;
    var s := [c] + rest;
    assert s[1..] == rest;
    if c != '&' {
      NotAnAmpersand(s);
    }
    OtherCharStep(s, t);
  }

  lemma SemicolonStops(base: nat)
    requires base == 10 || base == 16
    ensures !exists l: nat :: Stands(';', l, base)
  {
  }

  lemma FirstDigit(d: string, ls: seq<nat>)
    requires Spells(d, ls, 10)
    ensures d[0] != 'x'
  {
    assert Stands(d[0], ls[0], 10);
  }

  // ----- decoding undoes encoding -----

  /** The attribute normalization of section 3.3.3 of XML 1.0, on the two white-space characters XML does not have. */
  function Softened(s: string): string {
    if s == "" then "" else [if s[0] == VT || s[0] == FF then ' ' else s[0]] + Softened(s[1..])
  }

  /** The default entities stand for the characters they name, which are not decoded again. */
  lemma EntityDecodes(k: nat, rest: string, t: Mode)
    requires k < |ENTITIES| && t != Cdata
    ensures DecodeFrom("&" + ENTITIES[k].0 + rest, t) == ["<>\"'&"[k]] + DecodeFrom(rest, t)
  {
    hide DecodeFrom, IsReference, RefBytes;
    var (name, value) := ENTITIES[k];
    var s := "&" + name + rest;
    assert s[1..] == name + rest && (name + rest)[|name|..] == rest;
    assert (name + rest)[0] == name[0] && (name + rest)[1] == name[1];
    assert EntityAt(s[1..]) == k;
    EntityStep(s, t);
    assert Expanded(s) == value + rest;
    var c := "<>\"'&"[k] as nat;
    TwoDigits(c);
    assert value == CharRef(c, 10);
    CharRefDecodes(c, 10, rest, t);
    assert RefBytes(c) == [c as char] by {
      AsciiBytes(c);
    }
  }

  lemma TwoDigits(c: nat)
    requires 10 <= c < 100
    ensures Numeral(c, 10) == ['0' + (c / 10) as char, '0' + (c % 10) as char]
  {
    assert Numeral(c / 10, 10) == [DigitChar(c / 10)];
  }

  lemma AsciiBytes(c: nat)
    requires c < 0x80
    ensures RefBytes(c) == [c as char]
  {
  }

  /** Decoding undoes the encoding of a character, whatever follows. */
  lemma PieceDecodes(c: char, a: bool, rest: string)
    ensures DecodeFrom(EncodeChar(c, a) + rest, if a then Attribute else Text)
         == [if a && (c == VT || c == FF) then ' ' else c] + DecodeFrom(rest, if a then Attribute else Text)
  {
    hide DecodeFrom, IsReference, RefBytes, CharRef, IsEntity;
    var t := if a then Attribute else Text;
    var s := EncodeChar(c, a) + rest;
    if c == '&' {
      assert EncodeChar(c, a) == "&" + ENTITIES[4].0;
      EntityDecodes(4, rest, t);
    } else if c == '<' {
      assert EncodeChar(c, a) == "&" + ENTITIES[0].0;
      EntityDecodes(0, rest, t);
    } else if c == '>' {
      assert EncodeChar(c, a) == "&" + ENTITIES[1].0;
      EntityDecodes(1, rest, t);
    } else if a && c == '"' {
      assert EncodeChar(c, a) == "&" + ENTITIES[2].0;
      EntityDecodes(2, rest, t);
    } else if c == '\r' || (a && (c == '\n' || c == '\t')) {
      ControlRef(c);
      CharRefDecodes(c as nat, 16, rest, t);
      AsciiBytes(c as nat);
    } else {
      assert s[0] == c && s[1..] == rest;
      NotAnAmpersand(s);
      OtherCharStep(s, t);
    }
  }

  lemma NotAnAmpersand(s: string)
    requires s != "" && s[0] != '&'
    ensures !IsReference(s) && !IsEntity(s)
  {
  }

  lemma ControlRef(c: char)
    requires c == '\r' || c == '\n' || c == '\t'
    ensures EncodeChar(c, true) == CharRef(c as nat, 16) && EncodeChar('\r', false) == CharRef('\r' as nat, 16)
  {
    assert Numeral(13, 16) == "D" && Numeral(10, 16) == "A" && Numeral(9, 16) == "9";
  }

  /** Encoded text has no carriage return and no '<' or '>', and in an attribute no quotation mark, line feed or tab. */
  lemma {:induction false} EncodedIsSafe(s: string, a: bool)
    ensures '\r' !in Encode(s, a) && '<' !in Encode(s, a) && '>' !in Encode(s, a) && NUL !in Encode(s, a)
    ensures a ==> '"' !in Encode(s, a) && '\n' !in Encode(s, a) && '\t' !in Encode(s, a)
  {
    hide EncodeChar;
    if s != "" && s[0] != NUL {
      EncodedIsSafe(s[1..], a);
      PieceIsSafe(s[0], a);
    }
  }

  lemma PieceIsSafe(c: char, a: bool)
    ensures '\r' !in EncodeChar(c, a) && '<' !in EncodeChar(c, a) && '>' !in EncodeChar(c, a)
    ensures c != NUL ==> NUL !in EncodeChar(c, a)
    ensures a ==> '"' !in EncodeChar(c, a) && '\n' !in EncodeChar(c, a) && '\t' !in EncodeChar(c, a)
  {
  }

  lemma {:induction false} NoCrToNormalize(s: string)
    requires '\r' !in s
    ensures LineEnds(s) == s && !EndsInCr(s)
  {
    if s != "" {
      NoCrToNormalize(s[1..]);
    }
  }

  lemma {:induction false} EncodingDecodes(s: string, a: bool)
    ensures DecodeFrom(Encode(s, a), if a then Attribute else Text)
         == if a then Softened(CString(s)) else CString(s)
  {
    hide DecodeFrom, EncodeChar;
    if s == "" || s[0] == NUL {
      DecodeNothing(if a then Attribute else Text);
    } else {
      EncodingDecodes(s[1..], a);
      PieceDecodes(s[0], a, Encode(s[1..], a));
      assert CString(s)[1..] == CString(s[1..]);
    }
  }

  /** Decoding the text encoding of a string gives the string back. */
  lemma TextRoundTrip(s: string)
    ensures Decoded(Encode(s, false), Text) == CString(s)
    ensures Decoded(Encode(s, false), Text) == s <==> NUL !in s
  {
    hide DecodeFrom, LineEnds, Encode;
    EncodedIsSafe(s, false);
    NoCrToNormalize(Encode(s, false));
    EncodingDecodes(s, false);
    CStringIs(s);
  }

  lemma {:induction false} CStringIs(s: string)
    ensures CString(s) == s <==> NUL !in s
    ensures NUL !in CString(s)
  {
    if s != "" {
      CStringIs(s[1..]);
      assert s == [s[0]] + s[1..];
    }
  }

  /** For an attribute that holds exactly when no vertical tab and no form feed has to survive. */
  lemma AttributeRoundTrip(s: string)
    ensures Decoded(Encode(s, true), Attribute) == CString(s) <==> VT !in CString(s) && FF !in CString(s)
    ensures Decoded(Encode(s, true), Attribute) == s <==> NUL !in s && VT !in s && FF !in s
  {
    hide DecodeFrom, LineEnds, Encode;
    EncodedIsSafe(s, true);
    NoCrToNormalize(Encode(s, true));
    EncodingDecodes(s, true);
    CStringIs(s);
    SoftenedIs(CString(s));
    SoftenedKeepsNul(CString(s));
  }

  /** A vertical tab comes back as a space. */
  lemma VerticalTabIsLost()
    ensures Decoded(Encode([VT], true), Attribute) == " "
  {
    hide DecodeFrom, LineEnds, Encode;
    EncodedIsSafe([VT], true);
    NoCrToNormalize(Encode([VT], true));
    EncodingDecodes([VT], true);
    assert CString([VT]) == [VT] && Softened([VT]) == " ";
  }

  lemma {:induction false} SoftenedIs(s: string)
    ensures |Softened(s)| == |s|
    ensures Softened(s) == s <==> VT !in s && FF !in s
  {
    if s != "" {
      SoftenedIs(s[1..]);
      assert s == [s[0]] + s[1..] && Softened(s)[1..] == Softened(s[1..]);
    }
  }

  lemma {:induction false} SoftenedKeepsNul(s: string)
    ensures NUL in Softened(s) <==> NUL in s
    ensures VT !in Softened(s) && FF !in Softened(s)
  {
    if s != "" {
      SoftenedKeepsNul(s[1..]);
    }
  }
}
