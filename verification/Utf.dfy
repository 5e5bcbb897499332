/** UTF-8 output of ezxml, and the conversion of UTF-16 input to it (src/external/ezxml/ezxml.c). */
module Utf {
  import opened Basics

  const BUFSIZE: nat := 1024

  // ----- bit operations of C on non-negative numbers -----

  function Pow2(k: nat): (p: nat)
    ensures p > 0
  {
    if k == 0 then 1 else 2 * Pow2(k - 1)
  }

  function Or(x: nat, y: nat): nat {
    if x == 0 && y == 0 then 0
    else 2 * Or(x / 2, y / 2) + if x % 2 == 1 || y % 2 == 1 then 1 else 0
  }

  function And(x: nat, y: nat): nat {
    if x == 0 || y == 0 then 0
    else 2 * And(x / 2, y / 2) + if x % 2 == 1 && y % 2 == 1 then 1 else 0
  }

  function Shl(x: nat, k: nat): nat { x * Pow2(k) }

  function Shr(x: nat, k: nat): nat {
    if k == 0 then x else Shr(x / 2, k - 1)
  }

  /** Bits that do not overlap add up. */
  lemma {:induction false} OrAdds(k: nat, x: nat, y: nat)
    requires y < Pow2(k)
    ensures Or(x * Pow2(k), y) == x * Pow2(k) + y
  {
    if k == 0 {
      OrZero(x);
    } else {
      var z := x * Pow2(k);
      assert z == 2 * (x * Pow2(k - 1));
      OrAdds(k - 1, x, y / 2);
    }
  }

  lemma {:induction false} OrZero(x: nat)
    ensures Or(x, 0) == x
  {
    if x > 0 {
      OrZero(x / 2);
    }
  }

  /** Masking with k ones is the remainder. */
  lemma {:induction false} AndOnes(k: nat, x: nat)
    ensures And(x, Pow2(k) - 1) == x % Pow2(k)
  {
    if k > 0 {
      var m := Pow2(k - 1);
      assert (Pow2(k) - 1) / 2 == m - 1 && (Pow2(k) - 1) % 2 == 1;
      AndOnes(k - 1, x / 2);
      HalfRemainder(x, m);
    }
  }

  lemma HalfRemainder(x: nat, m: nat)
    requires m > 0
    ensures x % (2 * m) == 2 * (x / 2 % m) + x % 2
  {
    var q, r := x / 2 / m, x / 2 % m;
    assert x / 2 == q * m + r;
    assert x == q * (2 * m) + (2 * r + x % 2);
    RemainderIs(x, 2 * m, q, 2 * r + x % 2);
  }

  lemma RemainderIs(x: nat, d: nat, q: nat, r: nat)
    requires d > 0 && x == q * d + r && r < d
    ensures x % d == r
  {
    var q', r' := x / d, x % d;
    assert x == q' * d + r';
    if q' < q {
      ProductRow(q', q, d);
    } else if q < q' {
      ProductRow(q, q', d);
    }
  }

  lemma Masks(x: nat)
    ensures And(x, 0x3F) == x % 0x40 && And(x, 0x3FF) == x % 0x400
  {
    hide And;
    Powers();
    AndOnes(6, x);
    AndOnes(10, x);
  }

  lemma Shr6(x: nat)
    ensures Shr(x, 6) == x / 0x40
  {
    assert Shr(x, 1) == x / 2;
    ShrAdd(x, 1, 1);
    assert Shr(x / 2, 1) == x / 4 && Shr(x / 4, 1) == x / 8 && Shr(x / 8, 1) == x / 16;
    assert Shr(x / 16, 1) == x / 32 && Shr(x / 32, 1) == x / 64;
    ShrAdd(x, 2, 1);
    ShrAdd(x, 3, 1);
    ShrAdd(x, 4, 1);
    ShrAdd(x, 5, 1);
  }

  lemma {:induction false} ShrAdd(x: nat, j: nat, k: nat)
    ensures Shr(x, j + k) == Shr(Shr(x, j), k)
  {
    if j > 0 {
      ShrAdd(x / 2, j - 1, k);
    }
  }

  lemma ShrBySixes(c: nat)
    ensures Shr(c, 0) == c && Shr(c, 6) == c / 0x40 && Shr(c, 12) == c / 0x1000 && Shr(c, 18) == c / 0x4_0000
  {
    Shr6(c);
    ShrAdd(c, 6, 6);
    Shr6(c / 0x40);
    ShrAdd(c, 12, 6);
    Shr6(c / 0x1000);
  }

  // ----- one character -----

  /** The number of significant bits. */
  function Bits(d: nat): nat {
    if d == 0 then 0 else 1 + Bits(d / 2)
  }

  lemma {:induction false} BitsAre(c: nat, k: nat)
    requires Pow2(k) <= c < Pow2(k + 1)
    ensures Bits(c) == k + 1
  {
    if k > 0 {
      BitsAre(c / 2, k - 1);
    } else {
      assert c == 1;
    }
  }

  lemma {:induction false} BitsMonotone(c: nat, d: nat)
    requires c <= d
    ensures Bits(c) <= Bits(d)
    decreases d
  {
    if c > 0 {
      BitsMonotone(c / 2, d / 2);
    }
  }

  /** The number of bytes that follow the head byte, as the code computes it. */
  function PayloadLength(c: nat): int { (Bits(c) - 2) / 5 }

  function Head(c: nat, b: nat): nat {
    Or(Shl(0xFF, if b <= 7 then 7 - b else 0), Shr(c, 6 * b)) % 256
  }

  function Payload(c: nat, b: nat): seq<nat>
    decreases b
  {
    if b == 0 then [] else [Or(0x80, And(Shr(c, 6 * (b - 1)), 0x3F)) % 256] + Payload(c, b - 1)
  }

  /** The bytes the code writes for a character of at least 0x80. */
  function MultiByte(c: nat): seq<nat>
    requires c >= 0x80
  {
    BitsMonotone(0x80, c);
    [Head(c, PayloadLength(c))] + Payload(c, PayloadLength(c))
  }

  function CodeBytes(c: nat): seq<nat> {
    if c < 0x80 then [c] else MultiByte(c)
  }

  /** Section 3 of RFC 3629. */
  function Utf8(c: nat): (u: seq<nat>)
    requires c < 0x110000
    ensures 1 <= |u| <= 4
  {
    if c < 0x80 then [c]
    else if c < 0x800 then [0xC0 + c / 0x40, 0x80 + c % 0x40]
    else if c < 0x10000 then [0xE0 + c / 0x1000, 0x80 + c / 0x40 % 0x40, 0x80 + c % 0x40]
    else [0xF0 + c / 0x40000, 0x80 + c / 0x1000 % 0x40, 0x80 + c / 0x40 % 0x40, 0x80 + c % 0x40]
  }

  lemma Powers()
    ensures Pow2(3) == 8 && Pow2(4) == 16 && Pow2(5) == 32 && Pow2(6) == 0x40 && Pow2(7) == 0x80
    ensures Pow2(10) == 0x400 && Pow2(11) == 0x800 && Pow2(12) == 0x1000 && Pow2(16) == 0x1_0000
    ensures Pow2(18) == 0x4_0000 && Pow2(21) == 0x20_0000
  {
    assert Pow2(10) == 8 * Pow2(7);
    assert Pow2(13) == 8 * Pow2(10) && Pow2(16) == 8 * Pow2(13) && Pow2(19) == 8 * Pow2(16);
  }

  /** The payload formula is right on every range of UTF-8. */
  lemma PayloadLengthIs(c: nat)
    requires 0x80 <= c < 0x110000
    ensures PayloadLength(c) == if c < 0x800 then 1 else if c < 0x10000 then 2 else 3
  {
    Powers();
    var lo, hi := if c < 0x800 then 0x80 else if c < 0x10000 then 0x800 else 0x10000,
                  if c < 0x800 then 0x7FF else if c < 0x10000 then 0xFFFF else 0x1F_FFFF;
    BitsMonotone(lo, c);
    BitsMonotone(c, hi);
    BitsAre(0x80, 7);
    BitsAre(0x7FF, 10);
    BitsAre(0x800, 11);
    BitsAre(0xFFFF, 15);
    BitsAre(0x10000, 16);
    BitsAre(0x1F_FFFF, 20);
  }

  /** A payload byte carries six bits. */
  lemma PayloadByte(y: nat)
    ensures Or(0x80, And(y, 0x3F)) % 256 == 0x80 + y % 0x40
  {
    hide And, Or;
    Powers();
    Masks(y);
    OrAdds(6, 2, y % 0x40);
  }

  /** The head byte carries the length and the remaining bits. */
  lemma HeadByte(top: nat)
    ensures top < 0x20 ==> Or(Shl(0xFF, 6), top) % 256 == 0xC0 + top
    ensures top < 0x10 ==> Or(Shl(0xFF, 5), top) % 256 == 0xE0 + top
    ensures top < 8 ==> Or(Shl(0xFF, 4), top) % 256 == 0xF0 + top
  {
    hide Or;
    Powers();
    if top < 0x20 {
      OrAdds(5, 0x1FE, top);
    }
    if top < 0x10 {
      OrAdds(4, 0x1FE, top);
    }
    if top < 8 {
      OrAdds(3, 0x1FE, top);
    }
  }

  /** For every character that UTF-8 can encode, the code writes its encoding. */
  lemma CodeWritesUtf8(c: nat)
    requires c < 0x110000
    ensures CodeBytes(c) == Utf8(c)
  {
    hide Or, And, Shl, Shr, Bits, Pow2;
    if c >= 0x80 {
      PayloadLengthIs(c);
      ShrBySixes(c);
      PayloadByte(c);
      PayloadByte(c / 0x40);
      PayloadByte(c / 0x1000);
      PayloadIs(c);
      HeadByte(if c < 0x800 then c / 0x40 else if c < 0x10000 then c / 0x1000 else c / 0x4_0000);
    }
  }

  lemma PayloadIs(c: nat)
    ensures Payload(c, 1) == [Or(0x80, And(Shr(c, 0), 0x3F)) % 256]
    ensures Payload(c, 2) == [Or(0x80, And(Shr(c, 6), 0x3F)) % 256, Or(0x80, And(Shr(c, 0), 0x3F)) % 256]
    ensures Payload(c, 3) == [Or(0x80, And(Shr(c, 12), 0x3F)) % 256, Or(0x80, And(Shr(c, 6), 0x3F)) % 256,
                              Or(0x80, And(Shr(c, 0), 0x3F)) % 256]
  {
    hide Or, And, Shr;
    assert Payload(c, 0) == [];
    assert Payload(c, 1) == [Or(0x80, And(Shr(c, 0), 0x3F)) % 256] + Payload(c, 0);
    assert Payload(c, 2) == [Or(0x80, And(Shr(c, 6), 0x3F)) % 256] + Payload(c, 1);
  }

  lemma {:induction false} ShrIs(c: nat, k: nat)
    ensures Shr(c, k) == c / Pow2(k)
  {
    if k > 0 {
      ShrIs(c / 2, k - 1);
      HalfQuotient(c, Pow2(k - 1));
    }
  }

  lemma HalfQuotient(x: nat, m: nat)
    requires m > 0
    ensures x / 2 / m == x / (2 * m)
  {
    HalfRemainder(x, m);
    var q, q' := x / 2 / m, x / (2 * m);
    assert x / 2 == q * m + x / 2 % m;
    assert x == q' * (2 * m) + x % (2 * m);
    assert q * m == q' * m;
    ProductOnce(q, q', m);
  }

  lemma ProductOnce(a: nat, b: nat, m: nat)
    requires m > 0 && a * m == b * m
    ensures a == b
  {
    if a < b {
      ProductRow(a, b, m);
    } else if b < a {
      ProductRow(b, a, m);
    }
  }

  lemma {:induction false} PayloadAt(c: nat, b: nat, i: nat)
    ensures |Payload(c, b)| == b
    ensures i < b ==> Payload(c, b)[i] == 0x80 + c / Pow2(6 * (b - 1 - i)) % 0x40
  {
    hide Or, And, Shr;
    if b > 0 {
      PayloadAt(c, b - 1, if i > 0 then i - 1 else 0);
      ShrIs(c, 6 * (b - 1));
      PayloadByte(Shr(c, 6 * (b - 1)));
    }
  }

  lemma {:induction false} BitsBound(c: nat)
    requires c > 0
    ensures Bits(c) > 0 && Pow2(Bits(c) - 1) <= c < Pow2(Bits(c))
  {
    if c > 1 {
      BitsBound(c / 2);
    }
  }

  lemma {:induction false} PowersGrow(j: nat, k: nat)
    requires j <= k
    ensures Pow2(j) <= Pow2(k)
    decreases k
  {
    if j < k {
      PowersGrow(j, k - 1);
    }
  }

  /** Any number of at least 0x80, also behind the range of UTF-8, is written as a head and b bytes that carry six bits
      each; b is least so that head and payload have room for its bits, and the head begins with b + 1 ones if it
      can. */
  lemma AnyCharacter(c: nat)
    requires c >= 0x80
    ensures var b, u := PayloadLength(c), CodeBytes(c);
      && b > 0 && Pow2(5 * b + 1) <= c < Pow2(5 * b + 6) && |u| == b + 1
      && (forall i :: 1 <= i <= b ==> u[i] == 0x80 + c / Pow2(6 * (b - i)) % 0x40)
      && (b <= 6 ==> u[0] == 0x100 - Pow2(7 - b) + c / Pow2(6 * b))
  {
    hide Or, And, Shr, Shl, Bits, Pow2;
    PayloadBits(c);
    var b := PayloadLength(c);
    PayloadAt(c, b, 0);
    forall i | 1 <= i <= b
      ensures CodeBytes(c)[i] == 0x80 + c / Pow2(6 * (b - i)) % 0x40
    {
      PayloadAt(c, b, i - 1);
    }
    if b <= 6 {
      HeadIs(c, b);
    }
  }

  lemma AreAllBytes(c: nat)
    requires c >= 0x80
    ensures forall i :: 0 <= i < |CodeBytes(c)| ==> CodeBytes(c)[i] < 0x100
  {
    hide Pow2, Bits;
    AnyCharacter(c);
    assert CodeBytes(c)[0] == Head(c, PayloadLength(c));
  }

  lemma PayloadBits(c: nat)
    requires c >= 0x80
    ensures var b := PayloadLength(c); b > 0 && Pow2(5 * b + 1) <= c < Pow2(5 * b + 6)
  {
    BitsAre(0x80, 7) by {
      Powers();
    }
    hide Pow2;
    BitsMonotone(0x80, c);
    BitsBound(c);
    var b := PayloadLength(c);
    PowersGrow(5 * b + 1, Bits(c) - 1);
    PowersGrow(Bits(c), 5 * b + 6);
  }

  lemma HeadIs(c: nat, b: nat)
    requires 1 <= b <= 6 && c < Pow2(5 * b + 6)
    ensures Head(c, b) == 0x100 - Pow2(7 - b) + c / Pow2(6 * b)
  {
    hide Or, Shr, Pow2;
    ShrIs(c, 6 * b);
    PowAdds(6 * b, 6 - b);
    QuotientBelow(c, Pow2(6 * b), Pow2(6 - b));
    HeadOnes(b);
    OrAdds(7 - b, 0xFF, c / Pow2(6 * b));
    ByteSum(0xFF * Pow2(7 - b), c / Pow2(6 * b));
  }

  lemma ByteSum(x: nat, y: nat)
    requires x % 0x100 + y < 0x100
    ensures (x + y) % 0x100 == x % 0x100 + y
  {
  }

  lemma HeadOnes(b: nat)
    requires 1 <= b <= 6
    ensures var p := Pow2(7 - b); 2 * Pow2(6 - b) == p && p <= 0x40 && 0xFF * p % 0x100 == 0x100 - p
  {
    Powers();
    assert Pow2(0) == 1 && Pow2(1) == 2 && Pow2(2) == 4;
    var p := Pow2(7 - b);
    assert p in {2, 4, 8, 16, 32, 64};
  }

  lemma {:induction false} PowAdds(j: nat, k: nat)
    ensures Pow2(j + k) == Pow2(j) * Pow2(k)
  {
    if k > 0 {
      PowAdds(j, k - 1);
      assert Pow2(j + k) == 2 * Pow2(j + (k - 1));
      assert Pow2(j) * (2 * Pow2(k - 1)) == 2 * (Pow2(j) * Pow2(k - 1));
    }
  }

  lemma QuotientBelow(x: nat, m: nat, n: nat)
    requires m > 0 && x < m * n
    ensures x / m < n
  {
    assert x == x / m * m + x % m;
    if x / m >= n {
      ProductGrows(n, x / m, m);
    }
  }

  // ----- UTF-16 -----

  ghost predicate AreBytes(s: seq<nat>) {
    forall i :: 0 <= i < |s| ==> s[i] < 0x100
  }

  /** The 16-bit unit in two bytes of either order. */
  function Unit(a: nat, b: nat, be: bool): nat {
    if be then Or(Shl(a, 8), b) else Or(Shl(b, 8), a)
  }

  function Joined(c: nat, d: nat): nat {
    Or(Shl(And(c, 0x3FF), 10), And(d, 0x3FF)) + 0x10000
  }

  lemma UnitIs(a: nat, b: nat, be: bool)
    requires a < 0x100 && b < 0x100
    ensures Unit(a, b, be) == if be then a * 0x100 + b else b * 0x100 + a
  {
    Powers();
    assert Pow2(8) == 0x100;
    OrAdds(8, a, b);
    OrAdds(8, b, a);
  }

  lemma JoinedIs(c: nat, d: nat)
    ensures Joined(c, d) == c % 0x400 * 0x400 + d % 0x400 + 0x10000 < 0x110000
  {
    Powers();
    Masks(c);
    Masks(d);
    OrAdds(10, c % 0x400, d % 0x400);
  }

  lemma CharacterFits(a: nat, b: nat, be: bool, d: nat)
    requires a < 0x100 && b < 0x100
    ensures Unit(a, b, be) < 0x10000 && Joined(Unit(a, b, be), d) < 0x110000
  {
    UnitIs(a, b, be);
    JoinedIs(Unit(a, b, be), d);
  }

  /** What the code writes for the rest of the input. */
  function FromUtf16(rest: seq<nat>, be: bool): seq<nat> {
    if |rest| < 2 then []
    else
      var c := Unit(rest[0], rest[1], be);
      if 0xD800 <= c <= 0xDFFF && |rest| >= 4 then
        CodeBytes(Joined(c, Unit(rest[2], rest[3], be))) + FromUtf16(rest[4..], be)
      else if 0xD800 <= c <= 0xDFFF then CodeBytes(c)
      else CodeBytes(c) + FromUtf16(rest[2..], be)
  }

  method CountBits(c: nat) returns (b: nat)
    ensures b == Bits(c)
  {
    b := 0;
    var d := c;
    while d != 0
      invariant b + Bits(d) == Bits(c)
    {
      d := d / 2;
      b := b + 1;
    }
  }

  /** The bytes of a character of at least 0x80: a head, then b bytes counted down to none. */
  method AppendMultiByte(u: seq<nat>, c: nat) returns (u': seq<nat>)
    requires 0x80 <= c < 0x110000
    ensures u' == u + MultiByte(c)
  {
    hide Or, And, Shl, Shr, Pow2, Bits;
    var b := CountBits(c);
    PayloadLengthIs(c);
    b := (b - 2) / 5;
    u' := u + [Or(Shl(0xFF, 7 - b), Shr(c, 6 * b)) % 256];
    while b != 0
      invariant 0 <= b <= 3 && u' + Payload(c, b) == u + MultiByte(c)
      decreases b
    {
      ghost var rest := Payload(c, b - 1);
      ghost var before := u';
      b := b - 1;
      u' := u' + [Or(0x80, And(Shr(c, 6 * b), 0x3F)) % 256];
      assert u' + rest == before + ([Or(0x80, And(Shr(c, 6 * b), 0x3F)) % 256] + rest);
    }
    assert u' + [] == u';
  }

  /** Room for the bytes is made before they are written, and is always enough. */
  method AppendChar(u: seq<nat>, max: nat, c: nat) returns (u': seq<nat>, max': nat)
    requires c < 0x110000 && |u| <= max
    ensures u' == u + CodeBytes(c) && |u'| <= max'
  {
    hide MultiByte, Utf8;
    max' := max;
    while |u| + 6 > max'
      decreases |u| + 6 - max'
    {
      max' := max' + BUFSIZE;
    }
    CodeWritesUtf8(c);
    if c < 0x80 {
      u' := u + [c];
    } else {
      u' := AppendMultiByte(u, c);
    }
  }

  /** What is still to be written when the cursor is at sl. */
  ghost function From(s: seq<nat>, sl: nat, be: bool): seq<nat> {
    if sl < |s| then FromUtf16(s[sl..], be) else []
  }

  /** ezxml_str2utf8: what does not start with a byte-order mark is left alone. */
  method Str2Utf8(s: seq<nat>) returns (converted: bool, u: seq<nat>)
    requires s != [] && AreBytes(s)
    ensures converted <==> s[0] == 0xFE || s[0] == 0xFF
    ensures converted ==> u == if |s| < 2 then [] else FromUtf16(s[2..], s[0] == 0xFE)
  {
    hide FromUtf16, CodeBytes, Or, And, Shl, Unit, From, Pow2;
    u := [];
    if s[0] != 0xFE && s[0] != 0xFF {
      return false, u;
    }
    converted := true;
    var be := s[0] == 0xFE;
    var max, sl := |s|, 2;
    FromIs(s, be);
    while sl < |s| - 1
      invariant 2 <= sl && |u| <= max
      invariant u + From(s, sl, be) == From(s, 2, be)
    {
      FromStep(s, sl, be);
      ghost var before, at := u, sl;
      var c := Unit(s[sl], s[sl + 1], be);
      CharacterFits(s[sl], s[sl + 1], be, 0);
      if 0xD800 <= c <= 0xDFFF {
        sl := sl + 2;
        if sl < |s| - 1 {
          var d := Unit(s[sl], s[sl + 1], be);
          CharacterFits(s[at], s[at + 1], be, d);
          c := Or(Shl(And(c, 0x3FF), 10), And(d, 0x3FF)) + 0x10000;
        }
      }
      u, max := AppendChar(u, max, c);
      sl := sl + 2;
      assert before + (CodeBytes(c) + From(s, sl, be)) == u + From(s, sl, be);
    }
    FromEnd(s, sl, be);
  }

  lemma FromIs(s: seq<nat>, be: bool)
    requires s != []
    ensures From(s, 2, be) == if |s| < 2 then [] else FromUtf16(s[2..], be)
  {
  }

  lemma FromEnd(s: seq<nat>, sl: nat, be: bool)
    requires sl + 1 >= |s|
    ensures From(s, sl, be) == []
  {
  }

  lemma FromStep(s: seq<nat>, sl: nat, be: bool)
    requires sl + 1 < |s|
    ensures
      var c := Unit(s[sl], s[sl + 1], be);
      var pair := 0xD800 <= c <= 0xDFFF && sl + 3 < |s|;
      From(s, sl, be) == CodeBytes(if pair then Joined(c, Unit(s[sl + 2], s[sl + 3], be)) else c)
        + From(s, if 0xD800 <= c <= 0xDFFF then sl + 4 else sl + 2, be)
  {
    hide CodeBytes, Unit, Joined;
    var rest := s[sl..];
    assert rest[2..] == s[sl + 2..];
    if sl + 3 < |s| {
      assert rest[4..] == s[sl + 4..];
    }
  }

  // ----- UTF-16 to UTF-8 preserves meaning -----

  ghost predicate IsScalar(c: nat) {
    c < 0xD800 || 0xE000 <= c < 0x110000
  }

  function UnitBytes(x: nat, be: bool): seq<nat> {
    if be then [x / 0x100, x % 0x100] else [x % 0x100, x / 0x100]
  }

  /** Section 2.1 of RFC 2781. */
  function Utf16(c: nat, be: bool): seq<nat>
    requires c < 0x110000
  {
    if c < 0x10000 then UnitBytes(c, be)
    else UnitBytes(0xD800 + (c - 0x10000) / 0x400, be) + UnitBytes(0xDC00 + (c - 0x10000) % 0x400, be)
  }

  function Utf16All(cs: seq<nat>, be: bool): seq<nat>
    requires forall i :: 0 <= i < |cs| ==> IsScalar(cs[i])
  {
    if cs == [] then []
    else
      assert IsScalar(cs[0]);
      Utf16(cs[0], be) + Utf16All(cs[1..], be)
  }

  function Utf8All(cs: seq<nat>): seq<nat>
    requires forall i :: 0 <= i < |cs| ==> IsScalar(cs[i])
  {
    if cs == [] then []
    else
      assert IsScalar(cs[0]);
      Utf8(cs[0]) + Utf8All(cs[1..])
  }

  /** Well-formed UTF-16 of either byte order becomes the UTF-8 encoding of the same characters. */
  lemma {:induction false} Utf16BecomesUtf8(cs: seq<nat>, be: bool)
    requires forall i :: 0 <= i < |cs| ==> IsScalar(cs[i])
    ensures FromUtf16(Utf16All(cs, be), be) == Utf8All(cs)
  {
    if cs != [] {
      hide CodeBytes, Unit, Joined, Utf8;
      var c, tail := cs[0], Utf16All(cs[1..], be);
      Utf16BecomesUtf8(cs[1..], be);
      assert IsScalar(c);
      CodeWritesUtf8(c);
      ReadBack(c, tail, be);
    } else {
      assert FromUtf16([], be) == [];
    }
  }

  lemma ReadBack(c: nat, tail: seq<nat>, be: bool)
    requires IsScalar(c)
    ensures FromUtf16(Utf16(c, be) + tail, be) == CodeBytes(c) + FromUtf16(tail, be)
  {
    hide CodeBytes, Unit, Joined;
    var rest := Utf16(c, be) + tail;
    if c < 0x10000 {
      UnitIs(rest[0], rest[1], be);
      assert rest[2..] == tail;
    } else {
      hide FromUtf16, Utf8, UnitBytes;
      Halves(c);
      AnyTwoUnits(0xD800 + (c - 0x10000) / 0x400, 0xDC00 + (c - 0x10000) % 0x400, tail, be);
      CodeWritesUtf8(c);
    }
  }

  lemma Halves(c: nat)
    requires 0x10000 <= c < 0x110000
    ensures var h, x := 0xD800 + (c - 0x10000) / 0x400, 0xDC00 + (c - 0x10000) % 0x400;
      0xD800 <= h <= 0xDFFF && x < 0x10000 && h % 0x400 * 0x400 + x % 0x400 + 0x10000 == c
  {
  }

  /** In text that is not well-formed any unit between 0xD800 and 0xDFFF, a low half too, is joined with whatever unit
      comes behind it. */
  lemma AnyTwoUnits(h: nat, x: nat, tail: seq<nat>, be: bool)
    requires 0xD800 <= h <= 0xDFFF && x < 0x10000
    ensures FromUtf16(UnitBytes(h, be) + UnitBytes(x, be) + tail, be)
         == Utf8(h % 0x400 * 0x400 + x % 0x400 + 0x10000) + FromUtf16(tail, be)
  {
    hide CodeBytes, Unit, Joined, Utf8;
    var rest := UnitBytes(h, be) + UnitBytes(x, be) + tail;
    UnitIs(rest[0], rest[1], be);
    UnitIs(rest[2], rest[3], be);
    JoinedIs(h, x);
    CodeWritesUtf8(Joined(h, x));
    assert rest[4..] == tail;
  }

  /** At the end it is written as it is, as are three bytes; and an odd last byte is dropped. */
  lemma LoneUnit(h: nat, odd: seq<nat>, be: bool)
    requires 0xD800 <= h <= 0xDFFF && |odd| <= 1
    ensures FromUtf16(UnitBytes(h, be) + odd, be) == [0xED, 0x80 + h / 0x40 % 0x40, 0x80 + h % 0x40]
    ensures FromUtf16(odd, be) == []
  {
    hide CodeBytes, Unit;
    var rest := UnitBytes(h, be) + odd;
    UnitIs(rest[0], rest[1], be);
    CodeWritesUtf8(h);
  }

  /** A whole document: the byte-order mark of either order (section 3.2 of RFC 2781), then its characters. */
  function Document(cs: seq<nat>, be: bool): seq<nat>
    requires forall i :: 0 <= i < |cs| ==> IsScalar(cs[i])
  {
    (if be then [0xFE, 0xFF] else [0xFF, 0xFE]) + Utf16All(cs, be)
  }

  lemma {:induction false} Utf16IsBytes(cs: seq<nat>, be: bool)
    requires forall i :: 0 <= i < |cs| ==> IsScalar(cs[i])
    ensures AreBytes(Utf16All(cs, be))
  {
    if cs != [] {
      Utf16IsBytes(cs[1..], be);
    }
  }

  method ConvertDocument(cs: seq<nat>, be: bool) returns (u: seq<nat>)
    requires forall i :: 0 <= i < |cs| ==> IsScalar(cs[i])
    ensures u == Utf8All(cs)
  {
    Utf16IsBytes(cs, be);
    Utf16BecomesUtf8(cs, be);
    var s := Document(cs, be);
    assert s[2..] == Utf16All(cs, be);
    var converted;
    converted, u := Str2Utf8(s);
  }
}
