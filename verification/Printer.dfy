/** The ezxml printer (ezxml_toxml_r of src/external/ezxml/ezxml.c) on the tree of tags in document order. */
module Printer {
  import opened Basics
  import opened Escapes
  import Utf

  datatype Attr = Attr(name: string, value: string)

  /** A tag; off is its place in the text of its parent, and kids is the list that ordered links. */
  datatype Element = Element(name: string, attr: seq<Attr>, txt: string, off: nat, kids: seq<Element>)

  /** Where the text that ezxml_ampencode is given ends: the length off - start is unsigned. */
  function StopAt(txt: string, start: nat, off: nat): (e: nat)
    requires start <= |txt|
    ensures start <= e <= |txt|
  {
    if off < start then |txt| else Min(off, |txt|)
  }

  /** An attribute is printed when no earlier one has its name. */
  predicate IsFirst(attr: seq<Attr>, j: nat)
    requires j < |attr|
  {
    forall i :: 0 <= i < j ==> attr[i].name != attr[j].name
  }

  function PrintAttr(a: Attr): string { " " + a.name + "=\"" + Encode(a.value, true) + "\"" }

  function PrintAttrs(attr: seq<Attr>, j: nat): string
    requires j <= |attr|
    decreases |attr| - j
  {
    if j == |attr| then "" else (if IsFirst(attr, j) then PrintAttr(attr[j]) else "") + PrintAttrs(attr, j + 1)
  }

  /** Where ezxml_attr finds the name of the j-th attribute. */
  function FirstOf(attr: seq<Attr>, j: nat, i: nat): (f: nat)
    requires i <= j < |attr| && forall k :: 0 <= k < i ==> attr[k].name != attr[j].name
    ensures i <= f <= j && attr[f].name == attr[j].name
    ensures forall k :: 0 <= k < f ==> attr[k].name != attr[j].name
    decreases j - i
  {
    if attr[i].name == attr[j].name then i else FirstOf(attr, j, i + 1)
  }

  /** The code's own test: the value found for the name is at the address of this one. */
  predicate IsPrinted(attr: seq<Attr>, at: seq<nat>, j: nat)
    requires j < |attr| == |at|
  {
    at[FirstOf(attr, j, 0)] == at[j]
  }

  function PrintAttrsAt(attr: seq<Attr>, at: seq<nat>, j: nat): string
    requires j <= |attr| == |at|
    decreases |attr| - j
  {
    if j == |attr| then ""
    else (if IsPrinted(attr, at, j) then PrintAttr(attr[j]) else "") + PrintAttrsAt(attr, at, j + 1)
  }

  /** That prints each name once exactly if no two attributes of one name share their value, as none do that have been
      parsed or set. */
  lemma {:induction false} OnceByNameExactly(attr: seq<Attr>, at: seq<nat>, j: nat)
    requires j <= |attr| == |at|
    ensures |PrintAttrsAt(attr, at, j)| >= |PrintAttrs(attr, j)|
    ensures PrintAttrsAt(attr, at, j) == PrintAttrs(attr, j) <==>
      forall k :: j <= k < |attr| && !IsFirst(attr, k) ==> at[FirstOf(attr, k, 0)] != at[k]
    decreases |attr| - j
  {
    hide PrintAttr;
    if j < |attr| {
      OnceByNameExactly(attr, at, j + 1);
      PrintedIsSome(attr[j]);
      var a, b := PrintAttrsAt(attr, at, j + 1), PrintAttrs(attr, j + 1);
      assert IsFirst(attr, j) <==> FirstOf(attr, j, 0) == j;
      if IsFirst(attr, j) {
        SameBehind(PrintAttr(attr[j]), a, b);
      } else if !IsPrinted(attr, at, j) {
        assert "" + a == a && "" + b == b;
      } else {
        assert "" + b == b;
      }
    }
  }

  lemma PrintedIsSome(a: Attr)
    ensures PrintAttr(a) != ""
  {
    assert PrintAttr(a)[0] == ' ';
  }

  lemma SameBehind(a: string, b: string, c: string)
    ensures a + b == a + c <==> b == c
  {
    assert (a + b)[|a|..] == b && (a + c)[|a|..] == c;
  }

  /** The content of x from its text at start and its i-th tag on. */
  function PrintKids(x: Element, i: nat, start: nat): string
    requires i <= |x.kids| && start <= |x.txt|
    decreases x, |x.kids| - i
  {
    if i == |x.kids| then Encode(x.txt[start..], false)
    else
      var k := x.kids[i];
      Encode(x.txt[start..StopAt(x.txt, start, k.off)], false) + PrintTag(k) + PrintKids(x, i + 1, Min(k.off, |x.txt|))
  }

  function PrintTag(x: Element): string
    decreases x, |x.kids| + 1
  {
    "<" + x.name + PrintAttrs(x.attr, 0) + ">" + PrintKids(x, 0, 0) + "</" + x.name + ">"
  }

  // ----- what is printed -----

  /** One attribute more, if there is none of its name yet. */
  lemma AttrPrints(attr: seq<Attr>, name: string, value: string)
    ensures PrintAttrs(attr + [Attr(name, value)], 0) == PrintAttrs(attr, 0)
         + if exists i :: 0 <= i < |attr| && attr[i].name == name then ""
           else " " + name + "=\"" + Encode(value, true) + "\""
  {
    hide Encode, PrintAttrs;
    LastAttrPrints(attr, Attr(name, value), 0);
    var all := attr + [Attr(name, value)];
    assert all[|attr|].name == name && forall i :: 0 <= i < |attr| ==> all[i] == attr[i];
  }

  lemma {:induction false} LastAttrPrints(attr: seq<Attr>, a: Attr, j: nat)
    requires j <= |attr|
    ensures PrintAttrs(attr + [a], j)
         == PrintAttrs(attr, j) + if IsFirst(attr + [a], |attr|) then PrintAttr(a) else ""
    decreases |attr| - j
  {
    hide PrintAttr, IsFirst;
    if j < |attr| {
      LastAttrPrints(attr, a, j + 1);
      SameFirst(attr, a, j);
    } else {
      assert PrintAttrs(attr + [a], j + 1) == "";
    }
  }

  lemma SameFirst(attr: seq<Attr>, a: Attr, j: nat)
    requires j < |attr|
    ensures IsFirst(attr + [a], j) <==> IsFirst(attr, j)
  {
    assert forall i :: 0 <= i <= j ==> (attr + [a])[i] == attr[i];
  }

  /** A tag without tags in it, which is never a self-closing one. */
  lemma LeafPrints(name: string, attr: seq<Attr>, txt: string, off: nat)
    ensures PrintTag(Element(name, attr, txt, off, []))
         == "<" + name + PrintAttrs(attr, 0) + ">" + Encode(txt, false) + "</" + name + ">"
    ensures PrintAttrs([], 0) == ""
  {
    hide Encode, PrintAttrs;
    var x := Element(name, attr, txt, off, []);
    LastText(x, 0);
    assert x.txt[0..] == txt;
    assert PrintAttrs([], 0) == "" by {
      NoAttrs();
    }
  }

  lemma NoAttrs()
    ensures PrintAttrs([], 0) == ""
  {
  }

  ghost predicate InOrder(x: Element) {
    && (forall i, j :: 0 <= i < j < |x.kids| ==> x.kids[i].off <= x.kids[j].off)
    && forall i :: 0 <= i < |x.kids| ==> x.kids[i].off <= |x.txt|
  }

  /** If the offsets are in order, the last tag stands at its offset, behind what is printed of all before it. */
  lemma {:induction false} LastKidPrints(x: Element, i: nat, start: nat)
    requires InOrder(x) && i < |x.kids| && start <= x.kids[i].off
    ensures var n := |x.kids| - 1;
      var k := x.kids[n];
      PrintKids(x, i, start)
      == PrintKids(x.(kids := x.kids[..n], txt := x.txt[..k.off]), i, start)
         + PrintTag(k) + Encode(x.txt[k.off..], false)
    decreases |x.kids| - i
  {
    hide Encode, PrintTag;
    var n := |x.kids| - 1;
    var k, kid := x.kids[n], x.kids[i];
    var y := x.(kids := x.kids[..n], txt := x.txt[..k.off]);
    KidPrinted(x, i, start, kid.off);
    if i == n {
      LastText(y, start);
      LastText(x, k.off);
      assert y.txt[start..] == x.txt[start..k.off];
    } else {
      LastKidPrints(x, i + 1, kid.off);
      KidPrinted(y, i, start, kid.off);
      assert y.txt[start..kid.off] == x.txt[start..kid.off];
      FiveParts(Encode(x.txt[start..kid.off], false), PrintTag(kid), PrintKids(y, i + 1, kid.off), PrintTag(k),
                Encode(x.txt[k.off..], false));
    }
  }

  lemma FiveParts(a: string, b: string, c: string, d: string, e: string)
    ensures a + b + (c + d + e) == a + b + c + d + e
  {
  }

  /** A tag behind one with a greater offset is printed at the end of the text, of which what lies behind its offset is
      then printed once more. */
  lemma OutOfOrderRepeats() returns (x: Element)
    ensures x == Element("a", [], "abc", 0, [Element("b", [], "", 2, []), Element("c", [], "", 1, [])])
    ensures PrintTag(x) == "<a>" + "ab<b></b>" + "c<c></c>" + "bc" + "</a>"
  {
    hide Encode, PrintAttrs, PrintTag, PrintKids;
    x := Element("a", [], "abc", 0, [Element("b", [], "", 2, []), Element("c", [], "", 1, [])]);
    EmptyPrints("b", 2);
    EmptyPrints("c", 1);
    Spelled();
    Rest(x, 1, "bc");
    LastText(x, 1);
    KidPrinted(x, 1, 2, 1);
    Rest(x, 2, "c");
    KidPrinted(x, 0, 0, 2);
    EncodesItself("ab");
    assert x.txt[0..2] == "ab";
    TagAround(x);
    Around("a", "ab", "<b></b>", "c", "<c></c>", "bc");
  }

  lemma Spelled()
    ensures "<" + "b" + "></" + "b" + ">" == "<b></b>" && "<" + "c" + "></" + "c" + ">" == "<c></c>"
    ensures "<" + "a" + ">" == "<a>" && "</" + "a" + ">" == "</a>"
    ensures "ab" + "<b></b>" == "ab<b></b>" && "c" + "<c></c>" == "c<c></c>"
  {
  }

  lemma Around(name: string, t: string, b: string, u: string, c: string, v: string)
    ensures "<" + name + ">" + (t + b + (u + c + v)) + "</" + name + ">"
         == ("<" + name + ">") + (t + b) + (u + c) + v + ("</" + name + ">")
  {
  }

  lemma Rest(x: Element, from: nat, rest: string)
    requires from <= |x.txt| && x.txt[from..] == rest && forall i :: 0 <= i < |rest| ==> 'a' <= rest[i] <= 'z'
    ensures Encode(x.txt[from..|x.txt|], false) == Encode(x.txt[from..], false) == rest
  {
    EncodesItself(rest);
    assert x.txt[from..|x.txt|] == rest;
  }

  lemma EmptyPrints(name: string, off: nat)
    ensures PrintTag(Element(name, [], "", off, [])) == "<" + name + "></" + name + ">"
  {
    hide PrintAttrs;
    LeafPrints(name, [], "", off);
    EncodesItself("");
  }

  lemma TagAround(x: Element)
    requires x.attr == []
    ensures PrintTag(x) == "<" + x.name + ">" + PrintKids(x, 0, 0) + "</" + x.name + ">"
  {
    hide PrintKids;
  }

  lemma {:induction false} EncodesItself(s: string)
    requires forall i :: 0 <= i < |s| ==> 'a' <= s[i] <= 'z'
    ensures Encode(s, false) == s
  {
    if s != "" {
      assert EncodeChar(s[0], false) == [s[0]] && s == [s[0]] + s[1..];
      EncodesItself(s[1..]);
    }
  }

  // ----- the printer -----

  method Grow(s: string, need: nat, max: nat) returns (max': nat)
    ensures max <= max' && |s| + need <= max'
  {
    max' := max;
    while |s| + need > max'
      invariant max <= max'
      decreases |s| + need - max'
    {
      max' := max' + Utf.BUFSIZE;
    }
  }

  /** sprintf at the end of the buffer: the piece and its terminator have to fit. */
  method Put(s: string, max: nat, piece: string) returns (s': string)
    requires |s| + |piece| + 1 <= max
    ensures s' == s + piece
  {
    s' := s + piece;
  }

  /** The attributes, whose values are at the given addresses. */
  method PutAttrs(attr: seq<Attr>, at: seq<nat>, s: string, max: nat) returns (s': string, max': nat)
    requires |s| + 2 <= max && |at| == |attr|
    ensures s' == s + PrintAttrsAt(attr, at, 0) && |s'| + 2 <= max'
  {
    hide PrintAttr, Encode;
    s', max' := s, max;
    var i := 0;
    while i < |attr|
      invariant i <= |attr| && |s'| + 2 <= max'
      invariant s' + PrintAttrsAt(attr, at, i) == s + PrintAttrsAt(attr, at, 0)
    {
      ghost var before, rest := s', PrintAttrsAt(attr, at, i + 1);
      var j := 0;
      while attr[j].name != attr[i].name
        invariant j <= i && forall k :: 0 <= k < j ==> attr[k].name != attr[i].name
        decreases i - j
      {
        j := j + 1;
      }
      if at[j] == at[i] {
        s', max' := PutAttr(attr[i], s', max');
        AssocConcat(before, PrintAttr(attr[i]), rest);
      } else {
        assert "" + rest == rest;
      }
      i := i + 1;
    }
    assert s' + "" == s';
  }

  method PutAttr(a: Attr, s: string, max: nat) returns (s': string, max': nat)
    ensures s' == s + PrintAttr(a) && |s'| + 2 <= max'
  {
    hide Encode;
    max' := Grow(s, |a.name| + 7, max);
    s' := Put(s, max', " " + a.name + "=\"");
    s', max' := AmpEncode(a.value, -1, s', max', true);
    s' := Put(s', max', "\"");
    assert s' == s + PrintAttr(a);
  }

  /** The part of ezxml_toxml_r that writes the tag itself, each of whose values has an address of its own. */
  method PutTag(xml: Element, s: string, max: nat) returns (s': string, max': nat)
    ensures s' == s + PrintTag(xml) && |s'| + 1 <= max'
    decreases xml, |xml.kids| + 1
  {
    hide PrintAttrs, PrintTag, Encode;
    max' := Grow(s, |xml.name| + 4, max);
    s' := Put(s, max', "<" + xml.name);
    var at := seq(|xml.attr|, i => i);
    OnceByNameExactly(xml.attr, at, 0);
    s', max' := PutAttrs(xml.attr, at, s', max');
    s' := Put(s', max', ">");
    ghost var s1 := s';
    if xml.kids != [] {
      s', max' := ToXmlR(xml, 0, 0, s', max');
    } else {
      s', max' := AmpEncode(xml.txt, -1, s', max', false);
      LastText(xml, 0);
      assert xml.txt[0..] == xml.txt;
    }
    max' := Grow(s', |xml.name| + 4, max');
    s' := Put(s', max', "</" + xml.name + ">");
    TagIs(xml, s, s1, s');
  }

  /** The parent's text up to a tag. */
  method PutText(txt: string, start: nat, off: nat, s: string, max: nat) returns (s': string, max': nat)
    requires start <= |txt| && |s| <= max
    ensures s' == s + Encode(txt[start..StopAt(txt, start, off)], false) && |s'| <= max'
  {
    hide Encode, StopAt;
    TextUpTo(txt, start, off);
    s', max' := AmpEncode(txt[start..], if off < start then -1 else off - start, s, max, false);
  }

  /** Where the text after a tag begins, kept within the text. */
  method Bounded(txt: string, limit: nat) returns (off: nat)
    ensures off == Min(limit, |txt|)
  {
    off := 0;
    while off < |txt| && off < limit
      invariant off <= |txt| && off <= limit
    {
      off := off + 1;
    }
  }

  /** ezxml_toxml_r for the i-th tag of p and those after it. Everything is written within the buffer. */
  method ToXmlR(p: Element, i: nat, start: nat, s: string, max: nat) returns (s': string, max': nat)
    requires i < |p.kids| && start <= |p.txt| && |s| <= max
    ensures s' == s + PrintKids(p, i, start) && |s'| + 1 <= max'
    decreases p, |p.kids| - i
  {
    hide Encode, PrintTag, StopAt, PrintKids;
    var xml, txt := p.kids[i], p.txt;
    s', max' := PutText(txt, start, xml.off, s, max);
    s', max' := PutTag(xml, s', max');
    var off := Bounded(txt, xml.off);
    if i + 1 < |p.kids| {
      s', max' := ToXmlR(p, i + 1, off, s', max');
    } else {
      s', max' := AmpEncode(txt[off..], -1, s', max', false);
      LastText(p, off);
    }
    KidPrinted(p, i, start, off);
    FourParts(s, Encode(txt[start..StopAt(txt, start, xml.off)], false), PrintTag(xml), PrintKids(p, i + 1, off));
  }

  lemma FourParts(a: string, b: string, c: string, d: string)
    ensures a + b + c + d == a + (b + c + d)
  {
  }

  lemma KidPrinted(p: Element, i: nat, start: nat, off: nat)
    requires i < |p.kids| && start <= |p.txt| && off == Min(p.kids[i].off, |p.txt|)
    ensures PrintKids(p, i, start) == Encode(p.txt[start..StopAt(p.txt, start, p.kids[i].off)], false)
      + PrintTag(p.kids[i]) + PrintKids(p, i + 1, off)
  {
    hide Encode, PrintTag, StopAt;
  }

  lemma LastText(p: Element, off: nat)
    requires off <= |p.txt|
    ensures PrintKids(p, |p.kids|, off) == Encode(p.txt[off..], false)
  {
  }

  lemma TextUpTo(txt: string, start: nat, off: nat)
    requires start <= |txt|
    ensures var t := txt[start..]; var len := if off < start then -1 else off - start;
      (if 0 <= len <= |t| then t[..len] else t) == txt[start..StopAt(txt, start, off)]
  {
  }

  lemma TagIs(x: Element, s0: string, s1: string, s2: string)
    requires s1 == s0 + ("<" + x.name) + PrintAttrs(x.attr, 0) + ">"
    requires s2 == s1 + PrintKids(x, 0, 0) + ("</" + x.name + ">")
    ensures s2 == s0 + PrintTag(x)
  {
    hide PrintAttrs, PrintKids;
  }

  /** ezxml_toxml for a tree without processing instructions, first detached from its parent and what follows it. */
  method ToXml(x: Element) returns (s: string)
    ensures s == PrintTag(x)
  {
    hide PrintTag, Encode;
    var max;
    s, max := ToXmlR(Element("", [], "", 0, [x]), 0, 0, "", Utf.BUFSIZE);
    RootPrints(x);
  }

  lemma RootPrints(x: Element)
    ensures PrintKids(Element("", [], "", 0, [x]), 0, 0) == PrintTag(x)
  {
    hide PrintTag;
    var p := Element("", [], "", 0, [x]);
    assert Encode("", false) == "";
    assert PrintKids(p, 1, 0) == "";
    assert PrintKids(p, 0, 0) == "" + PrintTag(x) + "";
  }
}
