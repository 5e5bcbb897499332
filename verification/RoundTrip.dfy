/** Parsing what the ezxml printer prints gives the tree back (src/external/ezxml/ezxml.c). */
module RoundTrip {
  import opened Basics
  import opened Escapes
  import opened Printer
  import opened Parser
  import ChildIndex

  // ----- the trees that survive -----

  predicate ValidName(name: string) {
    name != "" && IsNameStart(name[0]) && forall c :: c in name ==> c !in WS && c !in {'/', '>', NUL}
  }

  predicate ValidAttrName(name: string) {
    name != "" && !IsSpace(name[0]) && forall c :: c in name ==> c !in WS && c !in {'=', '/', '>', NUL}
  }

  ghost predicate ValidAttrs(attr: seq<Attr>) {
    && (forall i :: 0 <= i < |attr| ==> ValidAttrName(attr[i].name) && NUL !in attr[i].value)
    && (forall i :: 0 <= i < |attr| ==> VT !in attr[i].value && FF !in attr[i].value)
    && (forall i, j :: 0 <= i < j < |attr| ==> attr[i].name != attr[j].name)
  }

  ghost predicate ValidOffsets(x: Element) {
    && (forall i, j :: 0 <= i < j < |x.kids| ==> x.kids[i].off <= x.kids[j].off)
    && (forall i :: 0 <= i < |x.kids| ==> x.kids[i].off <= |x.txt|)
  }

  ghost predicate Printable(x: Element) {
    && ValidName(x.name) && ValidAttrs(x.attr) && NUL !in x.txt && ValidOffsets(x)
    && forall i :: 0 <= i < |x.kids| ==> Printable(x.kids[i])
  }

  // ----- attributes -----

  lemma {:induction false} UntilIs(pre: string, rest: string, stop: set<char>)
    requires forall c :: c in pre ==> c !in stop
    requires rest == "" || rest[0] in stop
    ensures Until(pre + rest, stop) == |pre|
    decreases |pre|
  {
    if pre == "" {
      assert pre + rest == rest;
    } else {
      assert (pre + rest)[1..] == pre[1..] + rest;
      UntilIs(pre[1..], rest, stop);
    }
  }

  lemma SkipNone(s: string)
    requires s != "" && !IsSpace(s[0])
    ensures Skip(s) == s && Skip(" " + s) == s
  {
    assert (" " + s)[1..] == s;
    assert Spaces(s) == 0 && Spaces(" " + s) == 1;
  }

  /** An attribute value is read back. */
  lemma ValueReads(value: string, tail: string)
    requires NUL !in value && VT !in value && FF !in value
    ensures var v := Encode(value, true) + "\"" + tail;
      var m := Until(v, {'"'});
      m < |v| && !EndsInCr(v[..m]) && CString(Decoded(v[..m], Attribute)) == value && v[m + 1..] == tail
  {
    hide Encode, Decoded, CString;
    var e := Encode(value, true);
    EncodedIsSafe(value, true);
    UntilIs(e, "\"" + tail, {'"'});
    assert e + "\"" + tail == e + ("\"" + tail);
    assert (e + ("\"" + tail))[..|e|] == e;
    NoCrToNormalize(e);
    AttributeRoundTrip(value);
    CStringIs(value);
  }

  lemma QuotedAttr(s: string, v: string)
    requires s != "" && s[0] != '/' && s[0] != '>'
    requires var n := Until(s, WS + {'=', '/', '>'}); n < |s| && s[n] == '=' && s[n..][1..] == "\"" + v
    requires var m := Until(v, {'"'}); m < |v| && !EndsInCr(v[..m])
    ensures var n, m := Until(s, WS + {'=', '/', '>'}), Until(v, {'"'});
      ParseAttrs(s) == Prepended(Attr(s[..n], CString(Decoded(v[..m], Attribute))), ParseAttrs(Skip(v[m + 1..])))
  {
    hide Until, Decoded, CString, EndsInCr, Skip, Prepended, IsSpace;
    var q := "\"" + v;
    assert SpanOf(q, WS + {'='}) == 0 && q[0..] == q && q[1..] == v;
    assert ReadAttr(s) == ReadQuoted(s[..Until(s, WS + {'=', '/', '>'})], '"', v);
  }

  lemma AttrReads(a: Attr, tail: string)
    requires ValidAttrName(a.name) && NUL !in a.value && VT !in a.value && FF !in a.value
    ensures Skip(PrintAttr(a) + tail) == PrintAttr(a)[1..] + tail
    ensures ParseAttrs(PrintAttr(a)[1..] + tail) == Prepended(a, ParseAttrs(Skip(tail)))
  {
    hide Encode, Decoded, CString, EndsInCr, Skip, Prepended, ParseAttrs, Until, IsSpace;
    var v := Encode(a.value, true) + "\"" + tail;
    var s := a.name + ("=\"" + v);
    assert PrintAttr(a)[1..] + tail == s;
    assert PrintAttr(a) + tail == " " + s;
    SkipNone(s);
    UntilIs(a.name, "=\"" + v, WS + {'=', '/', '>'});
    ValueReads(a.value, tail);
    assert s[..|a.name|] == a.name && s[|a.name|..] == "=\"" + v;
    assert ("=\"" + v)[1..] == "\"" + v;
    assert s[0] == a.name[0] && a.name[0] in a.name;
    QuotedAttr(s, v);
  }

  lemma PrintAttrsStep(attr: seq<Attr>, j: nat, tail: string)
    requires ValidAttrs(attr) && j < |attr|
    ensures PrintAttrs(attr, j) + tail == PrintAttr(attr[j]) + (PrintAttrs(attr, j + 1) + tail)
    ensures PrintAttrs(attr, j) != "" && PrintAttrs(attr, j)[0] == ' '
  {
    hide PrintAttr;
    assert IsFirst(attr, j);
    StartsWithSpace(attr[j]);
  }

  /** The attributes of a tag are read back, up to the end of the tag. */
  lemma {:induction false} AttrsRead(attr: seq<Attr>, j: nat, tail: string)
    requires ValidAttrs(attr) && j <= |attr| && tail != "" && (tail[0] == '>' || tail[0] == '/')
    ensures ParseAttrs(Skip(PrintAttrs(attr, j) + tail)) == Attrs(attr[j..], tail)
    ensures PrintAttrs(attr, j) == "" || PrintAttrs(attr, j)[0] == ' '
    decreases |attr| - j
  {
    hide ParseAttrs, Skip, PrintAttr, PrintAttrs, ValidAttrs, ValidAttrName;
    if j == |attr| {
      NoneLeft(attr);
      SkipNone(tail);
      EndReads(tail);
      assert "" + tail == tail;
    } else {
      AttrsRead(attr, j + 1, tail);
      AttrIsValid(attr, j);
      AttrReads(attr[j], PrintAttrs(attr, j + 1) + tail);
      PrintAttrsStep(attr, j, tail);
      assert [attr[j]] + attr[j + 1..] == attr[j..];
    }
  }

  lemma NoneLeft(attr: seq<Attr>)
    ensures PrintAttrs(attr, |attr|) == ""
  {
  }

  lemma AttrIsValid(attr: seq<Attr>, j: nat)
    requires ValidAttrs(attr) && j < |attr|
    ensures ValidAttrName(attr[j].name) && NUL !in attr[j].value && VT !in attr[j].value && FF !in attr[j].value
  {
  }

  lemma StartsWithSpace(a: Attr)
    ensures PrintAttr(a) != "" && PrintAttr(a)[0] == ' '
  {
  }

  lemma EndReads(tail: string)
    requires tail != "" && (tail[0] == '>' || tail[0] == '/')
    ensures ParseAttrs(tail) == Attrs([], tail)
  {
  }

  // ----- tags -----

  /** An opening tag is read back. */
  lemma OpeningReads(x: Element, rest: string, st: State, e: char)
    requires Fine(st) && !st.Done? && ValidName(x.name) && ValidAttrs(x.attr)
    ensures Markup(x.name + PrintAttrs(x.attr, 0) + ">" + rest, st, e) == Next(OpenTag(st, x.name, x.attr), ">" + rest)
  {
    hide ParseAttrs, Skip, PrintAttrs, OpenTag, CloseTag;
    var more := PrintAttrs(x.attr, 0) + (">" + rest);
    var s := x.name + more;
    assert x.name + PrintAttrs(x.attr, 0) + ">" + rest == s;
    AttrsRead(x.attr, 0, ">" + rest);
    assert x.attr[0..] == x.attr;
    UntilIs(x.name, more, WS + {'/', '>'});
    assert s[..|x.name|] == x.name && s[|x.name|..] == more;
  }

  ghost predicate EndsTag(tail: string, e: char) {
    if tail == "" then e == '>' else tail[0] == '>'
  }

  /** A closing tag closes the tag it names. */
  lemma ClosingReads(name: string, tail: string, st: State, e: char)
    requires st.Within? && st.open != [] && Top(st.open).name == name && ValidName(name) && EndsTag(tail, e)
    ensures Markup("/" + name + tail, st, e) == Next(Closed(st.open[..|st.open| - 1], Top(st.open)), tail)
  {
    hide Closed;
    var s := "/" + name + tail;
    assert s[1..] == name + tail;
    UntilIs(name, tail, WS + {'>'});
    assert s[1..][..|name|] == name && s[1..][|name|..] == tail;
    assert !IsNameStart('/');
    assert SpanOf(tail, WS) == 0;
    assert tail[0..] == tail;
  }

  // ----- text -----

  /** Text between markup is read back, appended to the text of the insertion point. */
  lemma TextReads(t: string, rest: string, open: seq<Element>, e: char)
    requires open != [] && NUL !in t
    ensures var cur := Top(open);
      Onward(">" + Encode(t, false) + "<" + rest, Within(open), e)
        == Tags(rest, Within(open[..|open| - 1] + [cur.(txt := cur.txt + t)]), e)
  {
    hide Encode, Decoded, CString, EndsInCr, Tags;
    var enc := Encode(t, false);
    var s := ">" + enc + "<" + rest;
    EncodedIsSafe(t, false);
    NoCrToNormalize(enc);
    TextRoundTrip(t);
    CStringIs(t);
    assert s[1..] == enc + ("<" + rest);
    UntilIs(enc, "<" + rest, {'<'});
    assert s[1..][..|enc|] == enc && s[1..][|enc| + 1..] == rest;
    if enc == "" {
      EncodesNothing(t);
      assert Top(open).txt + t == Top(open).txt;
      assert open[..|open| - 1] + [Top(open)] == open;
    }
  }

  lemma EncodesNothing(t: string)
    requires Encode(t, false) == "" && NUL !in t
    ensures t == ""
  {
    if t != "" {
      PieceFits(t[0], false);
    }
  }

  // ----- whole tags -----

  function TagBody(x: Element): string {
    x.name + PrintAttrs(x.attr, 0) + ">" + PrintKids(x, 0, 0) + "</" + x.name
  }

  /** The tag x when its text up to start and its first i tags have been read. */
  function Partial(x: Element, i: nat, start: nat, off: nat): Element
    requires i <= |x.kids| && start <= |x.txt|
  {
    Element(x.name, x.attr, x.txt[..start], off, x.kids[..i])
  }

  /** The offset and the open tags a new tag finds. */
  function Offset(st: State): nat
    requires Fine(st)
  {
    if st.Within? then |Top(st.open).txt| else 0
  }

  function Above(st: State): seq<Element> { if st.Within? then st.open else [] }

  ghost predicate Reached(x: Element, i: nat, start: nat) {
    && i <= |x.kids| && start <= |x.txt|
    && (forall j :: 0 <= j < i ==> x.kids[j].off <= start)
    && (i < |x.kids| ==> start <= x.kids[i].off)
  }

  /** A tag is read back from its name on, at the offset of the text before it. */
  lemma {:induction false} TagReads(x: Element, st: State, tail: string, e: char)
    requires Printable(x) && Fine(st) && !st.Done? && EndsTag(tail, e)
    ensures Tags(TagBody(x) + tail, st, e) == Onward(tail, Closed(Above(st), x.(off := Offset(st))), e)
    decreases x, |x.kids| + 1
  {
    hide Markup, Closed, PrintAttrs, PrintKids, Onward, ValidName, ValidAttrs, ValidOffsets;
    var content := PrintKids(x, 0, 0) + "</" + x.name + tail;
    assert TagBody(x) + tail == x.name + PrintAttrs(x.attr, 0) + ">" + content;
    OpeningReads(x, content, st, e);
    assert OpenTag(st, x.name, x.attr) == Within(Above(st) + [Partial(x, 0, 0, Offset(st))]);
    assert ">" + PrintKids(x, 0, 0) + "</" + x.name + tail == ">" + content;
    ContentReads(x, 0, 0, Above(st), Offset(st), tail, e);
  }

  /** The content of a tag is read back, and the tag closed. */
  lemma {:induction false} ContentReads(x: Element, i: nat, start: nat, above: seq<Element>, off: nat,
                                        tail: string, e: char)
    requires Printable(x) && Reached(x, i, start) && EndsTag(tail, e)
    ensures Onward(">" + PrintKids(x, i, start) + "</" + x.name + tail, Within(above + [Partial(x, i, start, off)]), e)
         == Onward(tail, Closed(above, x.(off := off)), e)
    decreases x, |x.kids| - i
  {
    hide Markup, Closed, Onward, Tags, Encode, PrintTag, ValidName, ValidAttrs;
    if i == |x.kids| {
      EndOfContent(x, start, above, off, tail, e);
    } else {
      var k := x.kids[i];
      var t, more := x.txt[start..k.off], PrintKids(x, i + 1, k.off) + "</" + x.name + tail;
      var open := above + [Partial(x, i, start, off)];
      KidPrints(x, i, start, tail);
      TextSlices(x.txt, start, k.off);
      TextReads(t, TagBody(k) + (">" + more), open, e);
      var open' := above + [Partial(x, i, k.off, off)];
      assert open[..|open| - 1] == above;
      TagReads(k, Within(open'), ">" + more, e);
      KidCloses(x, i, above, off);
      assert ">" + more == ">" + PrintKids(x, i + 1, k.off) + "</" + x.name + tail;
      ContentReads(x, i + 1, k.off, above, off, tail, e);
    }
  }

  lemma TextSlices(txt: string, start: nat, stop: nat)
    requires start <= stop <= |txt|
    ensures txt[..start] + txt[start..stop] == txt[..stop]
    ensures NUL !in txt ==> NUL !in txt[start..stop]
  {
  }

  lemma EndOfContent(x: Element, start: nat, above: seq<Element>, off: nat, tail: string, e: char)
    requires Printable(x) && start <= |x.txt| && EndsTag(tail, e)
    ensures Onward(">" + PrintKids(x, |x.kids|, start) + "</" + x.name + tail,
                   Within(above + [Partial(x, |x.kids|, start, off)]), e)
         == Onward(tail, Closed(above, x.(off := off)), e)
  {
    hide Markup, Closed, Onward, Encode, ValidName, ValidAttrs, ValidOffsets;
    var t, rest := x.txt[start..], "/" + x.name + tail;
    var open := above + [Partial(x, |x.kids|, start, off)];
    var open' := above + [x.(off := off)];
    TextSlices(x.txt, start, |x.txt|);
    assert x.txt[start..|x.txt|] == t && x.txt[..|x.txt|] == x.txt && x.kids[..|x.kids|] == x.kids;
    assert ">" + PrintKids(x, |x.kids|, start) + "</" + x.name + tail == ">" + Encode(t, false) + "<" + rest;
    TextReads(t, rest, open, e);
    assert open[..|open| - 1] == above && open'[..|open'| - 1] == above;
    ClosingReads(x.name, tail, Within(open'), e);
  }

  lemma KidPrints(x: Element, i: nat, start: nat, tail: string)
    requires i < |x.kids| && start <= x.kids[i].off <= |x.txt|
    ensures var k := x.kids[i];
      var more := PrintKids(x, i + 1, k.off) + "</" + x.name + tail;
      ">" + PrintKids(x, i, start) + "</" + x.name + tail
        == ">" + Encode(x.txt[start..k.off], false) + "<" + (TagBody(k) + (">" + more))
  {
    hide Encode, PrintAttrs;
    var k := x.kids[i];
    var more := PrintKids(x, i + 1, k.off) + "</" + x.name + tail;
    TagPrints(k);
    assert PrintKids(x, i, start) == Encode(x.txt[start..k.off], false) + PrintTag(k) + PrintKids(x, i + 1, k.off);
  }

  lemma TagPrints(x: Element)
    ensures PrintTag(x) == "<" + TagBody(x) + ">"
  {
    hide PrintAttrs, PrintKids;
  }

  lemma KidCloses(x: Element, i: nat, above: seq<Element>, off: nat)
    requires ValidOffsets(x) && i < |x.kids|
    ensures Closed(above + [Partial(x, i, x.kids[i].off, off)], x.kids[i])
         == Within(above + [Partial(x, i + 1, x.kids[i].off, off)])
  {
    hide ChildIndex.UpperBound;
    var k, open := x.kids[i], above + [Partial(x, i, x.kids[i].off, off)];
    var kids := KidsOf(x.kids[..i]);
    ChildIndex.UpperBoundIs(kids, k.off, i);
    assert ChildIndex.Inserted(x.kids[..i], i, k) == x.kids[..i + 1];
    assert open[..|open| - 1] == above;
    assert Partial(x, i, k.off, off).(kids := x.kids[..i + 1]) == Partial(x, i + 1, k.off, off);
  }

  // ----- markup the printer does not write -----

  /** sub occurs in t, or where t and sub meet, only at the end. */
  ghost predicate EndsWithFirst(t: string, sub: string) {
    forall k :: 0 <= k < |t| ==> !(sub <= (t + sub)[k..])
  }

  lemma {:induction false} FindSubIs(t: string, sub: string, rest: string)
    requires sub != "" && EndsWithFirst(t, sub)
    ensures FindSub(t + sub + rest, sub) == |t|
    decreases |t|
  {
    var s := t + sub + rest;
    if t == "" {
      assert s == sub + rest;
    } else {
      assert (t + sub)[0..] == t + sub && s == (t + sub) + rest;
      assert !(sub <= s);
      assert s[1..] == t[1..] + sub + rest;
      forall k | 0 <= k < |t[1..]|
        ensures !(sub <= (t[1..] + sub)[k..])
      {
        assert (t[1..] + sub)[k..] == (t + sub)[k + 1..];
      }
      FindSubIs(t[1..], sub, rest);
    }
  }

  /** A comment changes nothing. */
  lemma CommentsAreSkipped(t: string, tail: string, st: State, e: char)
    requires Fine(st) && EndsWithFirst(t, "--") && EndsTag(tail, e)
    ensures Tags("!--" + t + "--" + tail, st, e) == Onward(tail, st, e)
  {
    hide Onward, FindSub;
    var s := "!--" + t + "--" + tail;
    assert s[3..] == t + "--" + tail;
    FindSubIs(t, "--", tail);
    assert s[3..][|t|..] == "--" + tail && ("--" + tail)[2..] == tail;
    assert !IsNameStart('!');
  }

  /** A cdata section adds its characters as they are. */
  lemma CdataIsText(t: string, rest: string, open: seq<Element>, e: char)
    requires open != [] && EndsWithFirst(t, "]]>") && NUL !in t && '\r' !in t
    ensures var cur := Top(open);
      Tags("![CDATA[" + t + "]]>" + rest, Within(open), e)
        == Onward(">" + rest, Within(open[..|open| - 1] + [cur.(txt := cur.txt + t)]), e)
  {
    hide Onward, FindSub, EndsInCr, CString, DecodeFrom;
    var s := "![CDATA[" + t + "]]>" + rest;
    assert s[8..] == t + "]]>" + rest;
    FindSubIs(t, "]]>", rest);
    assert s[8..][..|t|] == t && s[8..][|t|..] == "]]>" + rest && ("]]>" + rest)[2..] == ">" + rest;
    assert s[0] == '!' && s[1] == '[' && !IsNameStart('!');
    assert "![CDATA[" <= s && !("/" <= s) && !("!--" <= s);
    NoCrToNormalize(t);
    CdataUndecoded(t);
    CStringIs(t);
    if t == "" {
      assert Top(open).txt + t == Top(open).txt && open[..|open| - 1] + [Top(open)] == open;
    }
  }

  lemma {:induction false} CdataUndecoded(t: string)
    ensures DecodeFrom(t, Cdata) == t
    decreases |t|
  {
    if t != "" {
      CdataUndecoded(t[1..]);
      assert t == [t[0]] + t[1..];
    }
  }

  /** A self-closing tag is a tag without content. */
  lemma SelfClosingIsEmpty(x: Element, tail: string, st: State, e: char)
    requires Fine(st) && !st.Done? && ValidName(x.name) && ValidAttrs(x.attr) && EndsTag(tail, e)
    ensures Markup(x.name + PrintAttrs(x.attr, 0) + "/" + tail, st, e)
         == Next(Closed(Above(st), Element(x.name, x.attr, "", Offset(st), [])), tail)
  {
    hide ParseAttrs, Skip, PrintAttrs, Closed;
    var more := PrintAttrs(x.attr, 0) + ("/" + tail);
    var s := x.name + more;
    assert x.name + PrintAttrs(x.attr, 0) + "/" + tail == s;
    AttrsRead(x.attr, 0, "/" + tail);
    assert x.attr[0..] == x.attr;
    UntilIs(x.name, more, WS + {'/', '>'});
    assert s[..|x.name|] == x.name && s[|x.name|..] == more;
    assert ("/" + tail)[1..] == tail;
    var st' := OpenTag(st, x.name, x.attr);
    assert st' == Within(Above(st) + [Element(x.name, x.attr, "", Offset(st), [])]);
    assert st'.open[..|st'.open| - 1] == Above(st);
  }

  // ----- the document -----

  lemma {:induction false} AttrsHaveNoNul(attr: seq<Attr>, j: nat)
    requires ValidAttrs(attr) && j <= |attr|
    ensures NUL !in PrintAttrs(attr, j)
    decreases |attr| - j
  {
    hide PrintAttr, IsFirst;
    if j < |attr| {
      AttrsHaveNoNul(attr, j + 1);
      AttrHasNoNul(attr[j]);
    }
  }

  lemma AttrHasNoNul(a: Attr)
    requires ValidAttrName(a.name)
    ensures NUL !in PrintAttr(a)
  {
    hide Encode;
    EncodedIsSafe(a.value, true);
  }

  lemma {:induction false} TagHasNoNul(x: Element)
    requires Printable(x)
    ensures NUL !in PrintTag(x)
    decreases x, |x.kids| + 1
  {
    hide PrintAttrs, PrintKids, ValidAttrs, ValidOffsets;
    AttrsHaveNoNul(x.attr, 0);
    KidsHaveNoNul(x, 0, 0);
  }

  lemma {:induction false} KidsHaveNoNul(x: Element, i: nat, start: nat)
    requires Printable(x) && i <= |x.kids| && start <= |x.txt|
    ensures NUL !in PrintKids(x, i, start)
    decreases x, |x.kids| - i
  {
    hide Encode, PrintTag, ValidName, ValidAttrs, ValidOffsets;
    if i == |x.kids| {
      EncodedIsSafe(x.txt[start..], false);
    } else {
      EncodedIsSafe(x.txt[start..StopAt(x.txt, start, x.kids[i].off)], false);
      TagHasNoNul(x.kids[i]);
      KidsHaveNoNul(x, i + 1, Min(x.kids[i].off, |x.txt|));
    }
  }

  /** Parsing a printed tree gives the tree, with the same names, attributes, text, offsets and order. */
  lemma ParserUndoesPrinter(x: Element)
    requires Printable(x)
    ensures Parse(PrintTag(x)) == Parsed(x.(off := 0))
  {
    hide TagBody, PrintTag, Tags, CString, Printable;
    var doc, body := PrintTag(x), TagBody(x);
    TagPrints(x);
    assert doc[..|doc| - 1] == "<" + body;
    TagHasNoNul(x);
    assert NUL !in "<" + body;
    CStringIs("<" + body);
    assert Until("<" + body, {'<'}) == 0 && ("<" + body)[1..] == body + "";
    TagReads(x, Before, "", '>');
  }

  /** The printer and the parser, one after the other. */
  method PrintAndParse(x: Element) returns (r: Result)
    requires Printable(x) && x.off == 0
    ensures r == Parsed(x)
  {
    hide PrintTag, Parse, Printable;
    var doc := ToXml(x);
    ParserUndoesPrinter(x);
    r := ParseStr(doc);
  }
}
