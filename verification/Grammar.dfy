/**
 * What the ezxml parser accepts, said of the text alone: which spellings of attributes, tags, comments and cdata
 * sections there are, and that a document is parsed exactly if its tags nest by name and are all closed
 * (src/external/ezxml/ezxml.c).
 */
module Grammar {
  import opened Escapes
  import opened Printer
  import opened Parser
  import opened RoundTrip

  ghost predicate Without(s: string, stop: set<char>) { forall c :: c in s ==> c !in stop }

  ghost predicate Only(s: string, accept: set<char>) { forall c :: c in s ==> c in accept }

  ghost predicate AllSpace(s: string) { forall c :: c in s ==> IsSpace(c) }

  /** The text goes on with none of these characters. */
  ghost predicate Stops(next: string, accept: set<char>) { next == "" || next[0] !in accept }

  const SPACES: set<char> := {' ', '\t', '\n', '\r', VT, FF}

  /** The classes of characters: white space of the markup, white space of C, and what a name may begin with. */
  lemma ClassesAre(c: char)
    ensures c in WS <==> c == ' ' || c == '\t' || c == '\n' || c == '\r'
    ensures IsSpace(c) <==> c in WS || c as int == 11 || c as int == 12
    ensures IsNameStart(c) <==> 'a' <= c <= 'z' || 'A' <= c <= 'Z' || c == '_' || c == ':' || c as int >= 0x80
  {
  }

  lemma {:induction false} SpanIs(pre: string, next: string, accept: set<char>)
    requires Only(pre, accept) && Stops(next, accept)
    ensures SpanOf(pre + next, accept) == |pre|
    decreases |pre|
  {
    if pre == "" {
      assert pre + next == next;
    } else {
      assert (pre + next)[1..] == pre[1..] + next;
      SpanIs(pre[1..], next, accept);
    }
  }

  lemma {:induction false} SpanSplits(s: string, accept: set<char>)
    ensures Only(s[..SpanOf(s, accept)], accept) && Stops(s[SpanOf(s, accept)..], accept)
  {
    if s != "" && s[0] in accept {
      SpanSplits(s[1..], accept);
      var n := SpanOf(s[1..], accept);
      assert s[..n + 1] == [s[0]] + s[1..][..n] && s[n + 1..] == s[1..][n..];
    }
  }

  lemma SkipIs(pre: string, next: string)
    requires AllSpace(pre) && Stops(next, SPACES)
    ensures Skip(pre + next) == next
  {
    SpacesSpan(pre + next);
    SpanIs(pre, next, SPACES);
  }

  lemma {:induction false} SpacesSpan(s: string)
    ensures Spaces(s) == SpanOf(s, SPACES)
  {
    if s != "" {
      SpacesSpan(s[1..]);
    }
  }

  lemma SkipSplits(s: string) returns (gap: string)
    ensures s == gap + Skip(s) && AllSpace(gap) && Stops(Skip(s), SPACES)
  {
    SpacesSpan(s);
    SpanSplits(s, SPACES);
    gap := s[..Spaces(s)];
  }

  // ----- attributes -----

  /** An attribute as it is written: a name, equals signs and spaces, a value between two quotation marks q or none, and
      the white space behind it. */
  datatype AttrText = AttrText(name: string, eq: string, q: string, raw: string, gap: string) {
    function Spelled(): string { name + eq + q + raw + q + gap }

    function Meant(): Attr { Attr(name, if q == "" then "" else CString(Decoded(raw, Attribute))) }
  }

  ghost predicate IsAttr(a: AttrText, next: string) {
    && Without(a.name, WS + {'=', '/', '>'}) && Only(a.eq, WS + {'='}) && AllSpace(a.gap) && Stops(next, SPACES)
    && (a.name == "" ==> a.eq != "" && a.eq[0] == '=')
    && if a.q != "" then (a.q == "\"" || a.q == "'") && a.eq != "" && Without(a.raw, {a.q[0]})
       else
         && a.raw == ""
         && if a.eq != "" then Stops(a.gap + next, WS + {'=', '"', '\''})
            else a.gap == "" && (next == "" || next[0] == '/' || next[0] == '>')
  }

  /** Behind the name, equals signs and spaces are passed over. */
  lemma NameReads(name: string, eq: string, after: string)
    requires Without(name, WS + {'=', '/', '>'}) && eq != "" && Only(eq, WS + {'='}) && Stops(after, WS + {'='})
    requires name == "" ==> eq[0] == '='
    ensures var s := name + eq + after;
      s != "" && s[0] != '/' && s[0] != '>' && ReadAttr(s) == ReadValue(name, after)
  {
    hide ReadValue, Until, SpanOf;
    var s := name + eq + after;
    var r := eq + after;
    assert s == name + r && eq[0] in eq;
    UntilIs(name, r, WS + {'=', '/', '>'});
    assert s[..|name|] == name && s[|name|..] == r;
    assert r[0] == eq[0] && r[1..] == eq[1..] + after;
    SpanIs(eq[1..], after, WS + {'='});
    assert (eq[1..] + after)[|eq[1..]|..] == after;
    assert s[0] == if name == "" then eq[0] else name[0];
    assert name != "" ==> name[0] in name;
  }

  lemma ValueMeans(name: string, q: string, raw: string, gap: string, next: string)
    requires (q == "\"" || q == "'") && Without(raw, {q[0]}) && AllSpace(gap) && Stops(next, SPACES)
    ensures ReadValue(name, q + raw + q + gap + next)
         == if EndsInCr(raw) then Overruns else Found(Attr(name, CString(Decoded(raw, Attribute))), next)
    ensures Stops(q + raw + q + gap + next, WS + {'='})
  {
    hide EndsInCr, Decoded, CString, Skip, Until, AllSpace, Without;
    var tail := gap + next;
    ValueParts(q, raw, gap, next);
    UntilIs(raw, q + tail, {q[0]}) by {
      WithoutOne(raw, q[0]);
    }
    SkipIs(gap, next);
  }

  lemma WithoutOne(s: string, c: char)
    requires Without(s, {c})
    ensures forall d :: d in s ==> d !in {c}
  {
  }

  lemma ValueParts(q: string, raw: string, gap: string, next: string)
    requires q == "\"" || q == "'"
    ensures var v, tail := q + raw + q + gap + next, gap + next;
      && v != "" && v[0] == q[0] && v[1..] == raw + (q + tail)
      && v[1..][..|raw|] == raw && |raw| < |v[1..]| && v[1..][|raw| + 1..] == tail && (q + tail)[0] == q[0]
  {
    var tail := gap + next;
    assert q + raw + q + gap + next == q + (raw + (q + tail));
    assert (raw + (q + tail))[|raw| + 1..] == tail;
  }

  /** An attribute is read as what it means, in whichever quotation marks its value is; without them it has none. */
  lemma AttrMeans(a: AttrText, next: string)
    requires IsAttr(a, next)
    ensures var s := a.Spelled() + next;
      && s != "" && s[0] != '/' && s[0] != '>'
      && ReadAttr(s) == if a.q != "" && EndsInCr(a.raw) then Overruns else Found(a.Meant(), next)
  {
    hide EndsInCr, Decoded, CString, ReadAttr, Without, Only, AllSpace, Stops;
    if a.q != "" {
      QuotedMeans(a, next);
    } else if a.eq != "" {
      UnquotedMeans(a, next);
    } else {
      BareMeans(a.name, next);
      assert a.Spelled() == a.name;
    }
  }

  lemma QuotedMeans(a: AttrText, next: string)
    requires IsAttr(a, next) && a.q != ""
    ensures var s := a.Spelled() + next;
      && s != "" && s[0] != '/' && s[0] != '>'
      && ReadAttr(s) == if EndsInCr(a.raw) then Overruns else Found(a.Meant(), next)
  {
    hide EndsInCr, Decoded, CString, Skip, ReadValue, ReadAttr, Without, Only, AllSpace, Stops;
    var after := a.q + a.raw + a.q + a.gap + next;
    assert a.Spelled() + next == a.name + a.eq + after;
    ValueMeans(a.name, a.q, a.raw, a.gap, next);
    NameReads(a.name, a.eq, after);
  }

  lemma UnquotedMeans(a: AttrText, next: string)
    requires IsAttr(a, next) && a.q == "" && a.eq != ""
    ensures var s := a.Spelled() + next;
      s != "" && s[0] != '/' && s[0] != '>' && ReadAttr(s) == Found(a.Meant(), next)
  {
    assert Stops(a.gap + next, WS + {'='});
    hide Decoded, CString, Skip, ReadValue, ReadAttr, Without, Only, AllSpace, Stops;
    assert a.Spelled() + next == a.name + a.eq + (a.gap + next);
    NameReads(a.name, a.eq, a.gap + next);
    NoValue(a.name, a.gap, next);
  }

  lemma BareMeans(name: string, next: string)
    requires name != "" && Without(name, WS + {'=', '/', '>'}) && (next == "" || next[0] == '/' || next[0] == '>')
    ensures var s := name + next;
      s != "" && s[0] != '/' && s[0] != '>' && ReadAttr(s) == Found(Attr(name, ""), next)
  {
    hide ReadValue, Skip, Until, SpanOf;
    var s := name + next;
    assert s[0] == name[0] && name[0] in name;
    UntilIs(name, next, WS + {'=', '/', '>'});
    assert s[..|name|] == name && s[|name|..] == next;
    SkipIs("", next);
    assert "" + next == next;
  }

  lemma NoValue(name: string, gap: string, next: string)
    requires AllSpace(gap) && Stops(next, SPACES) && Stops(gap + next, WS + {'=', '"', '\''})
    ensures ReadValue(name, gap + next) == Found(Attr(name, ""), next)
  {
    SkipIs(gap, next);
  }

  /** Without its closing quotation mark a value is an error. */
  lemma UnclosedValue(name: string, eq: string, q: string, raw: string)
    requires Without(name, WS + {'=', '/', '>'}) && eq != "" && Only(eq, WS + {'='}) && (name == "" ==> eq[0] == '=')
    requires (q == "\"" || q == "'") && Without(raw, {q[0]})
    ensures ParseAttrs(name + eq + q + raw) == NoQuote(q[0])
  {
    hide ReadValue, ReadAttr, Without, Only, Stops, Prepended;
    UnclosedQuote(name, q, raw);
    NameReads(name, eq, q + raw);
    AssocConcat(name + eq, q, raw);
  }

  lemma UnclosedQuote(name: string, q: string, raw: string)
    requires (q == "\"" || q == "'") && Without(raw, {q[0]})
    ensures ReadValue(name, q + raw) == Unquoted(q[0]) && Stops(q + raw, WS + {'='})
  {
    hide EndsInCr, Decoded, CString, Skip;
    var after := q + raw;
    assert after[0] == q[0] && after[1..] == raw && raw + "" == raw;
    UntilIs(raw, "", {q[0]});
  }

  /** Whatever is read as an attribute is one. */
  lemma AttrSplits(s: string) returns (a: AttrText)
    requires s != "" && s[0] != '/' && s[0] != '>' && !IsSpace(s[0]) && ReadAttr(s).Found?
    ensures IsAttr(a, ReadAttr(s).rest) && s == a.Spelled() + ReadAttr(s).rest && ReadAttr(s).a == a.Meant()
    ensures a.q != "" ==> !EndsInCr(a.raw)
  {
    hide EndsInCr, Decoded, CString, Skip, ReadValue, IsAttr, Only, Stops, Without, Until, SpanOf, IsSpace;
    var n := Until(s, WS + {'=', '/', '>'});
    var name, r := s[..n], s[n..];
    NameSplits(s);
    if r != "" && (r[0] == '=' || IsSpace(r[0])) {
      var eq, v := EqSplits(r);
      AssocConcat(name, eq, v);
      assert ReadAttr(s) == ReadValue(name, v);
      a := ValueSplits(name, eq, v);
    } else {
      a := BareSplits(name, r);
      assert s == name + r;
    }
  }

  lemma NameSplits(s: string)
    requires s != "" && s[0] != '/' && s[0] != '>' && !IsSpace(s[0])
    ensures var n := Until(s, WS + {'=', '/', '>'});
      && Without(s[..n], WS + {'=', '/', '>'}) && s == s[..n] + s[n..]
      && (n == 0 ==> s[n..] != "" && s[n..][0] == '=')
      && (s[n..] != "" ==> s[n..][0] in WS + {'=', '/', '>'})
      && (s[n..] != "" && s[n..][0] != '=' && !IsSpace(s[n..][0]) ==> s[n..][0] == '/' || s[n..][0] == '>')
  {
    hide Until, Without;
    var n := Until(s, WS + {'=', '/', '>'});
    UntilSplits(s, WS + {'=', '/', '>'});
    Halves(s, n);
  }

  lemma EqSplits(r: string) returns (eq: string, v: string)
    requires r != "" && r[0] in WS + {'=', '/', '>'} && (r[0] == '=' || IsSpace(r[0]))
    ensures eq != "" && Only(eq, WS + {'='}) && Stops(v, WS + {'='}) && r == eq + v && eq[0] == r[0]
    ensures v == r[1..][SpanOf(r[1..], WS + {'='})..]
  {
    SpanSplits(r[1..], WS + {'='});
    var k := SpanOf(r[1..], WS + {'='});
    eq, v := [r[0]] + r[1..][..k], r[1..][k..];
  }

  lemma BareSplits(name: string, r: string) returns (a: AttrText)
    requires name + r != "" && Without(name, WS + {'=', '/', '>'}) && (r == "" || r[0] == '/' || r[0] == '>')
    requires name != ""
    ensures IsAttr(a, r) && a.Spelled() == name && a.Meant() == Attr(name, "") && a.q == "" && Skip(r) == r
  {
    SkipIs("", r);
    assert "" + r == r;
    a := AttrText(name, "", "", "", "");
  }

  lemma ValueSplits(name: string, eq: string, v: string) returns (a: AttrText)
    requires Without(name, WS + {'=', '/', '>'}) && eq != "" && Only(eq, WS + {'='}) && Stops(v, WS + {'='})
    requires (name == "" ==> eq[0] == '=') && ReadValue(name, v).Found?
    ensures var r := ReadValue(name, v);
      IsAttr(a, r.rest) && name + eq + v == a.Spelled() + r.rest && r.a == a.Meant()
    ensures a.q != "" ==> !EndsInCr(a.raw)
  {
    hide EndsInCr, Decoded, CString, Skip;
    if v != "" && (v[0] == '"' || v[0] == '\'') {
      a := QuotedSplits(name, eq, v);
    } else {
      hide Without, Only, AllSpace;
      var gap := SkipSplits(v);
      a := AttrText(name, eq, "", "", gap);
      assert a.Spelled() + Skip(v) == name + eq + v;
    }
  }

  lemma QuotedSplits(name: string, eq: string, v: string) returns (a: AttrText)
    requires Without(name, WS + {'=', '/', '>'}) && eq != "" && Only(eq, WS + {'='}) && (name == "" ==> eq[0] == '=')
    requires v != "" && (v[0] == '"' || v[0] == '\'') && ReadQuoted(name, v[0], v[1..]).Found?
    ensures var r := ReadQuoted(name, v[0], v[1..]);
      IsAttr(a, r.rest) && name + eq + v == a.Spelled() + r.rest && r.a == a.Meant()
    ensures a.q != "" && !EndsInCr(a.raw)
  {
    hide EndsInCr, Decoded, CString, Skip, Only, AllSpace, Stops;
    var q, m := [v[0]], Until(v[1..], {v[0]});
    var raw, tail := v[1..][..m], v[1..][m + 1..];
    var gap := SkipSplits(tail);
    a := AttrText(name, eq, q, raw, gap);
    hide Without, ReadQuoted, Until;
    CutAt(v, m);
    Grouped(name, eq, q, raw, gap, Skip(tail));
  }

  lemma CutAt(v: string, m: nat)
    requires v != "" && m < |v[1..]| && v[1..][m] == v[0]
    ensures v == [v[0]] + v[1..][..m] + [v[0]] + v[1..][m + 1..]
  {
  }

  lemma Grouped(name: string, eq: string, q: string, raw: string, gap: string, rest: string)
    ensures AttrText(name, eq, q, raw, gap).Spelled() + rest == name + eq + (q + raw + q + (gap + rest))
  {
    assert name + eq + q + raw + q + gap + rest == name + eq + (q + raw + q + gap + rest);
    assert q + raw + q + gap + rest == q + raw + q + (gap + rest);
  }

  // ----- lists of attributes -----

  function SpelledAttrs(ats: seq<AttrText>, tail: string): string {
    if ats == [] then tail else ats[0].Spelled() + SpelledAttrs(ats[1..], tail)
  }

  /** The attributes are followed by the end of the tag. */
  ghost predicate AreAttrs(ats: seq<AttrText>, tail: string) {
    if ats == [] then tail == "" || tail[0] == '/' || tail[0] == '>'
    else IsAttr(ats[0], SpelledAttrs(ats[1..], tail)) && AreAttrs(ats[1..], tail)
  }

  function MeantAttrs(ats: seq<AttrText>): seq<Attr> {
    if ats == [] then [] else [ats[0].Meant()] + MeantAttrs(ats[1..])
  }

  /** No value ends in a carriage return. */
  ghost predicate Quiet(ats: seq<AttrText>) {
    forall i :: 0 <= i < |ats| ==> ats[i].q == "" || !EndsInCr(ats[i].raw)
  }

  lemma {:induction false} AttrsMean(ats: seq<AttrText>, tail: string)
    requires AreAttrs(ats, tail)
    ensures ParseAttrs(SpelledAttrs(ats, tail)) == if Quiet(ats) then Attrs(MeantAttrs(ats), tail) else Overrun
    decreases |ats|
  {
    hide IsAttr, ReadAttr, EndsInCr;
    if ats != [] {
      AttrMeans(ats[0], SpelledAttrs(ats[1..], tail));
      AttrsMean(ats[1..], tail);
      assert Quiet(ats) <==> (ats[0].q == "" || !EndsInCr(ats[0].raw)) && Quiet(ats[1..]);
    }
  }

  lemma {:induction false} AttrsSplit(s: string) returns (ats: seq<AttrText>)
    requires ParseAttrs(s).Attrs? && Stops(s, SPACES)
    ensures var r := ParseAttrs(s);
      AreAttrs(ats, r.rest) && s == SpelledAttrs(ats, r.rest) && r.attr == MeantAttrs(ats) && Quiet(ats)
    decreases |s|
  {
    hide IsAttr, ReadAttr, EndsInCr, Stops;
    if s == "" || s[0] == '/' || s[0] == '>' {
      ats := [];
    } else {
      FirstNotSpace(s);
      var a := AttrSplits(s);
      var rest := ReadAttr(s).rest;
      StopsBehind(a, rest);
      var more := AttrsSplit(rest);
      ats := [a] + more;
      assert ats[1..] == more;
    }
  }

  lemma FirstNotSpace(s: string)
    requires Stops(s, SPACES) && s != ""
    ensures !IsSpace(s[0])
  {
  }

  lemma StopsBehind(a: AttrText, next: string)
    requires IsAttr(a, next)
    ensures Stops(next, SPACES)
  {
  }

  ghost predicate EndsAttrs(tail: string) { tail == "" || tail[0] == '/' || tail[0] == '>' }

  /** What comes behind the end of the tag does not matter. */
  lemma {:induction false} AnyTail(ats: seq<AttrText>, tail: string)
    requires EndsAttrs(tail)
    ensures SpelledAttrs(ats, tail) == SpelledAttrs(ats, "") + tail
    ensures AreAttrs(ats, tail) <==> AreAttrs(ats, "")
    ensures Stops(SpelledAttrs(ats, tail), SPACES) <==> Stops(SpelledAttrs(ats, ""), SPACES)
    decreases |ats|
  {
    hide IsAttr;
    if ats == [] {
      assert "" + tail == tail;
    } else {
      AnyTail(ats[1..], tail);
      assert ats[0].Spelled() + (SpelledAttrs(ats[1..], "") + tail) == SpelledAttrs(ats, "") + tail;
      AttrAnyTail(ats[0], SpelledAttrs(ats[1..], ""), tail);
    }
  }

  lemma AttrAnyTail(a: AttrText, next: string, tail: string)
    requires EndsAttrs(tail)
    ensures IsAttr(a, next + tail) <==> IsAttr(a, next)
    ensures Stops(a.Spelled() + (next + tail), SPACES) <==> Stops(a.Spelled() + next, SPACES)
  {
    if next == "" {
      assert next + tail == tail && a.gap + "" == a.gap;
    } else {
      assert (next + tail)[0] == next[0];
    }
    assert a.gap != "" ==> (a.gap + (next + tail))[0] == a.gap[0] && (a.gap + next)[0] == a.gap[0];
    assert a.gap == "" ==> a.gap + (next + tail) == next + tail && a.gap + next == next;
    var t := a.Spelled();
    assert t != "" ==> (t + (next + tail))[0] == t[0] && (t + next)[0] == t[0];
    assert t == "" ==> t + (next + tail) == next + tail && t + next == next;
  }

  // ----- markup -----

  /** Markup as it is written, from behind its '<'. The last character of a closing tag is a '>', or any character
      behind white space. */
  datatype Token =
    | Open(name: string, gap: string, ats: seq<AttrText>)
    | Empty(name: string, gap: string, ats: seq<AttrText>)
    | Close(name: string, gap: string, last: char)
    | Comment(t: string)
    | Chars(t: string)
  {
    /** All but the last character. */
    function Spelled(): string {
      match this
      case Open(name, gap, ats) => name + gap + SpelledAttrs(ats, "")
      case Empty(name, gap, ats) => name + gap + SpelledAttrs(ats, "") + "/"
      case Close(name, gap, _) => "/" + name + gap
      case Comment(t) => "!--" + t + "--"
      case Chars(t) => "![CDATA[" + t + "]]"
    }

    function Last(): char { if Close? then last else '>' }
  }

  ghost predicate IsTag(name: string, gap: string, ats: seq<AttrText>) {
    && name != "" && IsNameStart(name[0]) && Without(name, WS + {'/', '>'})
    && AllSpace(gap) && (if gap == "" then ats == [] else gap[0] in WS)
    && AreAttrs(ats, "") && Stops(SpelledAttrs(ats, ""), SPACES)
  }

  /** A token, possibly the last thing in the document. */
  ghost predicate IsToken(k: Token, final: bool) {
    match k
    case Open(name, gap, ats) => IsTag(name, gap, ats)
    case Empty(name, gap, ats) => IsTag(name, gap, ats)
    case Close(name, gap, last) =>
      Without(name, WS + {'>'}) && Only(gap, WS) && if gap == "" then last == '>' else final || last !in WS
    case Comment(t) => EndsWithFirst(t, "--")
    case Chars(t) => !final && EndsWithFirst(t, "]]>")
  }

  /** What is left before the character e behind the token: its last character and more, or nothing if that is e. */
  ghost predicate Follows(k: Token, tail: string, e: char) {
    IsToken(k, tail == "") && k.Last() == if tail == "" then e else tail[0]
  }

  /** What a token does to the open tags. */
  ghost function Effect(k: Token, st: State, tail: string): Step
    requires Fine(st)
  {
    match k
    case Open(name, _, ats) =>
      if st.Done? then Fail(MarkupOutsideRoot)
      else if !Quiet(ats) then Out
      else Next(Within(Above(st) + [Element(name, MeantAttrs(ats), "", Offset(st), [])]), tail)
    case Empty(name, _, ats) =>
      if st.Done? then Fail(MarkupOutsideRoot)
      else if !Quiet(ats) then Out
      else Next(Closed(Above(st), Element(name, MeantAttrs(ats), "", Offset(st), [])), tail)
    case Close(name, _, _) =>
      if st.Within? && st.open[|st.open| - 1].name == name then
        Next(Closed(st.open[..|st.open| - 1], st.open[|st.open| - 1]), tail)
      else Fail(UnexpectedClose(name))
    case Comment(_) => Next(st, tail)
    case Chars(t) =>
      if !st.Within? || t == "" then Next(st, tail)
      else if EndsInCr(t) then Out
      else
        var cur := st.open[|st.open| - 1];
        Next(Within(st.open[..|st.open| - 1] + [cur.(txt := cur.txt + CString(LineEnds(t)))]), tail)
  }

  /** A tag's name and white space are passed over, up to its attributes. */
  lemma TagNameReads(name: string, gap: string, more: string, st: State, e: char)
    requires Fine(st) && name != "" && IsNameStart(name[0]) && Without(name, WS + {'/', '>'}) && AllSpace(gap)
    requires (if gap == "" then EndsAttrs(more) else gap[0] in WS) && Stops(more, SPACES)
    ensures var s := name + gap + more;
      && Markup(s, st, e) == MarkupTag(s, st, e)
      && var n := Until(s, WS + {'/', '>'}); s[..n] == name && Skip(s[n..]) == more
  {
    hide MarkupTag, Skip;
    var s := name + gap + more;
    var rest := gap + more;
    assert s == name + rest && s[0] == name[0];
    assert rest == "" || rest[0] in WS + {'/', '>'} by {
      assert if gap == "" then rest == more else rest[0] == gap[0];
    }
    UntilIs(name, rest, WS + {'/', '>'});
    assert s[..|name|] == name && s[|name|..] == rest;
    SkipIs(gap, more);
  }

  lemma OpenReads(k: Token, tail: string, st: State, e: char)
    requires k.Open? && Follows(k, tail, e) && Fine(st)
    ensures Markup(k.Spelled() + tail, st, e) == Effect(k, st, tail)
  {
    hide Skip, Markup, ParseAttrs, Until, Without, AllSpace, Stops, AreAttrs, Quiet, OpenTag, CloseTag;
    var more := SpelledAttrs(k.ats, tail);
    AnyTail(k.ats, tail);
    assert k.Spelled() + tail == k.name + k.gap + more;
    NothingLeft(k.ats, tail);
    TagNameReads(k.name, k.gap, more, st, e);
    AttrsMean(k.ats, tail);
    if !st.Done? {
      Opened(k.name, MeantAttrs(k.ats), st);
    }
  }

  lemma NothingLeft(ats: seq<AttrText>, tail: string)
    ensures ats == [] ==> SpelledAttrs(ats, tail) == tail
  {
  }

  lemma Opened(name: string, attr: seq<Attr>, st: State)
    requires Fine(st) && !st.Done?
    ensures OpenTag(st, name, attr) == Within(Above(st) + [Element(name, attr, "", Offset(st), [])])
  {
  }

  lemma EmptyReads(k: Token, tail: string, st: State, e: char)
    requires k.Empty? && Follows(k, tail, e) && Fine(st)
    ensures Markup(k.Spelled() + tail, st, e) == Effect(k, st, tail)
  {
    hide Skip, Markup, ParseAttrs, Closed, Until;
    var more := SpelledAttrs(k.ats, "/" + tail);
    AnyTail(k.ats, "/" + tail);
    assert k.Spelled() + tail == k.name + k.gap + more;
    TagNameReads(k.name, k.gap, more, st, e);
    AttrsMean(k.ats, "/" + tail);
    assert ("/" + tail)[1..] == tail;
    if !st.Done? {
      var x := Element(k.name, MeantAttrs(k.ats), "", Offset(st), []);
      var st' := OpenTag(st, k.name, MeantAttrs(k.ats));
      assert st' == Within(Above(st) + [x]);
      assert st'.open[..|st'.open| - 1] == Above(st);
    }
  }

  lemma CloseReads(k: Token, tail: string, st: State, e: char)
    requires k.Close? && Follows(k, tail, e) && Fine(st)
    ensures Markup(k.Spelled() + tail, st, e) == Effect(k, st, tail)
  {
    hide Closed, Until, SpanOf, Without, Only, Markup, CanClose, CloseTag;
    CloseIsRead(k.name, k.gap, tail);
    CloseGoesOn(k.name, k.gap, tail, st, e);
    assert k.Spelled() + tail == "/" + k.name + k.gap + tail;
  }

  lemma CloseGoesOn(name: string, gap: string, tail: string, st: State, e: char)
    requires Fine(st) && (tail == "" && gap == "" ==> e == '>')
    requires var s := "/" + name + gap + tail;
      && "/" <= s && !IsNameStart(s[0])
      && var n := Until(s[1..], WS + {'>'});
        && s[1..][..n] == name && s[1..][n..] == gap + tail
        && (gap + tail)[SpanOf(gap + tail, WS)..] == tail
    ensures Markup("/" + name + gap + tail, st, e) ==
      if st.Within? && st.open[|st.open| - 1].name == name then
        Next(Closed(st.open[..|st.open| - 1], st.open[|st.open| - 1]), tail)
      else Fail(UnexpectedClose(name))
  {
    hide Closed, Until, SpanOf, IsNameStart;
    var s := "/" + name + gap + tail;
    assert gap + tail == "" ==> tail == "" && gap == "";
    assert Markup(s, st, e) == MarkupClose(s, st, e);
  }

  lemma CloseIsRead(name: string, gap: string, tail: string)
    requires Without(name, WS + {'>'}) && Only(gap, WS) && (gap == "" ==> EndsAttrs(tail) && !("/" <= tail))
    requires Stops(tail, WS)
    ensures var s := "/" + name + gap + tail;
      && "/" <= s && !IsNameStart(s[0])
      && var n := Until(s[1..], WS + {'>'});
        && s[1..][..n] == name && s[1..][n..] == gap + tail
        && (gap + tail)[SpanOf(gap + tail, WS)..] == tail
  {
    var s := "/" + name + gap + tail;
    var rest := gap + tail;
    assert s[1..] == name + rest;
    assert rest == "" || rest[0] in WS + {'>'} by {
      assert if gap == "" then rest == tail else rest[0] == gap[0] && gap[0] in gap;
    }
    UntilIs(name, rest, WS + {'>'});
    assert s[1..][..|name|] == name && s[1..][|name|..] == rest;
    SpanIs(gap, tail, WS);
    assert rest[|gap|..] == tail;
  }

  lemma CommentReads(k: Token, tail: string, st: State, e: char)
    requires k.Comment? && Follows(k, tail, e) && Fine(st)
    ensures Markup(k.Spelled() + tail, st, e) == Effect(k, st, tail)
  {
    hide FindSub, MarkupTag, EndsWithFirst;
    var s := k.Spelled() + tail;
    CommentFound(k.t, tail);
    assert s == "!--" + k.t + "--" + tail;
    assert !IsNameStart('!');
  }

  lemma CommentFound(t: string, tail: string)
    requires EndsWithFirst(t, "--")
    ensures var s := "!--" + t + "--" + tail;
      && "!--" <= s && s[0] == '!' && !("/" <= s)
      && |s[3..]| > |t| && FindSub(s[3..], "--") == |t| && s[3..][|t|..][2..] == tail
  {
    hide FindSub;
    var s := "!--" + t + "--" + tail;
    assert s[3..] == t + "--" + tail;
    FindSubIs(t, "--", tail);
    assert s[3..][|t|..] == "--" + tail && ("--" + tail)[2..] == tail;
  }

  lemma CharsRead(k: Token, tail: string, st: State, e: char)
    requires k.Chars? && Follows(k, tail, e) && Fine(st)
    ensures Markup(k.Spelled() + tail, st, e) == Effect(k, st, tail)
  {
    hide FindSub, EndsInCr, CString, LineEnds, Markup, EndsWithFirst, DecodeFrom;
    CharsFound(k.t, tail, st, e);
    CdataUndecoded(LineEnds(k.t));
  }

  lemma CharsFound(t: string, tail: string, st: State, e: char)
    requires Fine(st) && EndsWithFirst(t, "]]>") && tail != "" && tail[0] == '>'
    ensures Markup("![CDATA[" + t + "]]" + tail, st, e)
         == if TextOverruns(st, t) then Out else Next(AddText(st, t, Cdata), tail)
  {
    hide FindSub, TextOverruns, AddText, IsNameStart;
    var s := "![CDATA[" + t + "]]" + tail;
    CharsParts(t, tail);
    FindSubIs(t, "]]>", tail[1..]);
    assert !IsNameStart('!') by {
      NoNameStart();
    }
  }

  lemma NoNameStart()
    ensures !IsNameStart('!') && !IsNameStart('/')
  {
  }

  lemma CharsParts(t: string, tail: string)
    requires tail != "" && tail[0] == '>'
    ensures var s := "![CDATA[" + t + "]]" + tail;
      && s[8..] == t + "]]>" + tail[1..] && s[8..][..|t|] == t && s[8..][|t|..] == "]]" + tail
      && ("]]" + tail)[2..] == tail && |t| < |s[8..]|
      && s[0] == '!' && "![CDATA[" <= s && !("/" <= s) && !("!--" <= s)
  {
    var s := "![CDATA[" + t + "]]" + tail;
    assert tail == ">" + tail[1..];
    assert s[8..] == t + ("]]" + tail);
    assert "]]" + tail == "]]>" + tail[1..];
    assert s[1] == '[';
  }

  /** A token does what it is to do. */
  lemma TokenReads(k: Token, tail: string, st: State, e: char)
    requires Follows(k, tail, e) && Fine(st)
    ensures Markup(k.Spelled() + tail, st, e) == Effect(k, st, tail)
  {
    hide Markup, Effect, Follows;
    match k {
      case Open(_, _, _) => {
        OpenReads(k, tail, st, e);
      }
      case Empty(_, _, _) => {
        EmptyReads(k, tail, st, e);
      }
      case Close(_, _, _) => {
        CloseReads(k, tail, st, e);
      }
      case Comment(_) => {
        CommentReads(k, tail, st, e);
      }
      case Chars(_) => {
        CharsRead(k, tail, st, e);
      }
    }
  }

  // ----- whatever is read as markup is a token -----

  lemma TagParts(s: string) returns (name: string, gap: string, ats: seq<AttrText>)
    requires s != "" && IsNameStart(s[0]) && ParseAttrs(Skip(s[Until(s, WS + {'/', '>'})..])).Attrs?
    ensures var rest := ParseAttrs(Skip(s[Until(s, WS + {'/', '>'})..])).rest;
      IsTag(name, gap, ats) && EndsAttrs(rest) && s == name + gap + (SpelledAttrs(ats, "") + rest)
  {
    hide Skip, ParseAttrs, AreAttrs, Stops, IsNameStart, Without, AllSpace, SpelledAttrs, Until;
    var n := Until(s, WS + {'/', '>'});
    name := s[..n];
    gap := SkipSplits(s[n..]);
    var more := Skip(s[n..]);
    ats := AttrsSplit(more);
    var rest := ParseAttrs(more).rest;
    AnyTail(ats, rest);
    NameFirst(s, n);
    GapFirst(s, n, gap, more, ats, rest);
    InThree(s, n, gap, more);
  }

  lemma InThree(s: string, n: nat, gap: string, more: string)
    requires n <= |s| && s[n..] == gap + more
    ensures s == s[..n] + gap + more
  {
    assert s == s[..n] + s[n..];
  }

  lemma TagSplits(s: string, st: State, e: char) returns (k: Token)
    requires Fine(st) && s != "" && IsNameStart(s[0]) && MarkupTag(s, st, e).Next?
    ensures var tail := MarkupTag(s, st, e).rest; Follows(k, tail, e) && s == k.Spelled() + tail
  {
    hide Skip, ParseAttrs, OpenTag, CloseTag, CanClose, IsTag, IsNameStart;
    var name, gap, ats := TagParts(s);
    var rest := ParseAttrs(Skip(s[Until(s, WS + {'/', '>'})..])).rest;
    hide Until, SpelledAttrs;
    if rest != "" && rest[0] == '/' {
      k := Empty(name, gap, ats);
      Regrouped(name, gap, SpelledAttrs(ats, ""), rest[1..]);
      assert rest == "/" + rest[1..];
    } else {
      k := Open(name, gap, ats);
      Regrouped(name, gap, SpelledAttrs(ats, ""), rest);
    }
  }

  lemma Regrouped(a: string, b: string, c: string, d: string)
    ensures a + b + (c + ("/" + d)) == a + b + c + "/" + d && a + b + (c + d) == a + b + c + d
  {
    assert c + ("/" + d) == c + "/" + d;
  }

  lemma NameFirst(s: string, n: nat)
    requires s != "" && IsNameStart(s[0]) && n == Until(s, WS + {'/', '>'})
    ensures n > 0 && s[..n][0] == s[0] && Without(s[..n], WS + {'/', '>'})
  {
  }

  lemma GapFirst(s: string, n: nat, gap: string, more: string, ats: seq<AttrText>, rest: string)
    requires n == Until(s, WS + {'/', '>'}) && s[n..] == gap + more && AllSpace(gap) && Stops(more, SPACES)
    requires more == SpelledAttrs(ats, rest) && AreAttrs(ats, rest)
    ensures if gap == "" then ats == [] else gap[0] in WS
  {
    hide IsAttr;
    if gap == "" {
      assert s[n..] == more;
      assert more != "" ==> more[0] == s[n];
      if ats != [] {
        AttrStarts(ats[0], SpelledAttrs(ats[1..], rest));
      }
    } else {
      assert gap[0] == s[n..][0] == s[n] && gap[0] in gap;
    }
  }

  lemma AttrStarts(a: AttrText, next: string)
    requires IsAttr(a, next)
    ensures var s := a.Spelled() + next; s != "" && s[0] !in {'/', '>'}
  {
    var s := a.Spelled() + next;
    if a.name != "" {
      assert s[0] == a.name[0] && a.name[0] in a.name;
    } else {
      assert s[0] == a.eq[0];
    }
  }

  lemma CloseSplits(s: string, st: State, e: char) returns (k: Token)
    requires Fine(st) && "/" <= s && MarkupClose(s, st, e).Next?
    ensures var tail := MarkupClose(s, st, e).rest; Follows(k, tail, e) && s == k.Spelled() + tail
  {
    hide CloseTag, CanClose, SpanOf, Until, Only, Without;
    var n := Until(s[1..], WS + {'>'});
    var rest := s[1..][n..];
    var m := SpanOf(rest, WS);
    CloseParts(s);
    LastOfClose(rest, m, e);
    k := Close(s[1..][..n], rest[..m], if rest[m..] == "" then e else rest[m..][0]);
  }

  lemma CloseParts(s: string)
    requires "/" <= s
    ensures var n := Until(s[1..], WS + {'>'});
      var rest := s[1..][n..];
      var m := SpanOf(rest, WS);
      && Without(s[1..][..n], WS + {'>'}) && Only(rest[..m], WS) && Stops(rest[m..], WS)
      && s == "/" + s[1..][..n] + rest[..m] + rest[m..] && (rest != "" ==> rest[0] in WS + {'>'})
  {
    hide Without, Only, Stops, Until, SpanOf;
    var t := s[1..];
    var n := Until(t, WS + {'>'});
    var rest := t[n..];
    var m := SpanOf(rest, WS);
    UntilSplits(t, WS + {'>'});
    SpanSplits(rest, WS);
    Halves(rest, m);
    InThree(t, n, rest[..m], rest[m..]);
    assert s == "/" + t;
    InFour("/", t[..n], rest[..m], rest[m..]);
  }

  lemma Halves(s: string, n: nat)
    requires n <= |s|
    ensures s == s[..n] + s[n..]
  {
  }

  lemma InFour(a: string, b: string, c: string, d: string)
    ensures a + (b + c + d) == a + b + c + d
  {
  }

  lemma UntilSplits(s: string, stop: set<char>)
    ensures Without(s[..Until(s, stop)], stop)
  {
  }

  lemma LastOfClose(rest: string, m: nat, e: char)
    requires m <= |rest| && Stops(rest[m..], WS) && (rest == "" ==> e == '>') && (rest != "" ==> rest[0] in WS + {'>'})
    ensures var last := if rest[m..] == "" then e else rest[m..][0];
      if rest[..m] == "" then last == '>' else rest[m..] == "" || last !in WS
  {
    assert rest[..m] == "" ==> rest[m..] == rest;
  }

  /** A text up to and with the first occurrence of another. */
  lemma {:induction false} FindSubSplits(s: string, sub: string)
    requires sub != "" && FindSub(s, sub) < |s|
    ensures var n := FindSub(s, sub);
      EndsWithFirst(s[..n], sub) && n + |sub| <= |s| && s[n..][..|sub|] == sub
    decreases |s|
  {
    var n := FindSub(s, sub);
    if n > 0 {
      FindSubSplits(s[1..], sub);
      assert s[1..][n - 1..] == s[n..];
      hide FindSub;
      FirstMoves(s, n, sub);
    }
  }

  lemma FirstMoves(s: string, n: nat, sub: string)
    requires 0 < n && n + |sub| <= |s| && s[n..][..|sub|] == sub && !(sub <= s) && EndsWithFirst(s[1..][..n - 1], sub)
    ensures EndsWithFirst(s[..n], sub)
  {
    var t, u := s[..n] + sub, s[1..][..n - 1] + sub;
    assert t == s[..n + |sub|];
    assert t[1..] == u;
    forall k | 0 <= k < n ensures !(sub <= t[k..]) {
      if k == 0 {
        assert t[0..] == t <= s;
      } else {
        assert t[k..] == u[k - 1..];
      }
    }
  }

  lemma CommentSplits(s: string, st: State, e: char) returns (k: Token)
    requires Fine(st) && "!--" <= s && MarkupComment(s, st, e).Next?
    ensures var tail := MarkupComment(s, st, e).rest; Follows(k, tail, e) && s == k.Spelled() + tail
  {
    hide FindSub;
    var n := FindSub(s[3..], "--");
    FindSubSplits(s[3..], "--");
    k := Comment(s[3..][..n]);
    var tail := s[3..][n..][2..];
    assert s[3..][n..] == "--" + tail;
    InThree(s[3..], n, "--", tail);
    assert s == "!--" + s[3..];
  }

  lemma CharsSplit(s: string, st: State) returns (k: Token)
    requires Fine(st) && "![CDATA[" <= s && MarkupCdata(s, st).Next?
    ensures var tail := MarkupCdata(s, st).rest;
      tail != "" && tail[0] == '>' && IsToken(k, false) && k.Last() == '>' && s == k.Spelled() + tail
  {
    hide FindSub, AddText, TextOverruns;
    var n := FindSub(s[8..], "]]>");
    FindSubSplits(s[8..], "]]>");
    k := Chars(s[8..][..n]);
    var tail := s[8..][n..][2..];
    assert s[8..][n..][..3] == "]]>" && tail[0] == s[8..][n..][2];
    assert s[8..][n..] == "]]" + tail;
    InThree(s[8..], n, "]]", tail);
    assert s == "![CDATA[" + s[8..];
  }

  /** Whatever is read as markup is a token, which does what it is to do. */
  lemma TokenSplits(s: string, st: State, e: char) returns (k: Token)
    requires Fine(st) && Markup(s, st, e).Next?
    ensures var r := Markup(s, st, e); Follows(k, r.rest, e) && s == k.Spelled() + r.rest && r == Effect(k, st, r.rest)
  {
    hide MarkupTag, MarkupClose, MarkupComment, MarkupCdata, IsNameStart, Effect, IsToken;
    if s != "" && IsNameStart(s[0]) {
      k := TagSplits(s, st, e);
    } else if "/" <= s {
      k := CloseSplits(s, st, e);
    } else if "!--" <= s {
      k := CommentSplits(s, st, e);
    } else {
      k := CharsSplit(s, st);
    }
    TokenReads(k, Markup(s, st, e).rest, st, e);
  }

  // ----- documents -----

  /** A token and the text behind it. */
  datatype Piece = Piece(k: Token, text: string)

  function Written(ps: seq<Piece>): string {
    if ps == [] then ""
    else ps[0].k.Spelled() + [ps[0].k.Last()] + ps[0].text + if |ps| == 1 then "" else "<" + Written(ps[1..])
  }

  /** There is no '<' in the texts, except that the document may end in one. */
  ghost predicate ArePieces(ps: seq<Piece>)
    decreases |ps|
  {
    && ps != []
    && if |ps| == 1 then
         IsToken(ps[0].k, ps[0].text == "") && (ps[0].text != "" ==> Without(ps[0].text[..|ps[0].text| - 1], {'<'}))
       else IsToken(ps[0].k, false) && Without(ps[0].text, {'<'}) && ArePieces(ps[1..])
  }

  /** The names of the open tags after a token. */
  function NamesAfter(k: Token, open: seq<string>): seq<string> {
    match k
    case Open(name, _, _) => open + [name]
    case Close(_, _, _) => if open == [] then [] else open[..|open| - 1]
    case _ => open
  }

  /** A tag may not come behind the root; a closing tag has to name the tag that was opened last; and no value or cdata
      section that is read ends in a carriage return. */
  ghost predicate IsAllowed(k: Token, open: seq<string>, begun: bool) {
    match k
    case Open(_, _, ats) => (begun ==> open != []) && Quiet(ats)
    case Empty(_, _, ats) => (begun ==> open != []) && Quiet(ats)
    case Close(name, _, _) => open != [] && open[|open| - 1] == name
    case Comment(_) => true
    case Chars(t) => open != [] && t != "" ==> !EndsInCr(t)
  }

  function BegunAfter(k: Token, begun: bool): bool { begun || k.Open? || k.Empty? }

  /** The tags nest by name, and in the end there has been one and all are closed; and no text within tags that is read
      ends in a carriage return. */
  ghost predicate Nest(ps: seq<Piece>, open: seq<string>, begun: bool)
    decreases |ps|
  {
    if ps == [] then begun && open == []
    else
      var open' := NamesAfter(ps[0].k, open);
      && IsAllowed(ps[0].k, open, begun)
      && (|ps| > 1 && open' != [] && ps[0].text != "" ==> !EndsInCr(ps[0].text))
      && Nest(ps[1..], open', BegunAfter(ps[0].k, begun))
  }

  function NamesOf(open: seq<Element>): (names: seq<string>)
    ensures |names| == |open|
  {
    seq(|open|, i requires 0 <= i < |open| => open[i].name)
  }

  function Names(st: State): seq<string> { if st.Within? then NamesOf(st.open) else [] }

  lemma ClosedNames(open: seq<Element>, x: Element)
    ensures Names(Closed(open, x)) == NamesOf(open) && !Closed(open, x).Before?
  {
    if open != [] {
      var open' := open[..|open| - 1] + [Top(open).(kids := AddKid(Top(open).kids, x))];
      assert NamesOf(open') == NamesOf(open);
    }
  }

  /** A token goes on exactly if it is allowed. */
  lemma EffectNames(k: Token, st: State, tail: string)
    requires Fine(st)
    ensures Effect(k, st, tail).Next? <==> IsAllowed(k, Names(st), !st.Before?)
    ensures Effect(k, st, tail).Next? ==>
      var r := Effect(k, st, tail);
      Fine(r.st) && r.rest == tail && Names(r.st) == NamesAfter(k, Names(st))
      && (r.st.Before? <==> !BegunAfter(k, !st.Before?))
  {
    hide EndsInCr, CString, LineEnds, Quiet, Closed, AddKid;
    match k {
      case Open(name, _, ats) => {
        assert NamesOf(Above(st) + [Element(name, MeantAttrs(ats), "", Offset(st), [])]) == Names(st) + [name];
      }
      case Empty(name, _, ats) => {
        ClosedNames(Above(st), Element(name, MeantAttrs(ats), "", Offset(st), []));
        assert NamesOf(Above(st)) == Names(st);
      }
      case Close(name, _, _) => {
        if st.Within? {
          ClosedNames(st.open[..|st.open| - 1], st.open[|st.open| - 1]);
          assert NamesOf(st.open[..|st.open| - 1]) == Names(st)[..|st.open| - 1];
        }
      }
      case Comment(_) =>
      case Chars(t) => {
        if st.Within? && t != "" {
          var cur := st.open[|st.open| - 1];
          var open' := st.open[..|st.open| - 1] + [cur.(txt := cur.txt + CString(LineEnds(t)))];
          assert NamesOf(open') == NamesOf(st.open);
        }
      }
    }
  }

  lemma TextNames(st: State, t: string)
    requires Fine(st)
    ensures Names(AddText(st, t, Text)) == Names(st) && (AddText(st, t, Text).Before? <==> st.Before?)
  {
    hide CString, Decoded;
    if st.Within? && t != "" {
      assert NamesOf(AddText(st, t, Text).open) == NamesOf(st.open);
    }
  }

  lemma FinishedNames(st: State)
    requires Fine(st)
    ensures Finish(st).Parsed? <==> !st.Before? && Names(st) == []
    ensures !st.Before? && Names(st) == [] ==> st.Done? && Finish(st) == Parsed(st.root)
  {
  }

  /** What is parsed without an error are pieces whose tags nest. */
  lemma {:induction false} ParsedSplits(s: string, st: State, e: char) returns (ps: seq<Piece>)
    requires Fine(st) && Tags(s, st, e).Parsed?
    ensures ArePieces(ps) && Written(ps) == s + [e] && Nest(ps, Names(st), !st.Before?)
    decreases |s|
  {
    hide Markup, Effect, AddText, Finish, EndsInCr, IsToken, IsAllowed;
    var k := TokenSplits(s, st, e);
    var st', rest := Markup(s, st, e).st, Markup(s, st, e).rest;
    EffectNames(k, st, rest);
    var n := if rest == "" then 0 else Until(rest[1..], {'<'});
    if |rest| <= 1 || n == |rest[1..]| {
      FinishedNames(st');
      ps := LastPiece(s, k, rest, e);
      assert ps[1..] == [];
    } else {
      var text, more := rest[1..][..n], rest[1..][n + 1..];
      TextNames(st', text);
      var qs := ParsedSplits(more, AddText(st', text, Text), e);
      ps := [Piece(k, text)] + qs;
      assert ps[1..] == qs;
      UntilSplits(rest[1..], {'<'});
      MorePieces(s, k, rest, n, qs, e);
      assert TextOverruns(st', text) <==> Names(st') != [] && text != "" && EndsInCr(text);
    }
  }

  lemma LastPiece(s: string, k: Token, rest: string, e: char) returns (ps: seq<Piece>)
    requires Follows(k, rest, e) && s == k.Spelled() + rest
    requires |rest| <= 1 || Until(rest[1..], {'<'}) == |rest[1..]|
    ensures |ps| == 1 && ps[0].k == k && ArePieces(ps) && Written(ps) == s + [e]
  {
    hide IsToken, Until, Without;
    var text := if rest == "" then "" else rest[1..] + [e];
    ps := [Piece(k, text)];
    if rest == "" {
      assert s == k.Spelled();
      assert Written(ps) == s + [e] + "" + "";
    } else {
      UntilSplits(rest[1..], {'<'});
      NothingAfter(rest[1..], e);
      assert rest == [k.Last()] + rest[1..];
      Rebuilt(k.Spelled(), k.Last(), rest[1..], e);
      assert Written(ps) == k.Spelled() + [k.Last()] + text + "";
    }
  }

  lemma NothingAfter(t: string, e: char)
    requires Until(t, {'<'}) == |t|
    ensures Without(t, {'<'}) && (t + [e])[..|t + [e]| - 1] == t && t + [e] != ""
  {
    assert t[..|t|] == t;
  }

  lemma Rebuilt(a: string, c: char, t: string, e: char)
    ensures a + [c] + (t + [e]) == a + ([c] + t) + [e]
  {
  }

  lemma MorePieces(s: string, k: Token, rest: string, n: nat, qs: seq<Piece>, e: char)
    requires rest != "" && n < |rest[1..]| && rest[1..][n] == '<' && rest[0] == k.Last() && s == k.Spelled() + rest
    requires qs != [] && Written(qs) == rest[1..][n + 1..] + [e]
    ensures Written([Piece(k, rest[1..][..n])] + qs) == s + [e]
  {
    hide Written;
    var text, more := rest[1..][..n], rest[1..][n + 1..];
    var ps := [Piece(k, text)] + qs;
    assert ps[1..] == qs;
    WrittenIs(ps);
    assert rest == [k.Last()] + rest[1..] && rest[1..] == text + "<" + more;
    Joined(k.Spelled(), k.Last(), text, more, e);
  }

  lemma WrittenIs(ps: seq<Piece>)
    requires |ps| > 1
    ensures Written(ps) == ps[0].k.Spelled() + [ps[0].k.Last()] + ps[0].text + ("<" + Written(ps[1..]))
  {
  }

  lemma Joined(a: string, c: char, t: string, more: string, e: char)
    ensures a + [c] + t + ("<" + (more + [e])) == a + ([c] + (t + "<" + more)) + [e]
  {
    assert a + [c] + t + ("<" + (more + [e])) == a + ([c] + (t + ("<" + more))) + [e];
  }

  /** What the pieces make of the open tags, one after the other; text behind the last one is dropped. */
  ghost function Built(ps: seq<Piece>, st: State): State
    requires Fine(st)
    decreases |ps|
  {
    if ps == [] || !Effect(ps[0].k, st, "").Next? then st
    else
      EffectNames(ps[0].k, st, "");
      var st' := Effect(ps[0].k, st, "").st;
      if |ps| == 1 then st' else Built(ps[1..], WithText(st', ps[0].text))
  }

  lemma SameEffect(k: Token, st: State, tail: string)
    requires Fine(st)
    ensures var r, r' := Effect(k, st, tail), Effect(k, st, "");
      (r.Next? <==> r'.Next?) && (r.Next? ==> r.st == r'.st && r.rest == tail)
  {
    hide EndsInCr, CString, LineEnds, Quiet, Closed;
  }

  lemma BuiltStep(ps: seq<Piece>, st: State, tail: string)
    requires Fine(st) && ps != [] && Effect(ps[0].k, st, tail).Next?
    ensures var st' := Effect(ps[0].k, st, tail).st;
      Fine(st') && Built(ps, st) == if |ps| == 1 then st' else Built(ps[1..], WithText(st', ps[0].text))
  {
    hide Effect, WithText;
    EffectNames(ps[0].k, st, tail);
    SameEffect(ps[0].k, st, tail);
  }

  /** Pieces whose tags nest are parsed, as what they make one after the other. */
  lemma {:induction false} PiecesAreParsed(ps: seq<Piece>, s: string, st: State, e: char)
    requires Fine(st) && ArePieces(ps) && Written(ps) == s + [e] && Nest(ps, Names(st), !st.Before?)
    ensures Built(ps, st).Done? && Tags(s, st, e) == Parsed(Built(ps, st).root)
    decreases |ps|
  {
    hide Written, Tags, Built;
    if |ps| == 1 {
      LastIsParsed(ps, s, st, e);
    } else {
      var st', more := MoreIsParsed(ps, s, st, e);
      PiecesAreParsed(ps[1..], more, st', e);
    }
  }

  lemma {:induction false} LastIsParsed(ps: seq<Piece>, s: string, st: State, e: char)
    requires Fine(st) && |ps| == 1 && ArePieces(ps) && Written(ps) == s + [e] && Nest(ps, Names(st), !st.Before?)
    ensures Built(ps, st).Done? && Tags(s, st, e) == Parsed(Built(ps, st).root)
  {
    hide Markup, Effect, AddText, Finish, EndsInCr, IsToken, IsAllowed, Written, Until, Built;
    var k := ps[0].k;
    var rest := LastRest(ps, s, e);
    TokenReads(k, rest, st, e);
    EffectNames(k, st, rest);
    BuiltStep(ps, st, rest);
    FinishedNames(Markup(s, st, e).st);
    assert ps[1..] == [];
  }

  lemma MoreIsParsed(ps: seq<Piece>, s: string, st: State, e: char) returns (st2: State, more: string)
    requires Fine(st) && |ps| > 1 && ArePieces(ps) && Written(ps) == s + [e] && Nest(ps, Names(st), !st.Before?)
    ensures Fine(st2) && Written(ps[1..]) == more + [e] && Nest(ps[1..], Names(st2), !st2.Before?)
    ensures Tags(s, st, e) == Tags(more, st2, e) && Built(ps, st) == Built(ps[1..], st2)
  {
    hide Markup, Effect, AddText, Finish, EndsInCr, IsToken, IsAllowed, Written, Built;
    var k, text := ps[0].k, ps[0].text;
    more := MoreRest(ps, s, e);
    var rest := [k.Last()] + text + "<" + more;
    TokenReads(k, rest, st, e);
    EffectNames(k, st, rest);
    BuiltStep(ps, st, rest);
    var st' := Markup(s, st, e).st;
    TextNames(st', text);
    st2 := AddText(st', text, Text);
    assert TextOverruns(st', text) <==> Names(st') != [] && text != "" && EndsInCr(text);
    OnwardReads(k.Last(), text, more, st', e);
    assert WithText(st', text) == AddText(st', text, Text) by {
      TextIsAdded(st', text);
    }
  }

  /** Text is decoded and appended to that of the tag that was opened last; outside of tags it is dropped. */
  function WithText(st: State, text: string): State
    requires Fine(st)
  {
    if !st.Within? || text == "" then st
    else
      var n := |st.open| - 1;
      Within(st.open[..n] + [st.open[n].(txt := st.open[n].txt + CString(Decoded(text, Text)))])
  }

  lemma TextIsAdded(st: State, text: string)
    requires Fine(st)
    ensures WithText(st, text) == AddText(st, text, Text)
  {
  }

  /** Behind a token the text up to the next '<' is added. */
  lemma OnwardReads(c: char, text: string, more: string, st: State, e: char)
    requires Fine(st) && Without(text, {'<'}) && (st.Within? && text != "" ==> !EndsInCr(text))
    ensures Fine(WithText(st, text))
    ensures Onward([c] + text + "<" + more, st, e) == Tags(more, WithText(st, text), e)
  {
    TextIsAdded(st, text);
    hide Tags, AddText, WithText, EndsInCr;
    var rest := [c] + text + "<" + more;
    assert rest[1..] == text + ("<" + more);
    UntilIs(text, "<" + more, {'<'});
    assert rest[1..][..|text|] == text && rest[1..][|text| + 1..] == more;
  }

  lemma LastRest(ps: seq<Piece>, s: string, e: char) returns (rest: string)
    requires |ps| == 1 && ArePieces(ps) && Written(ps) == s + [e]
    ensures Follows(ps[0].k, rest, e) && s == ps[0].k.Spelled() + rest
    ensures |rest| <= 1 || Until(rest[1..], {'<'}) == |rest[1..]|
  {
    hide IsToken;
    var k, text := ps[0].k, ps[0].text;
    var all := k.Spelled() + [k.Last()] + text;
    assert Written(ps) == all;
    assert s == all[..|all| - 1] && e == all[|all| - 1];
    if text == "" {
      rest := "";
      assert s == k.Spelled();
    } else {
      var init := text[..|text| - 1];
      rest := [k.Last()] + init;
      assert s == k.Spelled() + rest && rest[1..] == init;
      UntilIs(init, "", {'<'});
      assert init + "" == init;
    }
  }

  lemma MoreRest(ps: seq<Piece>, s: string, e: char) returns (more: string)
    requires |ps| > 1 && ArePieces(ps) && Written(ps) == s + [e]
    ensures Written(ps[1..]) == more + [e]
    ensures var rest := [ps[0].k.Last()] + ps[0].text + "<" + more;
      Follows(ps[0].k, rest, e) && s == ps[0].k.Spelled() + rest
  {
    hide IsToken, Written, Without;
    var k, text, w := ps[0].k, ps[0].text, Written(ps[1..]);
    WrittenSome(ps[1..]);
    WrittenIs(ps);
    more := w[..|w| - 1];
    DropLast(s, e, k.Spelled() + [k.Last()] + text, w);
    assert k.Spelled() + [k.Last()] + text + "<" + more == k.Spelled() + ([k.Last()] + text + "<" + more);
  }

  lemma DropLast(s: string, e: char, pre: string, w: string)
    requires s + [e] == pre + ("<" + w) && w != ""
    ensures w == w[..|w| - 1] + [e] && s == pre + "<" + w[..|w| - 1]
  {
    var all := s + [e];
    assert all[..|all| - 1] == s && all[|all| - 1] == e;
    assert (pre + ("<" + w))[|all| - 1] == w[|w| - 1];
    assert (pre + ("<" + w))[..|all| - 1] == pre + "<" + w[..|w| - 1];
  }

  lemma WrittenSome(ps: seq<Piece>)
    requires ps != []
    ensures Written(ps) != ""
  {
  }

  /** The document up to its first NUL, with its last character, is a piece of text without '<' and pieces of markup
      whose tags nest by name and are all closed. */
  ghost predicate IsDocument(doc: string) {
    && doc != "" && doc[0] as int != 0xFE && doc[0] as int != 0xFF
    && exists lead, ps :: IsSplitInto(TextOf(doc), lead, ps)
  }

  function TextOf(doc: string): string
    requires doc != ""
  {
    CString(doc[..|doc| - 1]) + [doc[|doc| - 1]]
  }

  ghost predicate IsSplitInto(text: string, lead: string, ps: seq<Piece>) {
    Without(lead, {'<'}) && ArePieces(ps) && Nest(ps, [], false) && text == lead + "<" + Written(ps)
  }

  /** A document is parsed without an error exactly if it is one. */
  lemma ParsedExactly(doc: string)
    ensures Parse(doc).Parsed? <==> IsDocument(doc)
  {
    hide Tags, CString, Nest, ArePieces, Written, Built;
    if doc != "" && doc[0] as int != 0xFE && doc[0] as int != 0xFF {
      var body, e := CString(doc[..|doc| - 1]), doc[|doc| - 1];
      assert TextOf(doc) == body + [e];
      var n := Until(body, {'<'});
      if Parse(doc).Parsed? {
        var ps := ParsedSplits(body[n + 1..], Before, e);
        UntilSplits(body, {'<'});
        assert body + [e] == body[..n] + "<" + (body[n + 1..] + [e]);
        assert IsSplitInto(body + [e], body[..n], ps);
      }
      if lead, ps :| IsSplitInto(body + [e], lead, ps) {
        ParsedAs(doc, lead, ps);
      }
    }
  }

  /** And as the tree that its pieces make. */
  lemma ParsedAs(doc: string, lead: string, ps: seq<Piece>)
    requires doc != "" && doc[0] as int != 0xFE && doc[0] as int != 0xFF && IsSplitInto(TextOf(doc), lead, ps)
    ensures Built(ps, Before).Done? && Parse(doc) == Parsed(Built(ps, Before).root)
  {
    hide Tags, CString, Nest, ArePieces, Written, Built;
    var s := BodySplits(CString(doc[..|doc| - 1]), doc[|doc| - 1], lead, ps);
    PiecesAreParsed(ps, s, Before, doc[|doc| - 1]);
  }

  lemma BodySplits(body: string, e: char, lead: string, ps: seq<Piece>) returns (s: string)
    requires IsSplitInto(body + [e], lead, ps)
    ensures Written(ps) == s + [e] && Until(body, {'<'}) == |lead| < |body| && body[|lead| + 1..] == s
  {
    hide Nest, Written;
    var w := Written(ps);
    assert w != "" by {
      assert ps != [];
      WrittenSome(ps);
    }
    s := w[..|w| - 1];
    var all := lead + "<" + w;
    assert body == all[..|all| - 1] && e == all[|all| - 1] == w[|w| - 1];
    assert body == lead + ("<" + s);
    UntilIs(lead, "<" + s, {'<'});
  }

  // ----- errors -----

  /** A closing tag that does not name the tag that was opened last is an error. */
  lemma WrongClose(name: string, gap: string, tail: string, st: State, e: char)
    requires Fine(st) && Follows(Close(name, gap, if tail == "" then e else tail[0]), tail, e)
    requires st.Within? ==> Top(st.open).name != name
    ensures Tags("/" + name + gap + tail, st, e) == Failed(UnexpectedClose(name))
  {
    var k := Close(name, gap, if tail == "" then e else tail[0]);
    assert k.Spelled() + tail == "/" + name + gap + tail;
    TokenReads(k, tail, st, e);
  }

  /** A second root is an error. */
  lemma SecondRoot(k: Token, tail: string, root: Element, e: char)
    requires (k.Open? || k.Empty?) && Follows(k, tail, e)
    ensures Tags(k.Spelled() + tail, Done(root), e) == Failed(MarkupOutsideRoot)
  {
    TokenReads(k, tail, Done(root), e);
  }

  /** At the end of the document the tag opened last is still open, or there has been none, or all are closed. */
  lemma EndOfDocument(rest: string, st: State, e: char)
    requires Fine(st) && (rest != "" ==> Without(rest[1..], {'<'}))
    ensures Onward(rest, st, e) ==
      match st
      case Before => Failed(RootMissing)
      case Within(open) => Failed(UnclosedTag(open[|open| - 1].name))
      case Done(root) => Parsed(root)
  {
    if |rest| > 1 {
      assert rest[1..] + "" == rest[1..];
      UntilIs(rest[1..], "", {'<'});
    }
  }

  lemma NoTagAtAll(doc: string)
    requires doc == "" || (doc[0] as int != 0xFE && doc[0] as int != 0xFF && Without(doc[..|doc| - 1], {'<'}))
    ensures Parse(doc) == Failed(RootMissing)
  {
    if doc != "" {
      PartOfText(doc[..|doc| - 1]);
      var body := CString(doc[..|doc| - 1]);
      assert body + "" == body;
      UntilIs(body, "", {'<'});
    }
  }

  lemma {:induction false} PartOfText(s: string)
    ensures forall c :: c in CString(s) ==> c in s
  {
    if s != "" {
      PartOfText(s[1..]);
    }
  }

  /** The value of an attribute without its closing quotation mark, whatever attributes come before it. */
  lemma {:induction false} OpenQuote(ats: seq<AttrText>, name: string, eq: string, q: string, raw: string)
    requires Without(name, WS + {'=', '/', '>'}) && eq != "" && Only(eq, WS + {'='}) && (name == "" ==> eq[0] == '=')
    requires (q == "\"" || q == "'") && Without(raw, {q[0]})
    requires AreAttrsBefore(ats, name + eq + q + raw) && Quiet(ats)
    ensures ParseAttrs(SpelledAttrs(ats, name + eq + q + raw)) == NoQuote(q[0])
    decreases |ats|
  {
    hide IsAttr, ReadAttr, EndsInCr;
    if ats == [] {
      UnclosedValue(name, eq, q, raw);
    } else {
      AttrMeans(ats[0], SpelledAttrs(ats[1..], name + eq + q + raw));
      OpenQuote(ats[1..], name, eq, q, raw);
    }
  }

  ghost predicate AreAttrsBefore(ats: seq<AttrText>, next: string) {
    ats == [] || (IsAttr(ats[0], SpelledAttrs(ats[1..], next)) && AreAttrsBefore(ats[1..], next))
  }

  lemma MissingQuoteIs(name: string, gap: string, more: string, q: char, st: State, e: char)
    requires Fine(st) && !st.Done? && name != "" && IsNameStart(name[0]) && Without(name, WS + {'/', '>'})
    requires AllSpace(gap) && gap != "" && gap[0] in WS && Stops(more, SPACES) && ParseAttrs(more) == NoQuote(q)
    ensures Tags(name + gap + more, st, e) == Failed(MissingQuote(q))
  {
    hide ParseAttrs, Skip, Until;
    TagNameReads(name, gap, more, st, e);
  }

  /** A tag that the document ends in without a '>', or in which none follows the '/'. */
  lemma MissingGtIs(name: string, gap: string, ats: seq<AttrText>, tail: string, st: State, e: char)
    requires Fine(st) && IsTag(name, gap, ats) && Quiet(ats) && !st.Done?
    requires if |tail| <= 1 then e != '>' && tail in {"", "/"} else tail[0] == '/' && tail[1] != '>'
    ensures Tags(name + gap + SpelledAttrs(ats, tail), st, e) == Failed(MissingGt)
  {
    TagBegins(name, gap, ats, tail, st, e);
    hide ParseAttrs, Skip, Until, Stops, AreAttrs, OpenTag, Markup, IsTag, Quiet, SpelledAttrs;
    assert |tail| > 1 ==> tail[1..] != "" && tail[1..][0] == tail[1];
  }

  lemma TagBegins(name: string, gap: string, ats: seq<AttrText>, tail: string, st: State, e: char)
    requires Fine(st) && IsTag(name, gap, ats) && Quiet(ats) && EndsAttrs(tail)
    ensures var s := name + gap + SpelledAttrs(ats, tail);
      && Markup(s, st, e) == MarkupTag(s, st, e)
      && ParseAttrs(Skip(s[Until(s, WS + {'/', '>'})..])) == Attrs(MeantAttrs(ats), tail)
  {
    hide ParseAttrs, Skip, Until, Stops, AreAttrs, OpenTag, Markup, MarkupTag;
    AnyTail(ats, tail);
    NothingLeft(ats, tail);
    TagNameReads(name, gap, SpelledAttrs(ats, tail), st, e);
    AttrsMean(ats, tail);
  }

  lemma UnclosedCloseIs(name: string, st: State, e: char)
    requires Fine(st) && Without(name, WS + {'>'}) && e != '>'
    ensures Tags("/" + name, st, e) == Failed(MissingGt)
  {
    assert ("/" + name)[1..] == name && name + "" == name;
    UntilIs(name, "", WS + {'>'});
    assert !IsNameStart('/');
  }

  /** A comment without "--". */
  lemma UnclosedCommentIs(t: string, st: State, e: char)
    requires Fine(st) && forall k :: 0 <= k < |t| ==> !("--" <= t[k..])
    ensures Tags("!--" + t, st, e) == Failed(UnclosedComment)
  {
    hide FindSub;
    assert !IsNameStart('!') && ("!--" + t)[3..] == t;
    FindSubNone(t, "--");
  }

  /** A comment whose first "--" is not followed by '>'. */
  lemma DashesInComment(t: string, more: string, st: State, e: char)
    requires Fine(st) && EndsWithFirst(t, "--") && if more == "" then e != '>' else more[0] != '>'
    ensures Tags("!--" + t + "--" + more, st, e) == Failed(UnclosedComment)
  {
    hide FindSub;
    var s := "!--" + t + "--" + more;
    assert !IsNameStart('!') && s[3..] == t + "--" + more;
    FindSubIs(t, "--", more);
    assert s[3..][|t|..] == "--" + more && ("--" + more)[2..] == more;
  }

  lemma {:induction false} FindSubNone(t: string, sub: string)
    requires sub != "" && forall k :: 0 <= k < |t| ==> !(sub <= t[k..])
    ensures FindSub(t, sub) == |t|
    decreases |t|
  {
    if t != "" {
      assert t[0..] == t;
      forall k | 0 <= k < |t[1..]| ensures !(sub <= t[1..][k..]) {
        assert t[1..][k..] == t[k + 1..];
      }
      FindSubNone(t[1..], sub);
    }
  }

  lemma UnclosedCdataIs(t: string, st: State, e: char)
    requires Fine(st) && forall k :: 0 <= k < |t| ==> !("]]>" <= t[k..])
    ensures Tags("![CDATA[" + t, st, e) == Failed(UnclosedCdata)
  {
    hide FindSub;
    var s := "![CDATA[" + t;
    assert s[8..] == t && s[0] == '!' && s[1] == '[' && !IsNameStart('!');
    assert "![CDATA[" <= s && !("/" <= s) && !("!--" <= s);
    FindSubNone(t, "]]>");
  }

  /** Anything else behind a '<'. */
  lemma UnexpectedLtIs(s: string, st: State, e: char)
    requires Fine(st) && (s == "" || !(s[0] in {'/', '!', '?', '_', ':'} || 'a' <= s[0] <= 'z' || 'A' <= s[0] <= 'Z'
                                       || s[0] as int >= 0x80))
    ensures Tags(s, st, e) == Failed(UnexpectedLt)
  {
    BeginsWith(s, "/");
    BeginsWith(s, "!--");
    BeginsWith(s, "![CDATA[");
    BeginsWith(s, "!DOCTYPE");
    BeginsWith(s, "?");
  }

  lemma BeginsWith(s: string, p: string)
    requires p != ""
    ensures p <= s ==> s != "" && s[0] == p[0]
  {
  }
}
