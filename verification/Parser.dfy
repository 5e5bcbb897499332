/** The ezxml parser (ezxml_parse_str of src/external/ezxml/ezxml.c): tags, attributes, text, comments, cdata. */
module Parser {
  import opened Escapes
  import opened Printer
  import ChildIndex

  datatype Error =
    | RootMissing
    | MarkupOutsideRoot
    | MissingQuote(q: char)
    | MissingGt
    | UnexpectedClose(name: string)
    | UnclosedComment
    | UnclosedCdata
    | UnexpectedLt
    | UnclosedTag(name: string)

  /**
   * NotModelled: the text has a document type, a processing instruction or a byte-order mark, or an attribute value
   * or a piece of text ends in a carriage return, so that decoding it steps over its end.
   */
  datatype Result = Parsed(root: Element) | Failed(error: Error) | NotModelled

  /** Before the root tag, within open tags (the last one is the insertion point), or after the root was closed. */
  datatype State = Before | Within(open: seq<Element>) | Done(root: Element)

  // ----- scanning -----

  const WS: set<char> := {'\t', '\r', '\n', ' '}

  /** strcspn */
  function Until(s: string, stop: set<char>): (n: nat)
    ensures n <= |s| && (n < |s| ==> s[n] in stop)
    ensures forall k :: 0 <= k < n ==> s[k] !in stop
  {
    if s == "" || s[0] in stop then 0 else 1 + Until(s[1..], stop)
  }

  /** strspn */
  function SpanOf(s: string, accept: set<char>): (n: nat)
    ensures n <= |s|
  {
    if s == "" || s[0] !in accept then 0 else 1 + SpanOf(s[1..], accept)
  }

  /** strstr: the length of s if there is none. */
  function FindSub(s: string, sub: string): (k: nat)
    ensures k <= |s| && (k < |s| ==> sub <= s[k..])
  {
    if s == "" || sub <= s then 0 else 1 + FindSub(s[1..], sub)
  }

  function Skip(s: string): (r: string)
    ensures |r| <= |s|
  {
    s[Spaces(s)..]
  }

  predicate IsNameStart(c: char) {
    'a' <= c <= 'z' || 'A' <= c <= 'Z' || c == '_' || c == ':' || c as int >= 0x80
  }

  // ----- attributes -----

  datatype Attrs = Attrs(attr: seq<Attr>, rest: string) | NoQuote(q: char) | Overrun

  function Prepended(a: Attr, more: Attrs): Attrs {
    match more
    case Attrs(attr, rest) => Attrs([a] + attr, rest)
    case _ => more
  }

  /** One attribute and the text behind it and the space that follows, or why it cannot be read. */
  datatype OneAttr = Found(a: Attr, rest: string) | Unquoted(q: char) | Overruns

  /** A quoted value, from behind its opening quotation mark on. */
  function ReadQuoted(name: string, q: char, v: string): (r: OneAttr)
    ensures r.Found? ==> |r.rest| < |v|
  {
    var m := Until(v, {q});
    if m == |v| then Unquoted(q)
    else if EndsInCr(v[..m]) then Overruns
    else Found(Attr(name, CString(Decoded(v[..m], Attribute))), Skip(v[m + 1..]))
  }

  /** The value, if there is one, from behind the equals signs and spaces on. */
  function ReadValue(name: string, v: string): (r: OneAttr)
    ensures r.Found? ==> |r.rest| <= |v|
  {
    if v != "" && (v[0] == '"' || v[0] == '\'') then ReadQuoted(name, v[0], v[1..])
    else Found(Attr(name, ""), Skip(v))
  }

  function ReadAttr(s: string): (r: OneAttr)
    requires s != "" && s[0] != '/' && s[0] != '>'
    ensures r.Found? ==> |r.rest| < |s|
  {
    var n := Until(s, WS + {'=', '/', '>'});
    var name, r := s[..n], s[n..];
    if r != "" && (r[0] == '=' || IsSpace(r[0])) then ReadValue(name, r[1..][SpanOf(r[1..], WS + {'='})..])
    else Found(Attr(name, ""), Skip(r))
  }

  /** The attributes from s on, and the text from the end of the tag on. */
  function ParseAttrs(s: string): (r: Attrs)
    ensures r.Attrs? ==> |r.rest| <= |s| && (r.rest != "" ==> r.rest[0] == '/' || r.rest[0] == '>')
    decreases |s|
  {
    if s == "" || s[0] == '/' || s[0] == '>' then Attrs([], s)
    else
      match ReadAttr(s)
      case Found(a, rest) => Prepended(a, ParseAttrs(rest))
      case Unquoted(q) => NoQuote(q)
      case Overruns => Overrun
  }

  // ----- the tree under construction -----

  function KidsOf(kids: seq<Element>): (k: seq<ChildIndex.Kid>)
    ensures |k| == |kids|
  {
    seq(|kids|, i requires 0 <= i < |kids| => ChildIndex.Kid(kids[i].name, kids[i].off))
  }

  /** ezxml_insert on the list in document order. */
  function AddKid(kids: seq<Element>, k: Element): seq<Element> {
    ChildIndex.Inserted(kids, ChildIndex.UpperBound(KidsOf(kids), k.off), k)
  }

  function Top(open: seq<Element>): Element
    requires open != []
  {
    open[|open| - 1]
  }

  predicate Fine(st: State) { st.Within? ==> st.open != [] }

  /** ezxml_open_tag; the tag joins its parent when it is closed, which puts it in the same place. */
  function OpenTag(st: State, name: string, attr: seq<Attr>): (r: State)
    requires Fine(st) && !st.Done?
    ensures Fine(r)
  {
    match st
    case Before => Within([Element(name, attr, "", 0, [])])
    case Within(open) => Within(open + [Element(name, attr, "", |Top(open).txt|, [])])
  }

  function Closed(open: seq<Element>, x: Element): (r: State)
    ensures Fine(r)
  {
    if open == [] then Done(x)
    else Within(open[..|open| - 1] + [Top(open).(kids := AddKid(Top(open).kids, x))])
  }

  /** ezxml_close_tag */
  predicate CanClose(st: State, name: string)
    requires Fine(st)
  {
    st.Within? && Top(st.open).name == name
  }

  function CloseTag(st: State, name: string): (r: State)
    requires Fine(st) && CanClose(st, name)
    ensures Fine(r)
  {
    Closed(st.open[..|st.open| - 1], Top(st.open))
  }

  /** ezxml_char_content does nothing outside of tags and for empty text. */
  predicate TextOverruns(st: State, s: string) { st.Within? && s != "" && EndsInCr(s) }

  function AddText(st: State, s: string, t: Mode): (r: State)
    requires Fine(st)
    ensures Fine(r)
  {
    if !st.Within? || s == "" then st
    else
      var cur := Top(st.open);
      Within(st.open[..|st.open| - 1] + [cur.(txt := cur.txt + CString(Decoded(s, t)))])
  }

  // ----- one piece of markup -----

  datatype Step = Fail(error: Error) | Out | Next(st: State, rest: string)

  function MarkupTag(s: string, st: State, e: char): (r: Step)
    requires Fine(st)
    ensures r.Next? ==> Fine(r.st) && |r.rest| <= |s|
  {
    if st.Done? then Fail(MarkupOutsideRoot)
    else
      var n := Until(s, WS + {'/', '>'});
      match ParseAttrs(Skip(s[n..]))
      case NoQuote(q) => Fail(MissingQuote(q))
      case Overrun => Out
      case Attrs(attr, rest) =>
        var st' := OpenTag(st, s[..n], attr);
        if rest != "" && rest[0] == '/' then
          if (if rest[1..] == "" then e else rest[1]) != '>' then Fail(MissingGt)
          else Next(CloseTag(st', s[..n]), rest[1..])
        else if rest == "" && e != '>' then Fail(MissingGt)
        else Next(st', rest)
  }

  function MarkupClose(s: string, st: State, e: char): (r: Step)
    requires Fine(st) && s != ""
    ensures r.Next? ==> Fine(r.st) && |r.rest| <= |s|
  {
    var n := Until(s[1..], WS + {'>'});
    var name, rest := s[1..][..n], s[1..][n..];
    if rest == "" && e != '>' then Fail(MissingGt)
    else if !CanClose(st, name) then Fail(UnexpectedClose(name))
    else Next(CloseTag(st, name), rest[SpanOf(rest, WS)..])
  }

  function MarkupComment(s: string, st: State, e: char): (r: Step)
    requires Fine(st) && "!--" <= s
    ensures r.Next? ==> Fine(r.st) && |r.rest| <= |s|
  {
    var k := FindSub(s[3..], "--");
    if k == |s[3..]| then Fail(UnclosedComment)
    else
      var rest := s[3..][k..][2..];
      if (if rest == "" then e else rest[0]) != '>' then Fail(UnclosedComment) else Next(st, rest)
  }

  function MarkupCdata(s: string, st: State): (r: Step)
    requires Fine(st) && "![CDATA[" <= s
    ensures r.Next? ==> Fine(r.st) && |r.rest| <= |s|
  {
    var k := FindSub(s[8..], "]]>");
    if k == |s[8..]| then Fail(UnclosedCdata)
    else if TextOverruns(st, s[8..][..k]) then Out
    else Next(AddText(st, s[8..][..k], Cdata), s[8..][k..][2..])
  }

  /** The markup after a '<', up to the character that ends it. */
  function Markup(s: string, st: State, e: char): (r: Step)
    requires Fine(st)
    ensures r.Next? ==> Fine(r.st) && |r.rest| <= |s|
  {
    if s != "" && IsNameStart(s[0]) then MarkupTag(s, st, e)
    else if "/" <= s then MarkupClose(s, st, e)
    else if "!--" <= s then MarkupComment(s, st, e)
    else if "![CDATA[" <= s then MarkupCdata(s, st)
    else if "!DOCTYPE" <= s || "?" <= s then Out
    else Fail(UnexpectedLt)
  }

  // ----- the document -----

  function Finish(st: State): Result
    requires Fine(st)
  {
    match st
    case Done(root) => Parsed(root)
    case Before => Failed(RootMissing)
    case Within(open) => Failed(UnclosedTag(Top(open).name))
  }

  /** From after a '<' on. */
  function Tags(s: string, st: State, e: char): Result
    requires Fine(st)
    decreases |s|, 1
  {
    match Markup(s, st, e)
    case Fail(error) => Failed(error)
    case Out => NotModelled
    case Next(st', rest) => Onward(rest, st', e)
  }

  /** From the character that ends a piece of markup on; nothing is left when it is the last of the document. */
  function Onward(s: string, st: State, e: char): Result
    requires Fine(st)
    decreases |s|, 0
  {
    if |s| <= 1 then Finish(st)
    else
      var n := Until(s[1..], {'<'});
      if n == |s[1..]| then Finish(st)
      else if TextOverruns(st, s[1..][..n]) then NotModelled
      else Tags(s[1..][n + 1..], AddText(st, s[1..][..n], Text), e)
  }

  /** The last character of the document is kept aside for a terminator. */
  function Parse(doc: string): Result {
    if doc == "" then Failed(RootMissing)
    else if doc[0] as int == 0xFE || doc[0] as int == 0xFF then NotModelled
    else
      var body, e := CString(doc[..|doc| - 1]), doc[|doc| - 1];
      var n := Until(body, {'<'});
      if n == |body| then Failed(RootMissing) else Tags(body[n + 1..], Before, e)
  }

  // ----- the loops of the parser -----

  function Joined(attr: seq<Attr>, more: Attrs): Attrs {
    match more
    case Attrs(a, rest) => Attrs(attr + a, rest)
    case _ => more
  }

  lemma JoinedOne(attr: seq<Attr>, a: Attr, more: Attrs)
    ensures Joined(attr, Prepended(a, more)) == Joined(attr + [a], more)
  {
    if more.Attrs? {
      assert attr + ([a] + more.attr) == (attr + [a]) + more.attr;
    }
  }

  /** The attributes of a tag; rest is what is left of the text at the cursor. */
  method ScanAttrs(s: string) returns (r: Attrs)
    ensures r == ParseAttrs(s)
  {
    hide Joined, Prepended, ReadAttr;
    var attr, rest := [], s;
    JoinedNone(ParseAttrs(s));
    while rest != "" && rest[0] != '/' && rest[0] != '>'
      invariant Joined(attr, ParseAttrs(rest)) == ParseAttrs(s)
      decreases |rest|
    {
      match ReadAttr(rest) {
        case Unquoted(q) => {
          JoinedFailed(attr, NoQuote(q));
          return NoQuote(q);
        }
        case Overruns => {
          JoinedFailed(attr, Overrun);
          return Overrun;
        }
        case Found(a, rest') => {
          JoinedOne(attr, a, ParseAttrs(rest'));
          attr, rest := attr + [a], rest';
        }
      }
    }
    JoinedEnd(attr, rest);
    r := Attrs(attr, rest);
  }

  lemma JoinedNone(r: Attrs)
    ensures Joined([], r) == r
  {
    if r.Attrs? {
      assert [] + r.attr == r.attr;
    }
  }

  lemma JoinedFailed(attr: seq<Attr>, no: Attrs)
    requires !no.Attrs?
    ensures Joined(attr, no) == no
  {
  }

  lemma JoinedEnd(attr: seq<Attr>, rest: string)
    ensures Joined(attr, Attrs([], rest)) == Attrs(attr, rest)
  {
  }

  /** The case of a new tag. */
  method TagCase(s: string, st: State, e: char) returns (r: Step)
    requires Fine(st)
    ensures r == MarkupTag(s, st, e)
  {
    hide ParseAttrs, Closed;
    if st.Done? {
      return Fail(MarkupOutsideRoot);
    }
    var n := Until(s, WS + {'/', '>'});
    var scanned := ScanAttrs(Skip(s[n..]));
    match scanned {
      case NoQuote(q) => return Fail(MissingQuote(q));
      case Overrun => return Out;
      case Attrs(attr, rest) => {
        if rest != "" && rest[0] == '/' {
          var next := if rest[1..] == "" then e else rest[1];
          if next != '>' {
            return Fail(MissingGt);
          }
          var st1 := OpenTag(st, s[..n], attr);
          return Next(CloseTag(st1, s[..n]), rest[1..]);
        }
        if rest == "" && e != '>' {
          return Fail(MissingGt);
        }
        return Next(OpenTag(st, s[..n], attr), rest);
      }
    }
  }

  /** The markup at the cursor. */
  method OneMarkup(s: string, st: State, e: char) returns (r: Step)
    requires Fine(st)
    ensures r == Markup(s, st, e)
  {
    hide MarkupTag, MarkupClose, MarkupComment, MarkupCdata;
    if s != "" && IsNameStart(s[0]) {
      r := TagCase(s, st, e);
    } else if "/" <= s {
      r := MarkupClose(s, st, e);
    } else if "!--" <= s {
      r := MarkupComment(s, st, e);
    } else if "![CDATA[" <= s {
      r := MarkupCdata(s, st);
    } else if "!DOCTYPE" <= s || "?" <= s {
      r := Out;
    } else {
      r := Fail(UnexpectedLt);
    }
  }

  /** ezxml_parse_str; s is the text from the cursor on, which stands behind a '<' at the start of each turn. */
  method ParseStr(doc: string) returns (r: Result)
    ensures r == Parse(doc)
  {
    hide Markup, AddText, TextOverruns, Finish, CString, IsNameStart;
    if doc == "" {
      return Failed(RootMissing);
    }
    if doc[0] as int == 0xFE || doc[0] as int == 0xFF {
      return NotModelled;
    }
    var body, e := CString(doc[..|doc| - 1]), doc[|doc| - 1];
    var n := Until(body, {'<'});
    if n == |body| {
      return Failed(RootMissing);
    }
    var s, st := body[n + 1..], Before;
    while true
      invariant Fine(st) && Tags(s, st, e) == Parse(doc)
      decreases |s|
    {
      var step := OneMarkup(s, st, e);
      match step {
        case Fail(error) => return Failed(error);
        case Out => return NotModelled;
        case Next(st', rest) => {
          if |rest| <= 1 {
            return Finish(st');
          }
          n := Until(rest[1..], {'<'});
          if n == |rest[1..]| {
            return Finish(st');
          }
          if TextOverruns(st', rest[1..][..n]) {
            return NotModelled;
          }
          s, st := rest[1..][n + 1..], AddText(st', rest[1..][..n], Text);
        }
      }
    }
  }
}
