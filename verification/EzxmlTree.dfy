/** Tags and the linked lists over their children (src/external/ezxml/ezxml.c). */
module EzxmlTree {
  import opened Basics
  import opened ChildIndex

  /** struct ezxml, as far as the child lists use it; kids and ix are ghost: the children in document
      order, and what the three lists have to be. */
  class Tag {
    const name: string
    var off: nat
    var next: Tag?
    var sibling: Tag?
    var ordered: Tag?
    var child: Tag?
    var parent: Tag?
    ghost var kids: seq<Tag>
    ghost var ix: Index

    constructor (name: string)
      ensures this.name == name && child == null && kids == [] && ix == Index([], []) && Indexed()
    {
      this.name := name;
      off, next, sibling, ordered, child, parent, kids, ix := 0, null, null, null, null, null, [], Index([], []);
    }

    /** The lists are as the children in document order demand. */
    ghost predicate Indexed()
      reads this, kids
    {
      && NoRepeats(kids) && this !in kids && child == At(kids, 0)
      && Describes(ix.kids, kids) && Valid(ix)
      && OrderedLinks(kids) && NextLinks(kids, ix.kids) && SiblingList(kids, ix.sib)
    }

    /** The first part of ezxml_insert: the new tag goes behind all children whose offset is no
        larger. */
    method LinkOrdered(head: Tag, xml: Tag, off: nat, ghost k: seq<Tag>, ghost m: seq<Kid>) returns (ghost p: nat)
      requires k != [] && head == k[0] && child == head && NoRepeats(k) && xml !in k && this !in k && this != xml
      requires OrderedLinks(k) && Describes(m, k) && ByOffset(m)
      modifies this`child, xml`ordered, k`ordered
      ensures p == UpperBound(m, off)
      ensures child == At(Inserted(k, p, xml), 0) && OrderedLinks(Inserted(k, p, xml))
    {
      if head.off <= off {
        var cur := head;
        ghost var i := 0;
        while cur.ordered != null && cur.ordered.off <= off
          invariant 0 <= i < |k| && cur == k[i] && cur.off <= off
          decreases |k| - i
        {
          cur := cur.ordered;
          i := i + 1;
        }
        p := i + 1;
        UpperBoundIs(m, off, p);
        xml.ordered := cur.ordered;
        cur.ordered := xml;
      } else {
        p := 0;
        UpperBoundIs(m, off, p);
        xml.ordered := head;
        child := xml;
      }
      OrderedInserted(k, p, xml);
    }

    /** The search along the sibling list l for the first entry with the new tag's name. */
    static method FindType(head: Tag?, name: string, ghost l: seq<Tag>)
      returns (prev: Tag?, cur: Tag?, ghost b: nat)
      requires head == At(l, 0) && SiblingLinks(l)
      ensures b <= |l| && cur == At(l, b) && prev == Before(l, b)
      ensures (b < |l| ==> l[b].name == name) && forall a :: 0 <= a < b ==> l[a].name != name
    {
      cur, prev, b := head, null, 0;
      while cur != null && cur.name != name
        invariant b <= |l| && cur == At(l, b) && prev == Before(l, b)
        invariant forall a :: 0 <= a < b ==> l[a].name != name
        decreases |l| - b
      {
        prev, cur, b := cur, cur.sibling, b + 1;
      }
    }

    /** The new tag is the first of its name: the old first one is taken off the sibling list l, unless
        it heads it, and the new one goes behind all entries whose offset is no larger. */
    static method ListFirst(head: Tag, prev: Tag?, cur: Tag?, xml: Tag, off: nat, ghost l: seq<Tag>, ghost b: nat)
      returns (ghost l': seq<Tag>, ghost at: nat)
      requires l != [] && head == l[0] && NoRepeats(l) && xml !in l && SiblingLinks(l)
      requires b <= |l| && cur == At(l, b) && prev == Before(l, b)
      modifies xml`sibling, l`sibling
      ensures l' == if 0 < b < |l| then l[..b] + l[b + 1..] else l
      ensures at <= |l'| && (forall a :: 0 <= a < at ==> l'[a].off <= off) && (at < |l'| ==> l'[at].off > off)
      ensures SiblingLinks(Inserted(l', at, xml))
    {
      hide SiblingLinks, Inserted;
      l' := Unlist(prev, cur, l, b);
      UnlistedFacts(l, b, xml);
      at := InsertSibling(head, xml, off, l');
    }

    static lemma UnlistedFacts(l: seq<Tag>, b: nat, xml: Tag)
      requires l != [] && NoRepeats(l) && xml !in l && b <= |l|
      ensures var l' := if 0 < b < |l| then l[..b] + l[b + 1..] else l;
        l' != [] && l'[0] == l[0] && NoRepeats(l') && xml !in l' && (forall t :: t in l' ==> t in l)
    {
    }

    static method Unlist(prev: Tag?, cur: Tag?, ghost l: seq<Tag>, ghost b: nat) returns (ghost l': seq<Tag>)
      requires NoRepeats(l) && SiblingLinks(l) && b <= |l|
      requires cur == At(l, b) && prev == Before(l, b)
      modifies l`sibling
      ensures l' == (if 0 < b < |l| then l[..b] + l[b + 1..] else l) && SiblingLinks(l')
    {
      l' := if 0 < b < |l| then l[..b] + l[b + 1..] else l;
      if prev != null && cur != null {
        prev.sibling := cur.sibling;
      }
    }

    static method InsertSibling(head: Tag, xml: Tag, off: nat, ghost l: seq<Tag>) returns (ghost at: nat)
      requires l != [] && head == l[0] && NoRepeats(l) && xml !in l && SiblingLinks(l)
      modifies xml`sibling, l`sibling
      ensures at <= |l| && (forall a :: 0 <= a < at ==> l[a].off <= off) && (at < |l| ==> l[at].off > off)
      ensures SiblingLinks(Inserted(l, at, xml))
    {
      var cur: Tag?, prev: Tag? := head, null;
      at := 0;
      while cur != null && cur.off <= off
        invariant at <= |l| && cur == At(l, at) && prev == Before(l, at)
        invariant forall a :: 0 <= a < at ==> l[a].off <= off
        decreases |l| - at
      {
        prev, cur, at := cur, cur.sibling, at + 1;
      }
      xml.sibling := cur;
      if prev != null {
        prev.sibling := xml;
      }
      SiblingInserted(l, at, xml);
    }

    /** The search along the tags of the first one's name for the last with no larger offset, the i-th of all. */
    static method LastUpTo(first: Tag, off: nat, ghost k: seq<Tag>, ghost m: seq<Kid>, ghost p: nat, ghost f: nat)
      returns (cur: Tag, ghost i: nat)
      requires NextLinks(k, m) && Describes(m, k) && f < p <= |k| && first == k[f]
      requires forall i :: 0 <= i < |m| ==> (i < p <==> m[i].off <= off)
      ensures i < p && cur == k[i] && m[i].name == m[f].name && NextSame(m, i) >= p
    {
      cur, i := first, f;
      while cur.next != null && cur.next.off <= off
        invariant 0 <= i < p && cur == k[i] && m[i].name == m[f].name
        decreases p - i
      {
        cur := cur.next;
        i := NextSame(m, i);
      }
    }

    /** Another tag of the name comes first: the new tag goes behind those with no larger offset. p is
        where the new tag goes among all children. */
    static method LinkNext(first: Tag, xml: Tag, off: nat, ghost k: seq<Tag>, ghost m: seq<Kid>, ghost p: nat)
      requires NoRepeats(k) && xml !in k && NextLinks(k, m) && Describes(m, k) && p <= |k|
      requires forall i :: 0 <= i < |m| ==> (i < p <==> m[i].off <= off)
      requires Find(m, 0, xml.name) < p && first == k[Find(m, 0, xml.name)]
      modifies xml`next, k`next
      ensures NextLinksFor(k, m, p, xml)
    {
      hide NextLinksFor, NextSame;
      var cur;
      ghost var i;
      cur, i := LastUpTo(first, off, k, m, p, Find(m, 0, xml.name));
      xml.next := cur.next;
      cur.next := xml;
      NextLinked(k, m, p, xml, i);
    }

    /** No tag of the name comes first: the new tag starts the list of its name, before the old first one, and takes
        that one's place on the sibling list. b is where the sibling list has the name. */
    static method LinkAsFirst(head: Tag, prev: Tag?, cur: Tag?, xml: Tag, off: nat,
                              ghost k: seq<Tag>, ghost ix: Index, ghost p: nat, ghost b: nat)
      requires NoRepeats(k) && k != [] && head == k[0] && xml !in k
      requires NextLinks(k, ix.kids) && Describes(ix.kids, k) && Valid(ix) && p == UpperBound(ix.kids, off)
      requires SiblingList(k, ix.sib)
      requires var l := Nodes(k, ix.sib); b <= |l| && cur == At(l, b) && prev == Before(l, b)
      requires p <= Find(ix.kids, 0, xml.name) && cur == At(k, Find(ix.kids, 0, xml.name))
      modifies xml`next, xml`sibling, k`sibling
      ensures NextLinksFor(k, ix.kids, p, xml)
      ensures SiblingList(Inserted(k, p, xml), WithPlace(Unlisted(ix.sib, b), p))
    {
      hide UpperBound, Find, WithPlace, Unlisted, Inserted, Valid, ByOffset;
      hide NextLinks, NextLinksFor, SiblingLinks, NoRepeats, Nodes;
      ghost var l := Nodes(k, ix.sib);
      NodesOfSib(k, ix);
      ghost var l', at := ListFirst(head, prev, cur, xml, off, l, b);
      xml.next := cur;
      NodesRelisted(k, ix, off, xml, b, l', at);
      NoneBefore(k, ix.kids, p, xml);
    }

    /** The second part of ezxml_insert, on the list of the tag's name and on the sibling list. p is
        where the new tag went among all children. */
    static method LinkByName(head: Tag, xml: Tag, off: nat, ghost k: seq<Tag>, ghost ix: Index, ghost p: nat)
      requires NoRepeats(k) && k != [] && head == k[0] && xml !in k && xml.next == null && xml.sibling == null
      requires NextLinks(k, ix.kids) && Describes(ix.kids, k) && Valid(ix) && p == UpperBound(ix.kids, off)
      requires SiblingList(k, ix.sib)
      modifies xml`next, xml`sibling, k`next, k`sibling
      ensures NextLinksFor(k, ix.kids, p, xml)
      ensures SiblingList(Inserted(k, p, xml), InsertKid(ix, Kid(xml.name, off)).sib)
    {
      hide InsertKid, UpperBound, Find, WithPlace, Unlisted, UpAll, Inserted, Valid, ByOffset, IsFirst;
      hide NextLinks, NextLinksFor, SiblingLinks, NoRepeats, Nodes;
      ghost var l := Nodes(k, ix.sib);
      NodesOfSib(k, ix);
      SibCases(ix, Kid(xml.name, off));
      var prev, cur;
      ghost var b: nat;
      prev, cur, b := FindType(head, xml.name, l);
      FoundType(k, ix, off, xml.name, b);
      if cur != null && cur.off <= off {
        LinkNext(cur, xml, off, k, ix.kids, p);
        NodesUp(k, ix.sib, p, xml);
      } else {
        LinkAsFirst(head, prev, cur, xml, off, k, ix, p, b);
      }
    }

    /** Both parts of ezxml_insert; the first tag of all is the only one on every list. */
    method LinkInto(xml: Tag, off: nat, ghost k: seq<Tag>, ghost i: Index) returns (ghost p: nat)
      requires NoRepeats(k) && xml !in k && this !in k && this != xml && child == At(k, 0)
      requires xml.next == null && xml.sibling == null && xml.ordered == null
      requires OrderedLinks(k) && NextLinks(k, i.kids) && Describes(i.kids, k) && Valid(i) && SiblingList(k, i.sib)
      requires (k == [] <==> i.kids == []) && (k == [] ==> i == Index([], [])) && ByOffset(i.kids)
      modifies this`child, xml`next, xml`sibling, xml`ordered, k`next, k`sibling, k`ordered
      ensures p == UpperBound(i.kids, off) && p <= |k| && child == At(Inserted(k, p, xml), 0)
      ensures var kid := Kid(xml.name, off);
        && OrderedLinks(Inserted(k, p, xml)) && NextLinks(Inserted(k, p, xml), Inserted(i.kids, p, kid))
        && SiblingList(Inserted(k, p, xml), InsertKid(i, kid).sib)
    {
      hide NextLinks, NextLinksFor, SiblingList, OrderedLinks, Inserted, Valid, InsertKid;
      hide UpperBound, NoRepeats;
      p := 0;
      var head := child;
      if head != null {
        p := LinkOrdered(head, xml, off, k, i.kids);
        LinkByName(head, xml, off, k, i, p);
        NextInserted(k, i.kids, p, xml, off);
      } else {
        child := xml;
        FirstChild(xml, Kid(xml.name, off));
      }
    }

    /** ezxml_insert of a tag that is not among the children yet: all three lists come to be what the
        children in document order demand. */
    method Insert(xml: Tag, off: nat)
      requires Indexed() && xml != this && xml !in kids
      modifies this`child, this`kids, this`ix, xml`off, xml`next, xml`sibling, xml`ordered, xml`parent
      modifies kids`next, kids`sibling, kids`ordered
      ensures Indexed() && ix == InsertKid(old(ix), Kid(xml.name, off))
      ensures kids == Inserted(old(kids), UpperBound(old(ix.kids), off), xml)
      ensures xml.off == off && xml.parent == this
    {
      hide NextLinks, NextLinksFor, SiblingList, OrderedLinks, Describes, Inserted, Valid, InsertKid;
      hide UpperBound, NoRepeats;
      ghost var k, m, kid := kids, ix.kids, Kid(xml.name, off);
      IndexedParts(this);
      SibPlaces(ix);
      InsertKeepsValid(ix, kid);
      KidsAfter(ix, kid);
      xml.next, xml.sibling, xml.ordered := null, null, null;
      xml.off := off;
      xml.parent := this;
      ghost var p := LinkInto(xml, off, k, ix);
      InsertedKids(k, m, p, xml, off);
      ix := InsertKid(ix, kid);
      kids := Inserted(k, p, xml);
    }

    /** ezxml_add_child: a new tag, inserted. */
    method AddChild(name: string, off: nat) returns (xml: Tag)
      requires Indexed()
      modifies this`child, this`kids, this`ix, kids`next, kids`sibling, kids`ordered
      ensures fresh(xml) && xml.name == name && xml.off == off && xml.parent == this && xml.child == null
      ensures Indexed() && ix == InsertKid(old(ix), Kid(name, off))
      ensures kids == Inserted(old(kids), UpperBound(old(ix.kids), off), xml)
    {
      xml := new Tag(name);
      Insert(xml, off);
    }

    /** ezxml_child: the first child with the given name, or null if there is none. */
    method Child(name: string) returns (xml: Tag?)
      requires Indexed()
      ensures xml == At(kids, Find(ix.kids, 0, name))
    {
      hide NextLinks, SiblingLinks, OrderedLinks, Nodes, Valid, Find, FindSib;
      IndexedParts(this);
      NodesOfSib(kids, ix);
      ghost var prev, b;
      prev, xml, b := FindType(child, name, Nodes(kids, ix.sib));
      FoundType(kids, ix, 0, name, b);
    }
  }

  /** ezxml_idx: the idx-th tag of the same name from k[i] on, or null if there are fewer. */
  method Idx(xml: Tag?, idx: nat, ghost k: seq<Tag>, ghost m: seq<Kid>, ghost i: nat) returns (r: Tag?)
    requires NextLinks(k, m) && i <= |m| && xml == At(k, i)
    ensures r == At(k, NthSame(m, i, idx))
  {
    hide NextSame;
    var n := idx;
    ghost var j: nat := i;
    r := xml;
    while r != null && n != 0
      invariant j <= |m| && r == At(k, j) && NthSame(m, i, idx) == NthSame(m, j, n)
      decreases n
    {
      r := r.next;
      j := NextSame(m, j);
      n := n - 1;
    }
  }

  lemma IndexedParts(t: Tag)
    requires t.Indexed()
    ensures ByOffset(t.ix.kids) && |t.ix.kids| == |t.kids| && t.child == At(t.kids, 0)
  {
  }

  lemma FirstChild(xml: Tag, kid: Kid)
    requires xml.next == xml.sibling == xml.ordered == null
    ensures UpperBound([], kid.off) == 0 && InsertKid(Index([], []), kid) == Index([kid], [0])
    ensures Inserted([], 0, xml) == [xml] && Inserted([], 0, kid) == [kid]
    ensures OrderedLinks([xml]) && NextLinks([xml], [kid]) && SiblingList([xml], [0])
  {
  }

  lemma InsertedKids(k: seq<Tag>, m: seq<Kid>, p: nat, xml: Tag, off: nat)
    requires p <= |k| && xml !in k && NoRepeats(k) && Describes(m, k) && xml.off == off
    ensures NoRepeats(Inserted(k, p, xml)) && Describes(Inserted(m, p, Kid(xml.name, off)), Inserted(k, p, xml))
    ensures forall t :: t in Inserted(k, p, xml) <==> t == xml || t in k
  {
  }

  function At(tags: seq<Tag>, i: nat): Tag? {
    if i < |tags| then tags[i] else null
  }

  function Before(tags: seq<Tag>, i: nat): Tag?
    requires i <= |tags|
  {
    if i == 0 then null else tags[i - 1]
  }

  ghost predicate Describes(m: seq<Kid>, k: seq<Tag>)
    reads k`off
  {
    |m| == |k| && forall i :: 0 <= i < |k| ==> m[i] == Kid(k[i].name, k[i].off)
  }

  ghost predicate OrderedLinks(k: seq<Tag>)
    reads k`ordered
  {
    forall i :: 0 <= i < |k| ==> k[i].ordered == At(k, i + 1)
  }

  ghost predicate NextLinks(k: seq<Tag>, m: seq<Kid>)
    reads k`next
  {
    |m| == |k| && forall i :: 0 <= i < |k| ==> k[i].next == At(k, NextSame(m, i))
  }

  /** The links to the next tag of the same name once xml is to go to place p. */
  ghost predicate NextLinksFor(k: seq<Tag>, m: seq<Kid>, p: nat, xml: Tag)
    reads k`next, xml`next
  {
    |m| == |k| && p <= |k| && xml.next == At(k, Find(m, p, xml.name))
    && forall i :: 0 <= i < |k| ==>
         k[i].next == if m[i].name == xml.name && i < p <= NextSame(m, i) then xml else At(k, NextSame(m, i))
  }

  /** The tags at the given places. */
  ghost function Nodes(k: seq<Tag>, places: seq<nat>): (l: seq<Tag>)
    requires forall a :: 0 <= a < |places| ==> places[a] < |k|
    ensures |l| == |places| && forall a :: 0 <= a < |places| ==> l[a] == k[places[a]]
    ensures forall x :: x in l ==> x in k
  {
    seq(|places|, a requires 0 <= a < |places| => k[places[a]])
  }

  ghost predicate SiblingList(k: seq<Tag>, places: seq<nat>)
    reads k`sibling
  {
    (forall a :: 0 <= a < |places| ==> places[a] < |k|) && SiblingLinks(Nodes(k, places))
  }

  ghost predicate SiblingLinks(l: seq<Tag>)
    reads l`sibling
  {
    forall a :: 0 <= a < |l| ==> l[a].sibling == At(l, a + 1)
  }

  // ----- the lists after an insertion, from the links that changed -----

  lemma FindSibIs(ix: Index, name: string, b: nat)
    requires Valid(ix) && b <= |ix.sib| && (b < |ix.sib| ==> ix.kids[ix.sib[b]].name == name)
    requires forall c :: 0 <= c < b ==> ix.kids[ix.sib[c]].name != name
    ensures FindSib(ix, 0, name) == b
  {
  }

  lemma NodesOfSib(k: seq<Tag>, ix: Index)
    requires |k| == |ix.kids| && Valid(ix) && NoRepeats(k)
    ensures var l := Nodes(k, ix.sib);
      At(l, 0) == At(k, 0) && NoRepeats(l) && (l == [] <==> k == [])
  {
    SibPlaces(ix);
  }

  /** What the search along the sibling list finds is the first child of the name. */
  lemma FoundType(k: seq<Tag>, ix: Index, off: nat, name: string, b: nat)
    requires Describes(ix.kids, k) && Valid(ix)
    requires var l := Nodes(k, ix.sib);
      b <= |l| && (b < |l| ==> l[b].name == name) && forall a :: 0 <= a < b ==> l[a].name != name
    ensures var cur, f := At(Nodes(k, ix.sib), b), Find(ix.kids, 0, name);
      && b == FindSib(ix, 0, name) && cur == At(k, f)
      && (cur != null && cur.off <= off <==> f < UpperBound(ix.kids, off))
    ensures forall i :: 0 <= i < |ix.kids| ==> (i < UpperBound(ix.kids, off) <==> ix.kids[i].off <= off)
  {
    hide UpperBound, Find, FindSib;
    FindSibIs(ix, name, b);
    FindSibIsFirst(ix, name);
    BoundSplits(ix, off);
  }

  lemma BoundSplits(ix: Index, off: nat)
    requires Valid(ix)
    ensures forall i :: 0 <= i < |ix.kids| ==> (i < UpperBound(ix.kids, off) <==> ix.kids[i].off <= off)
  {
    forall i | 0 <= i < |ix.kids| ensures i < UpperBound(ix.kids, off) <==> ix.kids[i].off <= off {
      SplitAtBound(ix, off, i);
    }
  }

  /** If no tag of the name is before p, no link to a next tag of the name leads past p. */
  lemma NoneBefore(k: seq<Tag>, m: seq<Kid>, p: nat, xml: Tag)
    requires NextLinks(k, m) && p <= |k| && Find(m, 0, xml.name) >= p && xml.next == At(k, Find(m, 0, xml.name))
    ensures NextLinksFor(k, m, p, xml)
  {
    FindIs(m, p, xml.name, Find(m, 0, xml.name));
  }

  lemma NodesUp(k: seq<Tag>, s: seq<nat>, p: nat, xml: Tag)
    requires p <= |k| && forall a :: 0 <= a < |s| ==> s[a] < |k|
    ensures forall a :: 0 <= a < |s| ==> UpAll(p, s)[a] < |k| + 1
    ensures Nodes(Inserted(k, p, xml), UpAll(p, s)) == Nodes(k, s)
  {
  }

  lemma NodesRelisted(k: seq<Tag>, ix: Index, off: nat, xml: Tag, b: nat, l': seq<Tag>, at: nat)
    requires Describes(ix.kids, k) && Valid(ix) && b <= |ix.sib|
    requires var l := Nodes(k, ix.sib); l' == if 0 < b < |l| then l[..b] + l[b + 1..] else l
    requires at <= |l'| && (forall a :: 0 <= a < at ==> l'[a].off <= off) && (at < |l'| ==> l'[at].off > off)
    ensures var p := UpperBound(ix.kids, off); var s := WithPlace(Unlisted(ix.sib, b), p);
      && (forall a :: 0 <= a < |s| ==> s[a] < |k| + 1)
      && Nodes(Inserted(k, p, xml), s) == Inserted(l', at, xml)
  {
    hide UpperBound, WithPlace, Inserted, Valid;
    var s := Unlisted(ix.sib, b);
    SibPlaces(ix);
    BoundSplits(ix, off);
    NodesUnlisted(k, ix.sib, b);
    assert forall a :: 0 <= a < |s| ==> l'[a] == k[s[a]] && l'[a].off == ix.kids[s[a]].off;
    NodesWithPlace(k, s, UpperBound(ix.kids, off), xml, at);
  }

  lemma NodesUnlisted(k: seq<Tag>, s: seq<nat>, b: nat)
    requires b <= |s| && forall a :: 0 <= a < |s| ==> s[a] < |k|
    ensures forall a :: 0 <= a < |Unlisted(s, b)| ==> Unlisted(s, b)[a] < |k|
    ensures var l := Nodes(k, s);
      Nodes(k, Unlisted(s, b)) == if 0 < b < |l| then l[..b] + l[b + 1..] else l
  {
  }

  lemma {:induction false} NodesWithPlace(k: seq<Tag>, s: seq<nat>, p: nat, xml: Tag, at: nat)
    requires p <= |k| && (forall a :: 0 <= a < |s| ==> s[a] < |k|) && at <= |s|
    requires (forall a :: 0 <= a < at ==> s[a] < p) && (at < |s| ==> s[at] >= p)
    ensures forall a :: 0 <= a < |WithPlace(s, p)| ==> WithPlace(s, p)[a] < |k| + 1
    ensures Nodes(Inserted(k, p, xml), WithPlace(s, p)) == Inserted(Nodes(k, s), at, xml)
  {
    hide Inserted;
    if at > 0 {
      NodesWithPlace(k, s[1..], p, xml, at - 1);
      var t, r := WithPlace(s[1..], p), Nodes(Inserted(k, p, xml), WithPlace(s[1..], p));
      forall a | 0 <= a < |s| + 1
        ensures WithPlace(s, p)[a] < |k| + 1
        ensures Nodes(Inserted(k, p, xml), WithPlace(s, p))[a] == Inserted(Nodes(k, s), at, xml)[a]
      {
        assert a > 0 ==> WithPlace(s, p)[a] == t[a - 1] && r[a - 1] == Inserted(Nodes(k, s[1..]), at - 1, xml)[a - 1];
      }
    }
  }

  lemma AtUp(k: seq<Tag>, p: nat, xml: Tag, j: nat)
    requires p <= |k|
    ensures At(Inserted(k, p, xml), Up(p, j)) == At(k, j)
  {
  }

  lemma AtNew(k: seq<Tag>, p: nat, xml: Tag)
    requires p <= |k|
    ensures At(Inserted(k, p, xml), p) == xml
  {
  }

  lemma NextInserted(k: seq<Tag>, m: seq<Kid>, p: nat, xml: Tag, off: nat)
    requires NextLinksFor(k, m, p, xml)
    ensures NextLinks(Inserted(k, p, xml), Inserted(m, p, Kid(xml.name, off)))
  {
    hide Inserted, NextSame, Find, At;
    var k', kid := Inserted(k, p, xml), Kid(xml.name, off);
    var m' := Inserted(m, p, kid);
    NextOfNew(m, p, kid);
    AtUp(k, p, xml, Find(m, p, xml.name));
    AtNew(k, p, xml);
    forall i | 0 <= i < |k'| ensures k'[i].next == At(k', NextSame(m', i)) {
      if i != p {
        var j := if i < p then i else i - 1;
        NextAfter(m, p, kid, j);
        AtUp(k, p, xml, NextSame(m, j));
      }
    }
  }

  lemma OrderedInserted(k: seq<Tag>, p: nat, xml: Tag)
    requires p <= |k| && xml.ordered == At(k, p)
    requires forall i :: 0 <= i < |k| ==> k[i].ordered == if i + 1 == p then xml else At(k, i + 1)
    ensures OrderedLinks(Inserted(k, p, xml))
  {
    hide Inserted;
    var k' := Inserted(k, p, xml);
    forall i | 0 <= i < |k'| ensures k'[i].ordered == At(k', i + 1) {
      assert i != p ==> k'[i] == k[if i < p then i else i - 1];
    }
  }

  lemma SiblingInserted(l: seq<Tag>, at: nat, xml: Tag)
    requires at <= |l| && xml.sibling == At(l, at)
    requires forall a :: 0 <= a < |l| ==> l[a].sibling == if a + 1 == at then xml else At(l, a + 1)
    ensures SiblingLinks(Inserted(l, at, xml))
  {
    hide Inserted;
    var l' := Inserted(l, at, xml);
    forall a | 0 <= a < |l'| ensures l'[a].sibling == At(l', a + 1) {
      assert a != at ==> l'[a] == l[if a < at then a else a - 1];
    }
  }

  lemma NextLinked(k: seq<Tag>, m: seq<Kid>, p: nat, xml: Tag, i: nat)
    requires |m| == |k| && i < p <= |m| && m[i].name == xml.name && NextSame(m, i) >= p
    requires xml.next == At(k, NextSame(m, i)) && k[i].next == xml
    requires forall j :: 0 <= j < |k| && j != i ==> k[j].next == At(k, NextSame(m, j))
    ensures NextLinksFor(k, m, p, xml)
  {
    hide NextSame, Find;
    LastBefore(m, p, xml.name, i);
  }

  /** The last tag of a name before p is the only one whose next tag of that name changes. */
  lemma LastBefore(m: seq<Kid>, p: nat, name: string, i: nat)
    requires i < p <= |m| && m[i].name == name && NextSame(m, i) >= p
    ensures NextSame(m, i) == Find(m, p, name)
    ensures forall j :: 0 <= j < |m| && m[j].name == name && j < p <= NextSame(m, j) ==> j == i
  {
    FindIs(m, p, name, NextSame(m, i));
    forall j | 0 <= j < |m| && m[j].name == name ensures j < p <= NextSame(m, j) ==> j == i {
      assert j < i ==> NextSame(m, j) <= i;
      assert i < j ==> NextSame(m, i) <= j;
    }
  }
}
