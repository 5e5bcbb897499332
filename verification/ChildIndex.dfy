/** The three indexes over a tag's children, as values: document order, next tag of the same name,
    and one entry per name (src/external/ezxml/ezxml.c, ezxml_insert). */
module ChildIndex {
  import opened Basics

  /** What the indexes depend on: a child's name and its offset in the parent's text. */
  datatype Kid = Kid(name: string, off: nat)

  /** A tag's children in document order, and the places of those on the sibling list. */
  datatype Index = Index(kids: seq<Kid>, sib: seq<nat>)

  ghost predicate ByOffset(kids: seq<Kid>) {
    forall i, j :: 0 <= i < j < |kids| ==> kids[i].off <= kids[j].off
  }

  /** The place behind all children whose offset is no larger. */
  function UpperBound(kids: seq<Kid>, off: nat): (p: nat)
    ensures p <= |kids|
    ensures forall i :: 0 <= i < p ==> kids[i].off <= off
    ensures p < |kids| ==> kids[p].off > off
  {
    if kids == [] || kids[0].off > off then 0 else 1 + UpperBound(kids[1..], off)
  }

  lemma UpperBoundIs(kids: seq<Kid>, off: nat, p: nat)
    requires ByOffset(kids) && p <= |kids| && (p < |kids| ==> kids[p].off > off)
    requires p > 0 ==> kids[p - 1].off <= off
    ensures UpperBound(kids, off) == p
  {
  }

  ghost predicate IsFirst(kids: seq<Kid>, i: nat)
    requires i < |kids|
  {
    forall j :: 0 <= j < i ==> kids[j].name != kids[i].name
  }

  /** The first child from i on with this name; the number of children if there is none. */
  function Find(kids: seq<Kid>, i: nat, name: string): (j: nat)
    requires i <= |kids|
    ensures i <= j <= |kids| && (j < |kids| ==> kids[j].name == name)
    ensures forall k :: i <= k < j ==> kids[k].name != name
    decreases |kids| - i
  {
    if i == |kids| || kids[i].name == name then i else Find(kids, i + 1, name)
  }

  /** Where the next child with the same name is. */
  function NextSame(kids: seq<Kid>, i: nat): (j: nat)
    requires i < |kids|
    ensures i < j <= |kids|
  {
    Find(kids, i + 1, kids[i].name)
  }

  lemma FindIs(kids: seq<Kid>, i: nat, name: string, j: nat)
    requires i <= j <= |kids| && (j < |kids| ==> kids[j].name == name)
    requires forall k :: i <= k < j ==> kids[k].name != name
    ensures Find(kids, i, name) == j
  {
  }

  /** The sibling list is in document order, starts with the first child, and has the first child of
      every name. */
  ghost predicate Valid(ix: Index) {
    && ByOffset(ix.kids) && Increasing(ix.sib)
    && (forall a :: 0 <= a < |ix.sib| ==> ix.sib[a] < |ix.kids|)
    && (ix.kids != [] ==> ix.sib != [] && ix.sib[0] == 0)
    && forall i :: 0 <= i < |ix.kids| && IsFirst(ix.kids, i) ==> i in ix.sib
  }

  /** And nothing else: one entry for each distinct name. */
  ghost predicate Exact(ix: Index) {
    forall a :: 0 <= a < |ix.sib| ==> ix.sib[a] < |ix.kids| && IsFirst(ix.kids, ix.sib[a])
  }

  // ----- inserting -----

  function Inserted<T>(s: seq<T>, p: nat, x: T): (r: seq<T>)
    requires p <= |s|
    ensures |r| == |s| + 1 && r[p] == x
    ensures forall i {:trigger r[i]} :: 0 <= i < |r| && i != p ==> r[i] == s[if i < p then i else i - 1]
  {
    s[..p] + [x] + s[p..]
  }

  /** A child's place after one was inserted at p. */
  function Up(p: nat, i: nat): nat { if i < p then i else i + 1 }

  function UpAll(p: nat, s: seq<nat>): (u: seq<nat>)
    ensures |u| == |s| && forall a :: 0 <= a < |s| ==> u[a] == Up(p, s[a])
  {
    seq(|s|, a requires 0 <= a < |s| => Up(p, s[a]))
  }

  /** The first entry of the sibling list with this name. */
  function FindSib(ix: Index, a: nat, name: string): (b: nat)
    requires a <= |ix.sib| && forall a :: 0 <= a < |ix.sib| ==> ix.sib[a] < |ix.kids|
    ensures a <= b <= |ix.sib| && (b < |ix.sib| ==> ix.kids[ix.sib[b]].name == name)
    ensures forall c :: a <= c < b ==> ix.kids[ix.sib[c]].name != name
    decreases |ix.sib| - a
  {
    if a == |ix.sib| || ix.kids[ix.sib[a]].name == name then a else FindSib(ix, a + 1, name)
  }

  /** The old entry of the same name is taken off the sibling list, unless it heads the list. */
  function Unlisted(sib: seq<nat>, b: nat): (s: seq<nat>)
    requires b <= |sib|
  {
    if 0 < b < |sib| then sib[..b] + sib[b + 1..] else sib
  }

  function InsertKid(ix: Index, kid: Kid): Index
    requires Valid(ix)
  {
    var p := UpperBound(ix.kids, kid.off);
    var kids' := Inserted(ix.kids, p, kid);
    var b := FindSib(ix, 0, kid.name);
    if ix.kids == [] then Index(kids', [0])
    else if b < |ix.sib| && ix.kids[ix.sib[b]].off <= kid.off then Index(kids', UpAll(p, ix.sib))
    else
      var s := Unlisted(ix.sib, b);
      Index(kids', WithPlace(s, p))
  }

  /** A list of places rearranged for an insertion at p, with p itself added where it belongs. */
  function WithPlace(s: seq<nat>, p: nat): (t: seq<nat>)
    ensures |t| == |s| + 1
  {
    if s == [] || s[0] >= p then [p] + UpAll(p, s) else [s[0]] + WithPlace(s[1..], p)
  }

  /** The entry that a search along the sibling list finds first is the first child of the name. */
  lemma FindSibIsFirst(ix: Index, name: string)
    requires Valid(ix)
    ensures var b := FindSib(ix, 0, name); var f := Find(ix.kids, 0, name);
      if f == |ix.kids| then b == |ix.sib| else b < |ix.sib| && ix.sib[b] == f
  {
    var b, f := FindSib(ix, 0, name), Find(ix.kids, 0, name);
    if f < |ix.kids| {
      assert IsFirst(ix.kids, f);
      var a :| 0 <= a < |ix.sib| && ix.sib[a] == f;
    }
  }

  /** Before p exactly the children with no larger offset. */
  lemma SplitAtBound(ix: Index, off: nat, i: nat)
    requires Valid(ix) && i < |ix.kids|
    ensures i < UpperBound(ix.kids, off) <==> ix.kids[i].off <= off
  {
    var p := UpperBound(ix.kids, off);
    if p < i {
      assert ix.kids[p].off <= ix.kids[i].off;
    }
  }

  /** Which children of the new list are the first of their names. */
  lemma FirstAfter(kids: seq<Kid>, p: nat, kid: Kid, i: nat)
    requires p <= |kids| && i < |kids|
    ensures var kids' := Inserted(kids, p, kid);
      && Up(p, i) < |kids'| && kids'[Up(p, i)] == kids[i]
      && (IsFirst(kids', Up(p, i)) <==> IsFirst(kids, i) && !(p <= i && kids[i].name == kid.name))
      && (IsFirst(kids', p) <==> forall j :: 0 <= j < p ==> kids[j].name != kid.name)
  {
    hide Inserted;
    var kids' := Inserted(kids, p, kid);
    forall j | 0 <= j < |kids| ensures kids'[Up(p, j)] == kids[j] {
    }
    if IsFirst(kids', Up(p, i)) {
      forall j | 0 <= j < i ensures kids[j].name != kids[i].name {
        assert kids'[Up(p, j)].name != kids'[Up(p, i)].name;
      }
      assert p <= i ==> kids'[p].name != kids'[Up(p, i)].name;
    }
  }

  lemma {:induction false} WithPlaceHas(s: seq<nat>, p: nat)
    requires Increasing(s)
    ensures p in WithPlace(s, p) && forall i: nat :: Up(p, i) in WithPlace(s, p) <==> i in s
  {
    if s == [] || s[0] >= p {
      UpAllKeeps(p, s);
    } else {
      WithPlaceHas(s[1..], p);
      assert s == [s[0]] + s[1..];
    }
  }

  lemma {:induction false} WithPlaceAscends(s: seq<nat>, p: nat, n: nat)
    requires Increasing(s) && p <= n && forall a :: 0 <= a < |s| ==> s[a] < n
    ensures var t := WithPlace(s, p);
      && Increasing(t) && (forall a :: 0 <= a < |t| ==> t[a] < n + 1)
      && forall a :: 0 <= a < |t| ==> t[a] >= p || (s != [] && t[a] >= s[0])
  {
    if s == [] || s[0] >= p {
      assert forall a :: 0 <= a < |s| ==> s[0] <= s[a];
    } else {
      WithPlaceAscends(s[1..], p, n);
    }
  }

  lemma UnlistedKeeps(sib: seq<nat>, b: nat, n: nat)
    requires Increasing(sib) && b <= |sib| && forall a :: 0 <= a < |sib| ==> sib[a] < n
    ensures var s := Unlisted(sib, b);
      && Increasing(s) && (forall a :: 0 <= a < |s| ==> s[a] < n)
      && forall i: nat :: i in s <==> i in sib && !(0 < b < |sib| && i == sib[b])
  {
    var s := Unlisted(sib, b);
    forall i: nat ensures i in s <==> i in sib && !(0 < b < |sib| && i == sib[b]) {
      if 0 < b < |sib| && i in sib && i != sib[b] {
        var a :| 0 <= a < |sib| && sib[a] == i;
        assert s[if a < b then a else a - 1] == i;
      }
    }
  }

  /** Which of the code's cases applies, in terms of the first child f of the new child's name. */
  lemma SibCases(ix: Index, kid: Kid)
    requires Valid(ix)
    ensures var p, f := UpperBound(ix.kids, kid.off), Find(ix.kids, 0, kid.name);
      var b, ix' := FindSib(ix, 0, kid.name), InsertKid(ix, kid);
      && |ix'.kids| == |ix.kids| + 1
      && (IsFirst(ix'.kids, p) <==> f >= p)
      && (if f == |ix.kids| then b == |ix.sib| else b < |ix.sib| && ix.sib[b] == f)
      && (if ix.kids == [] then ix'.sib == [0]
          else if f < p then ix'.sib == UpAll(p, ix.sib)
          else ix'.sib == WithPlace(Unlisted(ix.sib, b), p))
  {
    hide UpperBound, Find, WithPlace, UpAll, IsFirst, ByOffset;
    FindSibIsFirst(ix, kid.name);
    if Find(ix.kids, 0, kid.name) < |ix.kids| {
      SplitAtBound(ix, kid.off, Find(ix.kids, 0, kid.name));
    }
    FirstAfterNew(ix.kids, UpperBound(ix.kids, kid.off), kid);
  }

  /** The sibling list after an insertion: the new child if it is the first of its name; the others as
      before, except that the old first of the name is gone unless it headed the list. */
  lemma SibAfter(ix: Index, kid: Kid)
    requires Valid(ix)
    ensures var ix' := InsertKid(ix, kid); var p := UpperBound(ix.kids, kid.off);
      && Increasing(ix'.sib) && (forall a :: 0 <= a < |ix'.sib| ==> ix'.sib[a] < |ix'.kids|)
      && (p in ix'.sib <==> IsFirst(ix'.kids, p))
      && forall i: nat :: i < |ix.kids| ==>
           (Up(p, i) in ix'.sib <==>
             i in ix.sib && !(IsFirst(ix'.kids, p) && i > 0 && i == Find(ix.kids, 0, kid.name)))
  {
    hide UpperBound, Find, FindSib, WithPlace, UpAll, IsFirst, Unlisted, Valid, InsertKid;
    var p := UpperBound(ix.kids, kid.off);
    SibPlaces(ix);
    SibCases(ix, kid);
    if ix.kids != [] {
      if Find(ix.kids, 0, kid.name) < p {
        UpAllKeeps(p, ix.sib);
      } else {
        var b := FindSib(ix, 0, kid.name);
        UnlistedKeeps(ix.sib, b, |ix.kids|);
        WithPlaceHas(Unlisted(ix.sib, b), p);
        WithPlaceAscends(Unlisted(ix.sib, b), p, |ix.kids|);
      }
    }
  }

  lemma SibPlaces(ix: Index)
    requires Valid(ix)
    ensures Increasing(ix.sib) && (forall a :: 0 <= a < |ix.sib| ==> ix.sib[a] < |ix.kids|)
    ensures ix.kids == [] ==> ix.sib == []
    ensures ix.kids != [] ==> ix.sib != [] && ix.sib[0] == 0
  {
    assert ix.sib != [] ==> ix.sib[0] < |ix.kids|;
  }

  lemma FirstAfterNew(kids: seq<Kid>, p: nat, kid: Kid)
    requires p <= |kids|
    ensures IsFirst(Inserted(kids, p, kid), p) <==> Find(kids, 0, kid.name) >= p
  {
    hide Inserted;
    var kids' := Inserted(kids, p, kid);
    assert forall j :: 0 <= j < p ==> kids'[j] == kids[j];
  }

  lemma UpAllKeeps(p: nat, s: seq<nat>)
    requires Increasing(s)
    ensures Increasing(UpAll(p, s)) && p !in UpAll(p, s) && forall i: nat :: Up(p, i) in UpAll(p, s) <==> i in s
  {
    forall i: nat ensures Up(p, i) in UpAll(p, s) <==> i in s {
      if i in s {
        var a :| 0 <= a < |s| && s[a] == i;
        assert UpAll(p, s)[a] == Up(p, i);
      }
    }
  }

  /** Every insertion keeps the indexes as they should be. */
  lemma InsertKeepsValid(ix: Index, kid: Kid)
    requires Valid(ix)
    ensures Valid(InsertKid(ix, kid))
  {
    var p, ix' := UpperBound(ix.kids, kid.off), InsertKid(ix, kid);
    assert ix'.kids == Inserted(ix.kids, p, kid);
    SibAfter(ix, kid);
    hide InsertKid;
    OffsetsAfter(ix, kid);
    forall i | 0 <= i < |ix'.kids| && IsFirst(ix'.kids, i) ensures i in ix'.sib {
      if i != p {
        var j := if i < p then i else i - 1;
        FirstAfter(ix.kids, p, kid, j);
        assert i == Up(p, j);
      }
    }
    assert IsFirst(ix'.kids, 0);
    assert ix'.sib[0] == 0 by {
      var a :| 0 <= a < |ix'.sib| && ix'.sib[a] == 0;
    }
  }

  lemma OffsetsAfter(ix: Index, kid: Kid)
    requires Valid(ix)
    ensures ByOffset(InsertKid(ix, kid).kids)
  {
    hide UpperBound;
    var p, kids' := UpperBound(ix.kids, kid.off), InsertKid(ix, kid).kids;
    assert kids' == Inserted(ix.kids, p, kid);
    hide InsertKid;
    forall i | 0 <= i < |ix.kids| ensures i < p <==> ix.kids[i].off <= kid.off {
      SplitAtBound(ix, kid.off, i);
    }
  }

  /** The sibling list keeps exactly one entry per name, except when a child goes before the first one
      and has that one's name. */
  lemma InsertKeepsExactly(ix: Index, kid: Kid)
    requires Valid(ix) && Exact(ix)
    ensures Exact(InsertKid(ix, kid)) <==>
      !(ix.kids != [] && kid.off < ix.kids[0].off && kid.name == ix.kids[0].name)
  {
    var p, ix' := UpperBound(ix.kids, kid.off), InsertKid(ix, kid);
    assert ix'.kids == Inserted(ix.kids, p, kid);
    SibAfter(ix, kid);
    InsertKeepsValid(ix, kid);
    hide InsertKid;
    if ix.kids != [] && kid.off < ix.kids[0].off && kid.name == ix.kids[0].name {
      assert Up(p, 0) == 1;
      assert 1 in ix'.sib;
      FirstAfter(ix.kids, p, kid, 0);
      var a :| 0 <= a < |ix'.sib| && ix'.sib[a] == 1;
      assert !IsFirst(ix'.kids, ix'.sib[a]);
    } else {
      forall a | 0 <= a < |ix'.sib| ensures IsFirst(ix'.kids, ix'.sib[a]) {
        var i := ix'.sib[a];
        if i != p {
          var j := if i < p then i else i - 1;
          assert i == Up(p, j) && j in ix.sib;
          FirstAfter(ix.kids, p, kid, j);
          FirstIsFound(ix.kids, j);
          if j == 0 {
            SplitAtBound(ix, kid.off, 0);
          }
        }
      }
    }
  }

  /** A second tag named a, put before the only one, leaves two entries for the name. */
  lemma TwoEntries()
    ensures var ix := Index([Kid("a", 5)], [0]);
      Valid(ix) && Exact(ix) && !Exact(InsertKid(ix, Kid("a", 2)))
  {
    InsertKeepsExactly(Index([Kid("a", 5)], [0]), Kid("a", 2));
  }

  lemma FirstIsFound(kids: seq<Kid>, j: nat)
    requires j < |kids|
    ensures IsFirst(kids, j) <==> Find(kids, 0, kids[j].name) == j
  {
  }

  /** The links to the next child of the same name after an insertion. */
  lemma NextAfter(kids: seq<Kid>, p: nat, kid: Kid, i: nat)
    requires p <= |kids| && i < |kids|
    ensures var kids' := Inserted(kids, p, kid);
      NextSame(kids', Up(p, i)) ==
        if kids[i].name == kid.name && i < p <= NextSame(kids, i) then p else Up(p, NextSame(kids, i))
  {
    hide Inserted;
    var kids' := Inserted(kids, p, kid);
    var n := NextSame(kids, i);
    forall k | 0 <= k < |kids'| && k != p ensures kids'[k] == kids[if k < p then k else k - 1] {
    }
    FindIs(kids', Up(p, i) + 1, kids[i].name, if kids[i].name == kid.name && i < p <= n then p else Up(p, n));
  }

  lemma NextOfNew(kids: seq<Kid>, p: nat, kid: Kid)
    requires p <= |kids|
    ensures NextSame(Inserted(kids, p, kid), p) == Up(p, Find(kids, p, kid.name))
  {
    hide Inserted;
    var kids' := Inserted(kids, p, kid);
    assert forall k :: p < k < |kids'| ==> kids'[k] == kids[k - 1];
    FindIs(kids', p + 1, kid.name, Find(kids, p, kid.name) + 1);
  }

  // ----- any sequence of insertions -----

  /** The indexes after inserting children one after the other into a tag without children. */
  ghost function Built(ins: seq<Kid>): (ix: Index)
    ensures Valid(ix)
  {
    if ins == [] then Index([], [])
    else
      var before := Built(ins[..|ins| - 1]);
      InsertKeepsValid(before, ins[|ins| - 1]);
      InsertKid(before, ins[|ins| - 1])
  }

  function AtOffset(kids: seq<Kid>, off: nat): seq<Kid> {
    if kids == [] then []
    else AtOffset(kids[..|kids| - 1], off) +
         (if kids[|kids| - 1].off == off then [kids[|kids| - 1]] else [])
  }

  lemma {:induction false} AtOffsetSplit(a: seq<Kid>, b: seq<Kid>, off: nat)
    ensures AtOffset(a + b, off) == AtOffset(a, off) + AtOffset(b, off)
  {
    if b == [] {
      assert a + b == a;
    } else {
      assert (a + b)[..|a + b| - 1] == a + b[..|b| - 1];
      AtOffsetSplit(a, b[..|b| - 1], off);
    }
  }

  lemma {:induction false} NoneAtOffset(kids: seq<Kid>, off: nat)
    requires forall i :: 0 <= i < |kids| ==> kids[i].off != off
    ensures AtOffset(kids, off) == []
  {
    if kids != [] {
      NoneAtOffset(kids[..|kids| - 1], off);
    }
  }

  /** Document order is the stable sort of the insertions by offset: sorted, and for each offset the
      children with that offset in the order in which they were inserted. */
  lemma {:induction false} DocumentOrder(ins: seq<Kid>, off: nat)
    ensures ByOffset(Built(ins).kids)
    ensures AtOffset(Built(ins).kids, off) == AtOffset(ins, off)
  {
    if ins != [] {
      hide InsertKid;
      var init, kid := ins[..|ins| - 1], ins[|ins| - 1];
      DocumentOrder(init, off);
      InsertedStably(Built(init), kid, off);
    }
  }

  lemma KidsAfter(ix: Index, kid: Kid)
    requires Valid(ix)
    ensures var p := UpperBound(ix.kids, kid.off);
      InsertKid(ix, kid).kids == Inserted(ix.kids, p, kid)
  {
  }

  lemma InsertedStably(ix: Index, kid: Kid, off: nat)
    requires Valid(ix)
    ensures AtOffset(InsertKid(ix, kid).kids, off) == AtOffset(ix.kids, off) + if kid.off == off then [kid] else []
  {
    hide InsertKid, UpperBound, AtOffset, Valid;
    var p := UpperBound(ix.kids, kid.off);
    KidsAfter(ix, kid);
    assert ix.kids == ix.kids[..p] + ix.kids[p..];
    if kid.off == off {
      forall i | p <= i < |ix.kids| ensures ix.kids[i].off != off {
        SplitAtBound(ix, kid.off, i);
      }
      NoneAtOffset(ix.kids[p..], off);
    }
    AtOffsetBetween(ix.kids[..p], kid, ix.kids[p..], off);
  }

  lemma AtOffsetBetween(a: seq<Kid>, kid: Kid, b: seq<Kid>, off: nat)
    requires kid.off == off ==> AtOffset(b, off) == []
    ensures AtOffset(a + [kid] + b, off) == AtOffset(a + b, off) + if kid.off == off then [kid] else []
  {
    AtOffsetSplit(a, b, off);
    AtOffsetSplit(a + [kid], b, off);
    assert (a + [kid])[..|a|] == a;
  }

  /** Inserting with non-decreasing offsets, as the parser does, appends each child, and the sibling
      list has exactly one entry for each distinct name. */
  lemma {:induction false} ParserOrder(ins: seq<Kid>)
    requires ByOffset(ins)
    ensures Built(ins).kids == ins && Exact(Built(ins))
  {
    if ins != [] {
      hide InsertKid, UpperBound, Exact, Valid;
      var init, kid := ins[..|ins| - 1], ins[|ins| - 1];
      ParserOrder(init);
      InsertKeepsExactly(Built(init), kid);
      KidsAfter(Built(init), kid);
      UpperBoundIs(init, kid.off, |init|);
      assert init[..|init|] + [kid] + init[|init|..] == ins;
    }
  }

  // ----- looking children up by name -----

  /** The children met from i on by following the links to the next of the same name. */
  function Chain(kids: seq<Kid>, i: nat): seq<nat>
    requires i <= |kids|
    decreases |kids| - i
  {
    if i == |kids| then [] else [i] + Chain(kids, NextSame(kids, i))
  }

  /** The places from i on of all children with this name, in document order. */
  function Places(kids: seq<Kid>, i: nat, name: string): seq<nat>
    requires i <= |kids|
    decreases |kids| - i
  {
    if i == |kids| then []
    else (if kids[i].name == name then [i] else []) + Places(kids, i + 1, name)
  }

  lemma {:induction false} PlacesSkip(kids: seq<Kid>, i: nat, j: nat, name: string)
    requires i <= j <= |kids| && forall k :: i <= k < j ==> kids[k].name != name
    ensures Places(kids, i, name) == Places(kids, j, name)
    decreases j - i
  {
    if i < j {
      PlacesSkip(kids, i + 1, j, name);
    }
  }

  /** Starting from the first child that a lookup returns and following the links visits exactly the
      children with that name, in document order. */
  lemma {:induction false} ChainIsAll(kids: seq<Kid>, i: nat, name: string)
    requires i <= |kids|
    ensures Chain(kids, Find(kids, i, name)) == Places(kids, i, name)
    decreases |kids| - i
  {
    var f := Find(kids, i, name);
    PlacesSkip(kids, i, f, name);
    if f < |kids| {
      ChainIsAll(kids, f + 1, name);
    }
  }

  /** Where following the links idx times leads; the number of children once they run out. */
  function NthSame(kids: seq<Kid>, i: nat, idx: nat): (j: nat)
    requires i <= |kids|
    ensures j <= |kids|
    decreases idx
  {
    if i == |kids| || idx == 0 then i else NthSame(kids, NextSame(kids, i), idx - 1)
  }

  /** A lookup by name and number gives that number of the children with that name. */
  lemma NthOfName(kids: seq<Kid>, name: string, idx: nat)
    ensures var places := Places(kids, 0, name);
      NthSame(kids, Find(kids, 0, name), idx) == if idx < |places| then places[idx] else |kids|
  {
    ChainIsAll(kids, 0, name);
    NthOfChain(kids, Find(kids, 0, name), idx);
  }

  lemma {:induction false} NthOfChain(kids: seq<Kid>, i: nat, idx: nat)
    requires i <= |kids|
    ensures NthSame(kids, i, idx) == if idx < |Chain(kids, i)| then Chain(kids, i)[idx] else |kids|
    decreases idx
  {
    if i < |kids| && idx > 0 {
      NthOfChain(kids, NextSame(kids, i), idx - 1);
    }
  }
}
