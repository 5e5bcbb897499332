/** Lists that two ranks build on their own name the same elements in the same order
    (src/external/SMIOL/smiol_utils.c, build_exchange). */
module Agreement {
  import opened Basics
  import opened Triplets
  import opened Marking
  import opened Ring
  import opened Lists

  // ----- what the list of sorted triplets says about one neighbour -----

  /** The triplets with the given task, in order. */
  ghost function With(s: seq<Triplet>, n: int): (f: seq<Triplet>)
    ensures forall x :: x in f <==> x in s && x.task == n
  {
    if s == [] then []
    else if s[0].task == n then [s[0]] + With(s[1..], n)
    else With(s[1..], n)
  }

  /** The local IDs listed for neighbour n; none if it is not listed. */
  function SegmentFor(segs: seq<Segment>, n: int): seq<int> {
    if segs == [] then []
    else if segs[0].task == n then segs[0].locs
    else SegmentFor(segs[1..], n)
  }

  predicate HasSegment(segs: seq<Segment>, n: int) {
    exists k :: 0 <= k < |segs| && segs[k].task == n
  }

  ghost predicate StrictlyIncreasing(segs: seq<Segment>) {
    forall i, j :: 0 <= i < j < |segs| ==> segs[i].task < segs[j].task
  }

  lemma {:induction false} WithSplit(a: seq<Triplet>, b: seq<Triplet>, n: int)
    ensures With(a + b, n) == With(a, n) + With(b, n)
  {
    if a == [] {
      assert a + b == b;
    } else {
      assert (a + b)[1..] == a[1..] + b;
      WithSplit(a[1..], b, n);
    }
  }

  lemma {:induction false} WithAll(s: seq<Triplet>, n: int)
    requires forall k :: 0 <= k < |s| ==> s[k].task == n
    ensures With(s, n) == s
  {
    if s != [] {
      WithAll(s[1..], n);
      assert s == [s[0]] + s[1..];
    }
  }

  lemma {:induction false} WithNone(s: seq<Triplet>, n: int)
    requires forall k :: 0 <= k < |s| ==> s[k].task != n
    ensures With(s, n) == []
  {
    if s != [] {
      WithNone(s[1..], n);
    }
  }

  /** The neighbours of the packed segments of sorted triplets are strictly increasing and never
      unknown, and none of them comes without elements. */
  lemma {:induction false} SegmentsIncrease(s: seq<Triplet>, i: nat)
    requires SortedOn(s, 2) && i <= |s|
    ensures var segs := Segments(s, i);
      && StrictlyIncreasing(segs)
      && (forall k :: 0 <= k < |segs| ==> segs[k].task != UNKNOWN_TASK && segs[k].locs != [])
      && (forall k :: 0 <= k < |segs| ==> i < |s| && segs[k].task >= s[i].task)
    decreases |s| - i
  {
    if i < |s| {
      var e := RunEnd(s, i + 1, s[i].task);
      SegmentsIncrease(s, e);
      LaterTasks(s, i, e);
      var segs, rest := Segments(s, i), Segments(s, e);
      if s[i].task != UNKNOWN_TASK {
        assert segs == [Segment(s[i].task, Locs(s[i..e]))] + rest;
      } else {
        assert segs == rest;
      }
    }
  }

  /** The first run of sorted triplets holds all triplets of its task. */
  lemma WithOfRun(s: seq<Triplet>, i: nat, n: int)
    requires SortedOn(s, 2) && i < |s|
    ensures var e := RunEnd(s, i + 1, s[i].task);
      With(s[i..], n) == if n == s[i].task then s[i..e] else With(s[e..], n)
  {
    hide SortedOn, RunEnd, With;
    var e := RunEnd(s, i + 1, s[i].task);
    LaterTasks(s, i, e);
    assert s[i..] == s[i..e] + s[e..];
    WithSplit(s[i..e], s[e..], n);
    if n == s[i].task {
      WithAll(s[i..e], n);
      WithNone(s[e..], n);
    } else {
      WithNone(s[i..e], n);
    }
  }

  /** Sorted triplets list a neighbour with its triplets' local IDs in sorted order, and list it
      exactly if there are any. */
  lemma {:induction false} SegmentsOfSorted(s: seq<Triplet>, i: nat, n: nat)
    requires SortedOn(s, 2) && i <= |s|
    ensures SegmentFor(Segments(s, i), n) == Locs(With(s[i..], n))
    ensures HasSegment(Segments(s, i), n) <==> With(s[i..], n) != []
    decreases |s| - i
  {
    hide SortedOn, Locs, RunEnd, HasSegment;
    if i < |s| {
      var t := s[i].task;
      var e := RunEnd(s, i + 1, t);
      SegmentsOfSorted(s, e, n);
      WithOfRun(s, i, n);
      SegmentsPrepend(if t == UNKNOWN_TASK then [] else [Segment(t, Locs(s[i..e]))], Segments(s, e), n);
    } else {
      NoSegments(n);
    }
  }

  lemma NoSegments(n: int)
    ensures !HasSegment([], n) && SegmentFor([], n) == Locs([]) == []
  {
  }

  lemma SegmentsPrepend(first: seq<Segment>, rest: seq<Segment>, n: int)
    requires |first| <= 1
    ensures HasSegment(first + rest, n) <==> (first != [] && first[0].task == n) || HasSegment(rest, n)
    ensures SegmentFor(first + rest, n)
         == if first != [] && first[0].task == n then first[0].locs else SegmentFor(rest, n)
  {
    if first == [] {
      assert first + rest == rest;
    } else {
      assert (first + rest)[1..] == rest;
      if k :| 0 <= k < |rest| && rest[k].task == n {
        assert (first + rest)[k + 1].task == n;
      }
      if first[0].task == n {
        assert (first + rest)[0].task == n;
      }
    }
  }

  lemma LaterTasks(s: seq<Triplet>, i: nat, e: nat)
    requires SortedOn(s, 2) && i < e <= |s| && (e < |s| ==> s[e].task != s[i].task)
    ensures forall k :: e <= k < |s| ==> s[k].task > s[i].task
  {
    forall k | e <= k < |s| ensures s[k].task > s[i].task {
      assert CompSort(s[i], s[e], 2) <= 0;
      if e < k {
        assert CompSort(s[e], s[k], 2) <= 0;
      }
    }
  }

  lemma {:induction false} WithKeepsOrder(s: seq<Triplet>, n: int)
    requires SortedOn(s, 2) && DistinctLocs(s)
    ensures SortedOn(With(s, n), 2) && DistinctLocs(With(s, n))
  {
    if s != [] {
      hide CompSort;
      var f := With(s[1..], n);
      WithKeepsOrder(s[1..], n);
      forall k | 0 <= k < |f| ensures CompSort(s[0], f[k], 2) <= 0 && s[0].loc != f[k].loc {
        assert f[k] in f;
        var m :| 0 <= m < |s[1..]| && s[1..][m] == f[k];
        assert s[m + 1] == f[k];
      }
    }
  }

  // ----- the two lists -----

  /** compute[c] are the global IDs that rank c was given; its triplets are those IDs with their
      positions, in some order. */
  ghost predicate Placed(comp: seq<Triplet>, ids: seq<int>) {
    && DistinctLocs(comp)
    && (forall k :: 0 <= k < |comp| ==>
          0 <= comp[k].loc < |ids| && ids[comp[k].loc] == comp[k].id && comp[k].task == UNKNOWN_TASK)
    && forall q :: 0 <= q < |ids| ==> Triplet(ids[q], q, UNKNOWN_TASK) in comp
  }

  lemma SortedIsPlaced(comp: seq<Triplet>, ids: seq<int>)
    requires multiset(comp) == multiset(Unassigned(ids))
    ensures Placed(comp, ids)
  {
    var u := Unassigned(ids);
    PermutedDistinctLocs(u, comp);
    InSorted(u, comp);
    forall k | 0 <= k < |comp|
      ensures 0 <= comp[k].loc < |ids| && ids[comp[k].loc] == comp[k].id && comp[k].task == UNKNOWN_TASK
    {
      assert comp[k] in u;
    }
    forall q | 0 <= q < |ids| ensures Triplet(ids[q], q, UNKNOWN_TASK) in comp {
      assert u[q] == Triplet(ids[q], q, UNKNOWN_TASK);
    }
  }

  /** t is what sorting s's returned elements on the computing task may leave: qsort is not stable,
      so any sorted permutation. */
  ghost predicate IsIoOrder(w: World, s: nat, t: seq<Triplet>)
    requires w.Valid() && s < w.Size()
  {
    SortedOn(t, 2) && multiset(t) == multiset(FromBuffer(Sent(w, s, w.Size())))
  }

  ghost predicate IsCompOrder(w: World, c: nat, t: seq<Triplet>)
    requires w.Valid() && c < w.Size()
  {
    SortedOn(t, 2) && multiset(t) == multiset(Noted(w, c, w.Size()))
  }

  /** Rank c's list for s and rank s's list for c exist together, are equally long, and their k-th
      entries are the same global element. */
  ghost predicate Agree(compSegs: seq<Segment>, compIds: seq<int>, s: nat,
                        ioSegs: seq<Segment>, ioIds: seq<int>, c: nat)
  {
    var a, b := SegmentFor(compSegs, s), SegmentFor(ioSegs, c);
    && (HasSegment(compSegs, s) <==> HasSegment(ioSegs, c))
    && |a| == |b|
    && forall k :: 0 <= k < |a| ==>
         0 <= a[k] < |compIds| && 0 <= b[k] < |ioIds| && compIds[a[k]] == ioIds[b[k]]
  }

  lemma InSorted<T>(a: seq<T>, b: seq<T>)
    requires multiset(a) == multiset(b)
    ensures forall x :: x in a <==> x in b
  {
    assert forall x :: x in a <==> x in multiset(a);
    assert forall x :: x in b <==> x in multiset(b);
  }

  /** A triplet of s's sorted I/O elements is one of its elements with that element's owner. */
  lemma IoOrderMeaning(w: World, s: nat, t: seq<Triplet>)
    requires w.Valid() && s < w.Size() && IsIoOrder(w, s, t)
    ensures DistinctLocs(t)
    ensures forall x :: x in t <==>
      0 <= x.loc < |w.io[s]| && x.id == w.io[s][x.loc] && x.task == Owner(w, s, x.loc)
  {
    var u := FromBuffer(Sent(w, s, w.Size()));
    FinalBuffer(w, s);
    PermutedDistinctLocs(u, t);
    InSorted(u, t);
    forall x ensures x in u <==>
      0 <= x.loc < |w.io[s]| && x.id == w.io[s][x.loc] && x.task == Owner(w, s, x.loc)
    {
      if 0 <= x.loc < |w.io[s]| && x.id == w.io[s][x.loc] && x.task == Owner(w, s, x.loc) {
        assert u[x.loc] == x;
      }
    }
  }

  /** A triplet of c's sorted compute elements is one of its triplets; if it has a task, an element
      of that rank is linked to it. */
  lemma CompOrderMeaning(w: World, c: nat, ids: seq<int>, t: seq<Triplet>)
    requires w.Valid() && c < w.Size() && Placed(w.comp[c], ids) && IsCompOrder(w, c, t)
    ensures DistinctLocs(t)
    ensures forall x :: x in t ==> x in Noted(w, c, w.Size()) && 0 <= x.loc < |ids| && x.id == ids[x.loc]
    ensures forall k :: 0 <= k < |w.comp[c]| ==>
      k < |Noted(w, c, w.Size())| && Noted(w, c, w.Size())[k] in t
  {
    var u := Noted(w, c, w.Size());
    forall k | 0 <= k < |w.comp[c]| ensures |u| == |w.comp[c]| && u[k] == w.comp[c][k].(task := u[k].task) {
      NotedMeaning(w, c, w.Size(), k);
    }
    NotedLength(w, c, w.Size());
    assert DistinctLocs(u);
    PermutedDistinctLocs(u, t);
    InSorted(u, t);
  }

  lemma {:induction false} NotedLength(w: World, c: nat, i: nat)
    requires w.Valid() && c < w.Size() && i <= w.Size()
    ensures |Noted(w, c, i)| == |w.comp[c]|
  {
    if i > 0 {
      NotedLength(w, c, i - 1);
    }
  }

  ghost function Ids(s: seq<Triplet>): (ids: seq<int>)
    ensures |ids| == |s| && forall k :: 0 <= k < |s| ==> ids[k] == s[k].id
  {
    seq(|s|, k requires 0 <= k < |s| => s[k].id)
  }

  lemma {:induction false} AscendingUnique(a: seq<int>, b: seq<int>)
    requires Increasing(a) && Increasing(b) && forall x :: x in a <==> x in b
    ensures a == b
  {
    assert (a != [] ==> a[0] in a && a[0] in b) && (b != [] ==> b[0] in b && b[0] in a);
    if a != [] {
      forall x ensures x in a[1..] <==> x in b[1..] {
        assert x in a[1..] <==> x in a && x != a[0];
        assert x in b[1..] <==> x in b && x != b[0];
      }
      AscendingUnique(a[1..], b[1..]);
      assert a == [a[0]] + a[1..] && b == [b[0]] + b[1..];
    }
  }

  /** Sorted on the task, the IDs of one task ascend if no two of its triplets share an ID. */
  lemma WithAscends(t: seq<Triplet>, n: int)
    requires SortedOn(t, 2) && DistinctLocs(t)
    requires forall x, y :: x in t && y in t && x.task == y.task == n && x.id == y.id ==> x.loc == y.loc
    ensures Increasing(Ids(With(t, n)))
  {
    WithKeepsOrder(t, n);
    var f := With(t, n);
    forall i, j | 0 <= i < j < |f| ensures f[i].id < f[j].id {
      assert f[i] in f && f[j] in f && CompSort(f[i], f[j], 2) <= 0;
    }
  }

  lemma IoIdsAscend(w: World, s: nat, t: seq<Triplet>, c: nat)
    requires w.Valid() && NoDoubleClaim(w) && s < w.Size() && c < w.Size() && IsIoOrder(w, s, t)
    ensures Increasing(Ids(With(t, c)))
  {
    IoOrderMeaning(w, s, t);
    WithAscends(t, c);
  }

  lemma CompTripletLinked(w: World, c: nat, ids: seq<int>, t: seq<Triplet>, s: nat, x: Triplet) returns (k: nat)
    requires w.Valid() && c < w.Size() && s < w.Size()
    requires Placed(w.comp[c], ids) && IsCompOrder(w, c, t) && x in t && x.task == s
    ensures k < |w.comp[c]| && w.comp[c][k].loc == x.loc && LinkedTo(w, s, c, k)
    ensures x.id in w.find[c] && w.find[c][x.id] == k
  {
    CompOrderMeaning(w, c, ids, t);
    NotedLength(w, c, w.Size());
    k :| 0 <= k < |w.comp[c]| && Noted(w, c, w.Size())[k] == x;
    NotedMeaning(w, c, w.Size(), k);
  }

  lemma CompIdsAscend(w: World, c: nat, ids: seq<int>, t: seq<Triplet>, s: nat)
    requires w.Valid() && c < w.Size() && s < w.Size()
    requires Placed(w.comp[c], ids) && IsCompOrder(w, c, t)
    ensures Increasing(Ids(With(t, s)))
  {
    CompOrderMeaning(w, c, ids, t);
    forall x, y | x in t && y in t && x.task == y.task == s && x.id == y.id ensures x.loc == y.loc {
      var k := CompTripletLinked(w, c, ids, t, s, x);
      var k' := CompTripletLinked(w, c, ids, t, s, y);
    }
    WithAscends(t, s);
  }

  /** An ID that c lists for s is one that s lists for c. */
  lemma CompListedIsIoListed(w: World, c: nat, ids: seq<int>, ct: seq<Triplet>, s: nat, it: seq<Triplet>, id: int)
    requires w.Valid() && c < w.Size() && s < w.Size()
    requires Placed(w.comp[c], ids) && IsCompOrder(w, c, ct) && IsIoOrder(w, s, it)
    requires id in Ids(With(ct, s))
    ensures id in Ids(With(it, c))
  {
    hide IsIoOrder, IsCompOrder, Placed;
    IoOrderMeaning(w, s, it);
    var i :| 0 <= i < |With(ct, s)| && With(ct, s)[i].id == id;
    assert With(ct, s)[i] in With(ct, s);
    var k := CompTripletLinked(w, c, ids, ct, s, With(ct, s)[i]);
    var j: nat :| Linked(w, s, j, c, k);
    InWith(it, c, Triplet(w.io[s][j], j, c));
  }

  /** An ID that s lists for c is one that c lists for s, unless another element got in the way. */
  lemma IoListedIsCompListed(w: World, c: nat, ids: seq<int>, ct: seq<Triplet>, s: nat, it: seq<Triplet>, id: int)
    requires w.Valid() && NoDoubleClaim(w) && c < w.Size() && s < w.Size()
    requires Placed(w.comp[c], ids) && IsCompOrder(w, c, ct) && IsIoOrder(w, s, it)
    requires id in Ids(With(it, c))
    ensures id in Ids(With(ct, s))
  {
    hide IsIoOrder, IsCompOrder, Placed;
    IoOrderMeaning(w, s, it);
    CompOrderMeaning(w, c, ids, ct);
    var i :| 0 <= i < |With(it, c)| && With(it, c)[i].id == id;
    var x := With(it, c)[i];
    assert x in With(it, c);
    OwnerClaims(w, s, c, id);
    var k := w.find[c][id];
    assert Linked(w, s, x.loc, c, k);
    FinalTriplets(w, c, k, s);
    NotedMeaning(w, c, w.Size(), k);
    InWith(ct, s, Noted(w, c, w.Size())[k]);
  }

  lemma InWith(t: seq<Triplet>, n: int, x: Triplet)
    requires x in t && x.task == n
    ensures x.id in Ids(With(t, n))
  {
    var f := With(t, n);
    assert x in f;
    var i :| 0 <= i < |f| && f[i] == x;
    assert Ids(f)[i] == x.id;
  }

  /** Independently built lists agree: whatever order the unstable sorts leave equal triplets in,
      for every computing rank c and I/O rank s. */
  lemma ListsAgree(w: World, c: nat, ids: seq<int>, ct: seq<Triplet>, s: nat, it: seq<Triplet>)
    requires w.Valid() && NoDoubleClaim(w) && c < w.Size() && s < w.Size()
    requires Placed(w.comp[c], ids) && IsCompOrder(w, c, ct) && IsIoOrder(w, s, it)
    ensures Agree(Segments(ct, 0), ids, s, Segments(it, 0), w.io[s], c)
  {
    IoIdsAscend(w, s, it, c);
    CompIdsAscend(w, c, ids, ct, s);
    forall id ensures id in Ids(With(ct, s)) <==> id in Ids(With(it, c)) {
      if id in Ids(With(ct, s)) {
        CompListedIsIoListed(w, c, ids, ct, s, it, id);
      }
      if id in Ids(With(it, c)) {
        IoListedIsCompListed(w, c, ids, ct, s, it, id);
      }
    }
    AscendingUnique(Ids(With(ct, s)), Ids(With(it, c)));
    SegmentsRead(ct, s);
    SegmentsRead(it, c);
    CompOrderMeaning(w, c, ids, ct);
    IoOrderMeaning(w, s, it);
    var f, g := With(ct, s), With(it, c);
    forall k | 0 <= k < |f|
      ensures 0 <= f[k].loc < |ids| && 0 <= g[k].loc < |w.io[s]| && ids[f[k].loc] == w.io[s][g[k].loc]
    {
      assert f[k] in f && g[k] in g && Ids(f)[k] == Ids(g)[k];
    }
  }

  lemma SegmentsRead(t: seq<Triplet>, n: nat)
    requires SortedOn(t, 2)
    ensures SegmentFor(Segments(t, 0), n) == Locs(With(t, n))
    ensures HasSegment(Segments(t, 0), n) <==> With(t, n) != []
  {
    SegmentsOfSorted(t, 0, n);
    assert t[0..] == t;
  }

  // ----- exactly when they agree -----

  /** Some orders the sorts may leave, one per rank, and what all ranks then list. */
  ghost predicate AllAgree(w: World, compute: seq<seq<int>>, cts: seq<seq<Triplet>>, its: seq<seq<Triplet>>)
    requires w.Valid() && |compute| == |cts| == |its| == w.Size()
  {
    forall c, s :: 0 <= c < w.Size() && 0 <= s < w.Size() ==>
      Agree(Segments(cts[c], 0), compute[c], s, Segments(its[s], 0), w.io[s], c)
  }

  ghost predicate Orders(w: World, compute: seq<seq<int>>, cts: seq<seq<Triplet>>, its: seq<seq<Triplet>>)
    requires w.Valid()
  {
    && |compute| == |cts| == |its| == w.Size()
    && forall r :: 0 <= r < w.Size() ==>
         Placed(w.comp[r], compute[r]) && IsCompOrder(w, r, cts[r]) && IsIoOrder(w, r, its[r])
  }

  /** An element of s that c owns is among what s lists for c; if the lists agree, c lists for s a
      triplet with its ID at the same place, the one that c's search finds. */
  lemma AgreedEntry(w: World, c: nat, ids: seq<int>, ct: seq<Triplet>, s: nat, it: seq<Triplet>, j: nat)
    returns (p: nat, x: Triplet)
    requires w.Valid() && c < w.Size() && s < w.Size() && j < |w.io[s]| && Owner(w, s, j) == c
    requires Placed(w.comp[c], ids) && IsCompOrder(w, c, ct) && IsIoOrder(w, s, it)
    requires Agree(Segments(ct, 0), ids, s, Segments(it, 0), w.io[s], c)
    ensures p < |With(it, c)| && With(it, c)[p].loc == j
    ensures p < |With(ct, s)| && With(ct, s)[p] == x && x in ct && x.task == s && x.id == w.io[s][j]
  {
    IoOrderMeaning(w, s, it);
    CompOrderMeaning(w, c, ids, ct);
    var y := Triplet(w.io[s][j], j, c);
    assert y in With(it, c);
    p :| 0 <= p < |With(it, c)| && With(it, c)[p] == y;
    SegmentsRead(ct, s);
    SegmentsRead(it, c);
    x := With(ct, s)[p];
    assert x in With(ct, s);
    assert SegmentFor(Segments(ct, 0), s)[p] == x.loc && SegmentFor(Segments(it, 0), c)[p] == j;
  }

  lemma AgreementNeedsIt(w: World, compute: seq<seq<int>>, cts: seq<seq<Triplet>>, its: seq<seq<Triplet>>,
                         s: nat, j: nat, s': nat, j': nat)
    requires w.Valid() && Orders(w, compute, cts, its) && AllAgree(w, compute, cts, its)
    requires s < w.Size() && j < |w.io[s]| && s' < w.Size() && j' < |w.io[s']|
    requires w.io[s][j] == w.io[s'][j'] && Owner(w, s, j) == Owner(w, s', j') != UNKNOWN_TASK
    ensures s == s' && j == j'
  {
    ClaimantIsFirst(w, s, w.Size(), w.io[s][j]);
    var c: nat := Owner(w, s, j);
    var p, x := AgreedEntry(w, c, compute[c], cts[c], s, its[s], j);
    var p', x' := AgreedEntry(w, c, compute[c], cts[c], s', its[s'], j');
    var k := CompTripletLinked(w, c, compute[c], cts[c], s, x);
    var k' := CompTripletLinked(w, c, compute[c], cts[c], s', x');
    CompOrderMeaning(w, c, compute[c], cts[c]);
    SameLocSame(cts[c], x, x');
    if p != p' {
      WithKeepsOrder(cts[c], s);
    }
  }

  lemma SameLocSame(t: seq<Triplet>, x: Triplet, y: Triplet)
    requires DistinctLocs(t) && x in t && y in t && x.loc == y.loc
    ensures x == y
  {
  }

  /** The lists of all ranks agree exactly if the ring leaves no double claim. */
  lemma AgreementNeedsOneClaim(w: World, compute: seq<seq<int>>, cts: seq<seq<Triplet>>, its: seq<seq<Triplet>>)
    requires w.Valid() && Orders(w, compute, cts, its)
    ensures AllAgree(w, compute, cts, its) <==> NoDoubleClaim(w)
  {
    if NoDoubleClaim(w) {
      forall c, s | 0 <= c < w.Size() && 0 <= s < w.Size()
        ensures Agree(Segments(cts[c], 0), compute[c], s, Segments(its[s], 0), w.io[s], c)
      {
        ListsAgree(w, c, compute[c], cts[c], s, its[s]);
      }
    }
    if AllAgree(w, compute, cts, its) {
      forall s, j, s', j' |
        && 0 <= s < w.Size() && 0 <= j < |w.io[s]| && 0 <= s' < w.Size() && 0 <= j' < |w.io[s']|
        && (s != s' || j != j') && w.io[s][j] == w.io[s'][j'] && Owner(w, s, j) == Owner(w, s', j')
        ensures Owner(w, s, j) == UNKNOWN_TASK
      {
        if Owner(w, s, j) != UNKNOWN_TASK {
          AgreementNeedsIt(w, compute, cts, its, s, j, s', j');
        }
      }
    }
  }

  /** What placing the compute elements tells about which rank computes an ID. */
  lemma PlacedKnows(w: World, compute: seq<seq<int>>, cts: seq<seq<Triplet>>, its: seq<seq<Triplet>>)
    requires w.Valid() && Orders(w, compute, cts, its)
    ensures Knows(w, compute)
  {
    forall r, id | 0 <= r < w.Size()
      ensures w.Computes(r, id) <==> id in compute[r]
    {
      if id in compute[r] {
        var q :| 0 <= q < |compute[r]| && compute[r][q] == id;
        assert Triplet(id, q, UNKNOWN_TASK) in w.comp[r];
      }
      if w.Computes(r, id) {
        var x := w.comp[r][w.find[r][id]];
        assert compute[r][x.loc] == id;
      }
    }
  }

  /** The lists of all ranks agree exactly if their arguments are separated: no ID that some rank computes is twice on
      one rank's I/O list, and if it is on those of two ranks, some rank that computes it lies between them either way
      around the ring. */
  lemma AgreementExactly(w: World, compute: seq<seq<int>>, cts: seq<seq<Triplet>>, its: seq<seq<Triplet>>)
    requires w.Valid() && Orders(w, compute, cts, its)
    ensures AllAgree(w, compute, cts, its) <==> Separated(w.io, compute)
  {
    hide AllAgree, NoDoubleClaim, Separated, Knows;
    AgreementNeedsOneClaim(w, compute, cts, its);
    PlacedKnows(w, compute, cts, its);
    NoDoubleClaimExactly(w, compute);
  }

  /** In particular they agree if no ID occurs twice among the I/O elements of all ranks. */
  lemma UniqueIdsAgree(w: World, compute: seq<seq<int>>, cts: seq<seq<Triplet>>, its: seq<seq<Triplet>>)
    requires w.Valid() && Orders(w, compute, cts, its) && UniqueIoIds(w)
    ensures AllAgree(w, compute, cts, its)
  {
    AgreementNeedsOneClaim(w, compute, cts, its);
  }
}
