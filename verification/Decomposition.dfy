/** A decomposition as SMIOL_create_decomp builds it on all ranks, and the whole way of a field from
    the ranks' buffers to the file and back (src/external/SMIOL/smiol.c). */
module Decomposition {
  import opened Basics
  import opened Triplets
  import opened Marking
  import opened Ring
  import opened Lists
  import opened Agreement
  import opened Transfer
  import opened Partition
  import opened Aggregate

  // ----- what the segments of triplets contain -----

  /** Every listed local ID is that of a triplet with the segment's task. */
  lemma {:induction false} ListedOccurs(s: seq<Triplet>, i: nat, m: nat, k: nat) returns (p: nat)
    requires i <= |s| && m < |Segments(s, i)| && k < |Segments(s, i)[m].locs|
    ensures i <= p < |s| && s[p].loc == Segments(s, i)[m].locs[k] && s[p].task == Segments(s, i)[m].task
    decreases |s| - i
  {
    var segs, e := Segments(s, i), RunEnd(s, i + 1, s[i].task);
    var first, rest := Segment(s[i].task, Locs(s[i..e])), Segments(s, e);
    assert segs == (if s[i].task == UNKNOWN_TASK then [] else [first]) + rest;
    hide Segments, RunEnd, Locs;
    if s[i].task == UNKNOWN_TASK {
      assert segs[m] == rest[m];
      p := ListedOccurs(s, e, m, k);
    } else if m == 0 {
      p := i + k;
    } else {
      assert segs[m] == rest[m - 1];
      p := ListedOccurs(s, e, m - 1, k);
    }
  }

  /** Triplets with distinct local IDs list no local ID twice. */
  lemma {:induction false} SegmentsDistinct(s: seq<Triplet>, i: nat)
    requires i <= |s| && DistinctLocs(s)
    ensures DistinctListed(Segments(s, i))
    decreases |s| - i
  {
    if i < |s| {
      var e := RunEnd(s, i + 1, s[i].task);
      SegmentsDistinct(s, e);
      if s[i].task == UNKNOWN_TASK {
        assert Segments(s, i) == Segments(s, e);
      } else {
        var first, rest := Segment(s[i].task, Locs(s[i..e])), Segments(s, e);
        forall k, m, k' | 0 <= k < |first.locs| && 0 <= m < |rest| && 0 <= k' < |rest[m].locs|
          ensures first.locs[k] != rest[m].locs[k']
        {
          var p := ListedOccurs(s, e, m, k');
          assert s[i + k].loc == first.locs[k];
        }
        PrependDistinct(first, rest);
        assert Segments(s, i) == [first] + rest;
      }
    }
  }

  lemma PrependDistinct(first: Segment, rest: seq<Segment>)
    requires DistinctListed(rest)
    requires forall k, k' :: 0 <= k < k' < |first.locs| ==> first.locs[k] != first.locs[k']
    requires forall k, m, k' :: 0 <= k < |first.locs| && 0 <= m < |rest| && 0 <= k' < |rest[m].locs| ==>
      first.locs[k] != rest[m].locs[k']
    ensures DistinctListed([first] + rest)
  {
    var all := [first] + rest;
    forall m, k, m', k' |
      && 0 <= m < |all| && 0 <= k < |all[m].locs| && 0 <= m' < |all| && 0 <= k' < |all[m'].locs|
      && all[m].locs[k] == all[m'].locs[k']
      ensures m == m' && k == k'
    {
      assert m > 0 ==> all[m] == rest[m - 1];
      assert m' > 0 ==> all[m'] == rest[m' - 1];
    }
  }

  /** What the lists of all ranks need for the exchange, from what the triplets of each rank satisfy. */
  lemma ListedWithin(s: seq<Triplet>, n: nat, size: nat)
    requires SortedOn(s, 2) && DistinctLocs(s)
    requires forall p :: 0 <= p < |s| ==> 0 <= s[p].loc < n && -1 <= s[p].task < size
    ensures var segs := Segments(s, 0);
      && StrictlyIncreasing(segs) && DistinctListed(segs) && SegmentsInRange(segs, n)
      && forall m :: 0 <= m < |segs| ==> 0 <= segs[m].task < size
  {
    var segs := Segments(s, 0);
    SegmentsIncrease(s, 0);
    SegmentsDistinct(s, 0);
    forall m, k | 0 <= m < |segs| && 0 <= k < |segs[m].locs| ensures 0 <= segs[m].locs[k] < n {
      var p := ListedOccurs(s, 0, m, k);
    }
    forall m | 0 <= m < |segs| ensures 0 <= segs[m].task < size {
      var p := ListedOccurs(s, 0, m, 0);
    }
  }

  // ----- the ranks' arguments -----

  /** The arguments of SMIOL_create_decomp on all ranks: the I/O layout, the aggregation group that
      each rank belongs to, and the global IDs of the elements that each rank computes. */
  datatype Setup = Setup(lay: Layout, group: seq<int>, compute: seq<seq<int>>) {
    ghost predicate Valid() {
      lay.Valid() && 0 < |compute| == |group|
    }

    function Size(): nat { |compute| }

    /** The global number of elements, an MPI_Allreduce with MPI_SUM. */
    function Total(): nat { |Concat(compute)| }
  }

  /** The ranks below n of group g, in the order of their ranks in the group's communicator. */
  function Members(group: seq<int>, g: int, n: nat): (m: seq<nat>)
    requires n <= |group|
    ensures forall i :: 0 <= i < |m| ==> m[i] < n && group[m[i]] == g
    ensures forall i, j :: 0 <= i < j < |m| ==> m[i] < m[j]
    ensures forall r :: 0 <= r < n && group[r] == g ==> r in m
  {
    if n == 0 then []
    else if group[n - 1] == g then Members(group, g, n - 1) + [n - 1]
    else Members(group, g, n - 1)
  }

  function Pick<E>(xs: seq<seq<E>>, ranks: seq<nat>): (p: seq<seq<E>>)
    requires forall i :: 0 <= i < |ranks| ==> ranks[i] < |xs|
    ensures |p| == |ranks|
  {
    seq(|ranks|, i requires 0 <= i < |ranks| => xs[ranks[i]])
  }

  /** What rank r holds after gathering: everything of its group on the group's first rank, in rank
      order, and nothing on the others. */
  function Aggregated<E>(group: seq<int>, xs: seq<seq<E>>, r: nat): seq<E>
    requires r < |group| == |xs|
  {
    var m := Members(group, group[r], |group|);
    if m[0] == r then Concat(Pick(xs, m)) else []
  }

  function AllAggregated<E>(group: seq<int>, xs: seq<seq<E>>): (a: seq<seq<E>>)
    requires |group| == |xs|
    ensures |a| == |xs|
  {
    seq(|xs|, r requires 0 <= r < |xs| => Aggregated(group, xs, r))
  }

  /** The groups of a positive aggregation factor; a factor of 0 groups by shared memory instead. */
  function GroupsOf(size: nat, factor: nat): seq<int>
    requires factor > 0
  {
    seq(size, r requires 0 <= r < size => r / factor)
  }

  /** They are runs of so many ranks in a row, the last one perhaps shorter. */
  lemma GroupsAreRuns(size: nat, factor: nat, r: nat)
    requires factor > 0 && r < size
    ensures var group := GroupsOf(size, factor); var m := Members(group, group[r], size);
      && m != [] && m[0] % factor == 0 && m[0] <= r < m[0] + factor
      && |m| == Min(factor, size - m[0]) && forall i :: 0 <= i < |m| ==> m[i] == m[0] + i
  {
    var group := GroupsOf(size, factor);
    var g := r / factor;
    var m, lo := Members(group, g, size), g * factor;
    forall q | 0 <= q < size
      ensures q in m <==> lo <= q < lo + factor
    {
      InGroup(q, factor, g);
    }
    InGroup(r, factor, g);
    InARow(m, lo, Min(factor, size - lo), Min(factor, size - lo));
  }

  lemma InGroup(q: nat, n: nat, g: nat)
    requires n > 0
    ensures q / n == g <==> g * n <= q < g * n + n
    ensures g * n % n == 0
  {
    RankOfTask(g, n);
    if g * n <= q < g * n + n {
      QuotientIs(q, g, n);
    }
  }

  /** Increasing numbers that are just those of an interval. */
  lemma {:induction false} InARow(m: seq<nat>, lo: nat, n: nat, k: nat)
    requires forall i, j :: 0 <= i < j < |m| ==> m[i] < m[j]
    requires forall q: nat :: q in m <==> lo <= q < lo + n
    requires k <= n
    ensures k <= |m| && forall i :: 0 <= i < k ==> m[i] == lo + i
    ensures k == n ==> |m| == n
  {
    if k > 0 {
      InARow(m, lo, n, k - 1);
      assert lo + k - 1 in m;
      var j :| 0 <= j < |m| && m[j] == lo + k - 1;
      assert k - 1 <= j;
      assert m[k - 1] in m;
      assert k > 1 ==> m[k - 2] == lo + (k - 2) && m[k - 2] < m[k - 1];
      assert m[k - 1] == lo + (k - 1);
    }
    assert k < |m| ==> m[k] in m && (k > 0 ==> m[k - 1] < m[k]);
  }

  /** io_elements: the rank's contiguous range of global IDs. */
  function IoElements(rank: nat, lay: Layout, n: nat): (ids: seq<int>)
    requires lay.Valid()
    ensures |ids| == IoCount(rank, lay, n)
  {
    seq(IoCount(rank, lay, n), j => IoStart(rank, lay, n) + j)
  }

  method FillIoElements(ioStart: nat, ioCount: nat) returns (elements: array<int>)
    ensures fresh(elements) && elements.Length == ioCount
    ensures forall j :: 0 <= j < ioCount ==> elements[j] == ioStart + j
  {
    elements := new int[ioCount](_ => 0);
    var i := 0;
    while i < ioCount
      invariant 0 <= i <= ioCount
      invariant forall j :: 0 <= j < i ==> elements[j] == ioStart + j
    {
      elements[i] := ioStart + i;
      i := i + 1;
    }
  }

  // ----- the decomposition -----

  /** The lists on all ranks, comp_list and io_list, as segments. */
  datatype Decomp = Decomp(comp: seq<seq<Segment>>, io: seq<seq<Segment>>)

  ghost predicate Builds(su: Setup, w: World, cts: seq<seq<Triplet>>, its: seq<seq<Triplet>>, d: Decomp)
    requires su.Valid()
  {
    && w.Valid() && w.Size() == su.Size()
    && (forall r :: 0 <= r < su.Size() ==> w.io[r] == IoElements(r, su.lay, su.Total()))
    && Orders(w, AllAggregated(su.group, su.compute), cts, its)
    && |d.comp| == |d.io| == su.Size()
    && forall r :: 0 <= r < su.Size() ==> d.comp[r] == Segments(cts[r], 0) && d.io[r] == Segments(its[r], 0)
  }

  lemma IoIdsUnique(su: Setup, w: World, cts: seq<seq<Triplet>>, its: seq<seq<Triplet>>, d: Decomp)
    requires su.Valid() && Builds(su, w, cts, its, d)
    ensures UniqueIoIds(w)
  {
    forall s, j, s', j' |
      && 0 <= s < w.Size() && 0 <= j < |w.io[s]| && 0 <= s' < w.Size() && 0 <= j' < |w.io[s']|
      && w.io[s][j] == w.io[s'][j']
      ensures s == s' && j == j'
    {
      HeldOnce(s, s', su.lay, su.Total(), w.io[s][j]);
    }
  }

  lemma OwnerRange(w: World, s: nat, j: nat)
    requires w.Valid() && s < w.Size() && j < |w.io[s]|
    ensures -1 <= Owner(w, s, j) < w.Size()
  {
    ClaimantIsFirst(w, s, w.Size(), w.io[s][j]);
  }

  /** The lists that create_decomp builds on its ranks fit together, in both directions. */
  lemma DecompFits(su: Setup, w: World, cts: seq<seq<Triplet>>, its: seq<seq<Triplet>>, d: Decomp)
    requires su.Valid() && Builds(su, w, cts, its, d)
    ensures Matched(d.comp, d.io) && Matched(d.io, d.comp)
    ensures forall r :: 0 <= r < su.Size() ==>
      && SegmentsInRange(d.comp[r], |Aggregated(su.group, su.compute, r)|)
      && SegmentsInRange(d.io[r], IoCount(r, su.lay, su.Total()))
  {
    IoIdsUnique(su, w, cts, its, d);
    var compute := AllAggregated(su.group, su.compute);
    UniqueIdsAgree(w, compute, cts, its);
    forall r | 0 <= r < su.Size()
      ensures StrictlyIncreasing(d.comp[r]) && DistinctListed(d.comp[r]) && SegmentsInRange(d.comp[r], |compute[r]|)
      ensures StrictlyIncreasing(d.io[r]) && DistinctListed(d.io[r]) && SegmentsInRange(d.io[r], |w.io[r]|)
      ensures forall m :: 0 <= m < |d.comp[r]| ==> 0 <= d.comp[r][m].task < su.Size()
      ensures forall m :: 0 <= m < |d.io[r]| ==> 0 <= d.io[r][m].task < su.Size()
    {
      CompWithin(w, r, compute[r], cts[r]);
      IoWithin(w, r, its[r]);
    }
    forall r, t | 0 <= r < su.Size() && 0 <= t < su.Size()
      ensures |SegmentFor(d.comp[t], r)| == |SegmentFor(d.io[r], t)|
    {
      assert Agree(Segments(cts[t], 0), compute[t], r, Segments(its[r], 0), w.io[r], t);
    }
  }

  lemma CompWithin(w: World, c: nat, ids: seq<int>, t: seq<Triplet>)
    requires w.Valid() && c < w.Size() && Placed(w.comp[c], ids) && IsCompOrder(w, c, t)
    ensures var segs := Segments(t, 0);
      && StrictlyIncreasing(segs) && DistinctListed(segs) && SegmentsInRange(segs, |ids|)
      && forall m :: 0 <= m < |segs| ==> 0 <= segs[m].task < w.Size()
  {
    CompOrderMeaning(w, c, ids, t);
    NotedLength(w, c, w.Size());
    forall p | 0 <= p < |t| ensures 0 <= t[p].loc < |ids| && -1 <= t[p].task < w.Size() {
      var k :| 0 <= k < |w.comp[c]| && Noted(w, c, w.Size())[k] == t[p];
      NotedMeaning(w, c, w.Size(), k);
    }
    ListedWithin(t, |ids|, w.Size());
  }

  lemma IoWithin(w: World, s: nat, t: seq<Triplet>)
    requires w.Valid() && s < w.Size() && IsIoOrder(w, s, t)
    ensures var segs := Segments(t, 0);
      && StrictlyIncreasing(segs) && DistinctListed(segs) && SegmentsInRange(segs, |w.io[s]|)
      && forall m :: 0 <= m < |segs| ==> 0 <= segs[m].task < w.Size()
  {
    IoOrderMeaning(w, s, t);
    forall p | 0 <= p < |t| ensures 0 <= t[p].loc < |w.io[s]| && -1 <= t[p].task < w.Size() {
      assert t[p] in t;
      OwnerRange(w, s, t[p].loc);
    }
    ListedWithin(t, |w.io[s]|, w.Size());
  }

  // ----- there always is one -----

  function Into(x: Triplet, t: seq<Triplet>, entry: int): seq<Triplet> {
    if t == [] || CompSort(x, t[0], entry) <= 0 then [x] + t else [t[0]] + Into(x, t[1..], entry)
  }

  lemma ConsSorted(x: Triplet, t: seq<Triplet>, entry: int)
    requires SortedOn(t, entry) && forall j :: 0 <= j < |t| ==> CompSort(x, t[j], entry) <= 0
    ensures SortedOn([x] + t, entry)
  {
    assert forall j :: 0 < j < |t| + 1 ==> ([x] + t)[j] == t[j - 1];
  }

  lemma {:induction false} IntoSorted(x: Triplet, t: seq<Triplet>, entry: int)
    requires 0 <= entry <= 2 && SortedOn(t, entry)
    ensures SortedOn(Into(x, t, entry), entry) && multiset(Into(x, t, entry)) == multiset(t) + multiset{x}
    decreases |t|
  {
    if t == [] || CompSort(x, t[0], entry) <= 0 {
      ConsSorted(x, t, entry);
    } else {
      var rest := Into(x, t[1..], entry);
      IntoSorted(x, t[1..], entry);
      assert t == [t[0]] + t[1..];
      forall j | 0 <= j < |rest|
        ensures CompSort(t[0], rest[j], entry) <= 0
      {
        assert rest[j] in multiset(rest);
        assert rest[j] == x || rest[j] in t[1..];
      }
      ConsSorted(t[0], rest, entry);
    }
  }

  /** Any triplets can be sorted on an entry. */
  lemma {:induction false} SomeOrder(s: seq<Triplet>, entry: int) returns (t: seq<Triplet>)
    requires 0 <= entry <= 2
    ensures SortedOn(t, entry) && multiset(t) == multiset(s)
    decreases |s|
  {
    if s == [] {
      t := [];
    } else {
      var u := SomeOrder(s[1..], entry);
      IntoSorted(s[0], u, entry);
      t := Into(s[0], u, entry);
      assert s == [s[0]] + s[1..];
    }
  }

  lemma SomePlaced(ids: seq<int>) returns (t: seq<Triplet>, find: Index)
    ensures Placed(t, ids) && IsIndex(find, t) && forall k :: 0 <= k < |t| ==> t[k].task == UNKNOWN_TASK
  {
    t := SomeOrder(Unassigned(ids), 0);
    SortedIsSearchable(t, 0);
    SortedIsPlaced(t, ids);
    AllUnknown(t, ids);
    find := IndexOf(t);
  }

  lemma SomeWorld(su: Setup) returns (w: World)
    requires su.Valid()
    ensures w.Valid() && w.Size() == su.Size()
    ensures forall r :: 0 <= r < su.Size() ==>
      w.io[r] == IoElements(r, su.lay, su.Total()) && Placed(w.comp[r], AllAggregated(su.group, su.compute)[r])
  {
    hide Placed, IsIndex, Aggregated;
    var compute := AllAggregated(su.group, su.compute);
    var comp: seq<seq<Triplet>>, find: seq<Index> := [], [];
    for r := 0 to su.Size()
      invariant |comp| == |find| == r
      invariant forall q :: 0 <= q < r ==> IsIndex(find[q], comp[q]) && Placed(comp[q], compute[q])
      invariant forall q, k :: 0 <= q < r && 0 <= k < |comp[q]| ==> comp[q][k].task == UNKNOWN_TASK
    {
      var t, f := SomePlaced(compute[r]);
      comp, find := comp + [t], find + [f];
    }
    w := World(seq(su.Size(), r requires 0 <= r < su.Size() => IoElements(r, su.lay, su.Total())), comp, find);
  }

  lemma AllUnknown(t: seq<Triplet>, ids: seq<int>)
    requires multiset(t) == multiset(Unassigned(ids))
    ensures forall k :: 0 <= k < |t| ==> t[k].task == UNKNOWN_TASK
  {
    forall k | 0 <= k < |t|
      ensures t[k].task == UNKNOWN_TASK
    {
      assert t[k] in multiset(t);
      assert t[k] in Unassigned(ids);
    }
  }

  /** There are orders that the sorts of all ranks may leave. */
  lemma SomeOrders(w: World) returns (cts: seq<seq<Triplet>>, its: seq<seq<Triplet>>)
    requires w.Valid()
    ensures |cts| == |its| == w.Size()
    ensures forall r :: 0 <= r < w.Size() ==> IsCompOrder(w, r, cts[r]) && IsIoOrder(w, r, its[r])
  {
    hide Sent, Noted;
    cts, its := [], [];
    for r := 0 to w.Size()
      invariant |cts| == |its| == r
      invariant forall q :: 0 <= q < r ==> IsCompOrder(w, q, cts[q]) && IsIoOrder(w, q, its[q])
    {
      var ct := SomeOrder(Noted(w, r, w.Size()), 2);
      var it := SomeOrder(FromBuffer(Sent(w, r, w.Size())), 2);
      cts, its := cts + [ct], its + [it];
    }
  }

  /** For every arguments of SMIOL_create_decomp there is a decomposition that it builds. */
  lemma DecompExists(su: Setup) returns (w: World, cts: seq<seq<Triplet>>, its: seq<seq<Triplet>>, d: Decomp)
    requires su.Valid()
    ensures Builds(su, w, cts, its, d)
  {
    hide IoElements, AllAggregated, Placed, Segments, IsCompOrder, IsIoOrder;
    w := SomeWorld(su);
    cts, its := SomeOrders(w);
    d := Decomp(seq(su.Size(), r requires 0 <= r < su.Size() => Segments(cts[r], 0)),
                seq(su.Size(), r requires 0 <= r < su.Size() => Segments(its[r], 0)));
  }

  /** Element 7 on the I/O lists of both ranks, computed by rank 0. */
  ghost function DoubleClaim(): (w: World)
    ensures w.Valid() && w.io == [[7], [7]] && Placed(w.comp[0], [7]) && Placed(w.comp[1], [])
  {
    var w := World([[7], [7]], [[Triplet(7, 0, UNKNOWN_TASK)], []], [map[7 := 0], map[]]);
    assert w.comp[0][0] in w.comp[0];
    w
  }

  lemma DoubleClaimIsOne()
    ensures !Separated([[7], [7]], [[7], []])
  {
    var io, compute: seq<seq<int>> := [[7], [7]], [[7], []];
    assert 7 in compute[After(2, 0, 2)];
    assert compute[After(2, 0, 1)] == [];
    assert ComputedAmong(compute, 0, 2, io[0][0]) && !ComputedAmong(compute, 0, Distance(2, 0, 1), io[0][0]);
    assert io[0][0] == io[1][0];
  }

  /** No rank on the way from 0 to 1 computes the element, so rank 0 claims it for both; and whatever the sorts do, the
      lists do not agree. */
  lemma DoubleClaimDisagrees() returns (cts: seq<seq<Triplet>>, its: seq<seq<Triplet>>)
    ensures Orders(DoubleClaim(), [[7], []], cts, its) && !AllAgree(DoubleClaim(), [[7], []], cts, its)
  {
    hide DoubleClaim, IsCompOrder, IsIoOrder, AllAgree, Separated, Placed;
    var w, compute: seq<seq<int>> := DoubleClaim(), [[7], []];
    cts, its := SomeOrders(w);
    DoubleClaimIsOne();
    AgreementExactly(w, compute, cts, its);
  }
}
