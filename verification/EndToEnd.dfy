/** SMIOL_put_var and SMIOL_get_var of a decomposed variable on all ranks together: the file does not
    depend on how the field was distributed (src/external/SMIOL/smiol.c). */
module EndToEnd {
  import opened Basics
  import opened Triplets
  import opened Ring
  import opened Lists
  import opened Agreement
  import opened Transfer
  import opened Partition
  import opened Aggregate
  import opened Decomposition

  // ----- the file -----

  /** The variable after a write of count elements at start. */
  function Overwrite<E>(image: seq<E>, start: nat, data: seq<E>): (r: seq<E>)
    requires start + |data| <= |image|
    ensures |r| == |image|
  {
    image[..start] + data + image[start + |data|..]
  }

  /** outs[r] is what rank r writes, as long as its part of the variable. */
  ghost predicate AreParts<E>(lay: Layout, n: nat, outs: seq<seq<E>>)
    requires lay.Valid()
  {
    forall r :: 0 <= r < |outs| ==> |outs[r]| == IoCount(r, lay, n)
  }

  lemma PartEnds(r: nat, lay: Layout, n: nat)
    requires lay.Valid()
    ensures IoStart(r, lay, n) + IoCount(r, lay, n) <= n
  {
    BoundariesMonotone(r / lay.ioStride, r / lay.ioStride + 1, lay, n);
  }

  ghost function WriteRanks<E>(image: seq<E>, lay: Layout, outs: seq<seq<E>>, k: nat): (r: seq<E>)
    requires lay.Valid() && AreParts(lay, |image|, outs) && k <= |outs|
    ensures |r| == |image|
  {
    if k == 0 then image
    else
      PartEnds(k - 1, lay, |image|);
      Overwrite(WriteRanks(image, lay, outs, k - 1), IoStart(k - 1, lay, |image|), outs[k - 1])
  }

  lemma OverwriteAt<E>(image: seq<E>, start: nat, data: seq<E>, id: nat)
    requires start + |data| <= |image| && id < |image|
    ensures Overwrite(image, start, data)[id]
         == if start <= id < start + |data| then data[id - start] else image[id]
  {
  }

  /** What no rank holds keeps its value. */
  lemma {:induction false} HeldByNone<E>(image: seq<E>, lay: Layout, outs: seq<seq<E>>, k: nat, id: nat)
    requires lay.Valid() && AreParts(lay, |image|, outs) && k <= |outs| && id < |image|
    requires forall r :: 0 <= r < k ==> !Holds(r, lay, |image|, id)
    ensures WriteRanks(image, lay, outs, k)[id] == image[id]
  {
    hide Overwrite, IoStart, IoCount;
    if k > 0 {
      HeldByNone(image, lay, outs, k - 1, id);
      PartEnds(k - 1, lay, |image|);
      assert !Holds(k - 1, lay, |image|, id);
      OverwriteAt(WriteRanks(image, lay, outs, k - 1), IoStart(k - 1, lay, |image|), outs[k - 1], id);
    }
  }

  /** Each rank's part ends up where it belongs: no other rank writes there. */
  lemma {:induction false} WrittenBy<E>(image: seq<E>, lay: Layout, outs: seq<seq<E>>, k: nat, r: nat, id: nat)
    requires lay.Valid() && AreParts(lay, |image|, outs) && k <= |outs|
    requires Holds(r, lay, |image|, id) && id < |image|
    ensures r < k ==> WriteRanks(image, lay, outs, k)[id] == outs[r][id - IoStart(r, lay, |image|)]
    ensures k <= r ==> WriteRanks(image, lay, outs, k)[id] == image[id]
  {
    hide Overwrite, IoStart, IoCount;
    if k > 0 {
      WrittenBy(image, lay, outs, k - 1, r, id);
      PartEnds(k - 1, lay, |image|);
      OverwriteAt(WriteRanks(image, lay, outs, k - 1), IoStart(k - 1, lay, |image|), outs[k - 1], id);
      if k - 1 != r && Holds(k - 1, lay, |image|, id) {
        HeldOnce(k - 1, r, lay, |image|, id);
      }
    }
  }

  // ----- put and get -----

  ghost predicate SameShape<E, F>(xs: seq<seq<E>>, ys: seq<seq<F>>) {
    |xs| == |ys| && forall r :: 0 <= r < |xs| ==> |xs[r]| == |ys[r]|
  }

  /** A decomposition whose lists fit together and into the fields of its setup. */
  ghost predicate Fits(su: Setup, d: Decomp) {
    && su.Valid() && |d.comp| == |d.io| == su.Size()
    && Matched(d.comp, d.io) && Matched(d.io, d.comp)
    && forall r :: 0 <= r < su.Size() ==>
         && SegmentsInRange(d.comp[r], |Aggregated(su.group, su.compute, r)|)
         && SegmentsInRange(d.io[r], IoCount(r, su.lay, su.Total()))
  }

  lemma AggregatedLength<E>(su: Setup, bufs: seq<seq<E>>, r: nat)
    requires su.Valid() && SameShape(bufs, su.compute) && r < su.Size()
    ensures |Aggregated(su.group, bufs, r)| == |Aggregated(su.group, su.compute, r)|
  {
    var m := Members(su.group, su.group[r], su.Size());
    ConcatIsGathered(Pick(bufs, m));
    ConcatIsGathered(Pick(su.compute, m));
    assert Counts(Pick(bufs, m)) == Counts(Pick(su.compute, m));
  }

  /** What the I/O tasks have to write in SMIOL_put_var: the buffers are gathered within the groups
      and transferred to the I/O tasks. The output buffers start with arbitrary contents. */
  ghost function PutOuts<E>(su: Setup, d: Decomp, bufs: seq<seq<E>>, blank: seq<seq<E>>): (outs: seq<seq<E>>)
    requires Fits(su, d) && SameShape(bufs, su.compute)
    requires |blank| == su.Size() && AreParts(su.lay, su.Total(), blank)
    ensures |outs| == su.Size() && AreParts(su.lay, su.Total(), outs)
  {
    PutFits(su, d, bufs, blank);
    var aggs := AllAggregated(su.group, bufs);
    seq(su.Size(), r requires 0 <= r < su.Size() => Transferred(d.comp, d.io, aggs, blank, r))
  }

  /** The file's variable after SMIOL_put_var. */
  ghost function PutVar<E>(su: Setup, d: Decomp, bufs: seq<seq<E>>, blank: seq<seq<E>>, image: seq<E>): (r: seq<E>)
    requires Fits(su, d) && SameShape(bufs, su.compute) && |image| == su.Total()
    requires |blank| == su.Size() && AreParts(su.lay, su.Total(), blank)
    ensures |r| == |image|
  {
    WriteRanks(image, su.lay, PutOuts(su, d, bufs, blank), su.Size())
  }

  lemma PutFits<E>(su: Setup, d: Decomp, bufs: seq<seq<E>>, blank: seq<seq<E>>)
    requires Fits(su, d) && SameShape(bufs, su.compute)
    requires |blank| == su.Size() && AreParts(su.lay, su.Total(), blank)
    ensures FieldsFit(d.comp, AllAggregated(su.group, bufs)) && FieldsFit(d.io, blank)
  {
    forall r | 0 <= r < su.Size() ensures SegmentsInRange(d.comp[r], |AllAggregated(su.group, bufs)[r]|) {
      AggregatedLength(su, bufs, r);
    }
  }

  /** What the I/O tasks read. */
  ghost function ReadParts<E>(su: Setup, image: seq<E>): (ins: seq<seq<E>>)
    requires su.Valid() && |image| == su.Total()
    ensures |ins| == su.Size() && AreParts(su.lay, su.Total(), ins)
  {
    forall r: nat ensures IoStart(r, su.lay, su.Total()) + IoCount(r, su.lay, su.Total()) <= |image| {
      PartEnds(r, su.lay, su.Total());
    }
    seq(su.Size(), r requires 0 <= r < su.Size() =>
      image[IoStart(r, su.lay, su.Total())..IoStart(r, su.lay, su.Total()) + IoCount(r, su.lay, su.Total())])
  }

  /** The gathered buffer of rank r after SMIOL_get_var has transferred what the I/O tasks read; the
      receiving buffers start with arbitrary contents. */
  ghost function GetAggregated<E>(su: Setup, d: Decomp, image: seq<E>, blank: seq<seq<E>>, r: nat): (a: seq<E>)
    requires Fits(su, d) && |image| == su.Total() && r < su.Size()
    requires SameShape(blank, AllAggregated(su.group, su.compute))
    ensures |a| == |Aggregated(su.group, su.compute, r)|
  {
    Transferred(d.io, d.comp, ReadParts(su, image), blank, r)
  }

  // ----- where an element is in its group's gathered buffer -----

  /** The members of r's group. */
  ghost function Group(su: Setup, r: nat): (m: seq<nat>)
    requires su.Valid() && r < su.Size()
    ensures r in m && forall i :: 0 <= i < |m| ==> m[i] < su.Size() && su.group[m[i]] == su.group[r]
  {
    Members(su.group, su.group[r], su.Size())
  }

  /** The first rank of r's group, where the group's buffers are gathered. */
  ghost function Root(su: Setup, r: nat): (g: nat)
    requires su.Valid() && r < su.Size()
    ensures g < su.Size() && su.group[g] == su.group[r]
  {
    Group(su, r)[0]
  }

  /** r's place among the members of its group. */
  ghost function MemberIndex(su: Setup, r: nat): (i: nat)
    requires su.Valid() && r < su.Size()
    ensures i < |Group(su, r)| && Group(su, r)[i] == r
  {
    var i :| 0 <= i < |Group(su, r)| && Group(su, r)[i] == r;
    i
  }

  /** The place of r's l-th element in the gathered buffer of its group. */
  ghost function Place(su: Setup, r: nat, l: nat): nat
    requires su.Valid() && r < su.Size()
  {
    Displ(Pick(su.compute, Group(su, r)), MemberIndex(su, r)) + l
  }

  lemma RootHolds<E>(su: Setup, bufs: seq<seq<E>>, r: nat)
    requires su.Valid() && |bufs| == su.Size() && r < su.Size()
    ensures Aggregated(su.group, bufs, Root(su, r)) == Concat(Pick(bufs, Group(su, r)))
  {
    hide Concat, Members;
    var g := Root(su, r);
    assert Group(su, g) == Group(su, r);
  }

  /** Gathering puts r's l-th element at its place on the group's first rank, so scattering from
      there returns it to r as its l-th. */
  lemma Gathered<E>(su: Setup, bufs: seq<seq<E>>, r: nat, l: nat)
    requires su.Valid() && SameShape(bufs, su.compute) && r < su.Size() && l < |bufs[r]|
    ensures var a := Aggregated(su.group, bufs, Root(su, r));
      Place(su, r, l) < |a| && a[Place(su, r, l)] == bufs[r][l]
  {
    hide Concat, Members, Sum, Aggregated;
    RootHolds(su, bufs, r);
    var parts, i := Pick(bufs, Group(su, r)), MemberIndex(su, r);
    assert Counts(parts) == Counts(Pick(su.compute, Group(su, r)));
    ConcatIsGathered(parts);
    PieceAt(parts, i, l);
  }

  lemma PieceAt<E>(parts: seq<seq<E>>, i: nat, l: nat)
    requires IsGathered(Concat(parts), parts) && i < |parts| && l < |parts[i]|
    ensures Displ(parts, i) + l < |Concat(parts)| && Concat(parts)[Displ(parts, i) + l] == parts[i][l]
  {
    hide Concat, Displ;
    var d := Displ(parts, i);
    assert Concat(parts)[d..d + |parts[i]|][l] == parts[i][l];
  }

  /** Every element of a gathered buffer is some member's element at its place. */
  lemma GatheredFrom(su: Setup, c: nat, q: nat) returns (r: nat, l: nat)
    requires su.Valid() && c < su.Size() && q < |Aggregated(su.group, su.compute, c)|
    ensures r < su.Size() && l < |su.compute[r]| && Root(su, r) == c && Place(su, r, l) == q
    ensures Aggregated(su.group, su.compute, c)[q] == su.compute[r][l]
  {
    hide Concat;
    var m := Group(su, c);
    var i;
    i, l := PartOf(Pick(su.compute, m), q);
    r := m[i];
    hide Members;
    assert Group(su, r) == m;
    MemberOnce(su, c, MemberIndex(su, r), i);
  }

  lemma MemberOnce(su: Setup, c: nat, i: nat, j: nat)
    requires su.Valid() && c < su.Size() && i < |Group(su, c)| && j < |Group(su, c)|
    requires Group(su, c)[i] == Group(su, c)[j]
    ensures i == j
  {
  }

  /** The compute IDs of all ranks together are each of 0..n-1 exactly once. */
  ghost predicate IsPermutation(su: Setup) {
    && (forall r, l :: 0 <= r < su.Size() && 0 <= l < |su.compute[r]| ==> 0 <= su.compute[r][l] < su.Total())
    && (forall r, l, r', l' ::
          && 0 <= r < su.Size() && 0 <= l < |su.compute[r]| && 0 <= r' < su.Size() && 0 <= l' < |su.compute[r']|
          && su.compute[r][l] == su.compute[r'][l']
          ==> r == r' && l == l')
    && (forall id :: 0 <= id < su.Total() ==> IsComputed(su, id))
  }

  ghost predicate IsComputed(su: Setup, id: int) {
    exists r, l :: 0 <= r < su.Size() && 0 <= l < |su.compute[r]| && su.compute[r][l] == id
  }

  // ----- the matched entry of an element -----

  /** The rank that the ring finds for an element is the first rank of the group that computes it. */
  lemma OwnerOf(su: Setup, w: World, cts: seq<seq<Triplet>>, its: seq<seq<Triplet>>, d: Decomp,
                r: nat, l: nat, s: nat, j: nat)
    requires su.Valid() && Builds(su, w, cts, its, d) && IsPermutation(su)
    requires r < su.Size() && l < |su.compute[r]| && s < su.Size()
    requires j < |w.io[s]| && w.io[s][j] == su.compute[r][l]
    ensures Owner(w, s, j) == Root(su, r)
  {
    hide Aggregated, IsCompOrder, IsIoOrder, Place;
    var id := su.compute[r][l];
    var agg := AllAggregated(su.group, su.compute);
    var g := Root(su, r);
    Gathered(su, su.compute, r, l);
    assert Triplet(agg[g][Place(su, r, l)], Place(su, r, l), UNKNOWN_TASK) in w.comp[g];
    var c := ComputingOwner(w, s, j, g);
    var x := w.comp[c][w.find[c][id]];
    var r', l' := GatheredFrom(su, c, x.loc);
  }

  lemma ComputingOwner(w: World, s: nat, j: nat, g: nat) returns (c: nat)
    requires w.Valid() && s < w.Size() && g < w.Size() && j < |w.io[s]| && w.Computes(g, w.io[s][j])
    ensures c < w.Size() && Owner(w, s, j) == c && w.Computes(c, w.io[s][j])
  {
    var id := w.io[s][j];
    ClaimantIsFirst(w, s, w.Size(), id);
    assert w.Computes(After(w.Size(), s, Distance(w.Size(), s, g)), id);
    var e :| 1 <= e <= w.Size() && After(w.Size(), s, e) == Owner(w, s, j) && w.Computes(After(w.Size(), s, e), id);
    c := After(w.Size(), s, e);
  }

  /** The entry of s's list for c that names element j, if c owns it. */
  lemma ListedByIoTask(w: World, s: nat, it: seq<Triplet>, j: nat, c: nat) returns (k: nat)
    requires w.Valid() && s < w.Size() && IsIoOrder(w, s, it) && j < |w.io[s]| && Owner(w, s, j) == c
    ensures k < |SegmentFor(Segments(it, 0), c)| && SegmentFor(Segments(it, 0), c)[k] == j
  {
    IoOrderMeaning(w, s, it);
    var x := Triplet(w.io[s][j], j, c);
    assert x in With(it, c);
    k :| 0 <= k < |With(it, c)| && With(it, c)[k] == x;
    SegmentsRead(it, c);
  }

  /** The I/O rank that holds the ID of r's l-th element, and the matching entries of the two lists
      that carry it between that rank and the first rank of r's group. */
  lemma Route(su: Setup, w: World, cts: seq<seq<Triplet>>, its: seq<seq<Triplet>>, d: Decomp, r: nat, l: nat)
    returns (s: nat, k: nat)
    requires su.Valid() && Builds(su, w, cts, its, d) && IsPermutation(su)
    requires (su.lay.numIoTasks - 1) * su.lay.ioStride < su.Size()
    requires r < su.Size() && l < |su.compute[r]|
    ensures s < su.Size() && Holds(s, su.lay, su.Total(), su.compute[r][l])
    ensures var io, comp := SegmentFor(d.io[s], Root(su, r)), SegmentFor(d.comp[Root(su, r)], s);
      && k < |io| == |comp| && comp[k] == Place(su, r, l)
      && io[k] == su.compute[r][l] - IoStart(s, su.lay, su.Total())
  {
    var j;
    s, j := IoElementOf(su, w, cts, its, d, su.compute[r][l]);
    hide Holds, IoStart, IoCount, IsPermutation, Place, Agreement.SegmentFor, Segments, IsIoOrder, IsCompOrder;
    OwnerOf(su, w, cts, its, d, r, l, s, j);
    k := ListedByIoTask(w, s, its[s], j, Root(su, r));
    AgreedPlace(su, w, cts, its, d, r, l, s, k);
  }

  lemma IoElementOf(su: Setup, w: World, cts: seq<seq<Triplet>>, its: seq<seq<Triplet>>, d: Decomp, id: nat)
    returns (s: nat, j: nat)
    requires su.Valid() && Builds(su, w, cts, its, d) && id < su.Total()
    requires (su.lay.numIoTasks - 1) * su.lay.ioStride < su.Size()
    ensures s < su.Size() && Holds(s, su.lay, su.Total(), id)
    ensures j == id - IoStart(s, su.lay, su.Total()) && j < |w.io[s]| && w.io[s][j] == id
  {
    s := HolderOf(su.lay, su.Total(), id);
    j := id - IoStart(s, su.lay, su.Total());
  }

  lemma AgreedPlace(su: Setup, w: World, cts: seq<seq<Triplet>>, its: seq<seq<Triplet>>, d: Decomp,
                    r: nat, l: nat, s: nat, k: nat)
    requires su.Valid() && Builds(su, w, cts, its, d) && IsPermutation(su)
    requires r < su.Size() && l < |su.compute[r]| && s < su.Size()
    requires var io := SegmentFor(d.io[s], Root(su, r));
      k < |io| && 0 <= io[k] < |w.io[s]| && w.io[s][io[k]] == su.compute[r][l]
    ensures var comp := SegmentFor(d.comp[Root(su, r)], s);
      |comp| == |SegmentFor(d.io[s], Root(su, r))| && comp[k] == Place(su, r, l)
  {
    hide Aggregated, IsCompOrder, IsIoOrder, SegmentFor, Segments, Place;
    var agg, c := AllAggregated(su.group, su.compute), Root(su, r);
    IoIdsUnique(su, w, cts, its, d);
    UniqueIdsAgree(w, agg, cts, its);
    assert Agree(Segments(cts[c], 0), agg[c], s, Segments(its[s], 0), w.io[s], c);
    var r', l' := GatheredFrom(su, c, SegmentFor(d.comp[c], s)[k]);
  }

  /** What MPI_Scatterv hands rank r out of its group's gathered buffer. */
  ghost function ScatteredTo<E>(su: Setup, a: seq<E>, r: nat): (buf: seq<E>)
    requires su.Valid() && r < su.Size() && |a| == |Aggregated(su.group, su.compute, Root(su, r))|
    ensures |buf| == |su.compute[r]|
    ensures forall l :: 0 <= l < |buf| ==> Place(su, r, l) < |a| && buf[l] == a[Place(su, r, l)]
  {
    var parts := Pick(su.compute, Group(su, r));
    RootHolds(su, su.compute, r);
    ConcatIsGathered(parts);
    Scattered(a, Counts(parts), MemberIndex(su, r))
  }

  /** Rank r's buffer after SMIOL_get_var. */
  ghost function GetVar<E>(su: Setup, d: Decomp, image: seq<E>, blank: seq<seq<E>>, r: nat): (buf: seq<E>)
    requires Fits(su, d) && |image| == su.Total() && r < su.Size()
    requires SameShape(blank, AllAggregated(su.group, su.compute))
    ensures |buf| == |su.compute[r]|
  {
    ScatteredTo(su, GetAggregated(su, d, image, blank, Root(su, r)), r)
  }

  // ----- the main results -----

  /** What SMIOL_put_var leaves in the file is each element's value at the element's global ID,
      whatever the distribution, the I/O layout, and the aggregation. */
  lemma PutWritesById<E>(su: Setup, w: World, cts: seq<seq<Triplet>>, its: seq<seq<Triplet>>, d: Decomp,
                         bufs: seq<seq<E>>, blank: seq<seq<E>>, image: seq<E>, r: nat, l: nat)
    requires su.Valid() && Builds(su, w, cts, its, d) && IsPermutation(su) && Fits(su, d)
    requires (su.lay.numIoTasks - 1) * su.lay.ioStride < su.Size()
    requires SameShape(bufs, su.compute) && |image| == su.Total()
    requires |blank| == su.Size() && AreParts(su.lay, su.Total(), blank)
    requires r < su.Size() && l < |su.compute[r]|
    ensures PutVar(su, d, bufs, blank, image)[su.compute[r][l]] == bufs[r][l]
  {
    hide Matched, Transferred, Place, Builds, Aggregated, Overwrite;
    var id, g := su.compute[r][l], Root(su, r);
    var s, k := Route(su, w, cts, its, d, r, l);
    PutFits(su, d, bufs, blank);
    var aggs := AllAggregated(su.group, bufs);
    Delivered(d.comp, d.io, aggs, blank, s, g, k);
    Gathered(su, bufs, r, l);
    var outs := seq(su.Size(), q requires 0 <= q < su.Size() => Transferred(d.comp, d.io, aggs, blank, q));
    WrittenBy(image, su.lay, outs, su.Size(), s, id);
  }

  /** The file's value at an element's global ID reaches the element's place in the gathered buffer. */
  lemma GatheredReads<E>(su: Setup, w: World, cts: seq<seq<Triplet>>, its: seq<seq<Triplet>>, d: Decomp,
                         image: seq<E>, blank: seq<seq<E>>, r: nat, l: nat)
    requires su.Valid() && Builds(su, w, cts, its, d) && IsPermutation(su) && Fits(su, d)
    requires (su.lay.numIoTasks - 1) * su.lay.ioStride < su.Size()
    requires |image| == su.Total() && SameShape(blank, AllAggregated(su.group, su.compute))
    requires r < su.Size() && l < |su.compute[r]|
    ensures var a := GetAggregated(su, d, image, blank, Root(su, r));
      Place(su, r, l) < |a| && a[Place(su, r, l)] == image[su.compute[r][l]]
  {
    assert 0 <= su.compute[r][l] < su.Total();
    hide GetAggregated, Fits, Builds, Aggregated, IsPermutation, Holds, IoStart, IoCount, Place, Root;
    var s, k := Route(su, w, cts, its, d, r, l);
    ReadAlong(su, d, image, blank, r, l, s, k);
  }

  lemma ReadAlong<E>(su: Setup, d: Decomp, image: seq<E>, blank: seq<seq<E>>, r: nat, l: nat, s: nat, k: nat)
    requires Fits(su, d) && |image| == su.Total() && SameShape(blank, AllAggregated(su.group, su.compute))
    requires r < su.Size() && l < |su.compute[r]| && 0 <= su.compute[r][l] < su.Total()
    requires s < su.Size() && Holds(s, su.lay, su.Total(), su.compute[r][l])
    requires var io, comp := SegmentFor(d.io[s], Root(su, r)), SegmentFor(d.comp[Root(su, r)], s);
      && k < |io| == |comp| && comp[k] == Place(su, r, l)
      && io[k] == su.compute[r][l] - IoStart(s, su.lay, su.Total())
    ensures var a := GetAggregated(su, d, image, blank, Root(su, r));
      Place(su, r, l) < |a| && a[Place(su, r, l)] == image[su.compute[r][l]]
  {
    GetFits(su, d, image, blank);
    Gathered(su, su.compute, r, l);
    ReadAt(su, image, s, su.compute[r][l]);
    hide Transferred, Place, Aggregated, Holds, IoStart, IoCount, SegmentFor, Root;
    Delivered(d.io, d.comp, ReadParts(su, image), blank, Root(su, r), s, k);
  }

  /** What SMIOL_get_var returns to a rank is, for each of its elements, the file's value at the
      element's global ID. */
  lemma GetReadsById<E>(su: Setup, w: World, cts: seq<seq<Triplet>>, its: seq<seq<Triplet>>, d: Decomp,
                        image: seq<E>, blank: seq<seq<E>>, r: nat, l: nat)
    requires su.Valid() && Builds(su, w, cts, its, d) && IsPermutation(su) && Fits(su, d)
    requires (su.lay.numIoTasks - 1) * su.lay.ioStride < su.Size()
    requires |image| == su.Total() && SameShape(blank, AllAggregated(su.group, su.compute))
    requires r < su.Size() && l < |su.compute[r]|
    ensures GetVar(su, d, image, blank, r)[l] == image[su.compute[r][l]]
  {
    hide ScatteredTo, GetAggregated, Place, Builds, Aggregated;
    GatheredReads(su, w, cts, its, d, image, blank, r, l);
  }

  lemma GetFits<E>(su: Setup, d: Decomp, image: seq<E>, blank: seq<seq<E>>)
    requires Fits(su, d) && |image| == su.Total() && SameShape(blank, AllAggregated(su.group, su.compute))
    ensures FieldsFit(d.io, ReadParts(su, image)) && FieldsFit(d.comp, blank)
  {
  }

  lemma ReadAt<E>(su: Setup, image: seq<E>, s: nat, id: nat)
    requires su.Valid() && |image| == su.Total() && s < su.Size() && Holds(s, su.lay, su.Total(), id)
    ensures id < |image| && ReadParts(su, image)[s][id - IoStart(s, su.lay, su.Total())] == image[id]
  {
    PartEnds(s, su.lay, su.Total());
  }

  lemma BuildsFits(su: Setup, w: World, cts: seq<seq<Triplet>>, its: seq<seq<Triplet>>, d: Decomp)
    requires su.Valid() && Builds(su, w, cts, its, d)
    ensures Fits(su, d)
  {
    hide Matched, SegmentsInRange;
    DecompFits(su, w, cts, its, d);
  }

  /** The ranks' buffers hold a field that has this value at each global ID. */
  ghost predicate Distributes<E>(su: Setup, bufs: seq<seq<E>>, values: seq<E>) {
    && SameShape(bufs, su.compute) && |values| == su.Total()
    && forall r, l :: 0 <= r < |bufs| && 0 <= l < |bufs[r]| ==>
         0 <= su.compute[r][l] < |values| && bufs[r][l] == values[su.compute[r][l]]
  }

  /** Decomposition independence: however a field is distributed over the ranks, laid out over I/O
      tasks and aggregated, SMIOL_put_var makes the file the field, whatever was there before. */
  lemma PutIsTheField<E>(su: Setup, w: World, cts: seq<seq<Triplet>>, its: seq<seq<Triplet>>, d: Decomp,
                         bufs: seq<seq<E>>, blank: seq<seq<E>>, image: seq<E>, values: seq<E>)
    requires su.Valid() && Builds(su, w, cts, its, d) && IsPermutation(su)
    requires (su.lay.numIoTasks - 1) * su.lay.ioStride < su.Size()
    requires Distributes(su, bufs, values) && |image| == su.Total()
    requires |blank| == su.Size() && AreParts(su.lay, su.Total(), blank)
    ensures Fits(su, d) && PutVar(su, d, bufs, blank, image) == values
  {
    hide PutVar, Builds, Fits;
    BuildsFits(su, w, cts, its, d);
    forall id | 0 <= id < su.Total() ensures PutVar(su, d, bufs, blank, image)[id] == values[id] {
      assert IsComputed(su, id);
      var r, l :| 0 <= r < su.Size() && 0 <= l < |su.compute[r]| && su.compute[r][l] == id;
      PutWritesById(su, w, cts, its, d, bufs, blank, image, r, l);
    }
  }

  /** A field written under one decomposition and read back under any other, with as many elements,
      arrives distributed as the other one asks. */
  lemma PutThenGet<E>(su: Setup, w: World, cts: seq<seq<Triplet>>, its: seq<seq<Triplet>>, d: Decomp,
                      bufs: seq<seq<E>>, blank: seq<seq<E>>, image: seq<E>, values: seq<E>,
                      su': Setup, w': World, cts': seq<seq<Triplet>>, its': seq<seq<Triplet>>, d': Decomp,
                      blank': seq<seq<E>>)
    requires su.Valid() && Builds(su, w, cts, its, d) && IsPermutation(su)
    requires (su.lay.numIoTasks - 1) * su.lay.ioStride < su.Size()
    requires Distributes(su, bufs, values) && |image| == su.Total()
    requires |blank| == su.Size() && AreParts(su.lay, su.Total(), blank)
    requires su'.Valid() && Builds(su', w', cts', its', d') && IsPermutation(su')
    requires (su'.lay.numIoTasks - 1) * su'.lay.ioStride < su'.Size()
    requires su'.Total() == su.Total() && SameShape(blank', AllAggregated(su'.group, su'.compute))
    ensures Fits(su, d) && Fits(su', d')
    ensures var file := PutVar(su, d, bufs, blank, image);
      Distributes(su', seq(su'.Size(), r requires 0 <= r < su'.Size() => GetVar(su', d', file, blank', r)), values)
  {
    hide PutVar, Builds, Fits, GetVar;
    BuildsFits(su', w', cts', its', d');
    PutIsTheField(su, w, cts, its, d, bufs, blank, image, values);
    var file := PutVar(su, d, bufs, blank, image);
    forall r, l | 0 <= r < su'.Size() && 0 <= l < |su'.compute[r]|
      ensures GetVar(su', d', file, blank', r)[l] == values[su'.compute[r][l]]
    {
      GetReadsById(su', w', cts', its', d', file, blank', r, l);
    }
  }

  // ----- aggregation factors -----

  ghost predicate Alone(group: seq<int>, r: nat)
    requires r < |group|
  {
    forall q :: 0 <= q < |group| && q != r ==> group[q] != group[r]
  }

  lemma {:induction false} OwnGroup(group: seq<int>, r: nat, n: nat)
    requires n <= |group| && r < |group| && Alone(group, r)
    ensures Members(group, group[r], n) == if r < n then [r] else []
  {
    if n > 0 {
      OwnGroup(group, r, n - 1);
    }
  }

  /** A rank alone in its group, as all are with a factor of 1, has the same elements with aggregation as without. */
  lemma AloneKeepsOwn<E>(group: seq<int>, xs: seq<seq<E>>, r: nat)
    requires r < |xs| == |group| && (Alone(group, r) || group == GroupsOf(|group|, 1))
    ensures Aggregated(group, xs, r) == xs[r]
  {
    assert Alone(group, r);
    OwnGroup(group, r, |group|);
    assert Pick(xs, [r]) == [xs[r]];
    assert Concat([xs[r]]) == xs[r];
  }

  /** Which positive aggregation factor is chosen makes no difference to the file. */
  lemma AnyFactor<E>(lay: Layout, compute: seq<seq<int>>, bufs: seq<seq<E>>, values: seq<E>,
                     f: nat, w: World, cts: seq<seq<Triplet>>, its: seq<seq<Triplet>>, d: Decomp,
                     blank: seq<seq<E>>, image: seq<E>,
                     f': nat, w': World, cts': seq<seq<Triplet>>, its': seq<seq<Triplet>>, d': Decomp,
                     blank': seq<seq<E>>, image': seq<E>)
    requires f > 0 && f' > 0 && lay.Valid() && compute != []
    requires Builds(Setup(lay, GroupsOf(|compute|, f), compute), w, cts, its, d)
    requires Builds(Setup(lay, GroupsOf(|compute|, f'), compute), w', cts', its', d')
    requires var su := Setup(lay, GroupsOf(|compute|, f), compute);
      && IsPermutation(su) && Distributes(su, bufs, values) && (lay.numIoTasks - 1) * lay.ioStride < su.Size()
      && |image| == |image'| == su.Total() && |blank| == |blank'| == su.Size()
      && AreParts(lay, su.Total(), blank) && AreParts(lay, su.Total(), blank')
    ensures var su, su' := Setup(lay, GroupsOf(|compute|, f), compute), Setup(lay, GroupsOf(|compute|, f'), compute);
      && Fits(su, d) && Fits(su', d')
      && PutVar(su, d, bufs, blank, image) == PutVar(su', d', bufs, blank', image') == values
  {
    hide Builds, PutVar, Fits;
    var su, su' := Setup(lay, GroupsOf(|compute|, f), compute), Setup(lay, GroupsOf(|compute|, f'), compute);
    SameField(su, su', bufs, values);
    PutIsTheField(su, w, cts, its, d, bufs, blank, image, values);
    PutIsTheField(su', w', cts', its', d', bufs, blank', image', values);
  }

  lemma SameField<E>(su: Setup, su': Setup, bufs: seq<seq<E>>, values: seq<E>)
    requires su.compute == su'.compute && IsPermutation(su) && Distributes(su, bufs, values)
    ensures IsPermutation(su') && Distributes(su', bufs, values)
  {
    forall id | 0 <= id < su'.Total()
      ensures IsComputed(su', id)
    {
      assert IsComputed(su, id);
    }
  }
}
