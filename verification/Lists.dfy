/** The packed exchange lists of a decomposition: how build_exchange writes them from sorted
    triplets, and how they are read back by their counts
    (src/external/SMIOL/smiol_utils.c). */
module Lists {
  import opened Triplets

  /** A neighbour and the local IDs of the elements exchanged with it. */
  datatype Segment = Segment(task: int, locs: seq<int>)

  // ----- the list format -----

  function Flatten(segs: seq<Segment>): seq<int> {
    if segs == [] then []
    else [segs[0].task, |segs[0].locs|] + segs[0].locs + Flatten(segs[1..])
  }

  /** Number of neighbours, then for each its rank, its number of elements, and their local IDs. */
  function Packed(segs: seq<Segment>): seq<int> {
    [|segs|] + Flatten(segs)
  }

  function TotalLocs(segs: seq<Segment>): nat {
    if segs == [] then 0 else |segs[0].locs| + TotalLocs(segs[1..])
  }

  lemma {:induction false} FlattenLength(segs: seq<Segment>)
    ensures |Flatten(segs)| == 2 * |segs| + TotalLocs(segs)
  {
    if segs != [] {
      FlattenLength(segs[1..]);
    }
  }

  lemma {:induction false} FlattenAppend(segs: seq<Segment>, more: seq<Segment>)
    ensures Flatten(segs + more) == Flatten(segs) + Flatten(more)
    ensures TotalLocs(segs + more) == TotalLocs(segs) + TotalLocs(more)
  {
    if segs == [] {
      assert segs + more == more;
    } else {
      assert (segs + more)[1..] == segs[1..] + more;
      FlattenAppend(segs[1..], more);
    }
  }

  /** The walk that every reader of a list makes: n times a rank, a count, and that many local IDs;
      none if the list ends too early. */
  function Walk(list: seq<int>, pos: nat, n: nat): (segs: seq<Segment>)
    decreases n
  {
    if n == 0 || pos + 2 > |list| || list[pos + 1] < 0 || pos + 2 + list[pos + 1] > |list| then []
    else [Segment(list[pos], list[pos + 2..pos + 2 + list[pos + 1]])]
         + Walk(list, pos + 2 + list[pos + 1], n - 1)
  }

  /** Reading one entry of a list at pos. */
  lemma EntryAt(list: seq<int>, pos: nat, task: int, locs: seq<int>, rest: seq<int>)
    requires pos <= |list| && list[pos..] == [task, |locs|] + locs + rest
    ensures pos + 2 + |locs| <= |list| && list[pos] == task && list[pos + 1] == |locs|
    ensures list[pos + 2..pos + 2 + |locs|] == locs
    ensures list[pos + 2 + |locs|..] == rest
  {
    var tail := list[pos..];
    assert tail[0] == task && tail[1] == |locs|;
    assert tail[2..2 + |locs|] == locs && tail[2 + |locs|..] == rest;
  }

  /** Walking a packed list by its counts visits exactly the segments it was packed from and ends
      at its end. */
  lemma {:induction false} WalkPacked(list: seq<int>, pos: nat, segs: seq<Segment>)
    requires pos <= |list| && list[pos..] == Flatten(segs)
    ensures Walk(list, pos, |segs|) == segs
    decreases |segs|
  {
    if segs != [] {
      EntryAt(list, pos, segs[0].task, segs[0].locs, Flatten(segs[1..]));
      WalkPacked(list, pos + 2 + |segs[0].locs|, segs[1..]);
    }
  }

  lemma UnpackPacked(segs: seq<Segment>)
    ensures var list := Packed(segs); Walk(list, 1, list[0]) == segs
  {
    assert Packed(segs)[1..] == Flatten(segs);
    WalkPacked(Packed(segs), 1, segs);
  }

  // ----- grouping sorted triplets -----

  /** The end of the run of triplets with the same task that starts at from. */
  function RunEnd(s: seq<Triplet>, from: nat, task: int): (e: nat)
    requires from <= |s|
    ensures from <= e <= |s|
    ensures forall k :: from <= k < e ==> s[k].task == task
    ensures e < |s| ==> s[e].task != task
    decreases |s| - from
  {
    if from < |s| && s[from].task == task then RunEnd(s, from + 1, task) else from
  }

  function Locs(s: seq<Triplet>): (l: seq<int>)
    ensures |l| == |s|
    ensures forall k :: 0 <= k < |s| ==> l[k] == s[k].loc
  {
    if s == [] then [] else [s[0].loc] + Locs(s[1..])
  }

  /** The segments of the triplets from position i on: one for each run of a known task. */
  function Segments(s: seq<Triplet>, i: nat): seq<Segment>
    requires i <= |s|
    decreases |s| - i
  {
    if i == |s| then []
    else
      var e := RunEnd(s, i + 1, s[i].task);
      (if s[i].task == UNKNOWN_TASK then [] else [Segment(s[i].task, Locs(s[i..e]))]) + Segments(s, e)
  }

  lemma {:induction false} RunEndUnique(s: seq<Triplet>, from: nat, task: int, e: nat)
    requires from <= e <= |s| && (forall k :: from <= k < e ==> s[k].task == task)
    requires e < |s| ==> s[e].task != task
    ensures RunEnd(s, from, task) == e
    decreases |s| - from
  {
    if from < e {
      RunEndUnique(s, from + 1, task, e);
    }
  }

  // ----- the two scans over the array -----

  /** The inner loop of the first scan: counts the run of triplets at start. */
  method CountRun(ids: array<Triplet>, start: nat) returns (nXfer: nat, ii: nat)
    requires start < ids.Length
    ensures ii == RunEnd(ids[..], start + 1, ids[start].task) && nXfer == ii - start
  {
    ghost var e := RunEnd(ids[..], start + 1, ids[start].task);
    var neighbor := ids[start].task;
    nXfer, ii := 0, start;
    while ii < ids.Length && ids[ii].task == neighbor
      invariant start <= ii <= e && nXfer == ii - start
    {
      nXfer := nXfer + 1;
      ii := ii + 1;
    }
  }

  /** The first scan: how many neighbours there are, and how many elements they exchange. */
  method CountNeighbors(ids: array<Triplet>) returns (nNeighbors: nat, nXferTotal: nat)
    ensures nNeighbors == |Segments(ids[..], 0)| && nXferTotal == TotalLocs(Segments(ids[..], 0))
  {
    ghost var s := ids[..];
    nNeighbors, nXferTotal := 0, 0;
    var ii := 0;
    while ii < ids.Length
      invariant 0 <= ii <= ids.Length
      invariant nNeighbors + |Segments(s, ii)| == |Segments(s, 0)|
      invariant nXferTotal + TotalLocs(Segments(s, ii)) == TotalLocs(Segments(s, 0))
    {
      var neighbor := ids[ii].task;
      CountSplit(s, ii);
      var nXfer: nat;
      nXfer, ii := CountRun(ids, ii);
      if neighbor != UNKNOWN_TASK {
        nNeighbors := nNeighbors + 1;
        nXferTotal := nXferTotal + nXfer;
      }
    }
  }

  lemma CountSplit(s: seq<Triplet>, i: nat)
    requires i < |s|
    ensures var e := RunEnd(s, i + 1, s[i].task); var known := s[i].task != UNKNOWN_TASK;
      && |Segments(s, i)| == |Segments(s, e)| + (if known then 1 else 0)
      && TotalLocs(Segments(s, i)) == TotalLocs(Segments(s, e)) + (if known then e - i else 0)
  {
    var e := RunEnd(s, i + 1, s[i].task);
    if s[i].task == UNKNOWN_TASK {
      assert Segments(s, i) == Segments(s, e);
    } else {
      assert Segments(s, i)[1..] == Segments(s, e);
    }
  }

  /** What the second scan has still to write when it is at triplet i. */
  ghost function Remaining(s: seq<Triplet>, i: nat): seq<int>
    requires i <= |s|
  {
    Flatten(Segments(s, i))
  }

  /** How far the second scan has come: up to idx the list is as it is going to be, and the triplets
      from ii on make up the rest. */
  ghost predicate FilledTo(s: seq<Triplet>, ii: nat, list: seq<int>, idx: nat, full: seq<int>) {
    && ii <= |s| && idx <= |list| == |full|
    && (forall k :: 0 <= k < idx ==> list[k] == full[k])
    && full[idx..] == Remaining(s, ii)
  }

  /** What the run of triplets at start contributes to the list at idx. */
  lemma TurnOf(s: seq<Triplet>, start: nat, idx: nat, full: seq<int>)
    requires start < |s| && idx <= |full| && full[idx..] == Remaining(s, start)
    ensures var e := RunEnd(s, start + 1, s[start].task);
      if s[start].task == UNKNOWN_TASK then full[idx..] == Remaining(s, e)
      else
        && idx + 2 + e - start <= |full|
        && full[idx] == s[start].task && full[idx + 1] == e - start
        && (forall k {:trigger full[k]} :: idx + 2 <= k < idx + 2 + e - start ==> full[k] == s[start + k - idx - 2].loc)
        && full[idx + 2 + e - start..] == Remaining(s, e)
  {
    var e := RunEnd(s, start + 1, s[start].task);
    var locs := Locs(s[start..e]);
    RemainingSplit(s, start);
    if s[start].task != UNKNOWN_TASK {
      EntryAt(full, idx, s[start].task, locs, Remaining(s, e));
      forall k {:trigger full[k]} | idx + 2 <= k < idx + 2 + e - start ensures full[k] == s[start + k - idx - 2].loc {
        assert full[k] == full[idx + 2..idx + 2 + |locs|][k - idx - 2];
      }
    }
  }

  /** One turn of the second scan: the run of triplets at start, and its entry in the list unless
      its task is unknown. */
  method WriteRun(ids: array<Triplet>, list: array<int>, idx: nat, start: nat, ghost full: seq<int>)
    returns (idx': nat, ii: nat)
    requires start < ids.Length && FilledTo(ids[..], start, list[..], idx, full)
    modifies list
    ensures start < ii && FilledTo(ids[..], ii, list[..], idx', full)
  {
    hide Remaining, RunEnd, Locs;
    ghost var s := ids[..];
    var neighbor := ids[start].task;
    ghost var e := RunEnd(s, start + 1, neighbor);
    TurnOf(s, start, idx, full);
    var nXfer := 0;
    ii := start;
    while ii < ids.Length && ids[ii].task == neighbor
      invariant start <= ii <= e && nXfer == if neighbor == UNKNOWN_TASK then 0 else ii - start
      invariant forall k :: 0 <= k < idx ==> list[k] == full[k]
      invariant nXfer == 0 || neighbor != UNKNOWN_TASK
      invariant forall k :: idx + 2 <= k < idx + 2 + nXfer ==> list[k] == full[k]
    {
      if neighbor != UNKNOWN_TASK {
        list[idx + 2 + nXfer] := ids[ii].loc;
        nXfer := nXfer + 1;
      }
      ii := ii + 1;
    }
    idx' := idx;
    if neighbor != UNKNOWN_TASK {
      list[idx] := neighbor;
      list[idx + 1] := nXfer;
      idx' := idx + (2 + nXfer);
    }
  }

  /** Both scans: counts, allocates, and fills the list of the sorted triplets. Every write is within
      the allocated length, which the second scan uses up exactly. */
  method PackList(ids: array<Triplet>) returns (list: array<int>)
    ensures fresh(list) && list[..] == Packed(Segments(ids[..], 0))
  {
    hide Segments, TotalLocs, RunEnd, Locs, Remaining, Packed;
    ghost var s := ids[..];
    ghost var full := Packed(Segments(s, 0));
    var nNeighbors, nXferTotal := CountNeighbors(ids);
    AllRemains(s);
    list := new int[1 + 2 * nNeighbors + nXferTotal](_ => 0);
    list[0] := nNeighbors;
    var idx: nat, ii: nat := 1, 0;
    while ii < ids.Length
      invariant FilledTo(s, ii, list[..], idx, full)
    {
      idx, ii := WriteRun(ids, list, idx, ii, full);
    }
    NothingRemains(s);
    assert idx == |full|;
  }

  lemma AllRemains(s: seq<Triplet>)
    ensures var segs := Segments(s, 0);
      Packed(segs) == [|segs|] + Remaining(s, 0) && |Packed(segs)| == 1 + 2 * |segs| + TotalLocs(segs)
  {
    FlattenLength(Segments(s, 0));
  }

  lemma NothingRemains(s: seq<Triplet>)
    ensures Remaining(s, |s|) == []
  {
  }

  lemma RemainingSplit(s: seq<Triplet>, i: nat)
    requires i < |s|
    ensures var e := RunEnd(s, i + 1, s[i].task);
      Remaining(s, i) == if s[i].task == UNKNOWN_TASK then Remaining(s, e)
                         else [s[i].task, e - i] + Locs(s[i..e]) + Remaining(s, e)
  {
    var e := RunEnd(s, i + 1, s[i].task);
    if s[i].task == UNKNOWN_TASK {
      assert Segments(s, i) == Segments(s, e);
    } else {
      assert Segments(s, i)[1..] == Segments(s, e);
    }
  }

  // ----- what the walk visits -----

  function Listed(segs: seq<Segment>): seq<int> {
    if segs == [] then [] else segs[0].locs + Listed(segs[1..])
  }

  /** The local IDs of the triplets whose task is known, in order, from position i on. */
  function KnownLocs(s: seq<Triplet>, i: nat): seq<int>
    requires i <= |s|
    decreases |s| - i
  {
    if i == |s| then []
    else (if s[i].task == UNKNOWN_TASK then [] else [s[i].loc]) + KnownLocs(s, i + 1)
  }

  lemma LocsStep(s: seq<Triplet>, i: nat, e: nat)
    requires i < e <= |s|
    ensures Locs(s[i..e]) == [s[i].loc] + Locs(s[i + 1..e])
  {
    assert s[i..e][1..] == s[i + 1..e];
  }

  lemma {:induction false} KnownInRun(s: seq<Triplet>, i: nat, e: nat, task: int)
    requires i <= e <= |s| && forall k :: i <= k < e ==> s[k].task == task
    ensures KnownLocs(s, i) == (if task == UNKNOWN_TASK then [] else Locs(s[i..e])) + KnownLocs(s, e)
    decreases e - i
  {
    if i < e {
      hide Locs;
      KnownInRun(s, i + 1, e, task);
      LocsStep(s, i, e);
    }
  }

  /** Walking a list visits each triplet with a known task exactly once, in array order, and no
      other. */
  lemma {:induction false} SegmentsVisitKnown(s: seq<Triplet>, i: nat)
    requires i <= |s|
    ensures Listed(Segments(s, i)) == KnownLocs(s, i)
    decreases |s| - i
  {
    if i < |s| {
      var e := RunEnd(s, i + 1, s[i].task);
      SegmentsVisitKnown(s, e);
      KnownInRun(s, i, e, s[i].task);
      if s[i].task != UNKNOWN_TASK {
        assert Segments(s, i)[1..] == Segments(s, e);
      } else {
        assert Segments(s, i) == Segments(s, e);
      }
    }
  }
}
