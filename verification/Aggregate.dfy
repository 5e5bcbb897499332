/** Gathering fields onto one rank of each aggregation group and scattering them again
    (src/external/SMIOL/smiol_utils.c, aggregate_list; src/external/SMIOL/smiol.c,
    SMIOL_create_decomp, SMIOL_put_var, SMIOL_get_var). */
module Aggregate {
  import opened Basics

  /** The scan of the counts on the root rank: displacements, and the total number of elements. */
  method ScanCounts(counts: array<nat>) returns (displs: array<nat>, nOut: nat)
    requires counts.Length > 0
    ensures fresh(displs) && displs.Length == counts.Length && nOut == Sum(counts[..], counts.Length)
    ensures forall i :: 0 <= i < counts.Length ==> displs[i] == Sum(counts[..], i)
  {
    hide Sum;
    ghost var c := counts[..];
    SumOne(c);
    displs := new nat[counts.Length](_ => 0);
    displs[0] := 0;
    nOut := counts[0];
    var i := 1;
    while i < counts.Length
      invariant 1 <= i <= counts.Length && counts[..] == c
      invariant forall k :: 0 <= k < i ==> displs[k] == Sum(c, k)
      invariant nOut == Sum(c, i)
    {
      SumStep(c, i - 1);
      SumStep(c, i);
      displs[i] := displs[i - 1] + counts[i - 1];
      nOut := nOut + counts[i];
      i := i + 1;
    }
  }

  // ----- MPI_Gatherv and MPI_Scatterv with those displacements -----

  function Counts<E>(parts: seq<seq<E>>): (c: seq<nat>)
    ensures |c| == |parts|
  {
    seq(|parts|, i requires 0 <= i < |parts| => |parts[i]|)
  }

  function Displ<E>(parts: seq<seq<E>>, i: nat): nat
    requires i <= |parts|
  {
    Sum(Counts(parts), i)
  }

  function Concat<E>(parts: seq<seq<E>>): seq<E> {
    if parts == [] then [] else Concat(parts[..|parts| - 1]) + parts[|parts| - 1]
  }

  /** What MPI_Gatherv puts on the root: each task's part from its displacement on. */
  ghost predicate IsGathered<E>(buf: seq<E>, parts: seq<seq<E>>) {
    |buf| == Displ(parts, |parts|) && forall i :: 0 <= i < |parts| ==>
      Displ(parts, i) + |parts[i]| <= |buf| && buf[Displ(parts, i)..Displ(parts, i) + |parts[i]|] == parts[i]
  }

  lemma DisplStep<E>(parts: seq<seq<E>>, i: nat)
    requires i < |parts|
    ensures Displ(parts, i + 1) == Displ(parts, i) + |parts[i]|
  {
  }

  lemma DisplPrefix<E>(parts: seq<seq<E>>, n: nat, i: nat)
    requires i <= n <= |parts|
    ensures Displ(parts[..n], i) == Displ(parts, i)
  {
    assert Counts(parts[..n]) == Counts(parts)[..n];
    SumOfPrefix(Counts(parts), n, i);
  }

  lemma DisplOfNone<E>(parts: seq<seq<E>>)
    ensures Displ(parts, 0) == 0
  {
  }

  lemma {:induction false} ConcatIsGathered<E>(parts: seq<seq<E>>)
    ensures IsGathered(Concat(parts), parts)
  {
    DisplOfNone(parts);
    if parts != [] {
      ConcatIsGathered(parts[..|parts| - 1]);
      hide Concat, IsGathered;
      GatheredOneMore(Concat(parts[..|parts| - 1]), parts);
    }
  }

  lemma GatheredOneMore<E>(buf: seq<E>, parts: seq<seq<E>>)
    requires parts != [] && IsGathered(buf, parts[..|parts| - 1])
    ensures IsGathered(buf + parts[|parts| - 1], parts)
  {
    hide Displ;
    var n := |parts| - 1;
    var init, all := parts[..n], buf + parts[n];
    DisplStep(parts, n);
    DisplPrefix(parts, n, n);
    forall i | 0 <= i < |parts|
      ensures Displ(parts, i) + |parts[i]| <= |all|
      ensures all[Displ(parts, i)..Displ(parts, i) + |parts[i]|] == parts[i]
    {
      DisplPrefix(parts, n, i);
      if i < n {
        assert init[i] == parts[i] && all[..|buf|] == buf;
        SliceWithin(all, |buf|, Displ(parts, i), Displ(parts, i) + |parts[i]|);
      }
    }
  }

  lemma GatheredPrefix<E>(buf: seq<E>, parts: seq<seq<E>>)
    requires IsGathered(buf, parts) && parts != []
    ensures var n := |parts| - 1; var d := Displ(parts, n);
      && d + |parts[n]| == |buf| && buf[d..] == parts[n]
      && IsGathered(buf[..d], parts[..n])
  {
    hide Displ, Concat;
    var n := |parts| - 1;
    var d := Displ(parts, n);
    DisplStep(parts, n);
    DisplPrefix(parts, n, n);
    forall i | 0 <= i < n
      ensures Displ(parts[..n], i) == Displ(parts, i) && Displ(parts, i) + |parts[i]| <= d
      ensures buf[..d][Displ(parts, i)..Displ(parts, i) + |parts[i]|] == parts[i]
    {
      DisplPrefix(parts, n, i);
      DisplStep(parts, i);
      DisplMonotone(parts, i + 1, n);
      SliceWithin(buf, d, Displ(parts, i), Displ(parts, i) + |parts[i]|);
    }
  }

  lemma SliceWithin<E>(buf: seq<E>, d: nat, i: nat, j: nat)
    requires i <= j <= d <= |buf|
    ensures buf[..d][i..j] == buf[i..j]
  {
  }

  /** The displacements leave no gap and no overlap: the gathered buffer is the parts one after the
      other, and nothing else. */
  lemma {:induction false} GatheredIsConcat<E>(buf: seq<E>, parts: seq<seq<E>>)
    requires IsGathered(buf, parts)
    ensures buf == Concat(parts)
    decreases |parts|
  {
    hide Displ;
    DisplOfNone(parts);
    if parts != [] {
      var n := |parts| - 1;
      var d := Displ(parts, n);
      GatheredPrefix(buf, parts);
      GatheredIsConcat(buf[..d], parts[..n]);
      assert buf == buf[..d] + buf[d..];
    }
  }

  lemma {:induction false} DisplMonotone<E>(parts: seq<seq<E>>, i: nat, j: nat)
    requires i <= j <= |parts|
    ensures Displ(parts, i) <= Displ(parts, j)
    decreases j - i
  {
    if i < j {
      DisplStep(parts, i);
      DisplMonotone(parts, i + 1, j);
    }
  }

  /** What MPI_Scatterv gives back to the i-th task. */
  function Scattered<E>(buf: seq<E>, counts: seq<nat>, i: nat): seq<E>
    requires i < |counts| && Sum(counts, i) + counts[i] <= |buf|
  {
    buf[Sum(counts, i)..Sum(counts, i) + counts[i]]
  }

  /** Every element of the gathered buffer is one element of one part. */
  lemma {:induction false} PartOf<E>(parts: seq<seq<E>>, p: nat) returns (i: nat, l: nat)
    requires p < |Concat(parts)|
    ensures i < |parts| && l < |parts[i]| && p == Displ(parts, i) + l && Concat(parts)[p] == parts[i][l]
  {
    var n := |parts| - 1;
    ConcatIsGathered(parts[..n]);
    DisplPrefix(parts, n, n);
    if p < |Concat(parts[..n])| {
      i, l := PartOf(parts[..n], p);
      DisplPrefix(parts, n, i);
    } else {
      i, l := n, p - |Concat(parts[..n])|;
    }
  }
}
