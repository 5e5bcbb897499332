/** Reading and writing in pieces of at most INT_MAX bytes, all I/O tasks together
    (src/external/SMIOL/smiol.c, write_chunk_pnetcdf and read_chunk_pnetcdf). */
module Chunks {
  import opened Basics
  import opened Partition
  import opened Decomposition
  import opened EndToEnd

  /** What all I/O tasks bring to the loop: how many elements each has to move, the size of an element
      in bytes, and what the library answers to the i-th collective call of task k. */
  datatype Config = Config(counts: seq<nat>, elementSize: nat, lib: (nat, nat) -> int) {
    ghost predicate Valid() { elementSize > 0 && counts != [] }

    /** The most elements that fit into one call. */
    function MaxCount(): nat
      requires elementSize > 0
    {
      INT_MAX / elementSize
    }
  }

  /** One collective call: start and count along the slowest dimension, offset into the buffer. */
  datatype Call = Call(start: nat, count: nat, bufOffset: nat)

  // ----- one task's pieces -----

  /** How many of a task's elements its first i calls cover. */
  function Covered(max: nat, total: nat, i: nat): (p: nat)
    ensures p <= total
  {
    if i == 0 then 0
    else var p := Covered(max, total, i - 1); p + Min(max, total - p)
  }

  function Pieces(max: nat, total: nat): nat
    requires max > 0
  {
    (total + max - 1) / max
  }

  lemma {:induction false} CoveredIs(max: nat, total: nat, i: nat)
    ensures Covered(max, total, i) == Min(i * max, total)
  {
    if i > 0 {
      CoveredIs(max, total, i - 1);
      assert i * max == (i - 1) * max + max;
    }
  }

  lemma PiecesAre(max: nat, total: nat)
    requires max > 0
    ensures var p := Pieces(max, total); total <= p * max < total + max
  {
    var p := Pieces(max, total);
    assert total + max - 1 == p * max + (total + max - 1) % max;
  }

  lemma ProductReaches(i: nat, p: nat, max: nat, total: nat)
    requires total <= p * max < total + max
    ensures i * max >= total <==> i >= p
  {
    if i >= p {
      assert i * max == p * max + (i - p) * max;
    } else {
      assert p * max == i * max + max + (p - i - 1) * max;
    }
  }

  lemma CoveredAll(max: nat, total: nat, i: nat)
    requires max > 0
    ensures Covered(max, total, i) == total <==> i >= Pieces(max, total)
  {
    hide Covered, Pieces;
    CoveredIs(max, total, i);
    PiecesAre(max, total);
    ProductReaches(i, Pieces(max, total), max, total);
  }

  /** The i-th call of a task. */
  function CallOf(cfg: Config, start: nat, total: nat, i: nat): Call
    requires cfg.elementSize > 0
  {
    var p := Covered(cfg.MaxCount(), total, i);
    Call(start + p, Min(cfg.MaxCount(), total - p), p * cfg.elementSize)
  }

  // ----- all tasks -----

  ghost predicate FailedBy(cfg: Config, k: nat, i: nat) {
    exists j :: 0 <= j <= i && cfg.lib(k, j) != NC_NOERR
  }

  /** Task k's done flag after its i-th call: -1 once a call has failed, 1 once nothing is left. */
  ghost function DoneAfter(cfg: Config, k: nat, i: nat): int
    requires cfg.Valid() && k < |cfg.counts|
  {
    if FailedBy(cfg, k, i) then -1
    else
      var p := Covered(cfg.MaxCount(), cfg.counts[k], i + 1);
      if Min(cfg.MaxCount(), cfg.counts[k] - p) == 0 then 1 else 0
  }

  /** What MPI_Allreduce with MPI_MIN gives to every one of the first n tasks. */
  ghost function MinDone(cfg: Config, n: nat, i: nat): int
    requires cfg.Valid() && 1 <= n <= |cfg.counts|
  {
    if n == 1 then DoneAfter(cfg, 0, i)
    else Min(MinDone(cfg, n - 1, i), DoneAfter(cfg, n - 1, i))
  }

  ghost function GlobalDone(cfg: Config, i: nat): int
    requires cfg.Valid()
  {
    MinDone(cfg, |cfg.counts|, i)
  }

  lemma {:induction false} MinDoneIs(cfg: Config, n: nat, i: nat)
    requires cfg.Valid() && 1 <= n <= |cfg.counts|
    ensures forall k :: 0 <= k < n ==> MinDone(cfg, n, i) <= DoneAfter(cfg, k, i)
    ensures exists k :: 0 <= k < n && MinDone(cfg, n, i) == DoneAfter(cfg, k, i)
  {
    if n > 1 {
      MinDoneIs(cfg, n - 1, i);
      var k :| 0 <= k < n - 1 && MinDone(cfg, n - 1, i) == DoneAfter(cfg, k, i);
      assert MinDone(cfg, n, i) == DoneAfter(cfg, k, i) || MinDone(cfg, n, i) == DoneAfter(cfg, n - 1, i);
    } else {
      assert MinDone(cfg, n, i) == DoneAfter(cfg, 0, i);
    }
  }

  /** The largest number of pieces of the first n tasks, and at least one. */
  ghost function MostPieces(cfg: Config, n: nat): (m: nat)
    requires cfg.Valid() && cfg.MaxCount() > 0 && n <= |cfg.counts|
    ensures m >= 1
    ensures forall k :: 0 <= k < n ==> Pieces(cfg.MaxCount(), cfg.counts[k]) <= m
    ensures m == 1 || exists k :: 0 <= k < n && Pieces(cfg.MaxCount(), cfg.counts[k]) == m
  {
    if n == 0 then 1
    else
      var m, p := MostPieces(cfg, n - 1), Pieces(cfg.MaxCount(), cfg.counts[n - 1]);
      if m < p then p else m
  }

  ghost predicate SomeFails(cfg: Config, i: nat) {
    exists k :: 0 <= k < |cfg.counts| && cfg.lib(k, i) != NC_NOERR
  }

  /** Whether all tasks leave the loop after the i-th call. */
  ghost predicate Leaves(cfg: Config, i: nat)
    requires cfg.Valid()
  {
    GlobalDone(cfg, i) != 0
  }

  lemma NothingLeft(cfg: Config, k: nat, i: nat)
    requires cfg.Valid() && cfg.MaxCount() > 0 && k < |cfg.counts|
    ensures DoneAfter(cfg, k, i) == 0 <==>
      !FailedBy(cfg, k, i) && i + 1 < Pieces(cfg.MaxCount(), cfg.counts[k])
  {
    CoveredAll(cfg.MaxCount(), cfg.counts[k], i + 1);
  }

  /** The tasks go on after the i-th call exactly if no call of any task has failed and some task has
      a piece left. */
  lemma LeavesExactly(cfg: Config, i: nat)
    requires cfg.Valid() && cfg.MaxCount() > 0
    ensures Leaves(cfg, i) <==> i + 1 >= MostPieces(cfg, |cfg.counts|) || exists j :: 0 <= j <= i && SomeFails(cfg, j)
  {
    MinDoneIs(cfg, |cfg.counts|, i);
    forall k | 0 <= k < |cfg.counts|
      ensures DoneAfter(cfg, k, i) == 0 <==>
        !FailedBy(cfg, k, i) && i + 1 < Pieces(cfg.MaxCount(), cfg.counts[k])
    {
      NothingLeft(cfg, k, i);
    }
    if j :| 0 <= j <= i && SomeFails(cfg, j) {
      var k :| 0 <= k < |cfg.counts| && cfg.lib(k, j) != NC_NOERR;
      assert FailedBy(cfg, k, i) && DoneAfter(cfg, k, i) == -1;
    } else {
      forall k | 0 <= k < |cfg.counts| ensures !FailedBy(cfg, k, i) {
        if FailedBy(cfg, k, i) {
          var j :| 0 <= j <= i && cfg.lib(k, j) != NC_NOERR;
          assert SomeFails(cfg, j);
        }
      }
      if i + 1 < MostPieces(cfg, |cfg.counts|) {
        var k :| 0 <= k < |cfg.counts| && Pieces(cfg.MaxCount(), cfg.counts[k]) == MostPieces(cfg, |cfg.counts|);
        assert DoneAfter(cfg, k, i) == 0;
      }
    }
  }

  /** The number of collective calls that every task makes: up to the first after which all leave. */
  ghost predicate IsRounds(cfg: Config, n: nat)
    requires cfg.Valid()
  {
    n >= 1 && Leaves(cfg, n - 1) && forall i :: 0 <= i < n - 1 ==> !Leaves(cfg, i)
  }

  /** Without failures that is the largest number of pieces of any task, and one if no task has
      anything to move; with a failure it is the first failing call, unless the tasks were done
      before. */
  lemma RoundsAre(cfg: Config, n: nat)
    requires cfg.Valid() && cfg.MaxCount() > 0 && IsRounds(cfg, n)
    ensures var most := MostPieces(cfg, |cfg.counts|);
      if exists i :: 0 <= i < most && SomeFails(cfg, i)
      then n <= most && SomeFails(cfg, n - 1) && forall i :: 0 <= i < n - 1 ==> !SomeFails(cfg, i)
      else n == most
  {
    var most := MostPieces(cfg, |cfg.counts|);
    LeavesExactly(cfg, n - 1);
    LeavesExactly(cfg, most - 1);
    forall i | 0 <= i < n - 1 ensures !SomeFails(cfg, i) && i + 1 < most {
      LeavesExactly(cfg, i);
    }
    if i :| 0 <= i < most && SomeFails(cfg, i) {
      LeavesExactly(cfg, i);
    }
  }

  /** The bound on the number of calls, for termination; oversized elements leave at once. */
  ghost function Bound(cfg: Config): nat
    requires cfg.Valid()
  {
    if cfg.MaxCount() == 0 then 1 else MostPieces(cfg, |cfg.counts|)
  }

  /** If not even one element fits into a call, every task takes itself to be done at once. */
  lemma OversizedLeaves(cfg: Config, i: nat)
    requires cfg.Valid() && cfg.MaxCount() == 0
    ensures Leaves(cfg, i)
  {
    MinDoneIs(cfg, |cfg.counts|, i);
    forall k | 0 <= k < |cfg.counts| ensures DoneAfter(cfg, k, i) != 0 {
      CoveredIs(0, cfg.counts[k], i + 1);
    }
  }

  lemma GoesOnBelowBound(cfg: Config, i: nat)
    requires cfg.Valid() && !Leaves(cfg, i)
    ensures i + 1 < Bound(cfg)
  {
    if cfg.MaxCount() > 0 {
      LeavesExactly(cfg, i);
    } else {
      OversizedLeaves(cfg, i);
    }
  }

  /** The loop of task k, for writing and for reading alike. allreduce is what MPI_Allreduce returns
      after the i-th call, the least of all tasks' done flags. */
  method MoveChunks(k: nat, mpiStart: nat, mpiCount: nat, elementSize: nat, lib: nat -> int,
                    allreduce: nat -> int, ghost cfg: Config)
    returns (ierr: int, calls: seq<Call>)
    requires cfg.Valid() && k < |cfg.counts| && cfg.counts[k] == mpiCount && cfg.elementSize == elementSize
    requires forall i: nat :: lib(i) == cfg.lib(k, i) && allreduce(i) == GlobalDone(cfg, i)
    ensures IsRounds(cfg, |calls|)
    ensures forall i :: 0 <= i < |calls| ==> calls[i] == CallOf(cfg, mpiStart, mpiCount, i)
    ensures ierr == cfg.lib(k, |calls| - 1)
  {
    hide Covered, GlobalDone, MostPieces, CallOf, DoneAfter, FailedBy, Bound;
    var i: nat := 0;  // counts the collective calls
    calls, ierr := [], NC_NOERR;
    FirstCall(cfg, mpiStart, mpiCount);
    var start: nat, count: nat, remaining: nat := mpiStart, mpiCount, mpiCount;
    var maxCount := INT_MAX / elementSize;
    count := if maxCount < remaining then maxCount else remaining;
    remaining := remaining - count;
    var done := if count == 0 then 1 else 0;
    var globalDone := 0;
    var bufOffset: nat := 0;
    while globalDone == 0
      invariant |calls| == i && (globalDone == 0 <==> i == 0 || !Leaves(cfg, i - 1))
      invariant i > 0 ==> ierr == cfg.lib(k, i - 1)
      invariant forall j :: 0 <= j < i - 1 ==> !Leaves(cfg, j)
      invariant forall j :: 0 <= j < i ==> calls[j] == CallOf(cfg, mpiStart, mpiCount, j)
      invariant globalDone == 0 ==> forall j :: 0 <= j < i ==> cfg.lib(k, j) == NC_NOERR
      invariant globalDone == 0 ==> Call(start, count, bufOffset) == CallOf(cfg, mpiStart, mpiCount, i)
      invariant globalDone == 0 ==> remaining == LeftAfter(cfg, mpiCount, i)
      invariant globalDone == 0 ==> done == if count == 0 then 1 else 0
      invariant globalDone == 0 ==> i < Bound(cfg)
      decreases Bound(cfg) - i
    {
      calls := calls + [Call(start, count, bufOffset)];
      ierr := lib(i);
      NextCall(cfg, mpiStart, mpiCount, i);
      DoneFlag(cfg, k, mpiStart, i);
      if done == 0 {
        bufOffset := bufOffset + count * elementSize;
        start := start + count;
        count := if maxCount < remaining then maxCount else remaining;
        remaining := remaining - count;
        done := if count == 0 then 1 else 0;
      }
      if ierr != NC_NOERR {
        done := -1;
      }
      assert done == DoneAfter(cfg, k, i);
      globalDone := allreduce(i);
      if globalDone == 0 {
        GoesOnBelowBound(cfg, i);
        GoesOnWithoutFailure(cfg, k, i);
      }
      i := i + 1;
    }
  }

  /** What is left of a task's elements once call i has moved its own. */
  function LeftAfter(cfg: Config, total: nat, i: nat): nat
    requires cfg.elementSize > 0
  {
    total - Covered(cfg.MaxCount(), total, i + 1)
  }

  lemma FirstCall(cfg: Config, start: nat, total: nat)
    requires cfg.Valid()
    ensures var n := Min(cfg.MaxCount(), total);
      CallOf(cfg, start, total, 0) == Call(start, n, 0) && LeftAfter(cfg, total, 0) == total - n && Bound(cfg) > 0
  {
    assert Covered(cfg.MaxCount(), total, 0) == 0;
  }

  lemma NextCall(cfg: Config, start: nat, total: nat, i: nat)
    requires cfg.elementSize > 0
    ensures var c, left := CallOf(cfg, start, total, i), LeftAfter(cfg, total, i);
      var n := Min(cfg.MaxCount(), left);
      && CallOf(cfg, start, total, i + 1) == Call(c.start + c.count, n, c.bufOffset + c.count * cfg.elementSize)
      && LeftAfter(cfg, total, i + 1) == left - n
      && (c.count == 0 ==> CallOf(cfg, start, total, i + 1) == c && n == 0)
  {
    var p := Covered(cfg.MaxCount(), total, i);
    var c := CallOf(cfg, start, total, i);
    assert (p + c.count) * cfg.elementSize == p * cfg.elementSize + c.count * cfg.elementSize;
  }

  lemma DoneFlag(cfg: Config, k: nat, start: nat, i: nat)
    requires cfg.Valid() && k < |cfg.counts| && forall j :: 0 <= j < i ==> cfg.lib(k, j) == NC_NOERR
    ensures DoneAfter(cfg, k, i) == if cfg.lib(k, i) != NC_NOERR then -1
                                    else if CallOf(cfg, start, cfg.counts[k], i + 1).count == 0 then 1 else 0
  {
  }

  lemma GoesOnWithoutFailure(cfg: Config, k: nat, i: nat)
    requires cfg.Valid() && k < |cfg.counts| && !Leaves(cfg, i)
    ensures cfg.lib(k, i) == NC_NOERR
  {
    MinDoneIs(cfg, |cfg.counts|, i);
    assert GlobalDone(cfg, i) <= DoneAfter(cfg, k, i);
    if cfg.lib(k, i) != NC_NOERR {
      assert FailedBy(cfg, k, i);
    }
  }

  // ----- what the calls of a task amount to -----

  /** No call moves more than INT_MAX bytes. */
  lemma CallFits(cfg: Config, start: nat, total: nat, i: nat)
    requires cfg.elementSize > 0
    ensures CallOf(cfg, start, total, i).count * cfg.elementSize <= INT_MAX
  {
    var c, max := CallOf(cfg, start, total, i).count, cfg.MaxCount();
    hide Covered, CallOf;
    QuotientFits(INT_MAX, cfg.elementSize);
    ProductGrows(c, max, cfg.elementSize);
  }

  /** And each moves as much as can be: all that is left, or so much that one element more would not fit. */
  lemma CallIsLargest(cfg: Config, start: nat, total: nat, i: nat)
    requires cfg.elementSize > 0
    ensures var c := CallOf(cfg, start, total, i);
      c.start + c.count < start + total ==> (c.count + 1) * cfg.elementSize > INT_MAX
  {
    var c, max := CallOf(cfg, start, total, i).count, cfg.MaxCount();
    hide Covered;
    QuotientFits(INT_MAX, cfg.elementSize);
    assert (max + 1) * cfg.elementSize == max * cfg.elementSize + cfg.elementSize;
    assert c == max || c == total - Covered(max, total, i);
  }

  lemma QuotientFits(x: nat, d: nat)
    requires d > 0
    ensures x / d * d <= x < x / d * d + d
  {
  }

  /** The file's variable after the first n calls have each written their elements of the buffer. */
  ghost function FileAfter<E>(cfg: Config, image: seq<E>, start: nat, buf: seq<E>, n: nat): (r: seq<E>)
    requires cfg.elementSize > 0 && start + |buf| <= |image|
    ensures |r| == |image|
  {
    if n == 0 then image
    else
      var c, p := CallOf(cfg, start, |buf|, n - 1), Covered(cfg.MaxCount(), |buf|, n - 1);
      Overwrite(FileAfter(cfg, image, start, buf, n - 1), c.start, buf[p..p + c.count])
  }

  /** Writing on where the last write ended is one longer write. */
  lemma OverwriteOn<E>(image: seq<E>, start: nat, a: seq<E>, b: seq<E>)
    requires start + |a| + |b| <= |image|
    ensures Overwrite(Overwrite(image, start, a), start + |a|, b) == Overwrite(image, start, a + b)
  {
  }

  lemma OverwriteNothing<E>(image: seq<E>, start: nat)
    requires start <= |image|
    ensures Overwrite(image, start, []) == image
  {
  }

  /** The calls tile the task's range, in order and without overlap: so far they have written exactly
      what one call for all covered elements would have written. */
  lemma {:induction false} CallsTile<E>(cfg: Config, image: seq<E>, start: nat, buf: seq<E>, n: nat)
    requires cfg.elementSize > 0 && start + |buf| <= |image|
    ensures FileAfter(cfg, image, start, buf, n)
         == Overwrite(image, start, buf[..Covered(cfg.MaxCount(), |buf|, n)])
  {
    hide Overwrite;
    if n > 0 {
      CallsTile(cfg, image, start, buf, n - 1);
      var c, p := CallOf(cfg, start, |buf|, n - 1), Covered(cfg.MaxCount(), |buf|, n - 1);
      OverwriteOn(image, start, buf[..p], buf[p..p + c.count]);
      assert buf[..p + c.count] == buf[..p] + buf[p..p + c.count];
    } else {
      OverwriteNothing(image, start);
    }
  }

  // ----- the calls of all ranks, in any order -----

  /** The variable after the i-th call of rank k. */
  ghost function AfterCall<E>(cfg: Config, image: seq<E>, lay: Layout, outs: seq<seq<E>>, k: nat, i: nat): (r: seq<E>)
    requires cfg.elementSize > 0 && lay.Valid() && AreParts(lay, |image|, outs) && k < |outs|
    ensures |r| == |image|
  {
    PartEnds(k, lay, |image|);
    var c, p := CallOf(cfg, IoStart(k, lay, |image|), |outs[k]|, i), Covered(cfg.MaxCount(), |outs[k]|, i);
    Overwrite(image, c.start, outs[k][p..p + c.count])
  }

  /** The variable after calls of all ranks have been made in the given order; each is a rank and the number of its
      call. Ranks that do no I/O have nothing to write. */
  ghost function FileInOrder<E>(cfg: Config, image: seq<E>, lay: Layout, outs: seq<seq<E>>, order: seq<(nat, nat)>)
    : (r: seq<E>)
    requires cfg.elementSize > 0 && lay.Valid() && AreParts(lay, |image|, outs)
    requires forall e :: 0 <= e < |order| ==> order[e].0 < |outs|
    ensures |r| == |image|
  {
    if order == [] then image
    else
      var (k, i) := order[|order| - 1];
      AfterCall(cfg, FileInOrder(cfg, image, lay, outs, order[..|order| - 1]), lay, outs, k, i)
  }

  /** The i-th call of rank k writes the element. */
  ghost predicate Touches<E>(cfg: Config, n: nat, lay: Layout, outs: seq<seq<E>>, k: nat, i: nat, id: nat)
    requires cfg.elementSize > 0 && lay.Valid() && k < |outs|
  {
    var start, total := IoStart(k, lay, n), |outs[k]|;
    start + Covered(cfg.MaxCount(), total, i) <= id < start + Covered(cfg.MaxCount(), total, i + 1)
  }

  ghost predicate TouchedIn<E>(cfg: Config, n: nat, lay: Layout, outs: seq<seq<E>>, order: seq<(nat, nat)>, id: nat)
    requires cfg.elementSize > 0 && lay.Valid() && forall e :: 0 <= e < |order| ==> order[e].0 < |outs|
  {
    exists e :: 0 <= e < |order| && Touches(cfg, n, lay, outs, order[e].0, order[e].1, id)
  }

  lemma OverwriteSlice<E>(image: seq<E>, start: nat, buf: seq<E>, p: nat, count: nat, id: nat)
    requires p + count <= |buf| && start + p + count <= |image| && id < |image|
    ensures Overwrite(image, start + p, buf[p..p + count])[id]
         == if start + p <= id < start + p + count then buf[id - start] else image[id]
  {
    hide Overwrite;
    OverwriteAt(image, start + p, buf[p..p + count], id);
  }

  /** One call changes what it touches to what its rank is to write there, and nothing else. */
  lemma CallAt<E>(cfg: Config, image: seq<E>, lay: Layout, outs: seq<seq<E>>, k: nat, i: nat, id: nat)
    requires cfg.elementSize > 0 && lay.Valid() && AreParts(lay, |image|, outs) && k < |outs| && id < |image|
    ensures AfterCall(cfg, image, lay, outs, k, i)[id]
         == if Touches(cfg, |image|, lay, outs, k, i, id) then outs[k][id - IoStart(k, lay, |image|)] else image[id]
    ensures Touches(cfg, |image|, lay, outs, k, i, id) ==> Holds(k, lay, |image|, id)
  {
    hide IoStart, IoCount, Covered, Overwrite, Config.MaxCount;
    PartEnds(k, lay, |image|);
    NextCovered(cfg.MaxCount(), |outs[k]|, i);
    var c, p := CallOf(cfg, IoStart(k, lay, |image|), |outs[k]|, i), Covered(cfg.MaxCount(), |outs[k]|, i);
    OverwriteSlice(image, IoStart(k, lay, |image|), outs[k], p, c.count, id);
  }

  lemma NextCovered(max: nat, total: nat, i: nat)
    ensures Covered(max, total, i + 1) == Covered(max, total, i) + Min(max, total - Covered(max, total, i))
  {
  }

  /** After any calls in any order, what they touch has its final value and the rest its old one. */
  lemma {:induction false} FileSoFar<E>(cfg: Config, image: seq<E>, lay: Layout, outs: seq<seq<E>>,
                                        order: seq<(nat, nat)>, id: nat)
    requires cfg.elementSize > 0 && lay.Valid() && AreParts(lay, |image|, outs) && id < |image|
    requires forall e :: 0 <= e < |order| ==> order[e].0 < |outs|
    ensures FileInOrder(cfg, image, lay, outs, order)[id]
         == if TouchedIn(cfg, |image|, lay, outs, order, id) then WriteRanks(image, lay, outs, |outs|)[id]
            else image[id]
    decreases |order|
  {
    if order != [] {
      hide Touches, AfterCall, WriteRanks, Holds, IoStart, AreParts;
      var before, k, i := order[..|order| - 1], order[|order| - 1].0, order[|order| - 1].1;
      FileSoFar(cfg, image, lay, outs, before, id);
      CallAt(cfg, FileInOrder(cfg, image, lay, outs, before), lay, outs, k, i, id);
      if Touches(cfg, |image|, lay, outs, k, i, id) {
        WrittenBy(image, lay, outs, |outs|, k, id);
      }
      LastTouches(cfg, |image|, lay, outs, order, id);
    }
  }

  lemma LastTouches<E>(cfg: Config, n: nat, lay: Layout, outs: seq<seq<E>>, order: seq<(nat, nat)>, id: nat)
    requires cfg.elementSize > 0 && lay.Valid() && order != []
    requires forall e :: 0 <= e < |order| ==> order[e].0 < |outs|
    ensures var (k, i) := order[|order| - 1];
      TouchedIn(cfg, n, lay, outs, order, id) <==>
        TouchedIn(cfg, n, lay, outs, order[..|order| - 1], id) || Touches(cfg, n, lay, outs, k, i, id)
  {
    hide Touches;
    var before := order[..|order| - 1];
    if e :| 0 <= e < |order| && Touches(cfg, n, lay, outs, order[e].0, order[e].1, id) {
      assert e < |before| ==> before[e] == order[e];
    }
    if e :| 0 <= e < |before| && Touches(cfg, n, lay, outs, before[e].0, before[e].1, id) {
      assert order[e] == before[e];
    }
  }

  /** The call that covers an element. */
  lemma {:induction false} CoveringCall(max: nat, total: nat, n: nat, off: nat) returns (i: nat)
    requires off < Covered(max, total, n)
    ensures i < n && Covered(max, total, i) <= off < Covered(max, total, i + 1)
  {
    if Covered(max, total, n - 1) <= off {
      i := n - 1;
    } else {
      i := CoveringCall(max, total, n - 1, off);
    }
  }

  lemma EveryPartTouched<E>(cfg: Config, n: nat, lay: Layout, outs: seq<seq<E>>, rounds: nat, order: seq<(nat, nat)>,
                            k: nat, id: nat)
    requires cfg.elementSize > 0 && lay.Valid() && AreParts(lay, n, outs)
    requires forall e :: 0 <= e < |order| ==> order[e].0 < |outs|
    requires forall i :: 0 <= i < rounds ==> (k, i) in order
    requires k < |outs| && Covered(cfg.MaxCount(), |outs[k]|, rounds) == |outs[k]| && Holds(k, lay, n, id)
    ensures TouchedIn(cfg, n, lay, outs, order, id)
  {
    var i := CoveringCall(cfg.MaxCount(), |outs[k]|, rounds, id - IoStart(k, lay, n));
    var e :| 0 <= e < |order| && order[e] == (k, i);
    assert Touches(cfg, n, lay, outs, order[e].0, order[e].1, id);
  }

  /** In whatever order the calls of all ranks' rounds reach the file, it ends up as if the ranks had each written their
      part in one piece, one rank after the other. */
  lemma AnyOrder<E>(cfg: Config, image: seq<E>, lay: Layout, outs: seq<seq<E>>, rounds: nat, order: seq<(nat, nat)>)
    requires cfg.Valid() && cfg.elementSize <= INT_MAX && lay.Valid() && AreParts(lay, |image|, outs)
    requires |cfg.counts| == |outs| && forall k :: 0 <= k < |outs| ==> cfg.counts[k] == |outs[k]|
    requires IsRounds(cfg, rounds) && forall i :: 0 <= i < rounds ==> !SomeFails(cfg, i)
    requires forall e :: 0 <= e < |order| ==> order[e].0 < |outs|
    requires forall k: nat, i: nat :: k < |outs| && i < rounds ==> (k, i) in order
    ensures FileInOrder(cfg, image, lay, outs, order) == WriteRanks(image, lay, outs, |outs|)
  {
    hide IsRounds, Covered, TouchedIn, FileInOrder, WriteRanks;
    var final := WriteRanks(image, lay, outs, |outs|);
    forall id | 0 <= id < |image|
      ensures FileInOrder(cfg, image, lay, outs, order)[id] == final[id]
    {
      FileSoFar(cfg, image, lay, outs, order, id);
      if k :| 0 <= k < |outs| && Holds(k, lay, |image|, id) {
        AllMoved(cfg, rounds, k);
        EveryPartTouched(cfg, |image|, lay, outs, rounds, order, k, id);
      } else {
        HeldByNone(image, lay, outs, |outs|, id);
      }
    }
  }

  /** So SMIOL_put_var's result is what the chunk calls of all ranks leave, in whatever order. */
  lemma PutVarByCalls<E>(cfg: Config, su: Setup, d: Decomp, bufs: seq<seq<E>>, blank: seq<seq<E>>, image: seq<E>,
                         rounds: nat, order: seq<(nat, nat)>)
    requires Fits(su, d) && SameShape(bufs, su.compute) && |image| == su.Total()
    requires |blank| == su.Size() && AreParts(su.lay, su.Total(), blank)
    requires cfg.Valid() && cfg.elementSize <= INT_MAX && |cfg.counts| == su.Size()
    requires forall k :: 0 <= k < su.Size() ==> cfg.counts[k] == IoCount(k, su.lay, su.Total())
    requires IsRounds(cfg, rounds) && forall i :: 0 <= i < rounds ==> !SomeFails(cfg, i)
    requires forall e :: 0 <= e < |order| ==> order[e].0 < su.Size()
    requires forall k: nat, i: nat :: k < su.Size() && i < rounds ==> (k, i) in order
    ensures FileInOrder(cfg, image, su.lay, PutOuts(su, d, bufs, blank), order) == PutVar(su, d, bufs, blank, image)
  {
    assert su.Valid();
    hide Fits, PutOuts, FileInOrder, WriteRanks, IoCount, IsRounds, SomeFails, SameShape, Setup.Total;
    var outs := PutOuts(su, d, bufs, blank);
    AnyOrder(cfg, image, su.lay, outs, rounds, order);
  }

  /** The buffer after the first n calls have each read their elements of the file's variable. */
  ghost function BufferAfter<E>(cfg: Config, image: seq<E>, start: nat, buf: seq<E>, n: nat): (r: seq<E>)
    requires cfg.elementSize > 0 && start + |buf| <= |image|
    ensures |r| == |buf|
  {
    if n == 0 then buf
    else
      var c, p := CallOf(cfg, start, |buf|, n - 1), Covered(cfg.MaxCount(), |buf|, n - 1);
      Overwrite(BufferAfter(cfg, image, start, buf, n - 1), p, image[c.start..c.start + c.count])
  }

  /** Reading in pieces fills the buffer like one read of all covered elements. */
  lemma {:induction false} ReadsTile<E>(cfg: Config, image: seq<E>, start: nat, buf: seq<E>, n: nat)
    requires cfg.elementSize > 0 && start + |buf| <= |image|
    ensures BufferAfter(cfg, image, start, buf, n)
         == Overwrite(buf, 0, image[start..start + Covered(cfg.MaxCount(), |buf|, n)])
  {
    hide Overwrite;
    if n > 0 {
      ReadsTile(cfg, image, start, buf, n - 1);
      var c, p := CallOf(cfg, start, |buf|, n - 1), Covered(cfg.MaxCount(), |buf|, n - 1);
      OverwriteOn(buf, 0, image[start..start + p], image[c.start..c.start + c.count]);
      assert image[start..start + p + c.count] == image[start..start + p] + image[c.start..c.start + c.count];
    } else {
      OverwriteNothing(buf, 0);
      assert image[start..start] == [];
    }
  }

  /** The buffer offset of a call is the size in bytes of all that was covered before it. */
  lemma {:induction false} OffsetsInStep(cfg: Config, start: nat, total: nat, i: nat)
    requires cfg.elementSize > 0
    ensures var c := CallOf(cfg, start, total, i);
      && c.bufOffset == Covered(cfg.MaxCount(), total, i) * cfg.elementSize
      && c.start - start == Min(i * cfg.MaxCount(), total)
      && c.start + c.count <= start + total
  {
    CoveredIs(cfg.MaxCount(), total, i);
  }

  /** When the tasks have left the loop, a task has moved all its elements exactly if it had none, or an element fits
      into a call at all and no call of any task has failed before the task's last one. If no element fits, nothing is
      moved. */
  lemma AllMovedExactly(cfg: Config, n: nat, k: nat)
    requires cfg.Valid() && IsRounds(cfg, n) && k < |cfg.counts|
    ensures cfg.MaxCount() > 0 <==> cfg.elementSize <= INT_MAX
    ensures cfg.elementSize <= INT_MAX ==>
      (Covered(cfg.MaxCount(), cfg.counts[k], n) == cfg.counts[k] <==>
        forall i :: 0 <= i < Pieces(cfg.MaxCount(), cfg.counts[k]) - 1 ==> !SomeFails(cfg, i))
    ensures cfg.elementSize > INT_MAX ==> Covered(cfg.MaxCount(), cfg.counts[k], n) == 0 && n == 1
  {
    hide Covered, Pieces, Leaves, SomeFails;
    QuotientFits(INT_MAX, cfg.elementSize);
    if cfg.MaxCount() > 0 {
      CoveredAll(cfg.MaxCount(), cfg.counts[k], n);
      LeavesExactly(cfg, n - 1);
      forall i | 0 <= i < n - 1 ensures !SomeFails(cfg, i) {
        LeavesExactly(cfg, i);
      }
    } else {
      CoveredIs(0, cfg.counts[k], n);
      OversizedLeaves(cfg, 0);
    }
  }

  lemma AllMoved(cfg: Config, n: nat, k: nat)
    requires cfg.Valid() && IsRounds(cfg, n) && k < |cfg.counts| && cfg.elementSize <= INT_MAX
    requires forall i :: 0 <= i < n ==> !SomeFails(cfg, i)
    ensures Covered(cfg.MaxCount(), cfg.counts[k], n) == cfg.counts[k]
  {
    hide Covered, Pieces, SomeFails;
    AllMovedExactly(cfg, n, k);
    LeavesExactly(cfg, n - 1);
  }

  /** A task returns no error although it has not moved everything exactly if an element does not fit and its one call
      succeeds, or the first call of the loop that fails is another task's only, and comes before the task's last. */
  lemma SilentExactly(cfg: Config, n: nat, k: nat)
    requires cfg.Valid() && IsRounds(cfg, n) && k < |cfg.counts|
    ensures cfg.lib(k, n - 1) == NC_NOERR && Covered(cfg.MaxCount(), cfg.counts[k], n) < cfg.counts[k] <==>
      if cfg.elementSize > INT_MAX then cfg.counts[k] > 0 && cfg.lib(k, 0) == NC_NOERR
      else cfg.MaxCount() > 0 && exists i ::
             0 <= i < Pieces(cfg.MaxCount(), cfg.counts[k]) - 1 && FirstFailure(cfg, i) && cfg.lib(k, i) == NC_NOERR
  {
    hide Covered, Pieces, Leaves, SomeFails;
    AllMovedExactly(cfg, n, k);
    if cfg.elementSize <= INT_MAX {
      CoveredAll(cfg.MaxCount(), cfg.counts[k], n);
      LeavesExactly(cfg, n - 1);
      forall i | 0 <= i < n - 1 ensures !SomeFails(cfg, i) && i + 1 < MostPieces(cfg, |cfg.counts|) {
        LeavesExactly(cfg, i);
      }
      forall i | 0 <= i && FirstFailure(cfg, i)
        ensures i >= n - 1 && (i + 1 < MostPieces(cfg, |cfg.counts|) ==> i == n - 1)
      {
        if i >= n {
          LeavesExactly(cfg, i);
        }
      }
    }
  }

  ghost predicate FirstFailure(cfg: Config, i: nat) {
    SomeFails(cfg, i) && forall j :: 0 <= j < i ==> !SomeFails(cfg, j)
  }

  /** One element of a byte more than fits is never moved, although no call fails. */
  lemma OversizedIsLost() returns (cfg: Config)
    ensures cfg.Valid() && cfg.counts == [1] && cfg.elementSize == INT_MAX + 1
    ensures IsRounds(cfg, 1) && !SomeFails(cfg, 0) && Covered(cfg.MaxCount(), cfg.counts[0], 1) == 0
  {
    hide Leaves, Covered;
    cfg := Config([1], INT_MAX + 1, (k, i) => NC_NOERR);
    assert cfg.MaxCount() == 0 by {
      QuotientFits(INT_MAX, cfg.elementSize);
    }
    OversizedLeaves(cfg, 0);
    CoveredIs(0, 1, 1);
  }

  /** Two tasks with one and two of the largest elements: when the first one's only call fails, the second one leaves
      with it, returns no error, and has one element left. */
  lemma OtherFailureIsSilent() returns (cfg: Config)
    ensures cfg.Valid() && cfg.counts == [1, 2] && cfg.elementSize == INT_MAX
    ensures IsRounds(cfg, 1) && cfg.lib(1, 0) == NC_NOERR && Covered(cfg.MaxCount(), cfg.counts[1], 1) == 1
  {
    hide Leaves, Covered;
    cfg := Config([1, 2], INT_MAX, (k, i) => if k == 0 then -1 else NC_NOERR);
    assert cfg.MaxCount() == 1;
    assert cfg.lib(0, 0) != NC_NOERR;
    assert SomeFails(cfg, 0);
    LeavesExactly(cfg, 0);
    CoveredIs(1, 2, 1);
  }
}
