/**
 * What a file holds over whole runs of puts, gets and flushes: writes that wait in the attached buffer, writes that are
 * made at once, and what a get reads (src/external/SMIOL/smiol.c).
 */
module FileRuns {
  import opened Basics
  import opened Triplets
  import opened Ring
  import opened Partition
  import opened Decomposition
  import opened EndToEnd
  import Buffered

  /** The I/O layout and the ranks, those of them that do I/O, the size of the buffer, and for every variable the size
      of an element in bytes. */
  datatype Target = Target(lay: Layout, ranks: nat, io: seq<nat>, bufsize: nat, sizes: map<nat, nat>) {
    ghost predicate Valid() {
      && lay.Valid() && io != []
      && (forall k :: 0 <= k < |io| ==> io[k] < ranks)
      && forall r: nat :: r < ranks && IsIoTask(r, lay) ==> r in io
    }
  }

  /** What all ranks put to a variable. */
  datatype Request<E> = Request(v: nat, outs: seq<seq<E>>)

  ghost predicate Fits<E>(t: Target, n: nat, q: Request<E>)
    requires t.Valid()
  {
    |q.outs| == t.ranks && AreParts(t.lay, n, q.outs)
  }

  ghost function Written<E>(t: Target, image: seq<E>, q: Request<E>): (r: seq<E>)
    requires t.Valid() && Fits(t, |image|, q)
    ensures |r| == |image|
  {
    WriteRanks(image, t.lay, q.outs, t.ranks)
  }

  // ----- pending requests -----

  ghost predicate AllFit<E>(t: Target, n: nat, v: nat, pend: seq<Request<E>>)
    requires t.Valid()
  {
    forall j :: 0 <= j < |pend| && pend[j].v == v ==> Fits(t, n, pend[j])
  }

  /** The variable as the requests for it mean it, one after the other. */
  ghost function Meant<E>(t: Target, image: seq<E>, v: nat, pend: seq<Request<E>>): (r: seq<E>)
    requires t.Valid() && AllFit(t, |image|, v, pend)
    ensures |r| == |image|
  {
    if pend == [] then image
    else
      var before, q := Meant(t, image, v, pend[..|pend| - 1]), pend[|pend| - 1];
      if q.v == v then Written(t, before, q) else before
  }

  /** The library has completed requests of ranks in this order, each given as a rank and the number of its request. */
  ghost predicate InRange<E>(t: Target, pend: seq<Request<E>>, order: seq<(nat, nat)>) {
    forall e :: 0 <= e < |order| ==> order[e].0 < t.ranks && order[e].1 < |pend|
  }

  ghost function Completed<E>(t: Target, image: seq<E>, v: nat, pend: seq<Request<E>>, order: seq<(nat, nat)>)
    : (r: seq<E>)
    requires t.Valid() && AllFit(t, |image|, v, pend) && InRange(t, pend, order)
    ensures |r| == |image|
  {
    if order == [] then image
    else
      var before, (r, i) := Completed(t, image, v, pend, order[..|order| - 1]), order[|order| - 1];
      if pend[i].v == v then
        PartEnds(r, t.lay, |image|);
        Overwrite(before, IoStart(r, t.lay, |image|), pend[i].outs[r])
      else before
  }

  /** Every rank's requests are completed, except those without data, and none after a later one for the same variable
      unless that is completed again. */
  ghost predicate Honours<E>(t: Target, pend: seq<Request<E>>, order: seq<(nat, nat)>) {
    && InRange(t, pend, order)
    && (forall r: nat, i: nat :: r < t.ranks && i < |pend| && r < |pend[i].outs| && pend[i].outs[r] != [] ==>
          (r, i) in order)
    && forall e, i: nat :: 0 <= e < |order| && order[e].1 < i < |pend| && pend[i].v == pend[order[e].1].v ==>
         (order[e].0, i) in order[e + 1..]
  }

  /** The last request before n for the variable; -1 if there is none. */
  function LastFor<E>(v: nat, pend: seq<Request<E>>): (j: int)
    ensures -1 <= j < |pend| && (j >= 0 ==> pend[j].v == v) && forall i :: j < i < |pend| ==> pend[i].v != v
  {
    if pend == [] then -1
    else if pend[|pend| - 1].v == v then |pend| - 1
    else LastFor(v, pend[..|pend| - 1])
  }

  lemma {:induction false} MeantAt<E>(t: Target, image: seq<E>, v: nat, pend: seq<Request<E>>, r: nat, id: nat)
    requires t.Valid() && AllFit(t, |image|, v, pend)
    requires r < t.ranks && Holds(r, t.lay, |image|, id) && id < |image|
    ensures var j, off := LastFor(v, pend), id - IoStart(r, t.lay, |image|);
      if j < 0 then Meant(t, image, v, pend)[id] == image[id]
      else r < |pend[j].outs| && off < |pend[j].outs[r]| && Meant(t, image, v, pend)[id] == pend[j].outs[r][off]
    decreases |pend|
  {
    hide WriteRanks, IoStart, IoCount;
    if pend != [] {
      var init, q := pend[..|pend| - 1], pend[|pend| - 1];
      MeantAt(t, image, v, init, r, id);
      if q.v == v {
        WrittenBy(Meant(t, image, v, init), t.lay, q.outs, t.ranks, r, id);
      }
    }
  }

  lemma {:induction false} MeantElsewhere<E>(t: Target, image: seq<E>, v: nat, pend: seq<Request<E>>, id: nat)
    requires t.Valid() && AllFit(t, |image|, v, pend) && id < |image|
    requires forall r :: 0 <= r < t.ranks ==> !Holds(r, t.lay, |image|, id)
    ensures Meant(t, image, v, pend)[id] == image[id]
    decreases |pend|
  {
    hide WriteRanks, IoStart, IoCount;
    if pend != [] {
      var init, q := pend[..|pend| - 1], pend[|pend| - 1];
      MeantElsewhere(t, image, v, init, id);
      if q.v == v {
        HeldByNone(Meant(t, image, v, init), t.lay, q.outs, t.ranks, id);
      }
    }
  }

  /** The last completion for the variable by the rank; -1 if there is none. */
  function LastDone<E>(v: nat, pend: seq<Request<E>>, order: seq<(nat, nat)>, r: nat): (e: int)
    requires forall e :: 0 <= e < |order| ==> order[e].1 < |pend|
    ensures -1 <= e < |order| && (e >= 0 ==> order[e].0 == r && pend[order[e].1].v == v)
    ensures forall d :: e < d < |order| && order[d].0 == r ==> pend[order[d].1].v != v
  {
    if order == [] then -1
    else
      var last := order[|order| - 1];
      if last.0 == r && pend[last.1].v == v then |order| - 1 else LastDone(v, pend, order[..|order| - 1], r)
  }

  lemma {:induction false} CompletedAt<E>(t: Target, image: seq<E>, v: nat, pend: seq<Request<E>>,
                                          order: seq<(nat, nat)>, r: nat, id: nat)
    requires t.Valid() && AllFit(t, |image|, v, pend) && InRange(t, pend, order)
    requires r < t.ranks && Holds(r, t.lay, |image|, id) && id < |image|
    ensures var e, off := LastDone(v, pend, order, r), id - IoStart(r, t.lay, |image|);
      if e < 0 then Completed(t, image, v, pend, order)[id] == image[id]
      else
        var outs := pend[order[e].1].outs;
        r < |outs| && off < |outs[r]| && Completed(t, image, v, pend, order)[id] == outs[r][off]
    decreases |order|
  {
    hide IoStart, IoCount, Overwrite;
    if order != [] {
      var init, s, i := order[..|order| - 1], order[|order| - 1].0, order[|order| - 1].1;
      CompletedAt(t, image, v, pend, init, r, id);
      if pend[i].v == v {
        assert Fits(t, |image|, pend[i]);
        PartEnds(s, t.lay, |image|);
        OverwriteAt(Completed(t, image, v, pend, init), IoStart(s, t.lay, |image|), pend[i].outs[s], id);
        if s != r && Holds(s, t.lay, |image|, id) {
          HeldOnce(s, r, t.lay, |image|, id);
        }
      }
    }
  }

  lemma {:induction false} CompletedElsewhere<E>(t: Target, image: seq<E>, v: nat, pend: seq<Request<E>>,
                                                 order: seq<(nat, nat)>, id: nat)
    requires t.Valid() && AllFit(t, |image|, v, pend) && InRange(t, pend, order) && id < |image|
    requires forall r :: 0 <= r < t.ranks ==> !Holds(r, t.lay, |image|, id)
    ensures Completed(t, image, v, pend, order)[id] == image[id]
    decreases |order|
  {
    hide IoStart, IoCount, Overwrite;
    if order != [] {
      var init, s, i := order[..|order| - 1], order[|order| - 1].0, order[|order| - 1].1;
      CompletedElsewhere(t, image, v, pend, init, id);
      if pend[i].v == v {
        assert Fits(t, |image|, pend[i]) && !Holds(s, t.lay, |image|, id);
        PartEnds(s, t.lay, |image|);
        OverwriteAt(Completed(t, image, v, pend, init), IoStart(s, t.lay, |image|), pend[i].outs[s], id);
      }
    }
  }

  /** When the library honours the order of requests for one variable, completing them gives what they mean. */
  lemma CompletedIsMeant<E>(t: Target, image: seq<E>, v: nat, pend: seq<Request<E>>, order: seq<(nat, nat)>)
    requires t.Valid() && AllFit(t, |image|, v, pend) && Honours(t, pend, order)
    ensures Completed(t, image, v, pend, order) == Meant(t, image, v, pend)
  {
    forall id | 0 <= id < |image|
      ensures Completed(t, image, v, pend, order)[id] == Meant(t, image, v, pend)[id]
    {
      if r: nat :| r < t.ranks && Holds(r, t.lay, |image|, id) {
        CompletedAt(t, image, v, pend, order, r, id);
        MeantAt(t, image, v, pend, r, id);
        LastIsLast(t, |image|, v, pend, order, r, id);
      } else {
        CompletedElsewhere(t, image, v, pend, order, id);
        MeantElsewhere(t, image, v, pend, id);
      }
    }
  }

  lemma LastIsLast<E>(t: Target, n: nat, v: nat, pend: seq<Request<E>>, order: seq<(nat, nat)>, r: nat, id: nat)
    requires t.Valid() && AllFit(t, n, v, pend) && Honours(t, pend, order)
    requires r < t.ranks && Holds(r, t.lay, n, id)
    ensures var e, j := LastDone(v, pend, order, r), LastFor(v, pend);
      (e < 0 <==> j < 0) && (e >= 0 ==> order[e].1 == j)
  {
    hide IoStart, IoCount;
    var e, j := LastDone(v, pend, order, r), LastFor(v, pend);
    if j >= 0 {
      assert Fits(t, n, pend[j]) && pend[j].outs[r] != [];
      assert (r, j) in order;
      if e >= 0 {
        assert (r, j) !in order[e + 1..];
      }
    }
  }

  /** Requests that are completed in the order in which they were made are honoured. */
  lemma InTurnHonours<E>(t: Target, pend: seq<Request<E>>, order: seq<(nat, nat)>)
    requires InRange(t, pend, order)
    requires forall r: nat, i: nat :: r < t.ranks && i < |pend| ==> (r, i) in order
    requires forall d, e :: 0 <= d < e < |order| ==> order[d].1 <= order[e].1
    ensures Honours(t, pend, order)
  {
    forall e, i: nat | 0 <= e < |order| && order[e].1 < i < |pend| && pend[i].v == pend[order[e].1].v
      ensures (order[e].0, i) in order[e + 1..]
    {
      var d :| 0 <= d < |order| && order[d] == (order[e].0, i);
      assert order[e + 1..][d - e - 1] == order[d];
    }
  }

  /** And so are those for different variables, in any order. */
  lemma OneEachHonours<E>(t: Target, pend: seq<Request<E>>, order: seq<(nat, nat)>)
    requires InRange(t, pend, order)
    requires forall r: nat, i: nat :: r < t.ranks && i < |pend| ==> (r, i) in order
    requires forall i, j :: 0 <= i < j < |pend| ==> pend[i].v != pend[j].v
    ensures Honours(t, pend, order)
  {
  }

  /** All requests of all ranks are completed. */
  ghost predicate Covers<E>(t: Target, pend: seq<Request<E>>, order: seq<(nat, nat)>) {
    InRange(t, pend, order) && forall r: nat, i: nat :: r < t.ranks && i < |pend| ==> (r, i) in order
  }

  lemma SomeCover(ranks: nat, n: nat) returns (order: seq<(nat, nat)>)
    ensures forall e :: 0 <= e < |order| ==> order[e].0 < ranks && order[e].1 < n
    ensures forall r: nat, i: nat :: r < ranks && i < n ==> (r, i) in order
  {
    order := [];
    for i: nat := 0 to n
      invariant forall e :: 0 <= e < |order| ==> order[e].0 < ranks && order[e].1 < n
      invariant forall r: nat, j: nat :: r < ranks && j < i ==> (r, j) in order
    {
      for r: nat := 0 to ranks
        invariant forall e :: 0 <= e < |order| ==> order[e].0 < ranks && order[e].1 < n
        invariant forall q: nat, j: nat :: q < ranks && j < i ==> (q, j) in order
        invariant forall q: nat :: q < r ==> (q, i) in order
      {
        order := order + [(r, i)];
      }
    }
  }

  /** Completing requests in any order gives what they mean exactly if all that are for the variable hold the same data
      as the last of them. */
  lemma AnyOrderExactly<E>(t: Target, image: seq<E>, v: nat, pend: seq<Request<E>>)
    requires t.Valid() && AllFit(t, |image|, v, pend)
    ensures (forall order :: Covers(t, pend, order) ==> Completed(t, image, v, pend, order) == Meant(t, image, v, pend))
      <==> forall i :: 0 <= i < |pend| && pend[i].v == v ==> pend[i].outs == pend[LastFor(v, pend)].outs
  {
    if forall i :: 0 <= i < |pend| && pend[i].v == v ==> pend[i].outs == pend[LastFor(v, pend)].outs {
      forall order | Covers(t, pend, order)
        ensures Completed(t, image, v, pend, order) == Meant(t, image, v, pend)
      {
        SameDataAnyOrder(t, image, v, pend, order);
      }
    }
    if forall order :: Covers(t, pend, order) ==> Completed(t, image, v, pend, order) == Meant(t, image, v, pend) {
      forall i | 0 <= i < |pend| && pend[i].v == v
        ensures pend[i].outs == pend[LastFor(v, pend)].outs
      {
        AnyOrderNeedsIt(t, image, v, pend, i);
      }
    }
  }

  lemma SameDataAnyOrder<E>(t: Target, image: seq<E>, v: nat, pend: seq<Request<E>>, order: seq<(nat, nat)>)
    requires t.Valid() && AllFit(t, |image|, v, pend) && Covers(t, pend, order)
    requires forall i :: 0 <= i < |pend| && pend[i].v == v ==> pend[i].outs == pend[LastFor(v, pend)].outs
    ensures Completed(t, image, v, pend, order) == Meant(t, image, v, pend)
  {
    forall id | 0 <= id < |image|
      ensures Completed(t, image, v, pend, order)[id] == Meant(t, image, v, pend)[id]
    {
      if r: nat :| r < t.ranks && Holds(r, t.lay, |image|, id) {
        CompletedAt(t, image, v, pend, order, r, id);
        MeantAt(t, image, v, pend, r, id);
        var j := LastFor(v, pend);
        assert j >= 0 ==> (r, j) in order;
      } else {
        CompletedElsewhere(t, image, v, pend, order, id);
        MeantElsewhere(t, image, v, pend, id);
      }
    }
  }

  lemma AnyOrderNeedsIt<E>(t: Target, image: seq<E>, v: nat, pend: seq<Request<E>>, i: nat)
    requires t.Valid() && AllFit(t, |image|, v, pend) && i < |pend| && pend[i].v == v
    requires forall order :: Covers(t, pend, order) ==> Completed(t, image, v, pend, order) == Meant(t, image, v, pend)
    ensures pend[i].outs == pend[LastFor(v, pend)].outs
  {
    var some := SomeCover(t.ranks, |pend|);
    var j := LastFor(v, pend);
    assert Fits(t, |image|, pend[i]) && Fits(t, |image|, pend[j]);
    hide AllFit, Completed, Meant, Target.Valid;
    forall r: nat | r < t.ranks
      ensures pend[i].outs[r] == pend[j].outs[r]
    {
      var order: seq<(nat, nat)> := some + [(r, i)];
      assert Covers(t, pend, order);
      SameDataOf(t, image, v, pend, i, order, r);
    }
  }

  /** If the last completion for a rank is that of request i, and the outcome is as meant, then request i has the data
      of the last one. */
  lemma SameDataOf<E>(t: Target, image: seq<E>, v: nat, pend: seq<Request<E>>, i: nat, order: seq<(nat, nat)>, r: nat)
    requires t.Valid() && AllFit(t, |image|, v, pend) && i < |pend| && pend[i].v == v && r < t.ranks
    requires InRange(t, pend, order) && order != [] && order[|order| - 1] == (r, i)
    requires Completed(t, image, v, pend, order) == Meant(t, image, v, pend)
    ensures var j := LastFor(v, pend);
      r < |pend[i].outs| && r < |pend[j].outs| && pend[i].outs[r] == pend[j].outs[r]
  {
    var j := LastFor(v, pend);
    assert Fits(t, |image|, pend[i]) && Fits(t, |image|, pend[j]);
    PartEnds(r, t.lay, |image|);
    hide IoStart, IoCount, Completed, Meant;
    forall off | 0 <= off < |pend[i].outs[r]|
      ensures pend[i].outs[r][off] == pend[j].outs[r][off]
    {
      var id := IoStart(r, t.lay, |image|) + off;
      assert Holds(r, t.lay, |image|, id);
      CompletedAt(t, image, v, pend, order, r, id);
      MeantAt(t, image, v, pend, r, id);
    }
  }

  /** A variable that is put twice before anything is completed may end up as the first put left it. */
  lemma OlderPutSurvives()
    ensures var t, pend := Target(Layout(1, 1), 1, [0], 8, map[7 := 4]), [Request(7, [[1]]), Request(7, [[2]])];
      && t.Valid() && AllFit(t, 1, 7, pend) && Covers(t, pend, [(0, 1), (0, 0)])
      && Completed(t, [0], 7, pend, [(0, 1), (0, 0)]) == [1] && Meant(t, [0], 7, pend) == [2]
  {
    var t, pend := Target(Layout(1, 1), 1, [0], 8, map[7 := 4]), [Request(7, [[1]]), Request(7, [[2]])];
    var order: seq<(nat, nat)> := [(0, 1), (0, 0)];
    assert IoStart(0, t.lay, 1) == 0 && IoCount(0, t.lay, 1) == 1;
    assert order[0] == (0, 1) && order[1] == (0, 0);
    assert Holds(0, t.lay, 1, 0);
    CompletedAt(t, [0], 7, pend, order, 0, 0);
    MeantAt(t, [0], 7, pend, 0, 0);
  }

  // ----- the operations -----

  /** The variables of the file, the requests that are pending on all ranks, and what each I/O rank has pending. */
  datatype File<E> = File(vars: map<nat, seq<E>>, pend: seq<Request<E>>, tasks: seq<Buffered.Pending>)

  /** An operation, the library's answers to the I/O ranks, and the order in which it completes what it has to. */
  datatype Event<E> =
    | Put(q: Request<E>, answers: seq<Buffered.Answers>, order: seq<(nat, nat)>)
    | Flush(answers: seq<Buffered.Answers>, order: seq<(nat, nat)>)

  /** How many bytes each I/O rank puts to a variable with n elements. */
  ghost function Bytes(t: Target, v: nat, n: nat): (b: seq<nat>)
    requires t.Valid() && v in t.sizes
    ensures |b| == |t.io|
  {
    seq(|t.io|, k requires 0 <= k < |t.io| => IoCount(t.io[k], t.lay, n) * t.sizes[v])
  }

  ghost predicate IsBuffered(t: Target, v: nat, n: nat)
    requires t.Valid() && v in t.sizes
  {
    Buffered.Buffers(t.bufsize, Buffered.MaxOf(Bytes(t, v, n)))
  }

  ghost predicate OfTarget<E>(t: Target, pend: seq<Request<E>>) {
    forall j :: 0 <= j < |pend| ==> |pend[j].outs| == t.ranks && pend[j].v in t.sizes
  }

  /** The bytes of the data that the k-th I/O rank has pending. */
  ghost function DataBytes<E>(t: Target, pend: seq<Request<E>>, k: nat): nat
    requires t.Valid() && k < |t.io|
    requires OfTarget(t, pend)
  {
    if pend == [] then 0
    else
      var q := pend[|pend| - 1];
      DataBytes(t, pend[..|pend| - 1], k) + |q.outs[t.io[k]]| * t.sizes[q.v]
  }

  /** The variables are those of the file; pending requests fit them, and are for variables whose puts are buffered; and
      each I/O rank has their number and their bytes pending. */
  ghost predicate Sound<E>(t: Target, f: File<E>) {
    && t.Valid() && f.vars.Keys == t.sizes.Keys && |f.tasks| == |t.io|
    && (forall j :: 0 <= j < |f.pend| ==>
          && f.pend[j].v in f.vars && Fits(t, |f.vars[f.pend[j].v]|, f.pend[j])
          && IsBuffered(t, f.pend[j].v, |f.vars[f.pend[j].v]|))
    && Buffered.InStep(f.tasks) && Buffered.Bounded(t.bufsize, f.tasks) && f.tasks[0].nReqs == |f.pend|
    && forall k :: 0 <= k < |f.tasks| ==> f.tasks[k].usage == DataBytes(t, f.pend, k)
  }

  ghost function OpOf<E>(t: Target, f: File<E>, ev: Event<E>): Buffered.Op
    requires t.Valid() && (ev.Put? ==> ev.q.v in t.sizes && ev.q.v in f.vars)
  {
    match ev
    case Put(q, answers, _) => Buffered.Put(Bytes(t, q.v, |f.vars[q.v]|), answers)
    case Flush(answers, _) => Buffered.Flush(answers)
  }

  /** Whether the I/O ranks complete what is pending first. */
  ghost predicate Waits<E>(t: Target, f: File<E>, ev: Event<E>)
    requires Sound(t, f) && (ev.Put? ==> ev.q.v in f.vars && |ev.answers| == |t.io|)
  {
    match ev
    case Put(q, answers, _) =>
      && IsBuffered(t, q.v, |f.vars[q.v]|)
      && Buffered.MustWait(t.bufsize, f.tasks[0], Buffered.MaxPending(OpOf(t, f, ev)))
    case Flush(_, _) => f.tasks[0].nReqs > 0
  }

  /** The library makes no error, reports the usage there is, and honours the order of requests it completes. */
  ghost predicate Can<E>(t: Target, f: File<E>, ev: Event<E>)
    requires Sound(t, f)
  {
    && |ev.answers| == |t.io|
    && (forall k :: 0 <= k < |ev.answers| ==>
          var a := ev.answers[k]; a.inqErr == a.waitErr == a.bputErr == NC_NOERR && a.reported == f.tasks[k].usage)
    && (ev.Put? ==> ev.q.v in f.vars && Fits(t, |f.vars[ev.q.v]|, ev.q))
    && (Waits(t, f, ev) ==> Honours(t, f.pend, ev.order))
  }

  ghost function WaitedFor<E>(t: Target, f: File<E>, ev: Event<E>): map<nat, seq<E>>
    requires Sound(t, f) && Can(t, f, ev)
  {
    if Waits(t, f, ev) then map v | v in f.vars :: Completed(t, f.vars[v], v, f.pend, ev.order) else f.vars
  }

  ghost function Applied<E>(t: Target, f: File<E>, ev: Event<E>): File<E>
    requires Sound(t, f) && Can(t, f, ev)
  {
    var vars, pend := WaitedFor(t, f, ev), if Waits(t, f, ev) then [] else f.pend;
    var tasks := Buffered.Step(t.bufsize, f.tasks, OpOf(t, f, ev));
    match ev
    case Put(q, _, _) =>
      if IsBuffered(t, q.v, |f.vars[q.v]|) then File(vars, pend + [q], tasks)
      else File(vars[q.v := Written(t, vars[q.v], q)], pend, tasks)
    case Flush(_, _) => File(vars, pend, tasks)
  }

  // ----- every run -----

  /** The file with everything pending taken as done holds what is wanted. */
  ghost predicate Agrees<E>(t: Target, f: File<E>, want: map<nat, seq<E>>) {
    && Sound(t, f) && want.Keys == f.vars.Keys
    && forall v :: v in f.vars ==> AllFit(t, |f.vars[v]|, v, f.pend) && want[v] == Meant(t, f.vars[v], v, f.pend)
  }

  /** Every put as if it were made at once. */
  ghost function Wanted<E>(t: Target, want: map<nat, seq<E>>, ev: Event<E>): map<nat, seq<E>>
    requires t.Valid() && (ev.Put? ==> ev.q.v in want && Fits(t, |want[ev.q.v]|, ev.q))
  {
    if ev.Put? then want[ev.q.v := Written(t, want[ev.q.v], ev.q)] else want
  }

  lemma {:induction false} MeantNone<E>(t: Target, image: seq<E>, v: nat, pend: seq<Request<E>>)
    requires t.Valid() && forall j :: 0 <= j < |pend| ==> pend[j].v != v
    ensures AllFit(t, |image|, v, pend) && Meant(t, image, v, pend) == image
    decreases |pend|
  {
    if pend != [] {
      MeantNone(t, image, v, pend[..|pend| - 1]);
    }
  }

  lemma MeantMore<E>(t: Target, image: seq<E>, v: nat, pend: seq<Request<E>>, q: Request<E>)
    requires t.Valid() && AllFit(t, |image|, v, pend) && (q.v == v ==> Fits(t, |image|, q))
    ensures AllFit(t, |image|, v, pend + [q])
    ensures Meant(t, image, v, pend + [q])
         == if q.v == v then Written(t, Meant(t, image, v, pend), q) else Meant(t, image, v, pend)
  {
    assert (pend + [q])[..|pend|] == pend;
  }

  lemma WaitedMeans<E>(t: Target, f: File<E>, ev: Event<E>, v: nat)
    requires Sound(t, f) && Can(t, f, ev) && v in f.vars
    ensures var vars, pend := WaitedFor(t, f, ev), if Waits(t, f, ev) then [] else f.pend;
      && v in vars && |vars[v]| == |f.vars[v]| && AllFit(t, |vars[v]|, v, f.pend) && AllFit(t, |vars[v]|, v, pend)
      && Meant(t, vars[v], v, pend) == Meant(t, f.vars[v], v, f.pend)
  {
    hide Meant, Completed, Waits, IsBuffered, Honours;
    assert AllFit(t, |f.vars[v]|, v, f.pend);
    if Waits(t, f, ev) {
      CompletedIsMeant(t, f.vars[v], v, f.pend, ev.order);
      MeantNone(t, WaitedFor(t, f, ev)[v], v, []);
    }
  }

  /** The I/O ranks stay in step, with one request each for every one that is pending. */
  lemma TasksAfter<E>(t: Target, f: File<E>, ev: Event<E>)
    requires Sound(t, f) && Can(t, f, ev)
    ensures var f' := Applied(t, f, ev);
      && |f'.tasks| == |t.io| && Buffered.InStep(f'.tasks) && Buffered.Bounded(t.bufsize, f'.tasks)
      && f'.tasks[0].nReqs == |f'.pend| && OfTarget(t, f'.pend)
      && forall k :: 0 <= k < |f'.tasks| ==> f'.tasks[k].usage == DataBytes(t, f'.pend, k)
  {
    TasksStayGood(t, f, ev);
    hide Completed, Honours, Written, WaitedFor, DataBytes, Applied, Can, Buffered.InStep, Buffered.Bounded;
    assert t.Valid() && |f.tasks| == |t.io| > 0;
    TaskAfter(t, f, ev, 0);
    hide Fits, IsBuffered, Sound, OfTarget;
    forall k | 0 <= k < |f.tasks|
      ensures Applied(t, f, ev).tasks[k].usage == DataBytes(t, Applied(t, f, ev).pend, k)
      ensures Applied(t, f, ev).tasks[k].nReqs == |Applied(t, f, ev).pend|
    {
      TaskAfter(t, f, ev, k);
    }
  }

  lemma TasksStayGood<E>(t: Target, f: File<E>, ev: Event<E>)
    requires Sound(t, f) && Can(t, f, ev)
    ensures var tasks := Applied(t, f, ev).tasks;
      |tasks| == |t.io| && Buffered.InStep(tasks) && Buffered.Bounded(t.bufsize, tasks)
  {
    hide Completed, Honours, Written, Fits, Bytes, WaitedFor, DataBytes, IsBuffered;
    hide Buffered.Bounded, Buffered.InStep, Buffered.Step;
    var op := OpOf(t, f, ev);
    assert Buffered.WellFormed(f.tasks, op) && Buffered.Succeeds(op);
    Buffered.StepStaysGood(t.bufsize, f.tasks, op);
  }

  lemma TaskAfter<E>(t: Target, f: File<E>, ev: Event<E>, k: nat)
    requires Sound(t, f) && Can(t, f, ev) && k < |f.tasks|
    ensures var f' := Applied(t, f, ev);
      && |f'.tasks| == |f.tasks| && f'.tasks[k].nReqs == |f'.pend| && OfTarget(t, f'.pend)
      && f'.tasks[k].usage == DataBytes(t, f'.pend, k)
  {
    hide Completed, Honours, Written, WaitedFor, DataBytes, Buffered.MaxOf;
    NoData<E>(t, k);
    assert f.tasks[k].nReqs == f.tasks[0].nReqs;
    if ev.Put? {
      var q := ev.q;
      var pend := if Waits(t, f, ev) then [] else f.pend;
      MoreData(t, pend, q, k);
      assert |q.outs[t.io[k]]| == IoCount(t.io[k], t.lay, |f.vars[q.v]|);
    }
  }

  lemma NoData<E>(t: Target, k: nat)
    requires t.Valid() && k < |t.io|
    ensures DataBytes<E>(t, [], k) == 0
  {
  }

  lemma MoreData<E>(t: Target, pend: seq<Request<E>>, q: Request<E>, k: nat)
    requires t.Valid() && k < |t.io| && |q.outs| == t.ranks && q.v in t.sizes
    requires OfTarget(t, pend)
    ensures DataBytes(t, pend + [q], k) == DataBytes(t, pend, k) + |q.outs[t.io[k]]| * t.sizes[q.v]
  {
    assert (pend + [q])[..|pend|] == pend;
  }

  lemma PutAgrees<E>(t: Target, f: File<E>, want: map<nat, seq<E>>, ev: Event<E>, v: nat)
    requires Agrees(t, f, want) && Can(t, f, ev) && ev.Put? && v in f.vars
    ensures Fits(t, |want[ev.q.v]|, ev.q)
    ensures var f' := Applied(t, f, ev);
      && v in f'.vars && |f'.vars[v]| == |f.vars[v]| && AllFit(t, |f'.vars[v]|, v, f'.pend)
      && Wanted(t, want, ev)[v] == Meant(t, f'.vars[v], v, f'.pend)
  {
    hide Meant, Completed, Honours, Written, Fits, IsBuffered, WaitedFor;
    WaitedMeans(t, f, ev, v);
    var q, vars, pend := ev.q, WaitedFor(t, f, ev), if Waits(t, f, ev) then [] else f.pend;
    if IsBuffered(t, q.v, |f.vars[q.v]|) {
      MeantMore(t, vars[v], v, pend, q);
    } else if q.v == v {
      MeantNone(t, vars[v], v, pend);
      MeantNone(t, Written(t, vars[v], q), v, pend);
    }
  }

  ghost predicate VarAgrees<E>(t: Target, f: File<E>, want: map<nat, seq<E>>, v: nat)
    requires t.Valid()
  {
    && v in f.vars && v in want && AllFit(t, |f.vars[v]|, v, f.pend)
    && want[v] == Meant(t, f.vars[v], v, f.pend)
  }

  lemma VarAgreesAfter<E>(t: Target, f: File<E>, want: map<nat, seq<E>>, ev: Event<E>, v: nat)
    requires Agrees(t, f, want) && Can(t, f, ev) && v in f.vars
    ensures ev.Put? ==> ev.q.v in want && Fits(t, |want[ev.q.v]|, ev.q)
    ensures var f' := Applied(t, f, ev);
      v in f'.vars && |f'.vars[v]| == |f.vars[v]| && VarAgrees(t, f', Wanted(t, want, ev), v)
  {
    hide Meant, Completed, Honours, Written, Fits, IsBuffered, WaitedFor;
    if ev.Put? {
      PutAgrees(t, f, want, ev, v);
    } else {
      WaitedMeans(t, f, ev, v);
    }
  }

  lemma SoundAfter<E>(t: Target, f: File<E>, ev: Event<E>)
    requires Sound(t, f) && Can(t, f, ev)
    requires forall v :: v in f.vars ==> v in Applied(t, f, ev).vars && |Applied(t, f, ev).vars[v]| == |f.vars[v]|
    ensures Sound(t, Applied(t, f, ev)) && Applied(t, f, ev).vars.Keys == f.vars.Keys
  {
    PendAfter(t, f, ev);
    hide Applied, Can, Fits, IsBuffered, DataBytes, Buffered.InStep, Buffered.Bounded;
    TasksAfter(t, f, ev);
  }

  lemma PendAfter<E>(t: Target, f: File<E>, ev: Event<E>)
    requires Sound(t, f) && Can(t, f, ev)
    ensures var f' := Applied(t, f, ev);
      && f'.vars.Keys == f.vars.Keys
      && forall j :: 0 <= j < |f'.pend| ==>
           f'.pend[j].v in f.vars && Fits(t, |f.vars[f'.pend[j].v]|, f'.pend[j])
           && IsBuffered(t, f'.pend[j].v, |f.vars[f'.pend[j].v]|)
  {
    hide Completed, Honours, Written, Fits, IsBuffered, Waits, Buffered.InStep, Buffered.Bounded, DataBytes;
  }

  /** Every operation leaves the file agreeing with what is wanted after it. */
  lemma EventAgrees<E>(t: Target, f: File<E>, want: map<nat, seq<E>>, ev: Event<E>)
    requires Agrees(t, f, want) && Can(t, f, ev)
    ensures ev.Put? ==> ev.q.v in want && Fits(t, |want[ev.q.v]|, ev.q)
    ensures Agrees(t, Applied(t, f, ev), Wanted(t, want, ev))
  {
    assert t.Valid();
    if ev.Put? {
      PutTarget(t, f, want, ev);
    }
    hide Applied, Meant, Completed, Honours, Fits, IsBuffered, Waits, Can, Sound;
    forall v | v in f.vars
      ensures v in Applied(t, f, ev).vars && |Applied(t, f, ev).vars[v]| == |f.vars[v]|
      ensures VarAgrees(t, Applied(t, f, ev), Wanted(t, want, ev), v)
    {
      VarAgreesAfter(t, f, want, ev, v);
    }
    SoundAfter(t, f, ev);
    AgreesIf(t, Applied(t, f, ev), Wanted(t, want, ev));
  }

  lemma AgreesIf<E>(t: Target, f: File<E>, want: map<nat, seq<E>>)
    requires Sound(t, f) && want.Keys == f.vars.Keys && forall v :: v in f.vars ==> VarAgrees(t, f, want, v)
    ensures Agrees(t, f, want)
  {
    assert t.Valid();
    hide Sound, Meant;
    assert forall v :: v in f.vars ==> VarAgrees(t, f, want, v);
  }

  lemma PutTarget<E>(t: Target, f: File<E>, want: map<nat, seq<E>>, ev: Event<E>)
    requires Agrees(t, f, want) && Can(t, f, ev) && ev.Put?
    ensures ev.q.v in want && Fits(t, |want[ev.q.v]|, ev.q)
  {
    PutAgrees(t, f, want, ev, ev.q.v);
  }

  /** A get, sync or close leaves nothing pending, and every variable as it is wanted. */
  lemma FlushLeavesWanted<E>(t: Target, f: File<E>, want: map<nat, seq<E>>, ev: Event<E>)
    requires Agrees(t, f, want) && Can(t, f, ev) && ev.Flush?
    ensures Agrees(t, Applied(t, f, ev), want)
    ensures Applied(t, f, ev).pend == [] && Applied(t, f, ev).vars == want
  {
    EventAgrees(t, f, want, ev);
    hide Honours, Fits, IsBuffered, Completed;
    var f' := Applied(t, f, ev);
    assert f'.pend == [];
    forall v | v in f'.vars ensures f'.vars[v] == want[v] {
      MeantNone(t, f'.vars[v], v, []);
    }
  }

  ghost predicate Run<E>(t: Target, f: File<E>, want: map<nat, seq<E>>, evs: seq<Event<E>>,
                         f': File<E>, want': map<nat, seq<E>>)
    requires t.Valid()
    decreases |evs|
  {
    if evs == [] then f' == f && want' == want
    else
      && Sound(t, f) && Can(t, f, evs[0])
      && (evs[0].Put? ==> evs[0].q.v in want && Fits(t, |want[evs[0].q.v]|, evs[0].q))
      && Run(t, Applied(t, f, evs[0]), Wanted(t, want, evs[0]), evs[1..], f', want')
  }

  lemma {:induction false} RunAgrees<E>(t: Target, f: File<E>, want: map<nat, seq<E>>, evs: seq<Event<E>>,
                                        f': File<E>, want': map<nat, seq<E>>)
    requires t.Valid() && Agrees(t, f, want) && Run(t, f, want, evs, f', want')
    ensures Agrees(t, f', want')
    decreases |evs|
  {
    hide Agrees, Can, Applied, Sound, Wanted;
    if evs != [] {
      EventAgrees(t, f, want, evs[0]);
      RunAgrees(t, Applied(t, f, evs[0]), Wanted(t, want, evs[0]), evs[1..], f', want');
    }
  }

  lemma {:induction false} WantedKept<E>(t: Target, f: File<E>, want: map<nat, seq<E>>, evs: seq<Event<E>>,
                                         f': File<E>, want': map<nat, seq<E>>, v: nat)
    requires t.Valid() && Run(t, f, want, evs, f', want') && v in want
    requires forall i :: 0 <= i < |evs| && evs[i].Put? ==> evs[i].q.v != v
    ensures v in want' && want'[v] == want[v]
    decreases |evs|
  {
    hide Can, Applied, Sound, Fits, Written;
    if evs != [] {
      WantedKept(t, Applied(t, f, evs[0]), Wanted(t, want, evs[0]), evs[1..], f', want', v);
    }
  }

  /**
   * A get after any run returns the variable as its latest put left it: whatever other variables are put in between,
   * whether puts are buffered or made at once, and whenever the library completes what is pending.
   */
  lemma GetReturnsLatest<E>(t: Target, f: File<E>, want: map<nat, seq<E>>, put: Event<E>, evs: seq<Event<E>>,
                            f': File<E>, want': map<nat, seq<E>>, get: Event<E>)
    requires t.Valid() && Agrees(t, f, want) && Can(t, f, put) && put.Put?
    requires put.q.v in want && Fits(t, |want[put.q.v]|, put.q)
    requires Run(t, Applied(t, f, put), Wanted(t, want, put), evs, f', want')
    requires forall i :: 0 <= i < |evs| && evs[i].Put? ==> evs[i].q.v != put.q.v
    requires Sound(t, f') && Can(t, f', get) && get.Flush?
    ensures var file := Applied(t, f', get);
      file.pend == [] && put.q.v in file.vars && file.vars[put.q.v] == Written(t, want[put.q.v], put.q)
  {
    assert Sound(t, f);
    hide Can, Applied, Sound, Agrees, Written, Fits;
    EventAgrees(t, f, want, put);
    RunAgrees(t, Applied(t, f, put), Wanted(t, want, put), evs, f', want');
    WantedKept(t, Applied(t, f, put), Wanted(t, want, put), evs, f', want', put.q.v);
    FlushLeavesWanted(t, f', want', get);
  }

  /** A file that has just been opened. */
  lemma OpenedAgrees<E>(t: Target, vars: map<nat, seq<E>>)
    requires t.Valid() && vars.Keys == t.sizes.Keys
    ensures Agrees(t, File(vars, [], Buffered.Opened(|t.io|)), vars)
  {
    forall v | v in vars ensures Meant(t, vars[v], v, []) == vars[v] {
      MeantNone(t, vars[v], v, []);
    }
  }

  /** A field that is put under any decomposition is, by global ID, what a get finds in the file after any run in which
      its variable is not put again. */
  lemma FieldInFile<E>(t: Target, f: File<E>, want: map<nat, seq<E>>, put: Event<E>, evs: seq<Event<E>>,
                       f': File<E>, want': map<nat, seq<E>>, get: Event<E>,
                       su: Setup, w: World, cts: seq<seq<Triplet>>, its: seq<seq<Triplet>>, d: Decomp,
                       bufs: seq<seq<E>>, blank: seq<seq<E>>, values: seq<E>)
    requires su.Valid() && Builds(su, w, cts, its, d) && IsPermutation(su) && EndToEnd.Fits(su, d)
    requires (su.lay.numIoTasks - 1) * su.lay.ioStride < su.Size() && Distributes(su, bufs, values)
    requires |blank| == su.Size() && AreParts(su.lay, su.Total(), blank)
    requires t.Valid() && t.lay == su.lay && t.ranks == su.Size()
    requires Agrees(t, f, want) && Can(t, f, put) && put.Put? && put.q.outs == PutOuts(su, d, bufs, blank)
    requires put.q.v in want && |want[put.q.v]| == su.Total() && Fits(t, |want[put.q.v]|, put.q)
    requires Run(t, Applied(t, f, put), Wanted(t, want, put), evs, f', want')
    requires forall i :: 0 <= i < |evs| && evs[i].Put? ==> evs[i].q.v != put.q.v
    requires Sound(t, f') && Can(t, f', get) && get.Flush?
    ensures var vars := Applied(t, f', get).vars; put.q.v in vars && vars[put.q.v] == values
  {
    hide Builds, EndToEnd.Fits, Agrees, Can, Applied, Sound, Run, Wanted, PutOuts;
    GetReturnsLatest(t, f, want, put, evs, f', want', get);
    PutIsTheField(su, w, cts, its, d, bufs, blank, want[put.q.v], values);
  }
}
