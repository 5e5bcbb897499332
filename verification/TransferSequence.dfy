/**
 * Calls of transfer_field one after the other, with no barrier between them: a rank begins the next call as soon as it
 * has received, and waited for, all of the one before (src/external/SMIOL/smiol_utils.c). Each call is an exchange on
 * a component of its own, which has a rank's source field in front of its target field.
 */
module TransferSequence {
  import opened Lists
  import opened Agreement
  import opened Triplets
  import Ring
  import D = Decomposition
  import T = Transfer
  import opened HaloExchange
  import opened ExchangeSequence

  /** What all ranks bring to a call. */
  datatype Call<E> = Call(send: seq<seq<Segment>>, recv: seq<seq<Segment>>, sources: seq<seq<E>>, targets: seq<seq<E>>)

  ghost predicate Full(segs: seq<Segment>) {
    forall m :: 0 <= m < |segs| ==> segs[m].locs != []
  }

  /** The lists match in both directions and have no empty entries, and the fields fit them. */
  ghost predicate IsCall<E>(c: Call<E>, ranks: nat) {
    && T.Matched(c.send, c.recv) && T.Matched(c.recv, c.send) && |c.recv| == ranks
    && T.FieldsFit(c.send, c.sources) && T.FieldsFit(c.recv, c.targets)
    && forall r :: 0 <= r < ranks ==> Full(c.send[r]) && Full(c.recv[r])
  }

  // ----- lists of positions in the joint field -----

  function Shifted(locs: seq<int>, off: nat): (vec: seq<int>)
    ensures |vec| == |locs|
  {
    seq(|locs|, k requires 0 <= k < |locs| => locs[k] + off)
  }

  function ToEntries(segs: seq<Segment>, off: nat): (list: seq<Entry>)
    ensures |list| == |segs|
  {
    seq(|segs|, m requires 0 <= m < |segs| => Entry(segs[m].task, Shifted(segs[m].locs, off)))
  }

  lemma {:induction false} EntriesFor(segs: seq<Segment>, off: nat, q: int)
    ensures VecFor(ToEntries(segs, off), q) == Shifted(SegmentFor(segs, q), off)
    decreases |segs|
  {
    if segs != [] {
      EntriesFor(segs[1..], off, q);
      assert ToEntries(segs, off)[1..] == ToEntries(segs[1..], off);
    }
  }

  lemma EntriesProper(segs: seq<Segment>, off: nat, ranks: nat, n: nat)
    requires StrictlyIncreasing(segs) && T.DistinctListed(segs) && T.SegmentsInRange(segs, n) && Full(segs)
    requires forall m :: 0 <= m < |segs| ==> 0 <= segs[m].task < ranks
    ensures Proper(ToEntries(segs, off), ranks, off + n) && NoneEmpty(ToEntries(segs, off))
  {
  }

  ghost function Joint<E>(c: Call<E>, r: nat): (f: seq<E>)
    requires T.Matched(c.send, c.recv) && r < |c.recv|
    requires T.FieldsFit(c.send, c.sources) && T.FieldsFit(c.recv, c.targets)
    ensures |f| == |c.sources[r]| + |c.targets[r]|
  {
    c.sources[r] + T.CopyOwn(r, c.sources[r], c.targets[r], c.send[r], c.recv[r])
  }

  /** The exchange of a call. Only the places of items matter, not their names. */
  ghost function NetworkOf<E>(c: Call<E>, ranks: nat): (w: Network)
    requires IsCall(c, ranks)
    ensures |w.lists| == |w.names| == ranks
    ensures forall r :: 0 <= r < ranks ==> |w.names[r]| == |c.sources[r]| + |c.targets[r]|
  {
    Network(seq(ranks, r requires 0 <= r < ranks =>
              Lists(ToEntries(c.send[r], 0), ToEntries(c.recv[r], |c.sources[r]|))),
            seq(ranks, r requires 0 <= r < ranks => seq(|c.sources[r]| + |c.targets[r]|, i => 0)))
  }

  lemma NetworkIsMatched<E>(c: Call<E>, ranks: nat)
    requires IsCall(c, ranks)
    ensures Matched(NetworkOf(c, ranks)) && Paired(NetworkOf(c, ranks))
  {
    var w := NetworkOf(c, ranks);
    forall r | 0 <= r < ranks
      ensures Proper(w.lists[r].send, ranks, |w.names[r]|) && NoneEmpty(w.lists[r].send)
      ensures Proper(w.lists[r].recv, ranks, |w.names[r]|) && NoneEmpty(w.lists[r].recv)
    {
      EntriesProper(c.send[r], 0, ranks, |c.sources[r]|);
      EntriesProper(c.recv[r], |c.sources[r]|, ranks, |c.targets[r]|);
    }
    forall p, q | 0 <= p < ranks && 0 <= q < ranks && p != q
      ensures PairMatched(w, p, q)
    {
      CallPair(c, ranks, p, q);
    }
    hide NetworkOf, Proper, NoneEmpty, PairMatched;
    PairedIfFull(w);
  }

  lemma CallPair<E>(c: Call<E>, ranks: nat, p: nat, q: nat)
    requires IsCall(c, ranks) && p < ranks && q < ranks
    ensures PairMatched(NetworkOf(c, ranks), p, q)
  {
    EntriesFor(c.send[p], 0, q);
    EntriesFor(c.recv[q], |c.sources[q]|, p);
    T.SegmentForInRange(c.send[p], |c.sources[p]|, q);
    T.SegmentForInRange(c.recv[q], |c.targets[q]|, p);
  }

  // ----- what the exchange leaves -----

  lemma {:induction false} ScatterBehind<E>(a: seq<E>, b: seq<E>, locs: seq<int>, data: seq<E>)
    requires T.InRange(locs, |b|) && |data| == |locs|
    ensures T.InRange(Shifted(locs, |a|), |a| + |b|)
    ensures T.Scatter(a + b, Shifted(locs, |a|), data) == a + T.Scatter(b, locs, data)
    decreases |locs|
  {
    if locs != [] {
      ScatterBehind(a, b[locs[0] := data[0]], locs[1..], data[1..]);
      assert Shifted(locs, |a|)[1..] == Shifted(locs[1..], |a|);
      assert (a + b)[locs[0] + |a| := data[0]] == a + b[locs[0] := data[0]];
    }
  }

  /** Unpacking into the joint field is unpacking into the target behind the source. */
  lemma {:induction false} UnpackedBehind<E>(me: nat, a: seq<E>, b: seq<E>, recv: seq<Segment>, inbox: seq<seq<E>>,
                                             n: nat) returns (t: seq<E>)
    requires T.SegmentsInRange(recv, |b|) && n <= |recv| == |inbox|
    requires forall k :: 0 <= k < |recv| ==> |inbox[k]| == |recv[k].locs|
    requires Fits(me, |a| + |b|, ToEntries(recv, |a|), inbox)
    ensures |t| == |b| && Unpacked(me, a + b, ToEntries(recv, |a|), inbox, n) == a + t
    ensures T.Unpack(me, t, recv, inbox, n) == T.Unpack(me, b, recv, inbox, 0)
  {
    if n == 0 {
      t := b;
    } else {
      var before := UnpackedBehind(me, a, b, recv, inbox, n - 1);
      t := if recv[n - 1].task == me then before else T.Scatter(before, recv[n - 1].locs, inbox[n - 1]);
      ScatterBehind(a, before, recv[n - 1].locs, inbox[n - 1]);
    }
  }

  ghost function Start<E>(c: Call<E>, ranks: nat): (f: seq<seq<E>>)
    requires IsCall(c, ranks)
    ensures |f| == ranks && forall r :: 0 <= r < ranks ==> f[r] == Joint(c, r)
  {
    seq(ranks, r requires 0 <= r < ranks => Joint(c, r))
  }

  /** What a rank receives comes out of the sources, which the copies within the ranks leave alone. */
  lemma SameInbox<E>(c: Call<E>, ranks: nat, r: nat, m: nat)
    requires IsCall(c, ranks) && r < ranks && m < |c.recv[r]| && c.recv[r][m].task != r
    requires Matched(NetworkOf(c, ranks)) && IsField(NetworkOf(c, ranks), Start(c, ranks))
    ensures Inbox(NetworkOf(c, ranks), Start(c, ranks), r)[m] == T.Inbox(c.send, c.recv, c.sources, r)[m]
  {
    var t := c.recv[r][m].task;
    EntriesFor(c.send[t], 0, r);
    T.SegmentForInRange(c.send[t], |c.sources[t]|, r);
    var locs := SegmentFor(c.send[t], r);
    assert Shifted(locs, 0) == locs;
    assert T.Gather(Joint(c, t), locs) == T.Gather(c.sources[t], locs);
  }

  lemma StartIsField<E>(c: Call<E>, ranks: nat)
    requires IsCall(c, ranks)
    ensures IsField(NetworkOf(c, ranks), Start(c, ranks))
  {
  }

  /** The exchange leaves what the call transfers, behind the sources. */
  lemma ExchangedIsTransferred<E>(c: Call<E>, ranks: nat, r: nat)
    requires IsCall(c, ranks) && r < ranks
    ensures Matched(NetworkOf(c, ranks)) && IsField(NetworkOf(c, ranks), Start(c, ranks))
    ensures Exchanged(NetworkOf(c, ranks), Start(c, ranks))[r]
         == c.sources[r] + T.Transferred(c.send, c.recv, c.sources, c.targets, r)
  {
    NetworkIsMatched(c, ranks);
    StartIsField(c, ranks);
    var w, f := NetworkOf(c, ranks), Start(c, ranks);
    var own := T.CopyOwn(r, c.sources[r], c.targets[r], c.send[r], c.recv[r]);
    hide Matched, T.CopyOwn;
    var inbox := Inbox(w, f, r);
    forall m | 0 <= m < |c.recv[r]| && c.recv[r][m].task != r
      ensures inbox[m] == T.Inbox(c.send, c.recv, c.sources, r)[m]
    {
      SameInbox(c, ranks, r, m);
    }
    Delivered(c, ranks, r, own, inbox);
  }

  lemma Delivered<E>(c: Call<E>, ranks: nat, r: nat, own: seq<E>, inbox: seq<seq<E>>)
    requires IsCall(c, ranks) && r < ranks && own == T.CopyOwn(r, c.sources[r], c.targets[r], c.send[r], c.recv[r])
    requires Fits(r, |c.sources[r]| + |own|, ToEntries(c.recv[r], |c.sources[r]|), inbox)
    requires forall m :: 0 <= m < |c.recv[r]| && c.recv[r][m].task != r ==>
      inbox[m] == T.Inbox(c.send, c.recv, c.sources, r)[m]
    ensures Unpacked(r, c.sources[r] + own, ToEntries(c.recv[r], |c.sources[r]|), inbox, |c.recv[r]|)
         == c.sources[r] + T.Transferred(c.send, c.recv, c.sources, c.targets, r)
  {
    hide T.Scatter;
    var recv, known := c.recv[r], T.Inbox(c.send, c.recv, c.sources, r);
    var n := |recv|;
    assert Fits(r, |c.sources[r]| + |own|, ToEntries(recv, |c.sources[r]|), known);
    SameUnpacked(r, c.sources[r] + own, ToEntries(recv, |c.sources[r]|), inbox, known, n);
    var t := UnpackedBehind(r, c.sources[r], own, recv, known, n);
  }

  lemma {:induction false} SameUnpacked<E>(me: nat, f: seq<E>, recv: seq<Entry>, a: seq<seq<E>>, b: seq<seq<E>>, n: nat)
    requires n <= |recv| == |a| == |b| && Fits(me, |f|, recv, a) && Fits(me, |f|, recv, b)
    requires forall m :: 0 <= m < |recv| && recv[m].proc != me ==> a[m] == b[m]
    ensures Unpacked(me, f, recv, a, n) == Unpacked(me, f, recv, b, n)
  {
    if n > 0 {
      SameUnpacked(me, f, recv, a, b, n - 1);
    }
  }

  // ----- every run -----

  ghost predicate AreCalls<E>(calls: seq<Call<E>>, ranks: nat) {
    forall i :: 0 <= i < |calls| ==> IsCall(calls[i], ranks)
  }

  ghost function SizesOf<E>(c: Call<E>, ranks: nat): (n: seq<nat>)
    requires IsCall(c, ranks)
    ensures |n| == ranks && forall r :: 0 <= r < ranks ==> n[r] == |c.sources[r]| + |c.targets[r]|
  {
    seq(ranks, r requires 0 <= r < ranks => |c.sources[r]| + |c.targets[r]|)
  }

  ghost function PlanOf<E>(calls: seq<Call<E>>, ranks: nat): (plan: Plan)
    requires AreCalls(calls, ranks)
    ensures plan.Valid() && |plan.ws| == |plan.comps| == |plan.sizes| == |calls| && plan.procs == ranks
    ensures forall i :: 0 <= i < |calls| ==>
      plan.ws[i] == NetworkOf(calls[i], ranks) && plan.comps[i] == i && plan.sizes[i] == SizesOf(calls[i], ranks)
  {
    forall i | 0 <= i < |calls|
      ensures Matched(NetworkOf(calls[i], ranks)) && Paired(NetworkOf(calls[i], ranks))
    {
      NetworkIsMatched(calls[i], ranks);
    }
    Plan(seq(|calls|, i requires 0 <= i < |calls| => NetworkOf(calls[i], ranks)), seq(|calls|, i => i), ranks,
         seq(|calls|, i requires 0 <= i < |calls| => SizesOf(calls[i], ranks)))
  }

  ghost function Starts<E>(calls: seq<Call<E>>, ranks: nat): (f: Fields<E>)
    requires AreCalls(calls, ranks)
    ensures |f| == |calls| && forall i :: 0 <= i < |f| ==> f[i] == Start(calls[i], ranks)
  {
    seq(|calls|, i requires 0 <= i < |calls| => Start(calls[i], ranks))
  }

  lemma StartsFit<E>(calls: seq<Call<E>>, ranks: nat)
    requires AreCalls(calls, ranks)
    ensures IsStart(PlanOf(calls, ranks), Starts(calls, ranks))
  {
    hide NetworkOf;
  }

  /** Each call changes its own component only. */
  lemma {:induction false} AfterCalls<E>(calls: seq<Call<E>>, ranks: nat, i: nat, k: nat)
    requires AreCalls(calls, ranks) && i <= |calls| && k < |calls|
    ensures IsStart(PlanOf(calls, ranks), Starts(calls, ranks))
    ensures Matched(NetworkOf(calls[k], ranks)) && IsField(NetworkOf(calls[k], ranks), Start(calls[k], ranks))
    ensures After(PlanOf(calls, ranks), Starts(calls, ranks), i)[k]
         == if k < i then Exchanged(NetworkOf(calls[k], ranks), Start(calls[k], ranks)) else Start(calls[k], ranks)
    decreases i
  {
    hide Matched, Exchanged, NetworkOf, Start, IsCall;
    StartsFit(calls, ranks);
    CallIsReady(calls, ranks, k);
    if i > 0 {
      AfterCalls(calls, ranks, i - 1, k);
    }
  }

  lemma CallIsReady<E>(calls: seq<Call<E>>, ranks: nat, k: nat)
    requires AreCalls(calls, ranks) && k < |calls|
    ensures Matched(NetworkOf(calls[k], ranks)) && IsField(NetworkOf(calls[k], ranks), Start(calls[k], ranks))
  {
    NetworkIsMatched(calls[k], ranks);
    StartIsField(calls[k], ranks);
  }

  /**
   * Calls made without a barrier: no run is stuck before all ranks have made all calls, every run is bounded, and then
   * every call has left on every rank what it transfers, and the sources as they were.
   */
  lemma EveryRunOfCalls<E>(calls: seq<Call<E>>, ranks: nat, moves: seq<Move>, s: System<E>)
    requires AreCalls(calls, ranks) && IsStart(PlanOf(calls, ranks), Starts(calls, ranks))
    requires Follows(PlanOf(calls, ranks), Begin(PlanOf(calls, ranks), Starts(calls, ranks)), moves, s)
    ensures |moves| <= AllMoves(PlanOf(calls, ranks), ranks)
    ensures !AllDone(PlanOf(calls, ranks), s) ==>
      exists a :: Can(PlanOf(calls, ranks), s, a) && (a.Advance? ==> AllTaken(s, a.p))
    ensures AllDone(PlanOf(calls, ranks), s) ==> |s.procs| == ranks && forall r, i ::
      0 <= r < ranks && 0 <= i < |calls| ==>
        && i < |s.procs[r].field|
        && s.procs[r].field[i] == calls[i].sources[r]
             + T.Transferred(calls[i].send, calls[i].recv, calls[i].sources, calls[i].targets, r)
  {
    hide Matched, Exchanged, NetworkOf, Start, Starts, Follows, Begin, AllMoves, Can, AllTaken, After, T.Transferred;
    var plan, f := PlanOf(calls, ranks), Starts(calls, ranks);
    EveryRunOfPlan(plan, f, moves, s);
    if AllDone(plan, s) {
      forall r, i | 0 <= r < ranks && 0 <= i < |calls|
        ensures s.procs[r].field[i] == calls[i].sources[r]
          + T.Transferred(calls[i].send, calls[i].recv, calls[i].sources, calls[i].targets, r)
      {
        AfterCalls(calls, ranks, |calls|, i);
        ExchangedIsTransferred(calls[i], ranks, r);
      }
    }
  }

  /** The lists of any decomposition that the ranks build can be used in both directions. */
  lemma BuiltIsCall<E>(su: D.Setup, w: Ring.World, cts: seq<seq<Triplet>>, its: seq<seq<Triplet>>, d: D.Decomp,
                       fields: seq<seq<E>>, parts: seq<seq<E>>)
    requires su.Valid() && D.Builds(su, w, cts, its, d)
    requires T.FieldsFit(d.comp, fields) && T.FieldsFit(d.io, parts)
    ensures IsCall(Call(d.comp, d.io, fields, parts), su.Size())
    ensures IsCall(Call(d.io, d.comp, parts, fields), su.Size())
  {
    D.DecompFits(su, w, cts, its, d);
    forall r | 0 <= r < su.Size()
      ensures Full(d.comp[r]) && Full(d.io[r])
    {
      BuiltIsFull(su, w, cts, its, d, r);
    }
  }

  lemma BuiltIsFull(su: D.Setup, w: Ring.World, cts: seq<seq<Triplet>>, its: seq<seq<Triplet>>, d: D.Decomp, r: nat)
    requires su.Valid() && D.Builds(su, w, cts, its, d) && r < su.Size()
    ensures r < |d.comp| && r < |d.io| && Full(d.comp[r]) && Full(d.io[r])
  {
    hide Segments;
    assert IsCompOrder(w, r, cts[r]) && IsIoOrder(w, r, its[r]);
    SegmentsIncrease(cts[r], 0);
    SegmentsIncrease(its[r], 0);
  }
}
