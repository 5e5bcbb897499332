/** Moving a field between compute and I/O tasks along the exchange lists
    (src/external/SMIOL/smiol_utils.c, transfer_field), element by element. */
module Transfer {
  import opened Lists
  import opened Agreement

  predicate InRange(locs: seq<int>, n: nat) {
    forall k :: 0 <= k < |locs| ==> 0 <= locs[k] < n
  }

  /** The elements of a field at the given local IDs, in that order. */
  function Gather<E>(field: seq<E>, locs: seq<int>): (data: seq<E>)
    requires InRange(locs, |field|)
    ensures |data| == |locs|
  {
    seq(|locs|, k requires 0 <= k < |locs| => field[locs[k]])
  }

  /** The field after writing the data to the given local IDs, one after the other. */
  function Scatter<E>(field: seq<E>, locs: seq<int>, data: seq<E>): (r: seq<E>)
    requires InRange(locs, |field|) && |data| == |locs|
    ensures |r| == |field|
    decreases |locs|
  {
    if locs == [] then field
    else Scatter(field[locs[0] := data[0]], locs[1..], data[1..])
  }

  predicate SegmentsInRange(segs: seq<Segment>, n: nat) {
    forall k :: 0 <= k < |segs| ==> InRange(segs[k].locs, n)
  }

  lemma {:induction false} SegmentForInRange(segs: seq<Segment>, n: nat, task: int)
    requires SegmentsInRange(segs, n)
    ensures InRange(SegmentFor(segs, task), n)
  {
    if segs != [] {
      SegmentForInRange(segs[1..], n, task);
    }
  }

  // ----- one rank -----

  /** The elements that the rank sends to itself go straight from one field to the other. */
  ghost function CopyOwn<E>(rank: int, source: seq<E>, target: seq<E>,
                            send: seq<Segment>, recv: seq<Segment>): (r: seq<E>)
    requires SegmentsInRange(send, |source|) && SegmentsInRange(recv, |target|)
    requires |SegmentFor(send, rank)| == |SegmentFor(recv, rank)|
    ensures |r| == |target|
  {
    SegmentForInRange(send, |source|, rank);
    SegmentForInRange(recv, |target|, rank);
    Scatter(target, SegmentFor(recv, rank), Gather(source, SegmentFor(send, rank)))
  }

  /** The received buffers are unpacked in the order of the receive list, from neighbour i on;
      inbox[k] is what the k-th neighbour of the list sent. */
  ghost function Unpack<E>(rank: int, target: seq<E>, recv: seq<Segment>, inbox: seq<seq<E>>, i: nat): (r: seq<E>)
    requires SegmentsInRange(recv, |target|) && i <= |recv| == |inbox|
    requires forall k :: 0 <= k < |recv| ==> |inbox[k]| == |recv[k].locs|
    ensures |r| == |target|
    decreases |recv| - i
  {
    if i == |recv| then target
    else Unpack(rank,
                if recv[i].task == rank then target else Scatter(target, recv[i].locs, inbox[i]),
                recv, inbox, i + 1)
  }

  // ----- where an element ends up -----

  lemma {:induction false} ScatterAt<E>(field: seq<E>, locs: seq<int>, data: seq<E>, x: nat)
    requires InRange(locs, |field|) && |data| == |locs| && x < |field|
    requires forall i, j :: 0 <= i < j < |locs| ==> locs[i] != locs[j]
    ensures x !in locs ==> Scatter(field, locs, data)[x] == field[x]
    ensures forall k :: 0 <= k < |locs| && locs[k] == x ==> Scatter(field, locs, data)[x] == data[k]
    decreases |locs|
  {
    if locs != [] {
      ScatterAt(field[locs[0] := data[0]], locs[1..], data[1..], x);
      assert x !in locs ==> x !in locs[1..];
      forall k | 0 <= k < |locs| && locs[k] == x ensures Scatter(field, locs, data)[x] == data[k] {
        if k > 0 {
          assert locs[1..][k - 1] == x;
        } else {
          assert x !in locs[1..];
        }
      }
    }
  }

  /** No local ID is listed twice. */
  ghost predicate DistinctListed(segs: seq<Segment>) {
    forall m, k, m', k' ::
      && 0 <= m < |segs| && 0 <= k < |segs[m].locs| && 0 <= m' < |segs| && 0 <= k' < |segs[m'].locs|
      && segs[m].locs[k] == segs[m'].locs[k']
      ==> m == m' && k == k'
  }

  ghost predicate IsListed(segs: seq<Segment>, x: int) {
    exists m :: 0 <= m < |segs| && x in segs[m].locs
  }

  lemma {:induction false} UnpackKeeps<E>(rank: int, target: seq<E>, recv: seq<Segment>, inbox: seq<seq<E>>,
                                          i: nat, x: nat)
    requires SegmentsInRange(recv, |target|) && i <= |recv| == |inbox| && DistinctListed(recv)
    requires forall k :: 0 <= k < |recv| ==> |inbox[k]| == |recv[k].locs|
    requires x < |target| && forall m :: i <= m < |recv| && recv[m].task != rank ==> x !in recv[m].locs
    ensures Unpack(rank, target, recv, inbox, i)[x] == target[x]
    decreases |recv| - i
  {
    if i < |recv| {
      var next := if recv[i].task == rank then target else Scatter(target, recv[i].locs, inbox[i]);
      if recv[i].task != rank {
        ScatterAt(target, recv[i].locs, inbox[i], x);
      }
      UnpackKeeps(rank, next, recv, inbox, i + 1, x);
    }
  }

  lemma {:induction false} UnpackDelivers<E>(rank: int, target: seq<E>, recv: seq<Segment>, inbox: seq<seq<E>>,
                                             i: nat, m: nat, k: nat)
    requires SegmentsInRange(recv, |target|) && i <= m < |recv| == |inbox| && DistinctListed(recv)
    requires forall k :: 0 <= k < |recv| ==> |inbox[k]| == |recv[k].locs|
    requires recv[m].task != rank && k < |recv[m].locs|
    ensures Unpack(rank, target, recv, inbox, i)[recv[m].locs[k]] == inbox[m][k]
    decreases |recv| - i
  {
    var x := recv[m].locs[k];
    var next := if recv[i].task == rank then target else Scatter(target, recv[i].locs, inbox[i]);
    if i == m {
      ScatterAt(target, recv[i].locs, inbox[i], x);
      UnpackKeeps(rank, next, recv, inbox, i + 1, x);
    } else {
      UnpackDelivers(rank, next, recv, inbox, i + 1, m, k);
    }
  }

  /** Unpacking does not look at the rank's own entry. */
  lemma {:induction false} UnpackOthers<E>(rank: int, target: seq<E>, recv: seq<Segment>,
                                           a: seq<seq<E>>, b: seq<seq<E>>, i: nat)
    requires SegmentsInRange(recv, |target|) && i <= |recv| == |a| == |b|
    requires forall k :: 0 <= k < |recv| ==> |a[k]| == |b[k]| == |recv[k].locs|
    requires forall k :: 0 <= k < |recv| && recv[k].task != rank ==> a[k] == b[k]
    ensures Unpack(rank, target, recv, a, i) == Unpack(rank, target, recv, b, i)
    decreases |recv| - i
  {
    if i < |recv| {
      var next := if recv[i].task == rank then target else Scatter(target, recv[i].locs, a[i]);
      UnpackOthers(rank, next, recv, a, b, i + 1);
    }
  }

  lemma {:induction false} SegmentForAt(segs: seq<Segment>, m: nat)
    requires m < |segs| && StrictlyIncreasing(segs)
    ensures SegmentFor(segs, segs[m].task) == segs[m].locs
  {
    if m > 0 {
      assert segs[0].task < segs[m].task;
      SegmentForAt(segs[1..], m - 1);
    }
  }

  lemma {:induction false} SegmentForWhere(segs: seq<Segment>, task: int) returns (m: nat)
    requires SegmentFor(segs, task) != []
    ensures m < |segs| && segs[m].task == task && SegmentFor(segs, task) == segs[m].locs
  {
    if segs[0].task == task {
      m := 0;
    } else {
      m := SegmentForWhere(segs[1..], task);
      m := m + 1;
    }
  }

  // ----- all ranks -----

  /** The lists along which all ranks call transfer_field: what rank t sends to r is as long as what
      r expects from t. */
  ghost predicate Matched(send: seq<seq<Segment>>, recv: seq<seq<Segment>>) {
    && |send| == |recv|
    && (forall r, m :: 0 <= r < |recv| && 0 <= m < |recv[r]| ==> 0 <= recv[r][m].task < |recv|)
    && (forall r :: 0 <= r < |recv| ==> StrictlyIncreasing(recv[r]) && DistinctListed(recv[r]))
    && (forall r, t :: 0 <= r < |recv| && 0 <= t < |recv| ==>
          |SegmentFor(send[t], r)| == |SegmentFor(recv[r], t)|)
  }

  ghost predicate FieldsFit<E>(lists: seq<seq<Segment>>, fields: seq<seq<E>>) {
    |lists| == |fields| && forall r :: 0 <= r < |lists| ==> SegmentsInRange(lists[r], |fields[r]|)
  }

  /** What MPI delivers to rank r: from each neighbour in r's receive list, the elements that this
      neighbour packed for r. */
  ghost function Inbox<E>(send: seq<seq<Segment>>, recv: seq<seq<Segment>>, sources: seq<seq<E>>, r: nat)
    : (inbox: seq<seq<E>>)
    requires Matched(send, recv) && FieldsFit(send, sources) && r < |recv|
    ensures |inbox| == |recv[r]|
    ensures forall k :: 0 <= k < |recv[r]| ==> |inbox[k]| == |recv[r][k].locs|
  {
    forall k | 0 <= k < |recv[r]|
      ensures InRange(SegmentFor(send[recv[r][k].task], r), |sources[recv[r][k].task]|)
      ensures |SegmentFor(send[recv[r][k].task], r)| == |recv[r][k].locs|
    {
      SegmentForInRange(send[recv[r][k].task], |sources[recv[r][k].task]|, r);
      SegmentForAt(recv[r], k);
    }
    seq(|recv[r]|, k requires 0 <= k < |recv[r]| =>
      Gather(sources[recv[r][k].task], SegmentFor(send[recv[r][k].task], r)))
  }

  /** The field on rank r after all ranks have called transfer_field. */
  ghost function Transferred<E>(send: seq<seq<Segment>>, recv: seq<seq<Segment>>,
                                sources: seq<seq<E>>, targets: seq<seq<E>>, r: nat): (f: seq<E>)
    requires Matched(send, recv) && FieldsFit(send, sources) && FieldsFit(recv, targets) && r < |recv|
    ensures |f| == |targets[r]|
  {
    Unpack(r, CopyOwn(r, sources[r], targets[r], send[r], recv[r]), recv[r], Inbox(send, recv, sources, r), 0)
  }

  /** Exchange correctness: rank r's k-th element expected from t is t's k-th element sent to r, the
      copy within a rank included. */
  lemma Delivered<E>(send: seq<seq<Segment>>, recv: seq<seq<Segment>>,
                     sources: seq<seq<E>>, targets: seq<seq<E>>, r: nat, t: nat, k: nat)
    requires Matched(send, recv) && FieldsFit(send, sources) && FieldsFit(recv, targets)
    requires r < |recv| && t < |recv| && k < |SegmentFor(recv[r], t)|
    ensures 0 <= SegmentFor(recv[r], t)[k] < |targets[r]| && 0 <= SegmentFor(send[t], r)[k] < |sources[t]|
    ensures Transferred(send, recv, sources, targets, r)[SegmentFor(recv[r], t)[k]]
         == sources[t][SegmentFor(send[t], r)[k]]
  {
    SegmentForInRange(send[t], |sources[t]|, r);
    SegmentForInRange(recv[r], |targets[r]|, t);
    var m := SegmentForWhere(recv[r], t);
    var own := CopyOwn(r, sources[r], targets[r], send[r], recv[r]);
    var inbox := Inbox(send, recv, sources, r);
    var x := SegmentFor(recv[r], t)[k];
    if t == r {
      ScatterAt(targets[r], SegmentFor(recv[r], r), Gather(sources[r], SegmentFor(send[r], r)), x);
      forall m' | 0 <= m' < |recv[r]| && recv[r][m'].task != r ensures x !in recv[r][m'].locs {
        assert recv[r][m].locs[k] == x;
      }
      UnpackKeeps(r, own, recv[r], inbox, 0, x);
    } else {
      UnpackDelivers(r, own, recv[r], inbox, 0, m, k);
    }
  }

  /** Elements that no neighbour is to deliver are left alone. */
  lemma Untouched<E>(send: seq<seq<Segment>>, recv: seq<seq<Segment>>,
                     sources: seq<seq<E>>, targets: seq<seq<E>>, r: nat, x: nat)
    requires Matched(send, recv) && FieldsFit(send, sources) && FieldsFit(recv, targets)
    requires r < |recv| && x < |targets[r]| && !IsListed(recv[r], x)
    ensures Transferred(send, recv, sources, targets, r)[x] == targets[r][x]
  {
    SegmentForInRange(send[r], |sources[r]|, r);
    SegmentForInRange(recv[r], |targets[r]|, r);
    if SegmentFor(recv[r], r) != [] {
      var m := SegmentForWhere(recv[r], r);
      ScatterAt(targets[r], SegmentFor(recv[r], r), Gather(sources[r], SegmentFor(send[r], r)), x);
    }
    UnpackKeeps(r, CopyOwn(r, sources[r], targets[r], send[r], recv[r]), recv[r],
                Inbox(send, recv, sources, r), 0, x);
  }

  /** Sending there and back restores every transferred element: whatever the fields held before,
      the element that rank t sent as its k-th to r is t's again after the way back. */
  lemma ThereAndBack<E>(there: seq<seq<Segment>>, back: seq<seq<Segment>>, sources: seq<seq<E>>,
                        middle: seq<seq<E>>, targets: seq<seq<E>>, r: nat, t: nat, k: nat)
    requires Matched(there, back) && Matched(back, there)
    requires FieldsFit(there, sources) && FieldsFit(back, middle) && FieldsFit(there, targets)
    requires r < |back| && t < |back| && k < |SegmentFor(there[t], r)|
    ensures var arrived := seq(|back|, q requires 0 <= q < |back| => Transferred(there, back, sources, middle, q));
      && FieldsFit(back, arrived)
      && 0 <= SegmentFor(there[t], r)[k] < |targets[t]|
      && 0 <= SegmentFor(there[t], r)[k] < |sources[t]|
      && Transferred(back, there, arrived, targets, t)[SegmentFor(there[t], r)[k]]
           == sources[t][SegmentFor(there[t], r)[k]]
  {
    var arrived := seq(|back|, q requires 0 <= q < |back| => Transferred(there, back, sources, middle, q));
    Delivered(there, back, sources, middle, r, t, k);
    Delivered(back, there, arrived, targets, t, r, k);
  }
}
