/** transfer_field on one rank, on arrays of bytes (src/external/SMIOL/smiol_utils.c). */
module TransferBytes {
  import opened Basics
  import opened Lists
  import opened Agreement
  import opened Transfer

  type Byte = bv8

  const SMIOL_SUCCESS: int := 0
  const SMIOL_INVALID_ARGUMENT: int := -2

  datatype Direction = CompToIo | IoToComp | OtherDirection

  // ----- bytes as elements -----

  lemma ElementRange(k: nat, n: nat, size: nat)
    requires k < n
    ensures 0 <= k * size <= k * size + size <= n * size
  {
    assert n * size == k * size + size + (n - k - 1) * size;
  }

  /** The n elements of the given size that a byte array holds. */
  ghost function Elements(bytes: seq<Byte>, size: nat, n: nat): (els: seq<seq<Byte>>)
    requires |bytes| == n * size
    ensures |els| == n
  {
    seq(n, k requires 0 <= k < n => ElementRange(k, n, size); bytes[k * size..k * size + size])
  }

  lemma DisjointElements(j: nat, k: nat, n: nat, size: nat)
    requires j < n && k < n && j != k
    ensures j * size + size <= k * size || k * size + size <= j * size
  {
    if j < k {
      ElementRange(j, k, size);
    } else {
      ElementRange(k, j, size);
    }
  }

  lemma ElementsWrite(bytes: seq<Byte>, size: nat, n: nat, k: nat, x: seq<Byte>, after: seq<Byte>)
    requires |bytes| == n * size && k < n && |x| == size
    requires k * size + size <= |bytes| && after == bytes[..k * size] + x + bytes[k * size + size..]
    ensures |after| == n * size && Elements(after, size, n) == Elements(bytes, size, n)[k := x]
  {
    forall j | 0 <= j < n ensures Elements(after, size, n)[j] == Elements(bytes, size, n)[k := x][j] {
      ElementRange(j, n, size);
      if j != k {
        DisjointElements(j, k, n, size);
      }
    }
  }

  // ----- copying -----

  /** The innermost loop of every copy: one element, byte by byte. */
  method CopyElement(target: array<Byte>, outIdx: nat, source: seq<Byte>, inIdx: nat, size: nat)
    requires outIdx + size <= target.Length && inIdx + size <= |source|
    modifies target
    ensures target[..] == old(target[..])[..outIdx] + source[inIdx..inIdx + size] + old(target[..])[outIdx + size..]
  {
    var kk := 0;
    while kk < size
      invariant 0 <= kk <= size
      invariant forall j :: 0 <= j < target.Length ==>
        target[j] == if outIdx <= j < outIdx + kk then source[inIdx + j - outIdx] else old(target[j])
    {
      target[outIdx + kk] := source[inIdx + kk];
      kk := kk + 1;
    }
  }

  /** One element of the target becomes one element of the source. */
  method CopyOneElement(target: array<Byte>, k: nat, ghost nTarget: nat,
                        source: seq<Byte>, i: nat, ghost nSource: nat, size: nat)
    requires target.Length == nTarget * size && |source| == nSource * size
    requires k < nTarget && i < nSource
    modifies target
    ensures Elements(target[..], size, nTarget)
         == old(Elements(target[..], size, nTarget))[k := Elements(source, size, nSource)[i]]
  {
    ElementRange(k, nTarget, size);
    ElementRange(i, nSource, size);
    CopyElement(target, k * size, source, i * size, size);
    ElementsWrite(old(target[..]), size, nTarget, k, source[i * size..i * size + size], target[..]);
    assert source[i * size..i * size + size] == Elements(source, size, nSource)[i];
  }

  /** Packs the send buffer for one neighbour: the elements at its local IDs, in list order. */
  method PackBuffer(source: seq<Byte>, ghost nSource: nat, list: seq<int>, pos: nat, nSend: nat, size: nat,
                    ghost locs: seq<int>)
    returns (buf: array<Byte>)
    requires |source| == nSource * size && InRange(locs, nSource)
    requires pos + nSend <= |list| && locs == list[pos..pos + nSend]
    ensures fresh(buf) && buf.Length == nSend * size
    ensures Elements(buf[..], size, nSend) == Gather(Elements(source, size, nSource), locs)
  {
    ElementRange(nSend, nSend + 1, size);
    ghost var data := Gather(Elements(source, size, nSource), locs);
    buf := new Byte[nSend * size](_ => 0);
    var j := 0;
    while j < nSend
      invariant 0 <= j <= nSend
      invariant Elements(buf[..], size, nSend)[..j] == data[..j]
    {
      assert list[pos + j] == locs[j];
      CopyOneElement(buf, j, nSend, source, list[pos + j], nSource, size);
      j := j + 1;
    }
  }

  lemma ScatterStep<E>(field: seq<E>, locs: seq<int>, data: seq<E>, j: nat)
    requires InRange(locs, |field|) && |data| == |locs| && j < |locs|
    ensures Scatter(field, locs[j..], data[j..]) == Scatter(field[locs[j] := data[j]], locs[j + 1..], data[j + 1..])
  {
    assert locs[j..][1..] == locs[j + 1..] && data[j..][1..] == data[j + 1..];
  }

  /** Unpacks the buffer received from one neighbour to the local IDs listed for it. */
  method UnpackBuffer(target: array<Byte>, ghost nTarget: nat, list: seq<int>, pos: nat, nRecv: nat,
                      buf: seq<Byte>, size: nat, ghost locs: seq<int>)
    requires target.Length == nTarget * size && |buf| == nRecv * size
    requires pos + nRecv <= |list| && locs == list[pos..pos + nRecv] && InRange(locs, nTarget)
    modifies target
    ensures Elements(target[..], size, nTarget)
         == Scatter(old(Elements(target[..], size, nTarget)), locs, Elements(buf, size, nRecv))
  {
    ghost var before, data := Elements(target[..], size, nTarget), Elements(buf, size, nRecv);
    var j := 0;
    while j < nRecv
      invariant 0 <= j <= nRecv
      invariant Scatter(Elements(target[..], size, nTarget), locs[j..], data[j..]) == Scatter(before, locs, data)
    {
      assert list[pos + j] == locs[j];
      ScatterStep(Elements(target[..], size, nTarget), locs, data, j);
      CopyOneElement(target, list[pos + j], nTarget, buf, j, nRecv, size);
      j := j + 1;
    }
  }

  /** The local copy: the elements this rank sends to itself. */
  method CopyLocal(target: array<Byte>, ghost nTarget: nat, recvlist: seq<int>, posDst: nat,
                   source: seq<Byte>, ghost nSource: nat, sendlist: seq<int>, posSrc: nat,
                   n: nat, size: nat, ghost recvLocs: seq<int>, ghost sendLocs: seq<int>)
    requires target.Length == nTarget * size && |source| == nSource * size
    requires posDst + n <= |recvlist| && recvLocs == recvlist[posDst..posDst + n] && InRange(recvLocs, nTarget)
    requires posSrc + n <= |sendlist| && sendLocs == sendlist[posSrc..posSrc + n] && InRange(sendLocs, nSource)
    modifies target
    ensures Elements(target[..], size, nTarget)
         == Scatter(old(Elements(target[..], size, nTarget)), recvLocs,
                    Gather(Elements(source, size, nSource), sendLocs))
  {
    ghost var before := Elements(target[..], size, nTarget);
    ghost var data := Gather(Elements(source, size, nSource), sendLocs);
    var j := 0;
    while j < n
      invariant 0 <= j <= n
      invariant Scatter(Elements(target[..], size, nTarget), recvLocs[j..], data[j..])
             == Scatter(before, recvLocs, data)
    {
      assert recvlist[posDst + j] == recvLocs[j] && sendlist[posSrc + j] == sendLocs[j];
      ScatterStep(Elements(target[..], size, nTarget), recvLocs, data, j);
      CopyOneElement(target, recvlist[posDst + j], nTarget, source, sendlist[posSrc + j], nSource, size);
      j := j + 1;
    }
  }

  // ----- one call on one rank -----

  lemma EntryOf(list: seq<int>, pos: nat, segs: seq<Segment>, ii: nat)
    requires pos <= |list| && ii < |segs| && list[pos..] == Flatten(segs[ii..])
    ensures var n := |segs[ii].locs|;
      && pos + 2 + n <= |list| && list[pos] == segs[ii].task && list[pos + 1] == n
      && list[pos + 2..pos + 2 + n] == segs[ii].locs && list[pos + 2 + n..] == Flatten(segs[ii + 1..])
  {
    assert segs[ii..][1..] == segs[ii + 1..];
    EntryAt(list, pos, segs[ii].task, segs[ii].locs, Flatten(segs[ii + 1..]));
  }

  /** Where a list holds the count for the rank itself, followed by the local IDs. */
  ghost predicate IsOwnEntry(list: seq<int>, segs: seq<Segment>, rank: int, pos: int) {
    if !HasSegment(segs, rank) then pos == -1
    else
      var own := SegmentFor(segs, rank);
      0 <= pos && pos + 1 + |own| <= |list| && list[pos] == |own| && list[pos + 1..pos + 1 + |own|] == own
  }

  lemma OwnEntryFound(list: seq<int>, segs: seq<Segment>, rank: int, ii: nat, pos: nat)
    requires StrictlyIncreasing(segs) && ii < |segs| && segs[ii].task == rank
    requires pos + 1 + |segs[ii].locs| <= |list| && list[pos] == |segs[ii].locs|
    requires list[pos + 1..pos + 1 + |segs[ii].locs|] == segs[ii].locs
    ensures IsOwnEntry(list, segs, rank, pos)
  {
    SegmentForAt(segs, ii);
  }

  /** The count of bytes that MPI is given for n elements, a product of ints. */
  function MpiCount(n: nat, size: nat): int { ToInt(n * ToInt(size)) }

  ghost predicate AreCounts(rank: int, segs: seq<Segment>, size: nat, counts: seq<int>, n: nat) {
    |counts| == n <= |segs| && forall k :: 0 <= k < n && segs[k].task != rank ==>
      counts[k] == MpiCount(|segs[k].locs|, size)
  }

  /** It is the number of bytes exactly if that fits an int. */
  lemma MpiCountExactly(n: nat, size: nat)
    ensures MpiCount(n, size) == n * size <==> n * size <= INT_MAX
  {
    if n * size <= INT_MAX && n > 0 && size > INT_MAX {
      ProductGrows(1, n, size);
    }
    if n * size <= INT_MAX && n == 0 {
      assert n * ToInt(size) == 0;
    }
  }

  /** Two elements of 2^30 bytes are too many. */
  lemma TwoTooLarge()
    ensures MpiCount(2, 0x4000_0000) == -0x8000_0000
  {
  }

  /** The first walk over the receive list: receives are posted, and the place of the rank's own
      entry is remembered. */
  method PostReceives(rank: int, recvlist: seq<int>, size: nat, ghost recv: seq<Segment>)
    returns (posDst: int, counts: seq<int>)
    requires recvlist == Packed(recv) && StrictlyIncreasing(recv)
    ensures IsOwnEntry(recvlist, recv, rank, posDst) && AreCounts(rank, recv, size, counts, |recv|)
  {
    hide Flatten, SegmentFor, MpiCount;
    posDst, counts := -1, [];
    var pos := 1;
    for ii := 0 to recvlist[0]
      invariant 1 <= pos <= |recvlist| && recvlist[pos..] == Flatten(recv[ii..])
      invariant AreCounts(rank, recv, size, counts, ii)
      invariant if exists k :: 0 <= k < ii && recv[k].task == rank
                then IsOwnEntry(recvlist, recv, rank, posDst) else posDst == -1
    {
      EntryOf(recvlist, pos, recv, ii);
      var taskid, nRecv := recvlist[pos], recvlist[pos + 1];
      pos := pos + 2;
      if taskid == rank {
        posDst := pos - 1;
        OwnEntryFound(recvlist, recv, rank, ii, posDst);
        counts := counts + [0];
      } else {
        counts := counts + [MpiCount(nRecv, size)];
      }
      pos := pos + nRecv;
    }
  }

  /** What the rank sends to its k-th neighbour: the elements listed for it, in list order. */
  ghost predicate IsOutbox(rank: int, source: seq<Byte>, nSource: nat, send: seq<Segment>, size: nat,
                           outbox: seq<seq<Byte>>, n: nat)
    requires |source| == nSource * size && SegmentsInRange(send, nSource)
  {
    |outbox| == n <= |send| && forall k :: 0 <= k < n && send[k].task != rank ==>
      && |outbox[k]| == |send[k].locs| * size
      && Elements(outbox[k], size, |send[k].locs|) == Gather(Elements(source, size, nSource), send[k].locs)
  }

  /** The walk over the send list: buffers are packed and sent, and the place of the rank's own entry
      is remembered. */
  method PostSends(rank: int, sendlist: seq<int>, source: seq<Byte>, ghost nSource: nat, size: nat,
                   ghost send: seq<Segment>)
    returns (posSrc: int, outbox: seq<seq<Byte>>, counts: seq<int>)
    requires sendlist == Packed(send) && StrictlyIncreasing(send)
    requires |source| == nSource * size && SegmentsInRange(send, nSource)
    ensures IsOwnEntry(sendlist, send, rank, posSrc)
    ensures IsOutbox(rank, source, nSource, send, size, outbox, |send|)
    ensures AreCounts(rank, send, size, counts, |send|)
  {
    hide Flatten, SegmentFor, Elements, MpiCount;
    posSrc, outbox, counts := -1, [], [];
    var pos := 1;
    for ii := 0 to sendlist[0]
      invariant 1 <= pos <= |sendlist| && sendlist[pos..] == Flatten(send[ii..])
      invariant if exists k :: 0 <= k < ii && send[k].task == rank
                then IsOwnEntry(sendlist, send, rank, posSrc) else posSrc == -1
      invariant IsOutbox(rank, source, nSource, send, size, outbox, ii)
      invariant AreCounts(rank, send, size, counts, ii)
    {
      EntryOf(sendlist, pos, send, ii);
      var taskid, nSend := sendlist[pos], sendlist[pos + 1];
      pos := pos + 2;
      if taskid != rank {
        var buf := PackBuffer(source, nSource, sendlist, pos, nSend, size, send[ii].locs);
        outbox, counts := outbox + [buf[..]], counts + [MpiCount(nSend, size)];
      } else {
        posSrc := pos - 1;
        OwnEntryFound(sendlist, send, rank, ii, posSrc);
        outbox, counts := outbox + [[]], counts + [0];
      }
      pos := pos + nSend;
    }
  }

  /** The received buffers have the lengths that the receive list announces. */
  ghost predicate IsInbox(recv: seq<Segment>, size: nat, inbox: seq<seq<Byte>>) {
    |inbox| == |recv| && forall k :: 0 <= k < |recv| ==> |inbox[k]| == |recv[k].locs| * size
  }

  ghost function InboxElements(recv: seq<Segment>, size: nat, inbox: seq<seq<Byte>>): (els: seq<seq<seq<Byte>>>)
    requires IsInbox(recv, size, inbox)
    ensures |els| == |recv| && forall k :: 0 <= k < |recv| ==> |els[k]| == |recv[k].locs|
  {
    seq(|recv|, k requires 0 <= k < |recv| => Elements(inbox[k], size, |recv[k].locs|))
  }

  /** The last walk over the receive list: what arrived is unpacked, neighbour by neighbour. */
  method UnpackReceives(rank: int, recvlist: seq<int>, target: array<Byte>, ghost nTarget: nat, size: nat,
                        inbox: seq<seq<Byte>>, ghost recv: seq<Segment>)
    requires recvlist == Packed(recv) && target.Length == nTarget * size
    requires SegmentsInRange(recv, nTarget) && IsInbox(recv, size, inbox)
    modifies target
    ensures Elements(target[..], size, nTarget)
         == Unpack(rank, old(Elements(target[..], size, nTarget)), recv, InboxElements(recv, size, inbox), 0)
  {
    hide Flatten, SegmentFor, Elements, Scatter;
    ghost var before, els := Elements(target[..], size, nTarget), InboxElements(recv, size, inbox);
    var pos := 1;
    for ii := 0 to recvlist[0]
      invariant 1 <= pos <= |recvlist| && recvlist[pos..] == Flatten(recv[ii..])
      invariant Unpack(rank, Elements(target[..], size, nTarget), recv, els, ii) == Unpack(rank, before, recv, els, 0)
    {
      EntryOf(recvlist, pos, recv, ii);
      var taskid, nRecv := recvlist[pos], recvlist[pos + 1];
      pos := pos + 2;
      if taskid != rank {
        UnpackBuffer(target, nTarget, recvlist, pos, nRecv, inbox[ii], size, recv[ii].locs);
      }
      pos := pos + nRecv;
    }
  }

  ghost function Bytes(a: array?<Byte>): seq<Byte>
    reads a
  {
    if a == null then [] else a[..]
  }

  /** transfer_field on one rank. The lists are those of a decomposition; the inbox is what MPI
      delivers from each neighbour of the receive list, the outbox what it is handed for each
      neighbour of the send list, and the counts are the numbers of bytes it is told. */
  method TransferField(rank: int, dir: Direction, compList: seq<int>, ioList: seq<int>, size: nat,
                       inField: array?<Byte>, outField: array?<Byte>, inbox: seq<seq<Byte>>,
                       ghost comp: seq<Segment>, ghost io: seq<Segment>, ghost nIn: nat, ghost nOut: nat)
    returns (res: int, outbox: seq<seq<Byte>>, sendCounts: seq<int>, recvCounts: seq<int>)
    requires inField == null || inField != outField
    requires compList == Packed(comp) && ioList == Packed(io) && StrictlyIncreasing(comp) && StrictlyIncreasing(io)
    requires |SegmentFor(comp, rank)| == |SegmentFor(io, rank)| && (HasSegment(comp, rank) <==> HasSegment(io, rank))
    requires |Bytes(inField)| == nIn * size && |Bytes(outField)| == nOut * size
    requires var send, recv := if dir == IoToComp then io else comp, if dir == IoToComp then comp else io;
      && (inField != null ==> SegmentsInRange(send, nIn))
      && (outField != null ==> SegmentsInRange(recv, nOut))
      && IsInbox(recv, size, inbox)
    modifies outField
    ensures var send, recv := if dir == IoToComp then io else comp, if dir == IoToComp then comp else io;
      if dir == OtherDirection || (inField == null && send != []) || (outField == null && recv != [])
      then res == SMIOL_INVALID_ARGUMENT && Bytes(outField) == old(Bytes(outField))
      else
        && res == SMIOL_SUCCESS
        && IsOutbox(rank, old(Bytes(inField)), nIn, send, size, outbox, |send|)
        && AreCounts(rank, send, size, sendCounts, |send|) && AreCounts(rank, recv, size, recvCounts, |recv|)
        && |Bytes(outField)| == nOut * size
        && Elements(Bytes(outField), size, nOut)
             == Unpack(rank, CopyOwn(rank, old(Elements(Bytes(inField), size, nIn)),
                                     old(Elements(Bytes(outField), size, nOut)), send, recv),
                       recv, InboxElements(recv, size, inbox), 0)
  {
    outbox, sendCounts, recvCounts := [], [], [];
    var sendlist, recvlist;
    ghost var send, recv := if dir == IoToComp then io else comp, if dir == IoToComp then comp else io;
    match dir {
      case CompToIo => sendlist, recvlist := compList, ioList;
      case IoToComp => sendlist, recvlist := ioList, compList;
      case OtherDirection => return SMIOL_INVALID_ARGUMENT, [], [], [];
    }
    if (inField == null && sendlist[0] != 0) || (outField == null && recvlist[0] != 0) {
      return SMIOL_INVALID_ARGUMENT, [], [], [];
    }
    var posDst, posSrc;
    posDst, recvCounts := PostReceives(rank, recvlist, size, recv);
    var source := if inField == null then [] else inField[..];
    posSrc, outbox, sendCounts := PostSends(rank, sendlist, source, nIn, size, send);
    if outField != null {
      CopyOwnPart(rank, recvlist, posDst, sendlist, posSrc, outField, nOut, source, nIn, size, send, recv);
      UnpackReceives(rank, recvlist, outField, nOut, size, inbox, recv);
    }
    res := SMIOL_SUCCESS;
  }

  method CopyOwnPart(rank: int, recvlist: seq<int>, posDst: int, sendlist: seq<int>, posSrc: int,
                     target: array<Byte>, ghost nTarget: nat, source: seq<Byte>, ghost nSource: nat, size: nat,
                     ghost send: seq<Segment>, ghost recv: seq<Segment>)
    requires target.Length == nTarget * size && |source| == nSource * size
    requires SegmentsInRange(send, nSource) && SegmentsInRange(recv, nTarget)
    requires |SegmentFor(send, rank)| == |SegmentFor(recv, rank)|
    requires HasSegment(send, rank) <==> HasSegment(recv, rank)
    requires IsOwnEntry(recvlist, recv, rank, posDst) && IsOwnEntry(sendlist, send, rank, posSrc)
    modifies target
    ensures Elements(target[..], size, nTarget)
         == CopyOwn(rank, Elements(source, size, nSource), old(Elements(target[..], size, nTarget)), send, recv)
  {
    SegmentForInRange(send, nSource, rank);
    SegmentForInRange(recv, nTarget, rank);
    if posSrc >= 0 && posDst >= 0 {
      var nSend := sendlist[posSrc];
      CopyLocal(target, nTarget, recvlist, posDst + 1, source, nSource, sendlist, posSrc + 1, nSend, size,
                SegmentFor(recv, rank), SegmentFor(send, rank));
    } else {
      NoSegmentNoLocs(send, rank);
    }
  }

  lemma {:induction false} NoSegmentNoLocs(segs: seq<Segment>, rank: int)
    requires !HasSegment(segs, rank)
    ensures SegmentFor(segs, rank) == []
  {
    if segs != [] {
      assert forall k :: 0 <= k < |segs[1..]| ==> segs[1..][k] == segs[k + 1];
      NoSegmentNoLocs(segs[1..], rank);
    }
  }

  // ----- all ranks -----

  ghost predicate ByteFields(fields: seq<seq<Byte>>, size: nat, n: seq<nat>) {
    |fields| == |n| && forall r :: 0 <= r < |n| ==> |fields[r]| == n[r] * size
  }

  ghost function AllElements(fields: seq<seq<Byte>>, size: nat, n: seq<nat>): (els: seq<seq<seq<Byte>>>)
    requires ByteFields(fields, size, n)
    ensures |els| == |n| && forall r :: 0 <= r < |n| ==> |els[r]| == n[r]
  {
    seq(|n|, r requires 0 <= r < |n| => Elements(fields[r], size, n[r]))
  }

  /** What transfer_field hands to MPI on every rank. */
  ghost predicate AreOutboxes(sources: seq<seq<Byte>>, size: nat, n: seq<nat>, send: seq<seq<Segment>>,
                              outboxes: seq<seq<seq<Byte>>>)
    requires ByteFields(sources, size, n)
  {
    && |send| == |outboxes| == |n|
    && forall t :: 0 <= t < |n| ==>
         && SegmentsInRange(send[t], n[t])
         && IsOutbox(t, sources[t], n[t], send[t], size, outboxes[t], |send[t]|)
  }

  /** What MPI delivers to rank r: from each neighbour on r's receive list, the buffer that the neighbour sent to r. */
  ghost predicate IsDelivered(send: seq<seq<Segment>>, outboxes: seq<seq<seq<Byte>>>, r: int, recv: seq<Segment>,
                              inbox: seq<seq<Byte>>)
  {
    && |inbox| == |recv| && |send| == |outboxes|
    && forall k, j :: 0 <= k < |recv| && recv[k].task != r && 0 <= recv[k].task < |send|
         && 0 <= j < |send[recv[k].task]| && j < |outboxes[recv[k].task]| && send[recv[k].task][j].task == r
         ==> inbox[k] == outboxes[recv[k].task][j]
  }

  /** A delivered buffer has the length that r expects, and holds what the neighbour lists for r. */
  lemma DeliveredBuffer(sources: seq<seq<Byte>>, size: nat, n: seq<nat>, send: seq<seq<Segment>>,
                        recv: seq<seq<Segment>>, outboxes: seq<seq<seq<Byte>>>, r: nat, inbox: seq<seq<Byte>>,
                        k: nat, j: nat)
    requires ByteFields(sources, size, n) && AreOutboxes(sources, size, n, send, outboxes)
    requires Matched(send, recv) && Matched(recv, send) && FieldsFit(send, AllElements(sources, size, n))
    requires r < |recv| && IsDelivered(send, outboxes, r, recv[r], inbox)
    requires k < |recv[r]| && recv[r][k].task != r && j < |send[recv[r][k].task]| && send[recv[r][k].task][j].task == r
    ensures |inbox[k]| == |recv[r][k].locs| * size
    ensures Elements(inbox[k], size, |recv[r][k].locs|) == Inbox(send, recv, AllElements(sources, size, n), r)[k]
  {
    hide Elements, Gather;
    var t: nat := recv[r][k].task;
    SegmentForAt(recv[r], k);
    SegmentForAt(send[t], j);
    assert IsOutbox(t, sources[t], n[t], send[t], size, outboxes[t], |send[t]|);
    assert inbox[k] == outboxes[t][j];
    assert |SegmentFor(send[t], r)| == |SegmentFor(recv[r], t)|;
  }

  lemma EmptyEntry(send: seq<seq<Segment>>, recv: seq<seq<Segment>>, r: nat, k: nat)
    requires Matched(send, recv) && r < |recv| && k < |recv[r]|
    requires !HasSegment(send[recv[r][k].task], r)
    ensures recv[r][k].locs == []
  {
    NoSegmentNoLocs(send[recv[r][k].task], r);
    SegmentForAt(recv[r], k);
  }

  /** What a rank receives is, element by element, what the ranks that send it hold. */
  lemma DeliveredIsInbox(sources: seq<seq<Byte>>, size: nat, n: seq<nat>, send: seq<seq<Segment>>,
                         recv: seq<seq<Segment>>, outboxes: seq<seq<seq<Byte>>>, r: nat, inbox: seq<seq<Byte>>, k: nat)
    requires ByteFields(sources, size, n) && AreOutboxes(sources, size, n, send, outboxes)
    requires Matched(send, recv) && Matched(recv, send) && FieldsFit(send, AllElements(sources, size, n))
    requires r < |recv| && IsDelivered(send, outboxes, r, recv[r], inbox) && IsInbox(recv[r], size, inbox)
    requires k < |recv[r]| && recv[r][k].task != r
    ensures InboxElements(recv[r], size, inbox)[k] == Inbox(send, recv, AllElements(sources, size, n), r)[k]
  {
    hide IsDelivered, AreOutboxes, IsOutbox, FieldsFit, Matched, AllElements, Inbox, HasSegment;
    var t := TaskInRange(send, recv, r, k);
    if HasSegment(send[t], r) {
      var j := SegmentIndex(send[t], r);
      DeliveredBuffer(sources, size, n, send, recv, outboxes, r, inbox, k, j);
    } else {
      EmptyEntry(send, recv, r, k);
      assert InboxElements(recv[r], size, inbox)[k] == [];
    }
  }

  lemma TaskInRange(send: seq<seq<Segment>>, recv: seq<seq<Segment>>, r: nat, k: nat) returns (t: nat)
    requires Matched(send, recv) && r < |recv| && k < |recv[r]|
    ensures t == recv[r][k].task && t < |send| == |recv|
  {
    t := recv[r][k].task;
  }

  lemma SegmentIndex(segs: seq<Segment>, task: int) returns (j: nat)
    requires HasSegment(segs, task)
    ensures j < |segs| && segs[j].task == task
  {
    j :| 0 <= j < |segs| && segs[j].task == task;
  }

  /** When every rank calls transfer_field and MPI delivers what it is handed, the bytes that each rank ends up with
      hold the field that was transferred. */
  lemma AllRanksTransfer(sources: seq<seq<Byte>>, nIn: seq<nat>, targets: seq<seq<Byte>>, nOut: seq<nat>, size: nat,
                         send: seq<seq<Segment>>, recv: seq<seq<Segment>>, outboxes: seq<seq<seq<Byte>>>,
                         r: nat, inbox: seq<seq<Byte>>)
    requires ByteFields(sources, size, nIn) && ByteFields(targets, size, nOut)
    requires AreOutboxes(sources, size, nIn, send, outboxes)
    requires Matched(send, recv) && Matched(recv, send)
    requires FieldsFit(send, AllElements(sources, size, nIn)) && FieldsFit(recv, AllElements(targets, size, nOut))
    requires r < |recv| && IsDelivered(send, outboxes, r, recv[r], inbox) && IsInbox(recv[r], size, inbox)
    ensures var source, target := Elements(sources[r], size, nIn[r]), Elements(targets[r], size, nOut[r]);
      Unpack(r, CopyOwn(r, source, target, send[r], recv[r]), recv[r], InboxElements(recv[r], size, inbox), 0)
      == Transferred(send, recv, AllElements(sources, size, nIn), AllElements(targets, size, nOut), r)
  {
    hide Unpack, CopyOwn, Elements, Inbox, InboxElements, IsDelivered, AreOutboxes, IsInbox;
    var ins, outs := AllElements(sources, size, nIn), AllElements(targets, size, nOut);
    forall k | 0 <= k < |recv[r]| && recv[r][k].task != r
      ensures InboxElements(recv[r], size, inbox)[k] == Inbox(send, recv, ins, r)[k]
    {
      DeliveredIsInbox(sources, size, nIn, send, recv, outboxes, r, inbox, k);
    }
    UnpackOthers(r, CopyOwn(r, ins[r], outs[r], send[r], recv[r]), recv[r],
                 InboxElements(recv[r], size, inbox), Inbox(send, recv, ins, r), 0);
  }
}
