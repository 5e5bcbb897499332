/** What each rank does before and after the ring in build_exchange, and what all ranks have built
    once every run of the ring has ended (src/external/SMIOL/smiol_utils.c). */
module BuildExchange {
  import opened Basics
  import opened Triplets
  import opened Marking
  import opened Ring
  import opened RingProtocol
  import opened Lists
  import opened Agreement

  /** A rank's own part of the size check; the ranks go on if no rank's result is 1. */
  method CheckCounts(nCompute: nat, nIo: nat) returns (i: int)
    ensures i == if TooMany(nCompute) || TooMany(nIo) then 1 else 0
    ensures i == 0 <==> nCompute < 0x800_0000 && nIo < 0x800_0000
    ensures i == 0 <==> 2 * nCompute * SIZEOF_OFFSET <= INT_MAX && 2 * nIo * SIZEOF_OFFSET <= INT_MAX
  {
    i := 0;
    if nCompute > INT_MAX / SIZEOF_OFFSET / 2 {
      i := 1;
    }
    if nIo > INT_MAX / SIZEOF_OFFSET / 2 {
      i := 1;
    }
  }

  /** Before the ring: triplets sorted on the ID, so that they can be searched, and the buffer to
      send. */
  method StartExchange(computeElements: array<int>, ioElements: array<int>)
    returns (computeIds: array<Triplet>, bufOut: array<Slot>)
    ensures fresh(computeIds) && fresh(bufOut)
    ensures Placed(computeIds[..], computeElements[..]) && Searchable(computeIds[..], 0)
    ensures IsIndex(IndexOf(computeIds[..]), computeIds[..])
    ensures bufOut[..] == FreshBuffer(ioElements[..])
  {
    computeIds := FillComputeIds(computeElements);
    SortTripletArray(computeIds, 0);
    SortedIsSearchable(computeIds[..], 0);
    SortedIsPlaced(computeIds[..], computeElements[..]);
    bufOut := FillBuffer(ioElements);
  }

  /** After the ring: both lists, packed from the sorted triplets. */
  method FinishExchange(bufOut: array<Slot>, computeIds: array<Triplet>, ghost w: World, ghost rank: nat)
    returns (ioList: array<int>, compList: array<int>, ghost it: seq<Triplet>, ghost ct: seq<Triplet>)
    requires w.Valid() && rank < w.Size()
    requires bufOut[..] == Sent(w, rank, w.Size()) && computeIds[..] == Noted(w, rank, w.Size())
    modifies computeIds
    ensures IsIoOrder(w, rank, it) && ioList[..] == Packed(Segments(it, 0))
    ensures IsCompOrder(w, rank, ct) && compList[..] == Packed(Segments(ct, 0))
  {
    hide Sent, Noted, Packed, Segments;
    var ioIds := FillIoIds(bufOut);
    SortTripletArray(ioIds, 2);
    it := ioIds[..];
    ioList := PackList(ioIds);
    SortTripletArray(computeIds, 2);
    ct := computeIds[..];
    compList := PackList(computeIds);
  }

  /** build_exchange as a whole: after any finished run of the ring, whatever the interleaving and
      whatever order the sorts leave equal triplets in, the lists of all ranks agree entry by entry
      exactly if the arguments of all ranks are separated. */
  lemma FinishedListsAgree(w: World, compute: seq<seq<int>>, steps: seq<Step>, st: State, buffering: bool,
                           cts: seq<seq<Triplet>>, its: seq<seq<Triplet>>)
    requires w.Valid() && Reaches(w, steps, st, buffering) && Shape(w, st) && Finished(w, st)
    requires |compute| == |cts| == |its| == w.Size()
    requires forall r :: 0 <= r < w.Size() ==>
      && Placed(w.comp[r], compute[r])
      && SortedOn(cts[r], 2) && multiset(cts[r]) == multiset(st.ranks[r].comp)
      && SortedOn(its[r], 2) && multiset(its[r]) == multiset(FromBuffer(st.ranks[r].bufOut))
    ensures Orders(w, compute, cts, its)
    ensures AllAgree(w, compute, cts, its) <==> Separated(w.io, compute)
  {
    hide Reaches, Sent, Noted, AllAgree, Separated;
    forall r | 0 <= r < w.Size() ensures IsCompOrder(w, r, cts[r]) && IsIoOrder(w, r, its[r]) {
      FinishedResult(w, steps, st, buffering, r);
    }
    AgreementExactly(w, compute, cts, its);
  }
}
