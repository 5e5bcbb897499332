/** What one rank does with an I/O-element buffer that arrives over the ring, and what all ranks
    together make of it (src/external/SMIOL/smiol_utils.c, build_exchange). */
module Marking {
  import opened Triplets

  /** A pair of the travelling buffer: [0] global ID, [1] rank that computes the element. */
  datatype Slot = Slot(id: int, task: int)

  /** For each ID found by bsearch, the position of the triplet it returns. */
  type Index = map<int, nat>

  ghost predicate IsIndex(find: Index, comp: seq<Triplet>) {
    && (forall k :: 0 <= k < |comp| ==> comp[k].id in find)
    && (forall id :: id in find ==> find[id] < |comp| && comp[find[id]].id == id)
  }

  /** The index that searching the sorted triplets induces. */
  ghost function IndexOf(comp: seq<Triplet>): (find: Index)
    requires Searchable(comp, 0)
    ensures IsIndex(find, comp)
  {
    var ids := set k | 0 <= k < |comp| :: comp[k].id;
    map id | id in ids :: Bisect(comp, 0, id, 0, |comp|)
  }

  // ----- filling the arrays -----

  /** Triplets for the given global IDs, local IDs in order, partner task unknown. */
  ghost function Unassigned(ids: seq<int>): (s: seq<Triplet>)
    ensures |s| == |ids|
  {
    seq(|ids|, k requires 0 <= k < |ids| => Triplet(ids[k], k, UNKNOWN_TASK))
  }

  ghost function FreshBuffer(ids: seq<int>): (s: seq<Slot>)
    ensures |s| == |ids|
  {
    seq(|ids|, k requires 0 <= k < |ids| => Slot(ids[k], UNKNOWN_TASK))
  }

  /** Triplets for the buffer that came back: local IDs in order, task as marked. */
  ghost function FromBuffer(buf: seq<Slot>): (s: seq<Triplet>)
    ensures |s| == |buf|
  {
    seq(|buf|, k requires 0 <= k < |buf| => Triplet(buf[k].id, k, buf[k].task))
  }

  method FillComputeIds(elements: array<int>) returns (ids: array<Triplet>)
    ensures fresh(ids) && ids[..] == Unassigned(elements[..])
  {
    ids := new Triplet[elements.Length](_ => Triplet(0, 0, 0));
    var ii := 0;
    while ii < elements.Length
      invariant 0 <= ii <= elements.Length
      invariant forall k :: 0 <= k < ii ==> ids[k] == Triplet(elements[k], k, UNKNOWN_TASK)
    {
      ids[ii] := Triplet(elements[ii], ii, UNKNOWN_TASK);
      ii := ii + 1;
    }
  }

  method FillBuffer(elements: array<int>) returns (buf: array<Slot>)
    ensures fresh(buf) && buf[..] == FreshBuffer(elements[..])
  {
    buf := new Slot[elements.Length](_ => Slot(0, 0));
    var ii := 0;
    while ii < elements.Length
      invariant 0 <= ii <= elements.Length
      invariant forall k :: 0 <= k < ii ==> buf[k] == Slot(elements[k], UNKNOWN_TASK)
    {
      buf[ii] := Slot(elements[ii], UNKNOWN_TASK);
      ii := ii + 1;
    }
  }

  method FillIoIds(buf: array<Slot>) returns (ids: array<Triplet>)
    ensures fresh(ids) && ids[..] == FromBuffer(buf[..])
  {
    ids := new Triplet[buf.Length](_ => Triplet(0, 0, 0));
    var ii := 0;
    while ii < buf.Length
      invariant 0 <= ii <= buf.Length
      invariant forall k :: 0 <= k < ii ==> ids[k] == Triplet(buf[k].id, k, buf[k].task)
    {
      ids[ii] := Triplet(buf[ii].id, ii, buf[ii].task);
      ii := ii + 1;
    }
  }

  // ----- marking -----

  /** Whether rank's search claims slot x: still unmarked and computed here. */
  ghost predicate Claimed(find: Index, x: Slot) {
    x.task == UNKNOWN_TASK && x.id in find
  }

  ghost function MarkBuffer(find: Index, rank: int, buf: seq<Slot>): (r: seq<Slot>)
    ensures |r| == |buf|
  {
    seq(|buf|, j requires 0 <= j < |buf| =>
      if Claimed(find, buf[j]) then Slot(buf[j].id, rank) else buf[j])
  }

  /** Whether some claimed slot of the buffer is answered by the triplet at position k. */
  ghost predicate Answers(find: Index, buf: seq<Slot>, k: nat) {
    exists j :: 0 <= j < |buf| && Claimed(find, buf[j]) && find[buf[j].id] == k
  }

  ghost function MarkTriplets(find: Index, buf: seq<Slot>, comp: seq<Triplet>, src: int): (r: seq<Triplet>)
    ensures |r| == |comp|
  {
    seq(|comp|, k requires 0 <= k < |comp| =>
      if Answers(find, buf, k) then comp[k].(task := src) else comp[k])
  }

  ghost predicate SameIds(s: seq<Triplet>, t: seq<Triplet>) {
    |s| == |t| && forall k :: 0 <= k < |s| ==> s[k].id == t[k].id
  }

  /** Bisecting looks at the ID entry only, so marking does not disturb later searches. */
  lemma {:induction false} BisectSameIds(s: seq<Triplet>, t: seq<Triplet>, key: int, lo: nat, hi: nat)
    requires lo <= hi <= |s| && SameIds(s, t)
    ensures Bisect(s, 0, key, lo, hi) == Bisect(t, 0, key, lo, hi)
    decreases hi - lo
  {
    if lo < hi {
      var mid := (lo + hi) / 2;
      BisectSameIds(s, t, key, lo, mid);
      BisectSameIds(s, t, key, mid + 1, hi);
    }
  }

  /** One pass of the marking loop's body, on slot j; comp0 is the array before the loop. */
  method MarkSlot(buf: array<Slot>, comp: array<Triplet>, rank: int, src: int, j: nat,
                  ghost comp0: seq<Triplet>)
    requires j < buf.Length && Searchable(comp0, 0) && SameIds(comp0, comp[..])
    modifies buf, comp
    ensures var find := IndexOf(comp0); var x := old(buf[j]);
      && buf[..] == old(buf[..])[j := if Claimed(find, x) then Slot(x.id, rank) else x]
      && comp[..] == if Claimed(find, x)
                     then old(comp[..])[find[x.id] := old(comp[..])[find[x.id]].(task := src)]
                     else old(comp[..])
  {
    if buf[j].task == UNKNOWN_TASK {
      SameIdsSearchable(comp0, comp[..]);
      BisectSameIds(comp0, comp[..], buf[j].id, 0, comp.Length);
      var elem := SearchTripletArray(buf[j].id, comp, 0);
      if elem != -1 {
        assert comp0[elem].id == buf[j].id;
        buf[j] := Slot(buf[j].id, rank);
        comp[elem] := comp[elem].(task := src);
      }
    }
  }

  /** The marking loop over the incoming buffer: each slot that no rank has claimed yet and that is
      computed here is given this rank, and the triplet found for it notes the buffer's home rank. */
  method MarkIncoming(buf: array<Slot>, comp: array<Triplet>, rank: int, src: int)
    requires Searchable(comp[..], 0)
    modifies buf, comp
    ensures buf[..] == MarkBuffer(IndexOf(old(comp[..])), rank, old(buf[..]))
    ensures comp[..] == MarkTriplets(IndexOf(old(comp[..])), old(buf[..]), old(comp[..]), src)
  {
    ghost var comp0, buf0 := comp[..], buf[..];
    ghost var find := IndexOf(comp0);
    NothingMarked(find, rank, buf0, comp0, src);
    var j := 0;
    while j < buf.Length
      invariant 0 <= j <= buf.Length
      invariant comp[..] == MarkTriplets(find, buf0[..j], comp0, src)
      invariant buf[..] == MarkBuffer(find, rank, buf0[..j]) + buf0[j..]
    {
      MarkStep(find, rank, buf0, comp0, src, j);
      MarkSlot(buf, comp, rank, src, j, comp0);
      j := j + 1;
    }
    assert buf0[..j] == buf0;
  }

  lemma NothingMarked(find: Index, rank: int, buf: seq<Slot>, comp: seq<Triplet>, src: int)
    ensures MarkTriplets(find, buf[..0], comp, src) == comp
    ensures MarkBuffer(find, rank, buf[..0]) + buf[0..] == buf
  {
  }

  lemma MarkStep(find: Index, rank: int, buf: seq<Slot>, comp: seq<Triplet>, src: int, j: nat)
    requires j < |buf| && IsIndex(find, comp)
    ensures var marked := MarkBuffer(find, rank, buf[..j]) + buf[j..];
      MarkBuffer(find, rank, buf[..j + 1]) + buf[j + 1..]
        == marked[j := if Claimed(find, buf[j]) then Slot(buf[j].id, rank) else buf[j]]
    ensures var marked := MarkTriplets(find, buf[..j], comp, src);
      MarkTriplets(find, buf[..j + 1], comp, src)
        == if Claimed(find, buf[j]) then marked[find[buf[j].id] := marked[find[buf[j].id]].(task := src)]
           else marked
  {
    AnswersStep(find, buf, j);
  }

  lemma SameIdsSearchable(s: seq<Triplet>, t: seq<Triplet>)
    requires SameIds(s, t) && Searchable(s, 0)
    ensures Searchable(t, 0)
  {
    forall i, j | 0 <= i < j < |t| ensures t[i].id <= t[j].id {
      assert Entry(s[i], 0) <= Entry(s[j], 0);
    }
  }

  lemma AnswersStep(find: Index, buf: seq<Slot>, j: nat)
    requires j < |buf|
    ensures forall k: nat {:trigger Answers(find, buf[..j + 1], k)} :: Answers(find, buf[..j + 1], k) <==>
      Answers(find, buf[..j], k) || (Claimed(find, buf[j]) && find[buf[j].id] == k)
  {
    forall k: nat
      ensures Answers(find, buf[..j + 1], k) <==>
        Answers(find, buf[..j], k) || (Claimed(find, buf[j]) && find[buf[j].id] == k)
    {
      if Answers(find, buf[..j], k) {
        var i :| 0 <= i < j && Claimed(find, buf[..j][i]) && find[buf[..j][i].id] == k;
        assert buf[..j + 1][i] == buf[..j][i];
      }
      if Claimed(find, buf[j]) && find[buf[j].id] == k {
        assert buf[..j + 1][j] == buf[j];
      }
      if Answers(find, buf[..j + 1], k) {
        var i :| 0 <= i < j + 1 && Claimed(find, buf[..j + 1][i]) && find[buf[..j + 1][i].id] == k;
        assert i < j ==> buf[..j][i] == buf[..j + 1][i];
      }
    }
  }
}
