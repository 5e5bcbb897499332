/**
 * Owners and global numbers of cells, edges and triangles in the land-ice interface
 * (src/core_landice/mode_forward/Interface_velocity_solver.cpp).
 */
module Numbering {
  import opened Basics
  import opened HaloExchange
  import Transfer

  const NOT_AN_ID: int := 0x7FFF_FFFF

  /**
   * The halo lists: every process has what it owns, and receives each other item that it has from the owner alone.
   */
  ghost predicate IsHalo(w: Network, owner: seq<nat>) {
    && Matched(w)
    && (forall p :: 0 <= p < |w.names| ==> NoRepeats(w.names[p]))
    && (forall p, x :: 0 <= p < |w.names| && 0 <= x < |w.names[p]| ==> w.names[p][x] < |owner|)
    && (forall c :: 0 <= c < |owner| ==> owner[c] < |w.names| && c in w.names[owner[c]])
    && forall p, x :: 0 <= p < |w.names| && 0 <= x < |w.names[p]| ==>
         FromOwner(p, w.lists[p].recv, x, owner[w.names[p][x]])
  }

  ghost predicate FromOwner(p: nat, recv: seq<Entry>, x: nat, o: nat) {
    && (forall m :: 0 <= m < |recv| && recv[m].proc != p && x in recv[m].vec ==> recv[m].proc == o != p)
    && (o != p ==> exists m :: 0 <= m < |recv| && recv[m].proc == o && x in recv[m].vec)
  }

  lemma ListedByOwner(p: nat, recv: seq<Entry>, x: nat, o: nat)
    requires FromOwner(p, recv, x, o)
    ensures var m := LastListing(p, recv, |recv|, x);
      if o == p then m < 0 else m >= 0 && recv[m].proc == o
  {
  }

  /** An exchange along the halo lists gives every copy the value of the owner, and the owner keeps its value. */
  lemma ForwardCopies<T>(w: Network, owner: seq<nat>, f: seq<seq<T>>, p: nat, x: nat) returns (y: nat)
    requires IsHalo(w, owner) && IsField(w, f) && p < |w.names| && x < |w.names[p]|
    ensures w.names[p][x] < |owner|
    ensures var o := owner[w.names[p][x]];
      && o < |f| && y < |f[o]| && w.names[o][y] == w.names[p][x] && Exchanged(w, f)[p][x] == f[o][y]
      && (o == p ==> y == x)
  {
    hide Matched, FromOwner, PairMatched;
    var o := owner[w.names[p][x]];
    assert FromOwner(p, w.lists[p].recv, x, o);
    ListedByOwner(p, w.lists[p].recv, x, o);
    y := ExchangedAt(w, f, p, x);
    if o == p {
      y := x;
    }
  }

  // ----- owners -----

  /** getProcIds */
  method GetProcIds(me: nat, n: nat, recv: seq<Entry>) returns (field: array<int>)
    requires forall m :: 0 <= m < |recv| ==> Transfer.InRange(recv[m].vec, n)
    ensures fresh(field) && field.Length == n
    ensures forall x :: 0 <= x < n ==> field[x] == ProcId(me, recv, |recv|, x)
  {
    field := new int[n](i => me);
    for it := 0 to |recv|
      invariant forall x :: 0 <= x < n ==> field[x] == ProcId(me, recv, it, x)
    {
      if recv[it].proc != me {
        for k := 0 to |recv[it].vec|
          invariant forall x :: 0 <= x < n ==>
            field[x] == if x in recv[it].vec[..k] then recv[it].proc else ProcId(me, recv, it, x)
        {
          field[recv[it].vec[k]] := recv[it].proc;
        }
        assert recv[it].vec[..|recv[it].vec|] == recv[it].vec;
      }
    }
  }

  function ProcId(me: nat, recv: seq<Entry>, n: nat, x: int): int
    requires n <= |recv|
  {
    var m := LastListing(me, recv, n, x);
    if m < 0 then me else recv[m].proc
  }

  /** Read off the halo lists, every item has the rank of its owner. */
  lemma ProcIdIsOwner(w: Network, owner: seq<nat>, p: nat, x: nat)
    requires IsHalo(w, owner) && p < |w.names| && x < |w.names[p]|
    ensures |w.lists| == |w.names| && w.names[p][x] < |owner|
    ensures ProcId(p, w.lists[p].recv, |w.lists[p].recv|, x) == owner[w.names[p][x]]
  {
    hide FromOwner;
    assert FromOwner(p, w.lists[p].recv, x, owner[w.names[p][x]]);
    ListedByOwner(p, w.lists[p].recv, x, owner[w.names[p][x]]);
  }

  // ----- global numbers -----

  /** computeLocalOffset, after the counts of all processes have been gathered. */
  method ComputeLocalOffset(counts: seq<nat>, me: nat) returns (localOffset: nat, nGlobal: nat)
    requires me < |counts|
    ensures localOffset == Sum(counts, me) && nGlobal == Sum(counts, |counts|)
  {
    localOffset := 0;
    for i := 0 to me
      invariant localOffset == Sum(counts, i)
    {
      localOffset := localOffset + counts[i];
    }
    nGlobal := localOffset;
    for i := me to |counts|
      invariant nGlobal == Sum(counts, i)
    {
      nGlobal := nGlobal + counts[i];
    }
  }

  /** The numbers of one process: those it counts have consecutive ones, the others none. */
  ghost predicate NumbersFrom(ids: seq<int>, toSend: seq<int>, offset: nat) {
    && Transfer.InRange(toSend, |ids|) && NoRepeats(toSend)
    && (forall k :: 0 <= k < |toSend| ==> ids[toSend[k]] == k + offset)
    && forall i :: 0 <= i < |ids| && i !in toSend ==> ids[i] == NOT_AN_ID
  }

  method AssignIds(ids: array<int>, toSend: seq<int>, offset: nat)
    requires Transfer.InRange(toSend, ids.Length) && NoRepeats(toSend)
    modifies ids
    ensures NumbersFrom(ids[..], toSend, offset)
  {
    for i := 0 to ids.Length
      invariant forall j :: 0 <= j < i ==> ids[j] == NOT_AN_ID
    {
      ids[i] := NOT_AN_ID;
    }
    for index := 0 to |toSend|
      invariant forall k :: 0 <= k < index ==> ids[toSend[k]] == k + offset
      invariant forall i :: 0 <= i < ids.Length && i !in toSend ==> ids[i] == NOT_AN_ID
    {
      ids[toSend[index]] := index + offset;
    }
  }

  /** Each process counts the marked items it owns. */
  ghost predicate Counts(w: Network, owner: seq<nat>, marked: seq<bool>, toSend: seq<seq<int>>, counts: seq<nat>,
                         ids: seq<seq<int>>)
    requires IsHalo(w, owner) && |marked| == |owner|
  {
    && |toSend| == |counts| == |w.names| && IsField(w, ids)
    && (forall p :: 0 <= p < |w.names| ==> counts[p] == |toSend[p]| && NumbersFrom(ids[p], toSend[p], Sum(counts, p)))
    && forall p, x :: 0 <= p < |w.names| && 0 <= x < |w.names[p]| ==>
         (x in toSend[p] <==> owner[w.names[p][x]] == p && marked[w.names[p][x]])
  }

  /** The number of an item, on every process that has it after the exchange: below the total exactly when marked. */
  lemma NumberAt(w: Network, owner: seq<nat>, marked: seq<bool>, toSend: seq<seq<int>>, counts: seq<nat>,
                 ids: seq<seq<int>>, p: nat, x: nat) returns (y: nat, k: nat)
    requires IsHalo(w, owner) && |marked| == |owner| && Counts(w, owner, marked, toSend, counts, ids)
    requires p < |w.names| && x < |w.names[p]|
    ensures w.names[p][x] < |owner| && |counts| == |toSend| == |w.names|
    ensures var o, n := owner[w.names[p][x]], Exchanged(w, ids)[p][x];
      && o < |w.names| && y < |w.names[o]| && w.names[o][y] == w.names[p][x]
      && (marked[w.names[p][x]] ==> k < counts[o] && toSend[o][k] == y && n == k + Sum(counts, o))
      && (!marked[w.names[p][x]] ==> n == NOT_AN_ID)
  {
    hide IsHalo, Exchanged, NoRepeats;
    y := ForwardCopies(w, owner, ids, p, x);
    HaloNames(w, owner, p, x);
    var o := owner[w.names[p][x]];
    HaloNames(w, owner, o, y);
    k := 0;
    assert NumbersFrom(ids[o], toSend[o], Sum(counts, o));
    if marked[w.names[p][x]] {
      assert y in toSend[o];
      k :| k < |toSend[o]| && toSend[o][k] == y;
    } else {
      assert y !in toSend[o];
    }
  }

  lemma HaloNames(w: Network, owner: seq<nat>, p: nat, x: nat)
    requires IsHalo(w, owner) && p < |w.names| && x < |w.names[p]|
    ensures w.names[p][x] < |owner| && owner[w.names[p][x]] < |w.names|
  {
  }

  /**
   * After the exchange marked items have the same number on all processes and no two the same, and items that are
   * not marked have none.
   */
  lemma NumbersAreGlobal(w: Network, owner: seq<nat>, marked: seq<bool>, toSend: seq<seq<int>>, counts: seq<nat>,
                         ids: seq<seq<int>>, p: nat, x: nat, q: nat, y: nat)
    requires IsHalo(w, owner) && |marked| == |owner| && Counts(w, owner, marked, toSend, counts, ids)
    requires p < |w.names| && x < |w.names[p]| && q < |w.names| && y < |w.names[q]|
    ensures w.names[p][x] < |owner| && w.names[q][y] < |owner|
    ensures marked[w.names[p][x]] && marked[w.names[q][y]] ==>
      (Exchanged(w, ids)[p][x] == Exchanged(w, ids)[q][y] <==> w.names[p][x] == w.names[q][y])
    ensures marked[w.names[p][x]] ==> 0 <= Exchanged(w, ids)[p][x] < Sum(counts, |counts|)
    ensures !marked[w.names[p][x]] ==> Exchanged(w, ids)[p][x] == NOT_AN_ID
  {
    hide IsHalo, Exchanged, NumbersFrom, Counts, IsField, Sum;
    var x', k := NumberAt(w, owner, marked, toSend, counts, ids, p, x);
    var y', l := NumberAt(w, owner, marked, toSend, counts, ids, q, y);
    var o, o' := owner[w.names[p][x]], owner[w.names[q][y]];
    if marked[w.names[p][x]] {
      SumGrows(counts, o, |counts|);
    }
    if marked[w.names[p][x]] && marked[w.names[q][y]] {
      RangesApart(counts, o, k, o', l);
      if w.names[p][x] == w.names[q][y] {
        NamesDiffer(w, owner, o, x', y');
        CountedHere(w, owner, marked, toSend, counts, ids, o);
        SamePlace(ids[o], toSend[o], Sum(counts, o), k, l);
      }
    }
  }

  lemma CountedHere(w: Network, owner: seq<nat>, marked: seq<bool>, toSend: seq<seq<int>>, counts: seq<nat>,
                    ids: seq<seq<int>>, o: nat)
    requires IsHalo(w, owner) && |marked| == |owner| && Counts(w, owner, marked, toSend, counts, ids) && o < |w.names|
    ensures |counts| == |ids| == |toSend| == |w.names|
    ensures NumbersFrom(ids[o], toSend[o], Sum(counts, o)) && counts[o] == |toSend[o]|
  {
  }

  /** The ranges of numbers that the processes give do not overlap. */
  lemma RangesApart(counts: seq<nat>, o: nat, k: nat, o': nat, l: nat)
    requires o < |counts| && o' < |counts| && k < counts[o] && l < counts[o']
    ensures k + Sum(counts, o) == l + Sum(counts, o') <==> o == o' && k == l
  {
    hide Sum;
    if o < o' {
      SumGrows(counts, o, o');
    } else if o' < o {
      SumGrows(counts, o', o);
    }
  }

  lemma NamesDiffer(w: Network, owner: seq<nat>, p: nat, x: nat, y: nat)
    requires IsHalo(w, owner) && p < |w.names| && x < |w.names[p]| && y < |w.names[p]| && w.names[p][x] == w.names[p][y]
    ensures x == y
  {
  }

  lemma SamePlace(ids: seq<int>, toSend: seq<int>, offset: nat, k: nat, l: nat)
    requires NumbersFrom(ids, toSend, offset) && k < |toSend| && l < |toSend| && toSend[k] == toSend[l]
    ensures k == l
  {
  }
}
