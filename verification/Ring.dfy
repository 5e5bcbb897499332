/** What the comm_size passes of the ring compute (src/external/SMIOL/smiol_utils.c,
    build_exchange): who ends up as the computing task of each I/O element, and as the I/O task of
    each compute element. */
module Ring {
  import opened Triplets
  import opened Marking

  /** All ranks' inputs to the ring: I/O element IDs, and compute triplets sorted on the ID with
      the triplet that the rank's search returns for each ID. */
  datatype World = World(io: seq<seq<int>>, comp: seq<seq<Triplet>>, find: seq<Index>) {
    ghost predicate Valid() {
      && 0 < |io| == |comp| == |find|
      && (forall r :: 0 <= r < |io| ==> IsIndex(find[r], comp[r]))
      && (forall r, k :: 0 <= r < |io| && 0 <= k < |comp[r]| ==> comp[r][k].task == UNKNOWN_TASK)
    }

    /** The size of the communicator. */
    function Size(): nat { |io| }

    ghost predicate Computes(r: nat, id: int)
      requires r < |find|
    {
      id in find[r]
    }
  }

  // ----- ranks around the ring -----

  function Left(size: nat, r: nat): (l: nat)
    requires r < size
    ensures l < size
  {
    if r == 0 then size - 1 else r - 1
  }

  function Right(size: nat, r: nat): (n: nat)
    requires r < size
    ensures n < size
  {
    if r + 1 == size then 0 else r + 1
  }

  /** The rank whose buffer arrives at r in iteration i. */
  function SrcRank(size: nat, r: nat, i: nat): (s: nat)
    requires r < size && i < size
    ensures s < size
  {
    if r >= i + 1 then r - 1 - i else r - 1 - i + size
  }

  /** The rank d places after s, for d up to the size of the ring. */
  function After(size: nat, s: nat, d: nat): (r: nat)
    requires s < size && d <= size
    ensures r < size
  {
    if s + d < size then s + d else s + d - size
  }

  /** These are the remainders that the code computes; no operand is ever negative. */
  lemma RingFormulas(size: nat, r: nat, i: nat)
    requires r < size && i < size
    ensures Left(size, r) == (r - 1 + size) % size
    ensures Right(size, r) == (r + 1) % size
    ensures 0 <= r - 1 - i + size && SrcRank(size, r, i) == (r - 1 - i + size) % size
  {
    WrapAround(size, r - 1 + size);
    WrapAround(size, r + 1);
    WrapAround(size, r - 1 - i + size);
  }

  lemma WrapAround(size: nat, x: nat)
    requires 0 < size && x < 2 * size
    ensures x % size == if x < size then x else x - size
  {
    if x >= size {
      assert x == size * 1 + (x - size);
    }
  }

  /** The number of places, 1 to size, from s on to r. */
  function Distance(size: nat, s: nat, r: nat): (d: nat)
    requires s < size && r < size
    ensures 1 <= d <= size && After(size, s, d) == r
  {
    if r > s then r - s else r - s + size
  }

  lemma DistanceUnique(size: nat, s: nat, d: nat)
    requires s < size && 1 <= d <= size
    ensures Distance(size, s, After(size, s, d)) == d
  {
  }

  // ----- the buffers and triplets after each iteration -----

  /** The buffer that r sends in iteration i. */
  ghost function Sent(w: World, r: nat, i: nat): (buf: seq<Slot>)
    requires w.Valid() && r < w.Size()
    decreases i
  {
    if i == 0 then FreshBuffer(w.io[r])
    else MarkBuffer(w.find[r], r, Sent(w, Left(w.Size(), r), i - 1))
  }

  /** r's triplets before iteration i. */
  ghost function Noted(w: World, r: nat, i: nat): (comp: seq<Triplet>)
    requires w.Valid() && r < w.Size() && i <= w.Size()
    decreases i
  {
    if i == 0 then w.comp[r]
    else MarkTriplets(w.find[r], Sent(w, Left(w.Size(), r), i - 1), Noted(w, r, i - 1),
                      SrcRank(w.Size(), r, i - 1))
  }

  // ----- who claims an element -----

  /** rank is the first of s+1, s+2, ..., s+n around the ring to compute the ID. */
  ghost predicate IsFirst(w: World, s: nat, n: nat, id: int, rank: int)
    requires w.Valid() && s < w.Size() && n <= w.Size()
  {
    exists d :: 1 <= d <= n && After(w.Size(), s, d) == rank && w.Computes(After(w.Size(), s, d), id)
      && forall e :: 1 <= e < d ==> !w.Computes(After(w.Size(), s, e), id)
  }

  ghost predicate NoneOf(w: World, s: nat, n: nat, id: int)
    requires w.Valid() && s < w.Size() && n <= w.Size()
  {
    forall d :: 1 <= d <= n ==> !w.Computes(After(w.Size(), s, d), id)
  }

  /** The mark on an element with this ID after n steps away from s. */
  ghost function Claimant(w: World, s: nat, n: nat, id: int): (rank: int)
    requires w.Valid() && s < w.Size() && n <= w.Size()
  {
    if n == 0 then UNKNOWN_TASK
    else if Claimant(w, s, n - 1, id) == UNKNOWN_TASK && w.Computes(After(w.Size(), s, n), id)
    then After(w.Size(), s, n)
    else Claimant(w, s, n - 1, id)
  }

  lemma {:induction false} ClaimantIsFirst(w: World, s: nat, n: nat, id: int)
    requires w.Valid() && s < w.Size() && n <= w.Size()
    ensures Claimant(w, s, n, id) == UNKNOWN_TASK <==> NoneOf(w, s, n, id)
    ensures Claimant(w, s, n, id) != UNKNOWN_TASK ==> IsFirst(w, s, n, id, Claimant(w, s, n, id))
  {
    if n > 0 {
      ClaimantIsFirst(w, s, n - 1, id);
      var c := Claimant(w, s, n - 1, id);
      if c != UNKNOWN_TASK {
        var d :| 1 <= d <= n - 1 && After(w.Size(), s, d) == c && w.Computes(After(w.Size(), s, d), id)
          && forall e :: 1 <= e < d ==> !w.Computes(After(w.Size(), s, e), id);
        assert IsFirst(w, s, n, id, c);
        assert !NoneOf(w, s, n, id);
      } else if w.Computes(After(w.Size(), s, n), id) {
        assert IsFirst(w, s, n, id, After(w.Size(), s, n));
      }
    }
  }

  /** The rank that is r's buffer's home after it made i steps to reach r. */
  function Home(size: nat, r: nat, i: nat): (s: nat)
    requires r < size && i <= size
    ensures s < size && After(size, s, i) == r
  {
    if r >= i then r - i else r - i + size
  }

  /** After i steps r holds the IDs of the rank i places before it, in their original order, each
      marked with the first rank met on the way that computes it. */
  lemma {:induction false} BufferMeaning(w: World, r: nat, i: nat)
    requires w.Valid() && r < w.Size() && i <= w.Size()
    ensures var s := Home(w.Size(), r, i); var buf := Sent(w, r, i);
      && |buf| == |w.io[s]|
      && forall j :: 0 <= j < |buf| ==>
           buf[j] == Slot(w.io[s][j], Claimant(w, s, i, w.io[s][j]))
    decreases i
  {
    if i > 0 {
      BufferMeaning(w, Left(w.Size(), r), i - 1);
      assert Home(w.Size(), Left(w.Size(), r), i - 1) == Home(w.Size(), r, i);
    }
  }

  /** The rank finally recorded as computing the j-th I/O element of s. */
  ghost function Owner(w: World, s: nat, j: nat): int
    requires w.Valid() && s < w.Size() && j < |w.io[s]|
  {
    Claimant(w, s, w.Size(), w.io[s][j])
  }

  /** After the last iteration each rank holds its own elements again, in order, each marked with
      the first computing rank in the order s+1, ..., s, or unmarked exactly if no rank computes it. */
  lemma FinalBuffer(w: World, s: nat)
    requires w.Valid() && s < w.Size()
    ensures var buf := Sent(w, s, w.Size());
      && |buf| == |w.io[s]|
      && forall j :: 0 <= j < |buf| ==>
        && buf[j] == Slot(w.io[s][j], Owner(w, s, j))
        && (if exists c :: 0 <= c < w.Size() && w.Computes(c, buf[j].id)
            then IsFirst(w, s, w.Size(), buf[j].id, buf[j].task)
            else buf[j].task == UNKNOWN_TASK)
  {
    var buf := Sent(w, s, w.Size());
    BufferMeaning(w, s, w.Size());
    forall j | 0 <= j < |buf|
      ensures if exists c :: 0 <= c < w.Size() && w.Computes(c, buf[j].id)
              then IsFirst(w, s, w.Size(), buf[j].id, buf[j].task)
              else buf[j].task == UNKNOWN_TASK
    {
      ClaimantIsFirst(w, s, w.Size(), buf[j].id);
      if c :| 0 <= c < w.Size() && w.Computes(c, buf[j].id) {
        assert w.Computes(After(w.Size(), s, Distance(w.Size(), s, c)), buf[j].id);
      }
    }
  }

  // ----- who claims a slot, seen from the computing side -----

  lemma {:induction false} ClaimantStable(w: World, s: nat, m: nat, n: nat, id: int)
    requires w.Valid() && s < w.Size() && m <= n <= w.Size()
    ensures Claimant(w, s, m, id) != UNKNOWN_TASK ==> Claimant(w, s, n, id) == Claimant(w, s, m, id)
    decreases n - m
  {
    if m < n {
      ClaimantStable(w, s, m, n - 1, id);
    }
  }

  /** The owner claims its slot in the one iteration in which the slot passes by. */
  lemma OwnerClaims(w: World, s: nat, c: nat, id: int)
    requires w.Valid() && s < w.Size() && c < w.Size()
    ensures var d := Distance(w.Size(), s, c);
      Claimant(w, s, w.Size(), id) == c <==>
        (Claimant(w, s, d - 1, id) == UNKNOWN_TASK && w.Computes(c, id))
  {
    var d := Distance(w.Size(), s, c);
    ClaimantStable(w, s, d - 1, w.Size(), id);
    ClaimantStable(w, s, d, w.Size(), id);
    ClaimantIsFirst(w, s, d - 1, id);
    ClaimantIsFirst(w, s, w.Size(), id);
    if Claimant(w, s, w.Size(), id) == c {
      var e :| 1 <= e <= w.Size() && After(w.Size(), s, e) == c && w.Computes(c, id)
        && forall f :: 1 <= f < e ==> !w.Computes(After(w.Size(), s, f), id);
      DistanceUnique(w.Size(), s, e);
      assert NoneOf(w, s, d - 1, id);
    }
  }

  /** Element j of s is owned by c, and c's search answers with its triplet k. */
  ghost predicate Linked(w: World, s: nat, j: nat, c: nat, k: nat)
    requires w.Valid() && s < w.Size() && c < w.Size()
  {
    j < |w.io[s]| && Owner(w, s, j) == c && w.io[s][j] in w.find[c] && w.find[c][w.io[s][j]] == k
  }

  ghost predicate LinkedTo(w: World, s: nat, c: nat, k: nat)
    requires w.Valid() && s < w.Size() && c < w.Size()
  {
    exists j: nat :: Linked(w, s, j, c, k)
  }

  /** In iteration i, rank c's triplet k is given the passing buffer's home rank exactly if it is
      linked to an element of that rank. */
  lemma AnswersMeansLinked(w: World, c: nat, i: nat, k: nat)
    requires w.Valid() && c < w.Size() && i < w.Size()
    ensures Answers(w.find[c], Sent(w, Left(w.Size(), c), i), k)
      <==> LinkedTo(w, SrcRank(w.Size(), c, i), c, k)
  {
    var s := SrcRank(w.Size(), c, i);
    var buf := Sent(w, Left(w.Size(), c), i);
    BufferMeaning(w, Left(w.Size(), c), i);
    assert Home(w.Size(), Left(w.Size(), c), i) == s;
    assert Distance(w.Size(), s, c) == i + 1;
    forall j | 0 <= j < |buf|
      ensures (Claimed(w.find[c], buf[j]) && w.find[c][buf[j].id] == k) <==> Linked(w, s, j, c, k)
    {
      OwnerClaims(w, s, c, w.io[s][j]);
    }
    if LinkedTo(w, s, c, k) {
      var j: nat :| Linked(w, s, j, c, k);
      assert Claimed(w.find[c], buf[j]);
    }
    if Answers(w.find[c], buf, k) {
      var j :| 0 <= j < |buf| && Claimed(w.find[c], buf[j]) && w.find[c][buf[j].id] == k;
      assert Linked(w, s, j, c, k);
    }
  }

  /** No two I/O elements, wherever they live, have the same ID and the same computing rank. */
  ghost predicate NoDoubleClaim(w: World)
    requires w.Valid()
  {
    forall s, j, s', j' ::
      && 0 <= s < w.Size() && 0 <= j < |w.io[s]| && 0 <= s' < w.Size() && 0 <= j' < |w.io[s']|
      && (s != s' || j != j') && w.io[s][j] == w.io[s'][j'] && Owner(w, s, j) == Owner(w, s', j')
      ==> Owner(w, s, j) == UNKNOWN_TASK
  }

  ghost predicate UniqueIoIds(w: World)
    requires w.Valid()
  {
    forall s, j, s', j' ::
      && 0 <= s < w.Size() && 0 <= j < |w.io[s]| && 0 <= s' < w.Size() && 0 <= j' < |w.io[s']|
      && w.io[s][j] == w.io[s'][j']
      ==> s == s' && j == j'
  }

  lemma LinkedOnce(w: World, s: nat, s': nat, c: nat, k: nat)
    requires w.Valid() && NoDoubleClaim(w) && s < w.Size() && s' < w.Size() && c < w.Size()
    requires LinkedTo(w, s, c, k) && LinkedTo(w, s', c, k)
    ensures s == s'
  {
    var j: nat :| Linked(w, s, j, c, k);
    var j': nat :| Linked(w, s', j', c, k);
    assert w.io[s][j] == w.comp[c][k].id == w.io[s'][j'];
  }

  /** Marking changes only tasks; after i iterations triplet k of c carries the last rank, among the
      i ranks before c, that has an element linked to it. */
  lemma {:induction false} NotedMeaning(w: World, c: nat, i: nat, k: nat)
    requires w.Valid() && c < w.Size() && i <= w.Size() && k < |w.comp[c]|
    ensures |Noted(w, c, i)| == |w.comp[c]|
    ensures var t := Noted(w, c, i)[k];
      && t == w.comp[c][k].(task := t.task)
      && (t.task == UNKNOWN_TASK ==>
            forall s :: 0 <= s < w.Size() && Distance(w.Size(), s, c) <= i ==> !LinkedTo(w, s, c, k))
      && (t.task != UNKNOWN_TASK ==>
            && 0 <= t.task < w.Size() && Distance(w.Size(), t.task, c) <= i && LinkedTo(w, t.task, c, k)
            && forall s :: 0 <= s < w.Size() && Distance(w.Size(), t.task, c) < Distance(w.Size(), s, c) <= i
                 ==> !LinkedTo(w, s, c, k))
    decreases i
  {
    if i > 0 {
      NotedMeaning(w, c, i - 1, k);
      AnswersMeansLinked(w, c, i - 1, k);
      var src := SrcRank(w.Size(), c, i - 1);
      assert Distance(w.Size(), src, c) == i;
      forall s | 0 <= s < w.Size() && Distance(w.Size(), s, c) == i ensures s == src {
      }
    }
  }

  /** With no double claim, triplet k of c finally carries s exactly if an element of s is linked
      to it. */
  lemma FinalTriplets(w: World, c: nat, k: nat, s: nat)
    requires w.Valid() && NoDoubleClaim(w) && c < w.Size() && k < |w.comp[c]| && s < w.Size()
    ensures |Noted(w, c, w.Size())| == |w.comp[c]|
    ensures Noted(w, c, w.Size())[k].task == s <==> LinkedTo(w, s, c, k)
  {
    NotedMeaning(w, c, w.Size(), k);
    var t := Noted(w, c, w.Size())[k].task;
    if LinkedTo(w, s, c, k) && t != UNKNOWN_TASK {
      LinkedOnce(w, s, t, c, k);
    }
  }

  // ----- no double claim, in terms of the arguments -----

  /** One of the ranks s+1, s+2, ..., s+n around the ring has the ID among the elements it computes. */
  ghost predicate ComputedAmong(compute: seq<seq<int>>, s: nat, n: nat, id: int)
    requires s < |compute| && n <= |compute|
  {
    exists d :: 1 <= d <= n && id in compute[After(|compute|, s, d)]
  }

  /** No ID that some rank computes is twice on one rank's I/O list; and if it is on those of two ranks, some rank that
      computes it lies between them, going around the ring from either one to the other. */
  ghost predicate Separated(io: seq<seq<int>>, compute: seq<seq<int>>)
    requires |io| == |compute|
  {
    && (forall s, j, j' ::
          0 <= s < |io| && 0 <= j < |io[s]| && 0 <= j' < |io[s]| && j != j' && io[s][j] == io[s][j']
          ==> !ComputedAmong(compute, s, |io|, io[s][j]))
    && (forall s, j, t, j' ::
          && 0 <= s < |io| && 0 <= j < |io[s]| && 0 <= t < |io| && 0 <= j' < |io[t]|
          && s != t && io[s][j] == io[t][j'] && ComputedAmong(compute, s, |io|, io[s][j])
          ==> ComputedAmong(compute, s, Distance(|io|, s, t), io[s][j]))
  }

  /** The ranks' searches know exactly the elements they compute. */
  ghost predicate Knows(w: World, compute: seq<seq<int>>)
    requires w.Valid()
  {
    |compute| == w.Size() && forall r, id :: 0 <= r < w.Size() ==> (w.Computes(r, id) <==> id in compute[r])
  }

  lemma AmongIs(w: World, compute: seq<seq<int>>, s: nat, n: nat, id: int)
    requires w.Valid() && Knows(w, compute) && s < w.Size() && n <= w.Size()
    ensures ComputedAmong(compute, s, n, id) <==> !NoneOf(w, s, n, id)
  {
    if !NoneOf(w, s, n, id) {
      var d :| 1 <= d <= n && w.Computes(After(w.Size(), s, d), id);
      assert id in compute[After(|compute|, s, d)];
    }
    if ComputedAmong(compute, s, n, id) {
      var d :| 1 <= d <= n && id in compute[After(|compute|, s, d)];
      assert w.Computes(After(w.Size(), s, d), id);
    }
  }

  /** The claimant is the first computing rank. */
  lemma ClaimantAt(w: World, s: nat, d: nat, id: int)
    requires w.Valid() && s < w.Size() && 1 <= d <= w.Size()
    requires w.Computes(After(w.Size(), s, d), id) && NoneOf(w, s, d - 1, id)
    ensures Claimant(w, s, w.Size(), id) == After(w.Size(), s, d)
  {
    ClaimantIsFirst(w, s, d - 1, id);
    ClaimantStable(w, s, d, w.Size(), id);
  }

  lemma {:induction false} FirstComputing(w: World, s: nat, n: nat, id: int) returns (d: nat)
    requires w.Valid() && s < w.Size() && n <= w.Size() && !NoneOf(w, s, n, id)
    ensures 1 <= d <= n && w.Computes(After(w.Size(), s, d), id) && NoneOf(w, s, d - 1, id)
  {
    if NoneOf(w, s, n - 1, id) {
      d := n;
    } else {
      d := FirstComputing(w, s, n - 1, id);
    }
  }

  /** Two ways from s: straight on, or by t. */
  lemma AfterBy(size: nat, s: nat, t: nat, e: nat)
    requires s < size && t < size && s != t && Distance(size, s, t) + e <= size
    ensures After(size, t, e) == After(size, s, Distance(size, s, t) + e)
    ensures Distance(size, s, t) + Distance(size, t, s) == size
  {
  }

  /** An ID on the lists of two ranks is claimed by the same rank exactly if, on the way from one of them to the other,
      no rank computes it. */
  lemma SameClaimant(w: World, s: nat, t: nat, id: int)
    requires w.Valid() && s < w.Size() && t < w.Size() && s != t && !NoneOf(w, s, w.Size(), id)
    ensures Claimant(w, s, w.Size(), id) == Claimant(w, t, w.Size(), id)
      <==> NoneOf(w, s, Distance(w.Size(), s, t), id) || NoneOf(w, t, Distance(w.Size(), t, s), id)
  {
    var size, a, b := w.Size(), Distance(w.Size(), s, t), Distance(w.Size(), t, s);
    AfterBy(size, s, t, 0);
    AfterBy(size, t, s, 0);
    if NoneOf(w, s, a, id) {
      SameClaimantPast(w, s, t, id);
    } else if NoneOf(w, t, b, id) {
      SameClaimantPast(w, t, s, id);
    } else {
      var d := FirstComputing(w, s, a, id);
      var e := FirstComputing(w, t, b, id);
      ClaimantAt(w, s, d, id);
      ClaimantAt(w, t, e, id);
      AfterBy(size, s, t, e);
      DistanceUnique(size, s, d);
      DistanceUnique(size, s, a + e);
    }
  }

  /** If no rank from s to t computes the ID, what s finds first is what t finds first. */
  lemma SameClaimantPast(w: World, s: nat, t: nat, id: int)
    requires w.Valid() && s < w.Size() && t < w.Size() && s != t
    requires NoneOf(w, s, Distance(w.Size(), s, t), id)
    ensures Claimant(w, s, w.Size(), id) == Claimant(w, t, w.Size(), id)
  {
    var size, a := w.Size(), Distance(w.Size(), s, t);
    ClaimantIsFirst(w, s, size, id);
    ClaimantIsFirst(w, t, size, id);
    if NoneOf(w, s, size, id) {
      NoneAnywhere(w, s, t, id);
    } else {
      var d := FirstComputing(w, s, size, id);
      AfterBy(size, s, t, d - a);
      forall e | 1 <= e <= d - a - 1
        ensures !w.Computes(After(size, t, e), id)
      {
        AfterBy(size, s, t, e);
      }
      ClaimantAt(w, s, d, id);
      ClaimantAt(w, t, d - a, id);
    }
  }

  lemma NoneAnywhere(w: World, s: nat, t: nat, id: int)
    requires w.Valid() && s < w.Size() && t < w.Size() && NoneOf(w, s, w.Size(), id)
    ensures NoneOf(w, t, w.Size(), id)
  {
    forall d | 1 <= d <= w.Size()
      ensures !w.Computes(After(w.Size(), t, d), id)
    {
      var r := After(w.Size(), t, d);
      assert After(w.Size(), s, Distance(w.Size(), s, r)) == r;
    }
  }

  lemma NoDoubleClaimSeparates(w: World, compute: seq<seq<int>>)
    requires w.Valid() && Knows(w, compute) && NoDoubleClaim(w)
    ensures Separated(w.io, compute)
  {
    hide NoneOf, ComputedAmong, Claimant, Knows;
    KnowsSize(w, compute);
    forall s, j, j' |
      0 <= s < |w.io| && 0 <= j < |w.io[s]| && 0 <= j' < |w.io[s]| && j != j' && w.io[s][j] == w.io[s][j']
      ensures !ComputedAmong(compute, s, |w.io|, w.io[s][j])
    {
      AmongIs(w, compute, s, w.Size(), w.io[s][j]);
      ClaimantIsFirst(w, s, w.Size(), w.io[s][j]);
    }
    forall s, j, t, j' |
      && 0 <= s < |w.io| && 0 <= j < |w.io[s]| && 0 <= t < |w.io| && 0 <= j' < |w.io[t]|
      && s != t && w.io[s][j] == w.io[t][j'] && ComputedAmong(compute, s, |w.io|, w.io[s][j])
      ensures ComputedAmong(compute, s, Distance(|w.io|, s, t), w.io[s][j])
    {
      AmongIs(w, compute, s, w.Size(), w.io[s][j]);
      AmongIs(w, compute, s, Distance(w.Size(), s, t), w.io[s][j]);
      ClaimantIsFirst(w, s, w.Size(), w.io[s][j]);
      SameClaimant(w, s, t, w.io[s][j]);
    }
  }

  lemma KnowsSize(w: World, compute: seq<seq<int>>)
    requires w.Valid() && Knows(w, compute)
    ensures |compute| == w.Size()
  {
  }

  lemma SeparatedHasNone(w: World, compute: seq<seq<int>>)
    requires w.Valid() && Knows(w, compute) && Separated(w.io, compute)
    ensures NoDoubleClaim(w)
  {
    hide NoneOf, ComputedAmong, Claimant, Knows;
    KnowsSize(w, compute);
    forall s, j, t, j' |
      && 0 <= s < w.Size() && 0 <= j < |w.io[s]| && 0 <= t < w.Size() && 0 <= j' < |w.io[t]|
      && (s != t || j != j') && w.io[s][j] == w.io[t][j'] && Owner(w, s, j) == Owner(w, t, j')
      ensures Owner(w, s, j) == UNKNOWN_TASK
    {
      var id := w.io[s][j];
      AmongIs(w, compute, s, w.Size(), id);
      AmongIs(w, compute, t, w.Size(), id);
      ClaimantIsFirst(w, s, w.Size(), id);
      ClaimantIsFirst(w, t, w.Size(), id);
      if s != t && Owner(w, s, j) != UNKNOWN_TASK {
        AmongIs(w, compute, s, Distance(w.Size(), s, t), id);
        AmongIs(w, compute, t, Distance(w.Size(), t, s), id);
        SameClaimant(w, s, t, id);
      }
    }
  }

  /** The ring leaves no double claim exactly if the arguments of all ranks are separated. */
  lemma NoDoubleClaimExactly(w: World, compute: seq<seq<int>>)
    requires w.Valid() && Knows(w, compute)
    ensures |w.io| == |compute| && (NoDoubleClaim(w) <==> Separated(w.io, compute))
  {
    hide Separated, Knows;
    KnowsSize(w, compute);
    if NoDoubleClaim(w) {
      NoDoubleClaimSeparates(w, compute);
    }
    if Separated(w.io, compute) {
      SeparatedHasNone(w, compute);
    }
  }
}
