/**
 * Bringing values from the triangle mesh back to the cells, so that all processes agree on them
 * (mapVerticesToCells of src/core_landice/mode_forward/Interface_velocity_solver.cpp).
 * A value is one layer of one component, or the column of a cell with all of them.
 */
module VerticesToCells {
  import opened Basics
  import opened HaloExchange
  import opened ExchangeSequence
  import opened ReverseLists
  import opened ReverseAgreement
  import Numbering

  // ----- sorting out the cells -----

  ghost predicate AnyAt(marks: seq<bool>, corners: seq<nat>, n: nat)
    requires n <= |corners|
  {
    exists j :: 0 <= j < n && corners[j] < |marks| && marks[corners[j]]
  }

  ghost predicate Below(s: seq<int>, n: int) {
    forall i :: 0 <= i < |s| ==> s[i] < n
  }

  /**
   * The cells that local triangles touch, the owned cells that any triangle touches, and those of them that no local
   * one does, in ascending order; here marks the local triangles.
   */
  method SortOutCells(nSolve: nat, corners: seq<seq<nat>>, here: seq<bool>, hasTria: seq<bool>)
    returns (touched: seq<int>, toSend: seq<int>, toReceive: seq<int>)
    requires |here| == |hasTria|
    requires forall i, j :: 0 <= i < |corners| && 0 <= j < |corners[i]| ==> corners[i][j] < |here|
    ensures Increasing(touched) && Increasing(toSend) && Increasing(toReceive)
    ensures forall i :: i in touched <==> 0 <= i < |corners| && AnyAt(here, corners[i], |corners[i]|)
    ensures forall i :: i in toSend <==> 0 <= i < |corners| && i < nSolve && AnyAt(hasTria, corners[i], |corners[i]|)
    ensures forall i :: i in toReceive <==> i in toSend && i !in touched
  {
    touched, toSend, toReceive := [], [], [];
    for i := 0 to |corners|
      invariant Increasing(touched) && Increasing(toSend) && Increasing(toReceive)
      invariant Below(touched, i) && Below(toSend, i) && Below(toReceive, i)
      invariant forall x :: x in touched <==> 0 <= x < i && AnyAt(here, corners[x], |corners[x]|)
      invariant forall x :: x in toSend <==> 0 <= x < i && x < nSolve && AnyAt(hasTria, corners[x], |corners[x]|)
      invariant forall x :: x in toReceive <==> x in toSend && x !in touched
    {
      var toLocal, toAny := TouchesOf(corners[i], here, hasTria);
      var isMine := i < nSolve;
      if toAny && isMine {
        toSend := toSend + [i];
        if !toLocal {
          toReceive := toReceive + [i];
        }
      }
      if toLocal {
        touched := touched + [i];
      }
    }
  }

  method TouchesOf(corners: seq<nat>, here: seq<bool>, hasTria: seq<bool>) returns (toLocal: bool, toAny: bool)
    requires |here| == |hasTria| && forall j :: 0 <= j < |corners| ==> corners[j] < |here|
    ensures toLocal <==> AnyAt(here, corners, |corners|)
    ensures toAny <==> AnyAt(hasTria, corners, |corners|)
  {
    toLocal, toAny := false, false;
    for j := 0 to |corners|
      invariant toLocal <==> AnyAt(here, corners, j)
      invariant toAny <==> AnyAt(hasTria, corners, j)
    {
      toLocal := toLocal || here[corners[j]];
      toAny := toAny || hasTria[corners[j]];
    }
  }

  /** Sorting out finds what the view of the mesh calls for. */
  lemma SortedOutFits(g: Mesh, v: View, p: nat, here: seq<bool>, i: nat)
    requires IsMesh(g) && Restricts(g, v) && i < |v.names| && |here| == |v.local.hasTria|
    requires forall x :: 0 <= x < |here| ==> (here[x] <==> TriaOf(v.local, x, p))
    ensures AnyAt(here, v.local.corners[i], |v.local.corners[i]|) <==> TriaBy(g, v.names[i], p)
    ensures AnyAt(v.local.hasTria, v.local.corners[i], |v.local.corners[i]|) <==> Touched(g, v.names[i])
  {
    var l, c := v.local, v.names[i];
    if TriaBy(g, c, p) {
      var j :| 0 <= j < |g.corners[c]| && g.tria[g.corners[c][j]] && g.triaOwner[g.corners[c][j]] == p;
      assert here[l.corners[i][j]];
    }
    if j :| 0 <= j < |l.corners[i]| && here[l.corners[i][j]] {
      assert g.tria[g.corners[c][j]] && g.triaOwner[g.corners[c][j]] == p;
    }
    if Touched(g, c) {
      var q :| TriaBy(g, c, q);
      var j :| 0 <= j < |g.corners[c]| && g.tria[g.corners[c][j]] && g.triaOwner[g.corners[c][j]] == q;
      assert l.hasTria[l.corners[i][j]];
    }
    if j :| 0 <= j < |l.corners[i]| && l.hasTria[l.corners[i][j]] {
      assert g.tria[g.corners[c][j]];
      assert TriaBy(g, c, g.triaOwner[g.corners[c][j]]);
    }
  }

  // ----- the numbers agree -----

  ghost function Marks(g: Mesh): (marked: seq<bool>)
    requires IsMesh(g)
    ensures |marked| == |g.owner|
  {
    seq(|g.owner|, c requires 0 <= c < |g.owner| => Touched(g, c))
  }

  /** The halo lists are about the cells the views have. */
  ghost predicate HaloOf(g: Mesh, vs: seq<View>, w: Network)
    requires AllViews(g, vs)
  {
    && Numbering.IsHalo(w, g.owner) && |w.names| == |vs|
    && forall p :: 0 <= p < |vs| ==> w.names[p] == vs[p].names
  }

  /** The global IDs that the processes compute and exchange number the touched cells as the lists need it. */
  lemma IdsNumberCells(g: Mesh, vs: seq<View>, w: Network, toSend: seq<seq<int>>, counts: seq<nat>, ids: seq<seq<int>>)
    requires AllViews(g, vs) && HaloOf(g, vs, w) && Numbering.Counts(w, g.owner, Marks(g), toSend, counts, ids)
    requires forall p :: 0 <= p < |vs| ==> vs[p].local.ids == Exchanged(w, ids)[p]
    ensures Numbered(g, vs)
  {
    hide Numbering.IsHalo, Numbering.Counts, Exchanged, TriaBy;
    forall p, q, i, j |
      && 0 <= p < |vs| && 0 <= q < |vs| && 0 <= i < |vs[p].names| && 0 <= j < |vs[q].names|
      && Touched(g, vs[p].names[i]) && Touched(g, vs[q].names[j])
      ensures SameId(vs, p, i, q, j)
    {
      Numbering.NumbersAreGlobal(w, g.owner, Marks(g), toSend, counts, ids, p, i, q, j);
    }
  }

  // ----- the two exchanges -----

  /** What CellColumns.FillColumns leaves on each process, as columns; u is the solution of each at its own cells. */
  ghost predicate IsFilled<T>(g: Mesh, vs: seq<View>, u: seq<seq<T>>, zero: T, f: seq<seq<T>>)
    requires AllViews(g, vs)
  {
    && |f| == |u| == |vs|
    && (forall p :: 0 <= p < |vs| ==> |f[p]| == |u[p]| == |vs[p].names|)
    && forall p, x :: 0 <= p < |vs| && 0 <= x < |vs[p].names| ==>
         f[p][x] == if x in vs[p].local.touched then u[p][x] else zero
  }

  /** The greatest rank below n whose triangles touch c; n if there is none. */
  ghost function Greatest(g: Mesh, c: nat, n: nat): (r: nat)
    requires IsMesh(g) && c < |g.owner|
    ensures r <= n && (r < n ==> TriaBy(g, c, r))
    ensures forall q :: 0 <= q < n && TriaBy(g, c, q) ==> r < n && q <= r
  {
    if n == 0 then 0
    else if TriaBy(g, c, n - 1) then n - 1
    else
      var r := Greatest(g, c, n - 1);
      if r == n - 1 then n else r
  }

  /** The process whose value the cell gets: its owner if it can, else the greatest rank that can. */
  ghost function Giver(g: Mesh, c: nat): nat
    requires IsMesh(g) && c < |g.owner|
  {
    if TriaBy(g, c, g.owner[c]) then g.owner[c] else Greatest(g, c, g.procs)
  }

  lemma TouchedBelow(g: Mesh, c: nat)
    requires IsMesh(g) && c < |g.owner|
    ensures Touched(g, c) <==> Greatest(g, c, g.procs) < g.procs
    ensures Touched(g, c) ==> Giver(g, c) < g.procs && TriaBy(g, c, Giver(g, c))
  {
  }

  /** Who an owner hears last about a cell from: the greatest rank that owes it. */
  lemma LastToGive(g: Mesh, vs: seq<View>, o: nat, y: nat)
    requires AllViews(g, vs) && Numbered(g, vs) && Matched(ReverseNetwork(g, vs)) && o < |vs| && y < |vs[o].names|
    ensures vs[o].names[y] < |g.owner|
    ensures var recv, c := ReverseNetwork(g, vs).lists[o].recv, vs[o].names[y]; g.owner[c] == o ==>
      var m := LastListing(o, recv, |recv|, y);
      if TriaBy(g, c, o) || !Touched(g, c) then m < 0 else m >= 0 && recv[m].proc == Greatest(g, c, g.procs)
  {
    hide TriaBy, Numbered, Restricts, Greatest, ListsOf;
    var w, c := ReverseNetwork(g, vs), vs[o].names[y];
    var recv := w.lists[o].recv;
    PairAgrees(g, vs, o, o);
    if g.owner[c] == o {
      var m := LastListing(o, recv, |recv|, y);
      if m >= 0 {
        ListedIsDue(g, vs, o, m, y);
      }
      if !TriaBy(g, c, o) && Touched(g, c) {
        TouchedBelow(g, c);
        var r := Greatest(g, c, g.procs);
        var l := DueIsListed(g, vs, o, r, y);
        assert m >= l;
        GreatestIs(g, c, recv[m].proc);
        ReceivesAscend(g, vs, o, l, m);
      }
    }
  }

  lemma GreatestIs(g: Mesh, c: nat, q: nat)
    requires IsMesh(g) && c < |g.owner| && q < g.procs
    ensures TriaBy(g, c, q) ==> q <= Greatest(g, c, g.procs) < g.procs
  {
  }

  lemma ListedIsDue(g: Mesh, vs: seq<View>, o: nat, m: nat, y: nat)
    requires AllViews(g, vs) && Numbered(g, vs) && Matched(ReverseNetwork(g, vs)) && o < |vs| && y < |vs[o].names|
    requires var recv := ReverseNetwork(g, vs).lists[o].recv; m < |recv| && y in recv[m].vec
    ensures vs[o].names[y] < |g.owner| && 0 <= ReverseNetwork(g, vs).lists[o].recv[m].proc < g.procs
    ensures Due(g, vs[o].names[y], ReverseNetwork(g, vs).lists[o].recv[m].proc, o)
  {
    hide Due, Restricts, Numbered, ListsOf;
    var recv := ReverseNetwork(g, vs).lists[o].recv;
    AllLocal(g, vs);
    VecForAt(recv, m);
    PairAgrees(g, vs, recv[m].proc, o);
  }

  lemma DueIsListed(g: Mesh, vs: seq<View>, o: nat, r: nat, y: nat) returns (m: nat)
    requires AllViews(g, vs) && Numbered(g, vs) && Matched(ReverseNetwork(g, vs)) && o < |vs| && y < |vs[o].names|
    requires r < |vs| && vs[o].names[y] < |g.owner| && Due(g, vs[o].names[y], r, o)
    ensures var recv := ReverseNetwork(g, vs).lists[o].recv; m < |recv| && recv[m].proc == r && y in recv[m].vec
  {
    hide Due, Restricts, Numbered, ListsOf;
    AllLocal(g, vs);
    PairAgrees(g, vs, r, o);
    m := EntryFor(ReverseNetwork(g, vs).lists[o].recv, r);
  }

  lemma {:induction false} EntryFor(list: seq<Entry>, q: nat) returns (m: nat)
    requires VecFor(list, q) != []
    ensures m < |list| && list[m].proc == q && list[m].vec == VecFor(list, q)
    decreases |list|
  {
    if list[0].proc == q {
      m := 0;
    } else {
      var l := EntryFor(list[1..], q);
      m := l + 1;
    }
  }

  lemma ReceivesAscend(g: Mesh, vs: seq<View>, o: nat, l: nat, m: nat)
    requires AllViews(g, vs) && o < |vs| && l <= m < |ReverseNetwork(g, vs).lists[o].recv|
    ensures var recv := ReverseNetwork(g, vs).lists[o].recv; recv[l].proc <= recv[m].proc
  {
    AllLocal(g, vs);
    assert IsView(g, o, vs[o]);
    RecvKeys(vs[o].local, |vs[o].local.toReceive|, g.procs);
  }

  /** After the reverse exchange the owner of a cell has the giver's value; zero when no triangle touches the cell. */
  lemma OwnerGets<T>(g: Mesh, vs: seq<View>, u: seq<seq<T>>, zero: T, f: seq<seq<T>>, o: nat, y: nat) returns (z: nat)
    requires AllViews(g, vs) && Numbered(g, vs) && Matched(ReverseNetwork(g, vs)) && IsFilled(g, vs, u, zero, f)
    requires o < |vs| && y < |vs[o].names| && vs[o].names[y] < |g.owner| && g.owner[vs[o].names[y]] == o
    ensures IsField(ReverseNetwork(g, vs), f)
    ensures var c, v := vs[o].names[y], Exchanged(ReverseNetwork(g, vs), f)[o][y];
      && (!Touched(g, c) ==> v == zero)
      && (Touched(g, c) ==> var r := Giver(g, c); r < |vs| && z < |vs[r].names| && vs[r].names[z] == c && v == u[r][z])
  {
    hide TriaBy, Numbered, Restricts, Greatest, Exchanged, ListsOf, Matched;
    var w, c := ReverseNetwork(g, vs), vs[o].names[y];
    LastToGive(g, vs, o, y);
    z := ExchangedAt(w, f, o, y);
    TouchedBelow(g, c);
    if !Touched(g, c) || TriaBy(g, c, o) {
      z := y;
    }
    assert IsView(g, o, vs[o]);
    if Touched(g, c) {
      assert IsView(g, Giver(g, c), vs[Giver(g, c)]);
    }
  }

  /**
   * The two exchanges of mapVerticesToCells: every copy of a cell, on every process, has the value that the giver of
   * the cell computed, or zero when no triangle touches it.
   */
  lemma AllCopiesAgree<T>(g: Mesh, vs: seq<View>, w: Network, u: seq<seq<T>>, zero: T, f: seq<seq<T>>, p: nat, x: nat)
    returns (z: nat)
    requires AllViews(g, vs) && Numbered(g, vs) && HaloOf(g, vs, w) && IsFilled(g, vs, u, zero, f)
    requires p < |vs| && x < |vs[p].names|
    ensures Matched(ReverseNetwork(g, vs)) && IsField(ReverseNetwork(g, vs), f)
    ensures IsField(w, Exchanged(ReverseNetwork(g, vs), f)) && vs[p].names[x] < |g.owner|
    ensures var c, v := vs[p].names[x], Exchanged(w, Exchanged(ReverseNetwork(g, vs), f))[p][x];
      && (!Touched(g, c) ==> v == zero)
      && (Touched(g, c) ==> var r := Giver(g, c);
           TriaBy(g, c, r) && r < |vs| && z < |vs[r].names| && vs[r].names[z] == c && v == u[r][z])
  {
    hide TriaBy, Numbered, Exchanged, Matched, Giver;
    ReverseListsAgree(g, vs);
    var f1 := Exchanged(ReverseNetwork(g, vs), f);
    HaloSize(g, vs, w);
    var y := Numbering.ForwardCopies(w, g.owner, f1, p, x);
    z := OwnerGets(g, vs, u, zero, f, g.owner[vs[p].names[x]], y);
    TouchedBelow(g, vs[p].names[x]);
  }

  lemma HaloSize(g: Mesh, vs: seq<View>, w: Network)
    requires AllViews(g, vs) && HaloOf(g, vs, w)
    ensures Matched(w) && |w.lists| == |w.names| == |vs|
  {
  }

  lemma ExchangedCopiesEqual<T>(g: Mesh, vs: seq<View>, w: Network, u: seq<seq<T>>, zero: T, f: seq<seq<T>>,
                                p: nat, x: nat, q: nat, y: nat)
    requires AllViews(g, vs) && Numbered(g, vs) && HaloOf(g, vs, w) && IsFilled(g, vs, u, zero, f)
    requires p < |vs| && x < |vs[p].names| && q < |vs| && y < |vs[q].names| && vs[p].names[x] == vs[q].names[y]
    ensures Matched(ReverseNetwork(g, vs)) && IsField(ReverseNetwork(g, vs), f)
    ensures IsField(w, Exchanged(ReverseNetwork(g, vs), f)) && |w.names| == |vs| && Matched(w)
    ensures var f2 := Exchanged(w, Exchanged(ReverseNetwork(g, vs), f)); f2[p][x] == f2[q][y]
  {
    hide TriaBy, Numbered, Exchanged, Matched, Giver, IsFilled, HaloOf, Restricts;
    HaloSize(g, vs, w);
    var z := AllCopiesAgree(g, vs, w, u, zero, f, p, x);
    var z' := AllCopiesAgree(g, vs, w, u, zero, f, q, y);
    var c := vs[p].names[x];
    if Touched(g, c) {
      assert IsView(g, Giver(g, c), vs[Giver(g, c)]);
    }
  }

  /** So two copies of a cell are equal, wherever they are and in whatever order messages were handled. */
  lemma CopiesAreEqual<T>(g: Mesh, vs: seq<View>, w: Network, u: seq<seq<T>>, zero: T, f: seq<seq<T>>,
                          run1: seq<Step>, s1: State<T>, run2: seq<Step>, s2: State<T>, p: nat, x: nat, q: nat, y: nat)
    requires AllViews(g, vs) && Numbered(g, vs) && HaloOf(g, vs, w) && IsFilled(g, vs, u, zero, f)
    requires Matched(ReverseNetwork(g, vs)) && IsField(ReverseNetwork(g, vs), f)
    requires Run(ReverseNetwork(g, vs), Start(ReverseNetwork(g, vs), f), run1, s1)
    requires Finished(ReverseNetwork(g, vs), s1)
    requires Matched(w) && IsField(w, s1.fields)
    requires Run(w, Start(w, s1.fields), run2, s2) && Finished(w, s2)
    requires p < |vs| && x < |vs[p].names| && q < |vs| && y < |vs[q].names| && vs[p].names[x] == vs[q].names[y]
    ensures |s2.fields| == |vs| && |s2.fields[p]| == |vs[p].names| && |s2.fields[q]| == |vs[q].names|
    ensures s2.fields[p][x] == s2.fields[q][y]
  {
    hide AllViews, Numbered, Exchanged, Matched, IsFilled, HaloOf, Run, Finished, Start, ReverseNetwork;
    EveryRun(ReverseNetwork(g, vs), f, run1, s1);
    EveryRun(w, s1.fields, run2, s2);
    ExchangedCopiesEqual(g, vs, w, u, zero, f, p, x, q, y);
    HaloNamesAre(g, vs, w, p);
    HaloNamesAre(g, vs, w, q);
  }

  lemma HaloNamesAre(g: Mesh, vs: seq<View>, w: Network, p: nat)
    requires AllViews(g, vs) && HaloOf(g, vs, w) && p < |vs|
    ensures |w.names| == |vs| && w.names[p] == vs[p].names
  {
  }

  // ----- an example -----

  /** Two cells, of processes 0 and 1, that share the one triangle, of process 0. */
  const PAIR := Mesh(2, [0, 1], [[0], [0]], [true], [0])
  const FIRST := View([0, 1], [0], Local(1, [0, 1], [], [[0], [0]], [true], [0], [0, 1], [0, 1]))
  const SECOND := View([1], [0], Local(1, [], [0], [[0]], [true], [0], [1], [1]))
  const HALO := Network([Lists([], [Entry(1, [1])]), Lists([Entry(0, [0])], [])], [[0, 1], [1]])

  lemma PairTouched()
    ensures IsMesh(PAIR)
    ensures TriaBy(PAIR, 0, 0) && TriaBy(PAIR, 1, 0) && !TriaBy(PAIR, 0, 1) && !TriaBy(PAIR, 1, 1)
    ensures Touched(PAIR, 0) && Touched(PAIR, 1)
  {
    assert PAIR.tria[PAIR.corners[0][0]] && PAIR.triaOwner[PAIR.corners[0][0]] == 0;
    assert PAIR.tria[PAIR.corners[1][0]] && PAIR.triaOwner[PAIR.corners[1][0]] == 0;
    assert TriaBy(PAIR, 0, 0) && TriaBy(PAIR, 1, 0);
  }

  lemma FirstRestricts()
    ensures IsMesh(PAIR) && Restricts(PAIR, FIRST)
  {
    PairTouched();
    hide TriaBy;
    assert FIRST.names[0] == 0 && FIRST.names[1] == 1 && FIRST.vertexNames[0] == 0;
  }

  lemma FirstIsView()
    ensures IsMesh(PAIR) && IsView(PAIR, 0, FIRST)
  {
    PairTouched();
    FirstRestricts();
    hide TriaBy, Touched, Restricts;
    var n, l := FIRST.names, FIRST.local;
    assert n[0] == 0 && n[1] == 1 && PAIR.owner[0] == 0 && PAIR.owner[1] == 1;
    assert l.touched[0] == 0 && l.touched[1] == 1 && l.toReceive == [];
  }

  lemma SecondIsView()
    ensures IsMesh(PAIR) && IsView(PAIR, 1, SECOND)
  {
    PairTouched();
    hide TriaBy, Touched;
    assert SECOND.names[0] == 1;
  }

  lemma HaloIsProper()
    ensures Proper(HALO.lists[0].send, 2, 2) && Proper(HALO.lists[0].recv, 2, 2)
    ensures Proper(HALO.lists[1].send, 2, 1) && Proper(HALO.lists[1].recv, 2, 1)
  {
  }

  lemma HaloPairs()
    ensures PairMatched(HALO, 0, 1) && PairMatched(HALO, 1, 0)
  {
    assert VecFor(HALO.lists[0].send, 1) == [] && VecFor(HALO.lists[1].recv, 0) == [];
    assert HALO.lists[0].recv[1..] == [] && HALO.lists[1].send[1..] == [];
    assert VecFor(HALO.lists[1].send, 0) == [0] && VecFor(HALO.lists[0].recv, 1) == [1];
  }

  lemma HaloIsMatched()
    ensures Matched(HALO)
  {
    HaloIsProper();
    HaloPairs();
    hide Proper, PairMatched;
    assert HALO.names[0] == [0, 1] && HALO.names[1] == [1];
  }

  lemma HaloIsHalo()
    ensures Numbering.IsHalo(HALO, PAIR.owner)
  {
    HaloIsMatched();
    hide Matched;
    var first, second := HALO.lists[0].recv, HALO.lists[1].recv;
    assert first[0].proc == 1 && 1 in first[0].vec;
    assert Numbering.FromOwner(0, first, 0, 0) && Numbering.FromOwner(0, first, 1, 1);
    assert Numbering.FromOwner(1, second, 0, 1);
    assert HALO.names[0][0] == 0 && HALO.names[0][1] == 1 && HALO.names[1][0] == 1;
  }

  lemma HaloIsPaired()
    ensures Paired(HALO)
  {
    HaloIsMatched();
    hide Matched;
    PairedIfFull(HALO);
  }

  /** What the theorems of this module ask for can be met: here process 1 has no triangle, and is owed a value by 0. */
  lemma PairIsAnExample()
    ensures AllViews(PAIR, [FIRST, SECOND]) && Numbered(PAIR, [FIRST, SECOND]) && HaloOf(PAIR, [FIRST, SECOND], HALO)
    ensures IsFilled(PAIR, [FIRST, SECOND], [[5, 7], [0]], 0, [[5, 7], [0]])
    ensures Due(PAIR, 1, 0, 1) && Paired(HALO)
  {
    PairTouched();
    HaloIsPaired();
    FirstIsView();
    SecondIsView();
    HaloIsHalo();
    hide TriaBy, Touched, IsView, Numbering.IsHalo;
  }
}
