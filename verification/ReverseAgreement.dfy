/**
 * The reverse exchange lists that the processes build separately agree
 * (src/core_landice/mode_forward/Interface_velocity_solver.cpp).
 */
module ReverseAgreement {
  import opened Basics
  import opened HaloExchange
  import opened ReverseLists
  import Transfer

  /** The whole mesh: who owns each cell (or edge), the vertices at its corners, and which vertices are triangles. */
  datatype Mesh = Mesh(procs: nat, owner: seq<nat>, corners: seq<seq<nat>>, tria: seq<bool>, triaOwner: seq<nat>)

  ghost predicate IsMesh(g: Mesh) {
    && |g.corners| == |g.owner| && |g.tria| == |g.triaOwner|
    && (forall c :: 0 <= c < |g.owner| ==> g.owner[c] < g.procs)
    && (forall v :: 0 <= v < |g.triaOwner| ==> g.triaOwner[v] < g.procs)
    && forall c, j :: 0 <= c < |g.corners| && 0 <= j < |g.corners[c]| ==> g.corners[c][j] < |g.tria|
  }

  /** A triangle of process q touches c. */
  ghost predicate TriaBy(g: Mesh, c: nat, q: nat)
    requires IsMesh(g) && c < |g.owner|
  {
    exists j :: 0 <= j < |g.corners[c]| && g.tria[g.corners[c][j]] && g.triaOwner[g.corners[c][j]] == q
  }

  ghost predicate Touched(g: Mesh, c: nat)
    requires IsMesh(g) && c < |g.owner|
  {
    exists q :: TriaBy(g, c, q)
  }

  /** What process p sees of the mesh: the names of its cells and of its vertices in the whole mesh. */
  datatype View = View(names: seq<nat>, vertexNames: seq<nat>, local: Local)

  /** The local tables restrict the mesh. */
  ghost predicate Restricts(g: Mesh, v: View)
    requires IsMesh(g)
  {
    var l := v.local;
    && IsLocal(l) && |v.names| == |l.corners| && |v.vertexNames| == |l.hasTria|
    && (forall i :: 0 <= i < |v.names| ==> v.names[i] < |g.owner| && l.itemProc[i] == g.owner[v.names[i]])
    && (forall x :: 0 <= x < |v.vertexNames| ==> v.vertexNames[x] < |g.tria|)
    && (forall x :: 0 <= x < |v.vertexNames| ==> l.hasTria[x] == g.tria[v.vertexNames[x]])
    && (forall x :: 0 <= x < |v.vertexNames| ==> l.triaProc[x] == g.triaOwner[v.vertexNames[x]])
    && (forall i :: 0 <= i < |v.names| ==> |l.corners[i]| == |g.corners[v.names[i]]|)
    && forall i, j :: 0 <= i < |v.names| && 0 <= j < |l.corners[i]| ==>
         v.vertexNames[l.corners[i][j]] == g.corners[v.names[i]][j]
  }

  /** A process has the cells it owns, first, and those its triangles touch. */
  ghost predicate IsView(g: Mesh, p: nat, v: View)
    requires IsMesh(g)
  {
    && Restricts(g, v) && NoRepeats(v.names)
    && (forall i :: 0 <= i < |v.names| ==> (i < v.local.nSolve <==> g.owner[v.names[i]] == p))
    && (forall c :: 0 <= c < |g.owner| && (g.owner[c] == p || TriaBy(g, c, p)) ==> c in v.names)
    && (forall i :: 0 <= i < |v.names| ==> (i in v.local.touched <==> TriaBy(g, v.names[i], p)))
    && forall i :: 0 <= i < |v.names| ==> (i in v.local.toReceive
         <==> g.owner[v.names[i]] == p && Touched(g, v.names[i]) && !TriaBy(g, v.names[i], p))
  }

  ghost predicate AllViews(g: Mesh, vs: seq<View>) {
    IsMesh(g) && |vs| == g.procs && forall p :: 0 <= p < |vs| ==> IsView(g, p, vs[p])
  }

  /** The processes number touched cells alike, and differently from one another. */
  ghost predicate Numbered(g: Mesh, vs: seq<View>)
    requires AllViews(g, vs)
  {
    forall p, q, i, j ::
      && 0 <= p < |vs| && 0 <= q < |vs| && 0 <= i < |vs[p].names| && 0 <= j < |vs[q].names|
      && Touched(g, vs[p].names[i]) && Touched(g, vs[q].names[j])
      ==> SameId(vs, p, i, q, j)
  }

  ghost predicate SameId(vs: seq<View>, p: nat, i: nat, q: nat, j: nat)
    requires p < |vs| && q < |vs| && i < |vs[p].names| && j < |vs[q].names|
    requires |vs[p].local.ids| == |vs[p].names| && |vs[q].local.ids| == |vs[q].names|
  {
    vs[p].local.ids[i] == vs[q].local.ids[j] <==> vs[p].names[i] == vs[q].names[j]
  }

  /** p owes its value at c to the owner q: its triangles touch c, and none of q's does. */
  ghost predicate Due(g: Mesh, c: nat, p: nat, q: nat)
    requires IsMesh(g) && c < |g.owner|
  {
    g.owner[c] == q && TriaBy(g, c, p) && !TriaBy(g, c, q)
  }

  function ListsOf(l: Local): Lists
    requires IsLocal(l)
  {
    Lists(ToEntries(SendRows(l, |l.touched|)), ToEntries(RecvRows(l, |l.toReceive|)))
  }

  // ----- what one process lists -----

  lemma AnyTriaIs(g: Mesh, v: View, i: nat, q: nat)
    requires IsMesh(g) && Restricts(g, v) && i < |v.names|
    ensures AnyTriaOf(v.local, i, q, |v.local.corners[i]|) <==> TriaBy(g, v.names[i], q)
  {
    var l, c := v.local, v.names[i];
    if j :| 0 <= j < |l.corners[i]| && TriaOf(l, l.corners[i][j], q) {
      assert g.tria[g.corners[c][j]] && g.triaOwner[g.corners[c][j]] == q;
    }
    if j :| 0 <= j < |g.corners[c]| && g.tria[g.corners[c][j]] && g.triaOwner[g.corners[c][j]] == q {
      assert TriaOf(l, l.corners[i][j], q);
    }
  }

  ghost function DueFrom(g: Mesh, v: View, p: nat, q: nat): int -> bool
    requires IsMesh(g) && Restricts(g, v)
  {
    x => 0 <= x < |v.names| && Due(g, v.names[x], p, q)
  }

  lemma IdsDistinct(g: Mesh, vs: seq<View>, p: nat)
    requires AllViews(g, vs) && Numbered(g, vs) && p < |vs|
    ensures DistinctIds(vs[p].local, vs[p].local.touched) && DistinctIds(vs[p].local, vs[p].local.toReceive)
  {
    hide TriaBy, Restricts;
    var v, l := vs[p], vs[p].local;
    assert IsView(g, p, v);
    RestrictsSize(g, v);
    forall i, j | ((i in l.touched && j in l.touched) || (i in l.toReceive && j in l.toReceive))
      && 0 <= i < |l.ids| && 0 <= j < |l.ids| && l.ids[i] == l.ids[j]
      ensures i == j
    {
      assert i in l.touched ==> TriaBy(g, v.names[i], p);
      assert j in l.touched ==> TriaBy(g, v.names[j], p);
      assert Touched(g, v.names[i]) && Touched(g, v.names[j]);
      assert SameId(vs, p, i, p, j);
    }
  }

  lemma RestrictsSize(g: Mesh, v: View)
    requires IsMesh(g) && Restricts(g, v)
    ensures IsLocal(v.local) && |v.local.ids| == |v.names| == |v.local.corners|
    ensures forall i :: 0 <= i < |v.names| ==> v.names[i] < |g.owner| && v.local.itemProc[i] == g.owner[v.names[i]]
  {
  }

  lemma SendRowIs(g: Mesh, vs: seq<View>, p: nat, q: nat)
    requires AllViews(g, vs) && Numbered(g, vs) && p < |vs|
    ensures IsView(g, p, vs[p])
    ensures RowIs(vs[p].local, RowFor(SendRows(vs[p].local, |vs[p].local.touched|), q), DueFrom(g, vs[p], p, q))
  {
    hide RowIs, TriaBy, Numbered, Restricts, RowFor, SendRows;
    var v, l := vs[p], vs[p].local;
    assert IsView(g, p, v);
    RestrictsSize(g, v);
    IdsDistinct(g, vs, p);
    SendRowsAre(l, |l.touched|, q);
    var n := |l.touched|;
    assert l.touched[..n] == l.touched;
    forall x
      ensures DueFrom(g, v, p, q)(x) <==> SendCondition(l, n, q)(x)
    {
      if 0 <= x < |v.names| {
        AnyTriaIs(g, v, x, g.owner[v.names[x]]);
        assert OnOwner(l, x) <==> TriaBy(g, v.names[x], g.owner[v.names[x]]);
      }
    }
    SameCondition(l, RowFor(SendRows(l, n), q), SendCondition(l, n, q), DueFrom(g, v, p, q));
  }

  lemma RecvRowIs(g: Mesh, vs: seq<View>, q: nat, p: nat)
    requires AllViews(g, vs) && Numbered(g, vs) && q < |vs|
    ensures IsView(g, q, vs[q])
    ensures RowIs(vs[q].local, RowFor(RecvRows(vs[q].local, |vs[q].local.toReceive|), p), DueFrom(g, vs[q], p, q))
  {
    hide RowIs, TriaBy, Numbered, Restricts, RowFor, RecvRows, AnyTriaOf;
    var v, l := vs[q], vs[q].local;
    assert IsView(g, q, v);
    RestrictsSize(g, v);
    IdsDistinct(g, vs, q);
    RecvRowsAre(l, |l.toReceive|, p);
    var n := |l.toReceive|;
    assert l.toReceive[..n] == l.toReceive;
    forall x
      ensures DueFrom(g, v, p, q)(x) <==> Received(l, n, p)(x)
    {
      if 0 <= x < |v.names| {
        AnyTriaIs(g, v, x, p);
        assert TriaBy(g, v.names[x], p) ==> Touched(g, v.names[x]);
      }
    }
    SameCondition(l, RowFor(RecvRows(l, n), p), Received(l, n, p), DueFrom(g, v, p, q));
  }

  // ----- the lists agree -----

  lemma KeysOfRow(l: Local, row: Row, cond: int -> bool, k: int)
    requires IsLocal(l) && RowIs(l, row, cond)
    ensures HasKey(row, k) <==> exists x :: 0 <= x < |l.ids| && cond(x) && l.ids[x] == k
  {
    if HasKey(row, k) {
      var m :| 0 <= m < |row| && row[m].0 == k;
      AtPlace(l, row, cond, m);
    }
    if x :| 0 <= x < |l.ids| && cond(x) && l.ids[x] == k {
      var m := PlaceOf(l, row, cond, x);
    }
  }

  lemma AtPlace(l: Local, row: Row, cond: int -> bool, i: nat)
    requires IsLocal(l) && RowIs(l, row, cond) && i < |row|
    ensures 0 <= row[i].1 < |l.ids| && cond(row[i].1) && l.ids[row[i].1] == row[i].0
  {
    assert (row[i].0, row[i].1) in row;
  }

  lemma PlaceOf(l: Local, row: Row, cond: int -> bool, x: int) returns (m: nat)
    requires IsLocal(l) && RowIs(l, row, cond) && 0 <= x < |l.ids| && cond(x)
    ensures m < |row| && row[m].0 == l.ids[x] && row[m].1 == x
  {
    m :| m < |row| && row[m] == (l.ids[x], x);
  }

  lemma {:induction false} VecForRows(rows: seq<(int, Row)>, q: int)
    ensures VecFor(ToEntries(rows), q) == Values(RowFor(rows, q))
    decreases |rows|
  {
    if rows != [] {
      VecForRows(rows[1..], q);
      assert ToEntries(rows)[1..] == ToEntries(rows[1..]);
    }
  }

  /** The two rows have the same keys, because what is due is known to both sides. */
  lemma SameKeys(g: Mesh, vs: seq<View>, p: nat, q: nat, k: int)
    requires AllViews(g, vs) && Numbered(g, vs) && p < |vs| && q < |vs|
    requires HasKey(RowFor(SendRows(vs[p].local, |vs[p].local.touched|), q), k)
          || HasKey(RowFor(RecvRows(vs[q].local, |vs[q].local.toReceive|), p), k)
    ensures HasKey(RowFor(SendRows(vs[p].local, |vs[p].local.touched|), q), k)
         && HasKey(RowFor(RecvRows(vs[q].local, |vs[q].local.toReceive|), p), k)
  {
    hide RowIs, TriaBy, Numbered, Restricts, RowFor, SendRows, RecvRows, HasKey;
    SendRowIs(g, vs, p, q);
    RecvRowIs(g, vs, q, p);
    RestrictsSize(g, vs[p]);
    RestrictsSize(g, vs[q]);
    var s := RowFor(SendRows(vs[p].local, |vs[p].local.touched|), q);
    var r := RowFor(RecvRows(vs[q].local, |vs[q].local.toReceive|), p);
    KeysOfRow(vs[p].local, s, DueFrom(g, vs[p], p, q), k);
    KeysOfRow(vs[q].local, r, DueFrom(g, vs[q], p, q), k);
    if HasKey(s, k) {
      var x :| 0 <= x < |vs[p].names| && DueFrom(g, vs[p], p, q)(x) && vs[p].local.ids[x] == k;
      var y := KnownToOwner(g, vs, p, q, x);
    }
    if HasKey(r, k) {
      var y :| 0 <= y < |vs[q].names| && DueFrom(g, vs[q], p, q)(y) && vs[q].local.ids[y] == k;
      var x := KnownToGiver(g, vs, p, q, y);
    }
  }

  lemma KnownToOwner(g: Mesh, vs: seq<View>, p: nat, q: nat, x: nat) returns (y: nat)
    requires AllViews(g, vs) && Numbered(g, vs) && p < |vs| && q < |vs|
    requires IsView(g, p, vs[p]) && IsView(g, q, vs[q]) && x < |vs[p].names| && DueFrom(g, vs[p], p, q)(x)
    ensures y < |vs[q].names| && DueFrom(g, vs[q], p, q)(y)
    ensures |vs[p].local.ids| == |vs[p].names| && |vs[q].local.ids| == |vs[q].names|
    ensures vs[q].local.ids[y] == vs[p].local.ids[x]
  {
    hide TriaBy, Numbered, Restricts;
    RestrictsSize(g, vs[p]);
    RestrictsSize(g, vs[q]);
    assert vs[p].names[x] in vs[q].names;
    y :| 0 <= y < |vs[q].names| && vs[q].names[y] == vs[p].names[x];
    DueIsNumbered(g, vs, p, q, x, y);
  }

  lemma KnownToGiver(g: Mesh, vs: seq<View>, p: nat, q: nat, y: nat) returns (x: nat)
    requires AllViews(g, vs) && Numbered(g, vs) && p < |vs| && q < |vs|
    requires IsView(g, p, vs[p]) && IsView(g, q, vs[q]) && y < |vs[q].names| && DueFrom(g, vs[q], p, q)(y)
    ensures x < |vs[p].names| && DueFrom(g, vs[p], p, q)(x)
    ensures |vs[p].local.ids| == |vs[p].names| && |vs[q].local.ids| == |vs[q].names|
    ensures vs[p].local.ids[x] == vs[q].local.ids[y]
  {
    hide TriaBy, Numbered, Restricts;
    RestrictsSize(g, vs[p]);
    RestrictsSize(g, vs[q]);
    assert vs[q].names[y] in vs[p].names;
    x :| 0 <= x < |vs[p].names| && vs[p].names[x] == vs[q].names[y];
    DueIsNumbered(g, vs, p, q, x, y);
  }

  lemma DueIsNumbered(g: Mesh, vs: seq<View>, p: nat, q: nat, x: nat, y: nat)
    requires AllViews(g, vs) && Numbered(g, vs) && p < |vs| && q < |vs|
    requires IsView(g, p, vs[p]) && IsView(g, q, vs[q]) && x < |vs[p].names| && y < |vs[q].names|
    requires vs[p].names[x] < |g.owner| && vs[q].names[y] < |g.owner|
    requires Due(g, vs[p].names[x], p, q) || Due(g, vs[q].names[y], p, q)
    requires vs[p].names[x] == vs[q].names[y] || (Due(g, vs[p].names[x], p, q) && Due(g, vs[q].names[y], p, q))
    ensures |vs[p].local.ids| == |vs[p].names| && |vs[q].local.ids| == |vs[q].names|
    ensures SameId(vs, p, x, q, y)
  {
    hide TriaBy, Restricts;
    RestrictsSize(g, vs[p]);
    RestrictsSize(g, vs[q]);
  }

  /**
   * p's reverse list for q and q's reverse list from p have the same length and name the same cell at every place, and
   * a cell is on them exactly when p owes its value to q.
   */
  lemma PairAgrees(g: Mesh, vs: seq<View>, p: nat, q: nat)
    requires AllViews(g, vs) && Numbered(g, vs) && p < |vs| && q < |vs|
    ensures IsView(g, p, vs[p]) && IsView(g, q, vs[q])
    ensures var s, r := VecFor(ListsOf(vs[p].local).send, q), VecFor(ListsOf(vs[q].local).recv, p);
      && |s| == |r|
      && (forall k :: 0 <= k < |s| ==> 0 <= s[k] < |vs[p].names| && 0 <= r[k] < |vs[q].names|
                                       && vs[p].names[s[k]] == vs[q].names[r[k]])
      && (forall x :: 0 <= x < |vs[p].names| ==>
           vs[p].names[x] < |g.owner| && (x in s <==> Due(g, vs[p].names[x], p, q)))
      && (forall y :: 0 <= y < |vs[q].names| ==>
           vs[q].names[y] < |g.owner| && (y in r <==> Due(g, vs[q].names[y], p, q)))
  {
    hide RowIs, TriaBy, Numbered, Restricts, RowFor, SendRows, RecvRows, HasKey, Due;
    SendRowIs(g, vs, p, q);
    RecvRowIs(g, vs, q, p);
    RestrictsSize(g, vs[p]);
    RestrictsSize(g, vs[q]);
    var rows, rows' := SendRows(vs[p].local, |vs[p].local.touched|), RecvRows(vs[q].local, |vs[q].local.toReceive|);
    var s, r := RowFor(rows, q), RowFor(rows', p);
    VecForRows(rows, q);
    VecForRows(rows', p);
    forall k
      ensures HasKey(s, k) <==> HasKey(r, k)
    {
      if HasKey(s, k) || HasKey(r, k) {
        SameKeys(g, vs, p, q, k);
      }
    }
    RowAscends(vs[p].local, s, DueFrom(g, vs[p], p, q));
    RowAscends(vs[q].local, r, DueFrom(g, vs[q], p, q));
    SameKeysSamePlaces(s, r);
    forall k | 0 <= k < |s|
      ensures 0 <= s[k].1 < |vs[p].names| && 0 <= r[k].1 < |vs[q].names| && vs[p].names[s[k].1] == vs[q].names[r[k].1]
    {
      AtPlace(vs[p].local, s, DueFrom(g, vs[p], p, q), k);
      AtPlace(vs[q].local, r, DueFrom(g, vs[q], p, q), k);
      DueIsNumbered(g, vs, p, q, s[k].1, r[k].1);
    }
    ValuesOf(vs[p].local, s, DueFrom(g, vs[p], p, q));
    ValuesOf(vs[q].local, r, DueFrom(g, vs[q], p, q));
  }

  lemma RowAscends(l: Local, row: Row, cond: int -> bool)
    requires IsLocal(l) && RowIs(l, row, cond)
    ensures Ascending(row)
  {
  }

  lemma ValuesOf(l: Local, row: Row, cond: int -> bool)
    requires IsLocal(l) && RowIs(l, row, cond)
    ensures forall x :: 0 <= x < |l.ids| ==> (x in Values(row) <==> cond(x))
    ensures NoRepeats(Values(row))
  {
    forall x | 0 <= x < |l.ids|
      ensures x in Values(row) <==> cond(x)
    {
      if x in Values(row) {
        var i :| 0 <= i < |row| && Values(row)[i] == x;
        AtPlace(l, row, cond, i);
      }
      if cond(x) {
        var i := PlaceOf(l, row, cond, x);
        assert Values(row)[i] == x;
      }
    }
    forall i, j | 0 <= i < j < |row|
      ensures row[i].1 != row[j].1
    {
      AtPlace(l, row, cond, i);
      AtPlace(l, row, cond, j);
    }
  }

  // ----- as lists to exchange along -----

  ghost function ReverseNetwork(g: Mesh, vs: seq<View>): (w: Network)
    requires AllViews(g, vs)
    ensures |w.lists| == |w.names| == |vs|
  {
    AllLocal(g, vs);
    Network(seq(|vs|, p requires 0 <= p < |vs| => ListsOf(vs[p].local)),
            seq(|vs|, p requires 0 <= p < |vs| => vs[p].names))
  }

  lemma AllLocal(g: Mesh, vs: seq<View>)
    requires AllViews(g, vs)
    ensures forall p :: 0 <= p < |vs| ==> IsLocal(vs[p].local)
  {
    hide TriaBy;
    forall p | 0 <= p < |vs|
      ensures IsLocal(vs[p].local)
    {
      assert IsView(g, p, vs[p]);
    }
  }

  ghost predicate KeysBelow<T>(rows: seq<(int, T)>, n: nat) {
    forall x :: HasKey(rows, x) ==> 0 <= x < n
  }

  lemma {:induction false} SendKeys(l: Local, n: nat, procs: nat)
    requires IsLocal(l) && n <= |l.touched| && forall i :: 0 <= i < |l.itemProc| ==> l.itemProc[i] < procs
    ensures Ascending(SendRows(l, n)) && KeysBelow(SendRows(l, n), procs)
  {
    hide OnOwner;
    if n > 0 {
      SendKeys(l, n - 1, procs);
      var i := l.touched[n - 1];
      AddToAscends(SendRows(l, n - 1), l.itemProc[i], l.ids[i], i);
    }
  }

  lemma {:induction false} CornerKeys(l: Local, rows: seq<(int, Row)>, i: int, m: nat, procs: nat)
    requires IsLocal(l) && 0 <= i < |l.corners| && m <= |l.corners[i]|
    requires forall v :: 0 <= v < |l.triaProc| ==> l.triaProc[v] < procs
    requires Ascending(rows) && KeysBelow(rows, procs)
    ensures Ascending(RecvCorners(l, rows, i, m)) && KeysBelow(RecvCorners(l, rows, i, m), procs)
    decreases m
  {
    if m > 0 {
      CornerKeys(l, rows, i, m - 1, procs);
      var v := l.corners[i][m - 1];
      AddToAscends(RecvCorners(l, rows, i, m - 1), l.triaProc[v], l.ids[i], i);
    }
  }

  lemma {:induction false} RecvKeys(l: Local, n: nat, procs: nat)
    requires IsLocal(l) && n <= |l.toReceive| && forall v :: 0 <= v < |l.triaProc| ==> l.triaProc[v] < procs
    ensures Ascending(RecvRows(l, n)) && KeysBelow(RecvRows(l, n), procs)
  {
    if n > 0 {
      RecvKeys(l, n - 1, procs);
      CornerKeys(l, RecvRows(l, n - 1), l.toReceive[n - 1], |l.corners[l.toReceive[n - 1]]|, procs);
    }
  }

  lemma {:induction false} RowForAt(rows: seq<(int, Row)>, m: nat)
    requires Ascending(rows) && m < |rows|
    ensures RowFor(rows, rows[m].0) == rows[m].1
    decreases |rows|
  {
    if m > 0 {
      RowForAt(rows[1..], m - 1);
    }
  }

  lemma RowsAreProper(g: Mesh, vs: seq<View>, p: nat)
    requires AllViews(g, vs) && Numbered(g, vs) && p < |vs|
    ensures IsLocal(vs[p].local)
    ensures Proper(ListsOf(vs[p].local).send, g.procs, |vs[p].names|)
    ensures Proper(ListsOf(vs[p].local).recv, g.procs, |vs[p].names|)
  {
    hide RowIs, TriaBy, Numbered, RowFor, SendRows, RecvRows, Values;
    var v, l := vs[p], vs[p].local;
    assert IsView(g, p, v);
    SendKeys(l, |l.touched|, g.procs);
    RecvKeys(l, |l.toReceive|, g.procs);
    var s, r := SendRows(l, |l.touched|), RecvRows(l, |l.toReceive|);
    forall m | 0 <= m < |s|
      ensures 0 <= s[m].0 < g.procs && Transfer.InRange(Values(s[m].1), |v.names|) && NoRepeats(Values(s[m].1))
    {
      assert HasKey(s, s[m].0);
      RowForAt(s, m);
      SendRowIs(g, vs, p, s[m].0);
      RowValues(l, s[m].1, DueFrom(g, v, p, s[m].0));
    }
    forall m | 0 <= m < |r|
      ensures 0 <= r[m].0 < g.procs && Transfer.InRange(Values(r[m].1), |v.names|) && NoRepeats(Values(r[m].1))
    {
      assert HasKey(r, r[m].0);
      RowForAt(r, m);
      RecvRowIs(g, vs, p, r[m].0);
      RowValues(l, r[m].1, DueFrom(g, v, r[m].0, p));
    }
  }

  lemma RowValues(l: Local, row: Row, cond: int -> bool)
    requires IsLocal(l) && RowIs(l, row, cond)
    ensures Transfer.InRange(Values(row), |l.ids|) && NoRepeats(Values(row))
  {
    ValuesOf(l, row, cond);
    forall k | 0 <= k < |row|
      ensures 0 <= Values(row)[k] < |l.ids|
    {
      AtPlace(l, row, cond, k);
    }
  }

  /** The reverse lists of all processes fit together. */
  lemma ReverseListsAgree(g: Mesh, vs: seq<View>)
    requires AllViews(g, vs) && Numbered(g, vs)
    ensures Matched(ReverseNetwork(g, vs))
  {
    hide Proper, Restricts, Numbered, ListsOf;
    var w := ReverseNetwork(g, vs);
    AllLocal(g, vs);
    forall p | 0 <= p < |vs|
      ensures Proper(w.lists[p].send, |vs|, |w.names[p]|) && Proper(w.lists[p].recv, |vs|, |w.names[p]|)
    {
      RowsAreProper(g, vs, p);
    }
    forall p, q | 0 <= p < |vs| && 0 <= q < |vs| && p != q
      ensures PairMatched(w, p, q)
    {
      PairAgrees(g, vs, p, q);
    }
  }
}
