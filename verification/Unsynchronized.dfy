/**
 * The exchanges of mapVerticesToCells as the code makes them: for every component first one exchange a layer along the
 * reverse lists, then one a layer along the halo lists, and no barrier anywhere
 * (src/core_landice/mode_forward/Interface_velocity_solver.cpp).
 */
module Unsynchronized {
  import opened HaloExchange
  import opened ExchangeSequence
  import opened ReverseLists
  import opened ReverseAgreement
  import opened VerticesToCells
  import opened CellColumns

  // ----- the reverse lists come in pairs -----

  ghost predicate RowsFull(rows: seq<(int, Row)>) {
    forall m :: 0 <= m < |rows| ==> rows[m].1 != []
  }

  lemma {:induction false} AddToFull(rows: seq<(int, Row)>, q: int, k: int, v: int)
    requires RowsFull(rows)
    ensures RowsFull(AddTo(rows, q, k, v))
    decreases |rows|
  {
    if rows != [] && q > rows[0].0 {
      AddToFull(rows[1..], q, k, v);
    }
  }

  lemma {:induction false} SendRowsFull(l: Local, n: nat)
    requires IsLocal(l) && n <= |l.touched|
    ensures RowsFull(SendRows(l, n))
  {
    hide OnOwner, AddTo;
    if n > 0 {
      SendRowsFull(l, n - 1);
      var i := l.touched[n - 1];
      AddToFull(SendRows(l, n - 1), l.itemProc[i], l.ids[i], i);
    }
  }

  lemma {:induction false} RecvCornersFull(l: Local, rows: seq<(int, Row)>, i: int, n: nat)
    requires IsLocal(l) && 0 <= i < |l.corners| && n <= |l.corners[i]| && RowsFull(rows)
    ensures RowsFull(RecvCorners(l, rows, i, n))
    decreases n
  {
    hide AddTo;
    if n > 0 {
      RecvCornersFull(l, rows, i, n - 1);
      AddToFull(RecvCorners(l, rows, i, n - 1), l.triaProc[l.corners[i][n - 1]], l.ids[i], i);
    }
  }

  lemma {:induction false} RecvRowsFull(l: Local, n: nat)
    requires IsLocal(l) && n <= |l.toReceive|
    ensures RowsFull(RecvRows(l, n))
  {
    if n > 0 {
      RecvRowsFull(l, n - 1);
      RecvCornersFull(l, RecvRows(l, n - 1), l.toReceive[n - 1], |l.corners[l.toReceive[n - 1]]|);
    }
  }

  /** Whenever a process sends along its reverse list, the other one is waiting for it, and the other way around. */
  lemma ReverseIsPaired(g: Mesh, vs: seq<View>)
    requires AllViews(g, vs) && Numbered(g, vs)
    ensures Matched(ReverseNetwork(g, vs)) && Paired(ReverseNetwork(g, vs))
  {
    hide Numbered, Restricts, TriaBy, SendRows, RecvRows, Matched;
    ReverseListsAgree(g, vs);
    AllLocal(g, vs);
    var w := ReverseNetwork(g, vs);
    forall p | 0 <= p < |vs|
      ensures NoneEmpty(w.lists[p].send) && NoneEmpty(w.lists[p].recv)
    {
      SendRowsFull(vs[p].local, |vs[p].local.touched|);
      RecvRowsFull(vs[p].local, |vs[p].local.toReceive|);
    }
    PairedIfFull(w);
  }

  // ----- the order of the exchanges -----

  /** Of every 2 * layers exchanges the first half goes along the reverse lists, the second half along the others. */
  function GoesBack(i: nat, layers: nat): bool
    requires layers > 0
  {
    i % (2 * layers) < layers
  }

  /** Each half is about the layers of one component, in turn. */
  function LayerOf(i: nat, layers: nat): nat
    requires layers > 0
  {
    Pos(i / (2 * layers), i % (2 * layers) % layers, layers)
  }

  ghost function Rounds(back: Network, forth: Network, layers: nat, dims: nat, sizes: seq<nat>): (plan: Plan)
    requires layers > 0
  {
    var n := dims * (2 * layers);
    Plan(seq(n, i requires 0 <= i < n => if GoesBack(i, layers) then back else forth),
         seq(n, i requires 0 <= i < n => LayerOf(i, layers)), |sizes|, seq(dims * layers, k => sizes))
  }

  lemma LayerBelow(i: nat, layers: nat, dims: nat)
    requires layers > 0 && i < dims * (2 * layers)
    ensures LayerOf(i, layers) < dims * layers
  {
    hide Pos;
    QuotientBelow(i, 2 * layers, dims);
    TurnBelow(i / (2 * layers), i % (2 * layers), layers, dims);
  }

  lemma TurnBelow(e: nat, j: nat, layers: nat, dims: nat)
    requires layers > 0 && e < dims && j < 2 * layers
    ensures Pos(e, j % layers, layers) < dims * layers
  {
    hide Pos;
    HalfIs(j, layers);
    PosBelow(e, if j < layers then j else j - layers, layers, dims);
  }

  lemma RoundsValid(back: Network, forth: Network, layers: nat, dims: nat, sizes: seq<nat>)
    requires layers > 0
    requires Matched(back) && Paired(back) && |back.lists| == |sizes| && HasSizes(back.names, sizes)
    requires Matched(forth) && Paired(forth) && |forth.lists| == |sizes| && HasSizes(forth.names, sizes)
    ensures Rounds(back, forth, layers, dims, sizes).Valid()
  {
    hide Matched, Paired, HasSizes, GoesBack, LayerOf;
    forall i: nat | i < dims * (2 * layers)
      ensures LayerOf(i, layers) < dims * layers
    {
      LayerBelow(i, layers, dims);
    }
  }

  /** Layer l of component d has two turns, one in each direction. */
  lemma Turns(layers: nat, d: nat, l: nat, i: nat)
    requires layers > 0 && l < layers
    ensures LayerOf(i, layers) == Pos(d, l, layers)
      <==> i == Pos(d, l, 2 * layers) || i == Pos(d, layers + l, 2 * layers)
    ensures i == Pos(d, l, 2 * layers) ==> GoesBack(i, layers)
    ensures i == Pos(d, layers + l, 2 * layers) ==> !GoesBack(i, layers)
  {
    hide Pos, LayerOf, GoesBack;
    var e, j := TurnIn(layers, i);
    TurnOf(layers, d, l, e, j);
  }

  lemma TurnIn(layers: nat, i: nat) returns (e: nat, j: nat)
    requires layers > 0
    ensures j < 2 * layers && i == Pos(e, j, 2 * layers) && (GoesBack(i, layers) <==> j < layers)
    ensures LayerOf(i, layers) == Pos(e, if j < layers then j else j - layers, layers)
  {
    e, j := i / (2 * layers), i % (2 * layers);
    PosOf(i, 2 * layers);
    HalfIs(j, layers);
    hide Pos;
  }

  lemma TurnOf(layers: nat, d: nat, l: nat, e: nat, j: nat)
    requires layers > 0 && l < layers && j < 2 * layers
    ensures Pos(e, if j < layers then j else j - layers, layers) == Pos(d, l, layers)
      <==> Pos(e, j, 2 * layers) == Pos(d, l, 2 * layers) || Pos(e, j, 2 * layers) == Pos(d, layers + l, 2 * layers)
    ensures Pos(e, j, 2 * layers) == Pos(d, l, 2 * layers) ==> j < layers
    ensures Pos(e, j, 2 * layers) == Pos(d, layers + l, 2 * layers) ==> j >= layers
  {
    hide Pos;
    var k := if j < layers then j else j - layers;
    if Pos(e, j, 2 * layers) == Pos(d, l, 2 * layers) {
      PosUnique(e, j, d, l, 2 * layers);
    }
    if Pos(e, j, 2 * layers) == Pos(d, layers + l, 2 * layers) {
      PosUnique(e, j, d, layers + l, 2 * layers);
    }
    if Pos(e, k, layers) == Pos(d, l, layers) {
      PosUnique(e, k, d, l, layers);
    }
  }

  lemma HalfIs(j: nat, n: nat)
    requires 0 < n && j < 2 * n
    ensures j % n == if j < n then j else j - n
  {
    if j >= n {
      assert j == 1 * n + (j - n);
    }
  }

  /** A component's layer after i exchanges: as before, after its reverse exchange, or after both. */
  lemma {:induction false} LayerAfter<T>(back: Network, forth: Network, layers: nat, dims: nat, sizes: seq<nat>,
                                         f: Fields<T>, d: nat, l: nat, i: nat)
    requires layers > 0 && d < dims && l < layers
    requires Rounds(back, forth, layers, dims, sizes).Valid() && IsStart(Rounds(back, forth, layers, dims, sizes), f)
    requires Pos(d, l, layers) < dims * layers && i <= dims * (2 * layers)
    requires Matched(back) && IsField(back, f[Pos(d, l, layers)])
    requires Matched(forth) && IsField(forth, Exchanged(back, f[Pos(d, l, layers)]))
    ensures var k := Pos(d, l, layers);
      After(Rounds(back, forth, layers, dims, sizes), f, i)[k]
      == if i <= Pos(d, l, 2 * layers) then f[k]
         else if i <= Pos(d, layers + l, 2 * layers) then Exchanged(back, f[k])
         else Exchanged(forth, Exchanged(back, f[k]))
  {
    hide Pos, LayerOf, GoesBack, Exchanged, Matched, Paired;
    if i > 0 {
      LayerAfter(back, forth, layers, dims, sizes, f, d, l, i - 1);
      Turns(layers, d, l, i - 1);
      TurnsInOrder(d, l, layers);
    }
  }

  lemma TurnsInOrder(d: nat, l: nat, layers: nat)
    ensures Pos(d, layers + l, 2 * layers) == Pos(d, l, 2 * layers) + layers
  {
  }

  /** In the end every layer of every component has been through both exchanges. */
  lemma LayerAtEnd<T>(back: Network, forth: Network, layers: nat, dims: nat, sizes: seq<nat>, f: Fields<T>, k: nat)
    requires layers > 0 && k < dims * layers
    requires Rounds(back, forth, layers, dims, sizes).Valid() && IsStart(Rounds(back, forth, layers, dims, sizes), f)
    requires Matched(back) && IsField(back, f[k])
    requires Matched(forth) && IsField(forth, Exchanged(back, f[k]))
    ensures After(Rounds(back, forth, layers, dims, sizes), f, dims * (2 * layers))[k]
         == Exchanged(forth, Exchanged(back, f[k]))
  {
    hide Pos, After, Exchanged, Matched, Paired;
    var d, l := k / layers, k % layers;
    PosOf(k, layers);
    QuotientBelow(k, layers, dims);
    LayerAfter(back, forth, layers, dims, sizes, f, d, l, dims * (2 * layers));
    PosBelow(d, layers + l, 2 * layers, dims);
    TurnsInOrder(d, l, layers);
  }

  // ----- mapVerticesToCells -----

  ghost function Sizes(vs: seq<View>): (sizes: seq<nat>)
    ensures |sizes| == |vs| && forall p :: 0 <= p < |vs| ==> sizes[p] == |vs[p].names|
  {
    seq(|vs|, p requires 0 <= p < |vs| => |vs[p].names|)
  }

  ghost function MapPlan(g: Mesh, vs: seq<View>, w: Network, layers: nat, dims: nat): (plan: Plan)
    requires AllViews(g, vs) && Numbered(g, vs) && HaloOf(g, vs, w) && Paired(w) && layers > 0
    ensures plan == Rounds(ReverseNetwork(g, vs), w, layers, dims, Sizes(vs)) && plan.Valid()
  {
    ReverseIsPaired(g, vs);
    HaloSize(g, vs, w);
    ReverseSizes(g, vs, w);
    RoundsValid(ReverseNetwork(g, vs), w, layers, dims, Sizes(vs));
    Rounds(ReverseNetwork(g, vs), w, layers, dims, Sizes(vs))
  }

  lemma ReverseSizes(g: Mesh, vs: seq<View>, w: Network)
    requires AllViews(g, vs) && HaloOf(g, vs, w)
    ensures HasSizes(ReverseNetwork(g, vs).names, Sizes(vs)) && HasSizes(w.names, Sizes(vs))
    ensures |w.lists| == |w.names| == |vs|
  {
  }

  /** What CellColumns.FillColumns leaves on a process whose vertices stand for the given cells. */
  ghost predicate ColumnsFilled<T>(s: Shape, cellOf: seq<int>, u: seq<T>, zero: T, cells: seq<T>) {
    && s.Valid() && |u| == s.dims * (s.vertices * s.layers) && |cells| == s.dims * (s.cells * s.layers)
    && |cellOf| == s.vertices
    && (forall b :: 0 <= b < |cellOf| ==>
          0 <= cellOf[b] < s.cells && Column(s, cells, cellOf[b]) == SolutionColumn(s, u, b))
    && forall c :: 0 <= c < s.cells && c !in cellOf ==> Column(s, cells, c) == ZeroColumn(s, zero)
  }

  /** Layer l of component d of all cells. */
  ghost function LayerField<T>(s: Shape, cells: seq<T>, d: nat, l: nat): (f: seq<T>)
    requires |cells| == s.dims * (s.cells * s.layers) && d < s.dims && l < s.layers
    ensures |f| == s.cells
  {
    seq(s.cells, c requires 0 <= c < s.cells => Column(s, cells, c)[d][l])
  }

  /** So each layer starts as the exchanges ask for, with the values of the processes' solutions. */
  lemma LayersAreFilled<T>(g: Mesh, vs: seq<View>, shapes: seq<Shape>, sols: seq<seq<T>>, zero: T, cells: seq<seq<T>>,
                           d: nat, l: nat) returns (u: seq<seq<T>>, f: seq<seq<T>>)
    requires AllViews(g, vs) && |shapes| == |sols| == |cells| == |vs|
    requires forall p :: 0 <= p < |vs| ==>
      && shapes[p].cells == |vs[p].names| && d < shapes[p].dims && l < shapes[p].layers
      && |cells[p]| == shapes[p].dims * (shapes[p].cells * shapes[p].layers)
      && ColumnsFilled(shapes[p], vs[p].local.touched, sols[p], zero, cells[p])
    ensures |f| == |u| == |vs| && forall p :: 0 <= p < |vs| ==> f[p] == LayerField(shapes[p], cells[p], d, l)
    ensures IsFilled(g, vs, u, zero, f)
    ensures forall p, b :: 0 <= p < |vs| && 0 <= b < |vs[p].local.touched| ==>
      && 0 <= vs[p].local.touched[b] < |u[p]| && shapes[p].SolutionAt(d, b, l) < |sols[p]|
      && u[p][vs[p].local.touched[b]] == sols[p][shapes[p].SolutionAt(d, b, l)]
  {
    hide AllViews;
    f := seq(|vs|, p requires 0 <= p < |vs| => LayerField(shapes[p], cells[p], d, l));
    u := f;
    forall p, b | 0 <= p < |vs| && 0 <= b < |vs[p].local.touched|
      ensures 0 <= vs[p].local.touched[b] < |u[p]| && shapes[p].SolutionAt(d, b, l) < |sols[p]|
      ensures u[p][vs[p].local.touched[b]] == sols[p][shapes[p].SolutionAt(d, b, l)]
    {
      SolutionBelow(shapes[p], d, b, l);
    }
  }

  /** v is what a cell is to get: the giver's value, or zero when no triangle touches it. */
  ghost predicate IsGiven<T>(g: Mesh, vs: seq<View>, u: seq<seq<T>>, zero: T, c: nat, v: T)
    requires IsMesh(g)
  {
    && c < |g.owner|
    && if !Touched(g, c) then v == zero
       else
         var r := Giver(g, c);
         && TriaBy(g, c, r) && r < |vs| && r < |u|
         && exists z :: 0 <= z < |vs[r].names| && z < |u[r]| && vs[r].names[z] == c && v == u[r][z]
  }

  /**
   * A process may begin an exchange before others have ended the one before. No run is stuck before all processes have
   * ended all exchanges, every run does come to that, and then any two copies of a cell are equal in all their values.
   */
  lemma CopiesAreEqualUnsynchronized<T>(g: Mesh, vs: seq<View>, w: Network, layers: nat, dims: nat, u: Fields<T>,
                                        zero: T, f: Fields<T>, moves: seq<Move>, s: System<T>,
                                        p: nat, x: nat, q: nat, y: nat)
    requires AllViews(g, vs) && Numbered(g, vs) && HaloOf(g, vs, w) && Paired(w) && layers > 0
    requires |f| == |u| == dims * layers && forall k :: 0 <= k < |f| ==> IsFilled(g, vs, u[k], zero, f[k])
    requires IsStart(MapPlan(g, vs, w, layers, dims), f)
    requires Follows(MapPlan(g, vs, w, layers, dims), Begin(MapPlan(g, vs, w, layers, dims), f), moves, s)
    requires p < |vs| && x < |vs[p].names| && q < |vs| && y < |vs[q].names| && vs[p].names[x] == vs[q].names[y]
    ensures |moves| <= AllMoves(MapPlan(g, vs, w, layers, dims), |vs|)
    ensures !AllDone(MapPlan(g, vs, w, layers, dims), s) ==>
      exists a :: Can(MapPlan(g, vs, w, layers, dims), s, a) && (a.Advance? ==> AllTaken(s, a.p))
    ensures AllDone(MapPlan(g, vs, w, layers, dims), s) ==>
      && |s.procs| == |vs| && |s.procs[p].field| == |s.procs[q].field| == dims * layers
      && forall k :: 0 <= k < dims * layers ==>
           && x < |s.procs[p].field[k]| && y < |s.procs[q].field[k]|
           && s.procs[p].field[k][x] == s.procs[q].field[k][y]
  {
    hide AllViews, Numbered, Exchanged, Matched, Paired, IsFilled, HaloOf, Follows, Begin, Can, AllMoves, AllTaken,
      ReverseNetwork, After;
    var plan := MapPlan(g, vs, w, layers, dims);
    PlanSize(g, vs, w, layers, dims);
    EveryRunOfPlan(plan, f, moves, s);
    if AllDone(plan, s) {
      forall k | 0 <= k < dims * layers
        ensures x < |s.procs[p].field[k]| && y < |s.procs[q].field[k]|
        ensures s.procs[p].field[k][x] == s.procs[q].field[k][y]
      {
        LayerEqual(g, vs, w, layers, dims, u, zero, f, k, p, x, q, y);
      }
    }
  }

  lemma PlanSize(g: Mesh, vs: seq<View>, w: Network, layers: nat, dims: nat)
    requires AllViews(g, vs) && Numbered(g, vs) && HaloOf(g, vs, w) && Paired(w) && layers > 0
    ensures var plan := MapPlan(g, vs, w, layers, dims);
      |plan.sizes| == dims * layers && |plan.ws| == dims * (2 * layers) && plan.procs == |vs|
  {
  }

  lemma LayerEqual<T>(g: Mesh, vs: seq<View>, w: Network, layers: nat, dims: nat, u: Fields<T>, zero: T, f: Fields<T>,
                      k: nat, p: nat, x: nat, q: nat, y: nat)
    requires AllViews(g, vs) && Numbered(g, vs) && HaloOf(g, vs, w) && Paired(w) && layers > 0
    requires k < |f| == |u| == dims * layers && IsFilled(g, vs, u[k], zero, f[k])
    requires IsStart(MapPlan(g, vs, w, layers, dims), f)
    requires p < |vs| && x < |vs[p].names| && q < |vs| && y < |vs[q].names| && vs[p].names[x] == vs[q].names[y]
    ensures |MapPlan(g, vs, w, layers, dims).ws| == dims * (2 * layers)
    ensures var r := After(MapPlan(g, vs, w, layers, dims), f, dims * (2 * layers));
      && k < |r| && p < |r[k]| && q < |r[k]| && x < |r[k][p]| && y < |r[k][q]| && r[k][p][x] == r[k][q][y]
  {
    hide AllViews, Numbered, Exchanged, Matched, Paired, IsFilled, HaloOf, ReverseNetwork, After;
    PlanSize(g, vs, w, layers, dims);
    ExchangedCopiesEqual(g, vs, w, u[k], zero, f[k], p, x, q, y);
    LayerAtEnd(ReverseNetwork(g, vs), w, layers, dims, Sizes(vs), f, k);
  }

  lemma LayerGiven<T>(g: Mesh, vs: seq<View>, w: Network, layers: nat, dims: nat, u: Fields<T>, zero: T, f: Fields<T>,
                      k: nat, p: nat, x: nat)
    requires AllViews(g, vs) && Numbered(g, vs) && HaloOf(g, vs, w) && Paired(w) && layers > 0
    requires k < |f| == |u| == dims * layers && IsFilled(g, vs, u[k], zero, f[k])
    requires IsStart(MapPlan(g, vs, w, layers, dims), f) && p < |vs| && x < |vs[p].names|
    ensures |MapPlan(g, vs, w, layers, dims).ws| == dims * (2 * layers)
    ensures var r := After(MapPlan(g, vs, w, layers, dims), f, dims * (2 * layers));
      k < |r| && p < |r[k]| && x < |r[k][p]| && IsGiven(g, vs, u[k], zero, vs[p].names[x], r[k][p][x])
  {
    hide Numbered, Exchanged, Matched, Paired, HaloOf, ReverseNetwork, After, Giver, TriaBy, Touched, IsView;
    PlanSize(g, vs, w, layers, dims);
    HaloSize(g, vs, w);
    var z := AllCopiesAgree(g, vs, w, u[k], zero, f[k], p, x);
    LayerAtEnd(ReverseNetwork(g, vs), w, layers, dims, Sizes(vs), f, k);
  }

  /** And each copy then has, in every layer of every component, the value of the cell's owner if the owner has a
      triangle on it, else of the greatest rank that has, else zero. */
  lemma CopiesAreGivenUnsynchronized<T>(g: Mesh, vs: seq<View>, w: Network, layers: nat, dims: nat, u: Fields<T>,
                                        zero: T, f: Fields<T>, moves: seq<Move>, s: System<T>, p: nat, x: nat)
    requires AllViews(g, vs) && Numbered(g, vs) && HaloOf(g, vs, w) && Paired(w) && layers > 0
    requires |f| == |u| == dims * layers && forall k :: 0 <= k < |f| ==> IsFilled(g, vs, u[k], zero, f[k])
    requires IsStart(MapPlan(g, vs, w, layers, dims), f)
    requires Follows(MapPlan(g, vs, w, layers, dims), Begin(MapPlan(g, vs, w, layers, dims), f), moves, s)
    requires AllDone(MapPlan(g, vs, w, layers, dims), s) && p < |vs| && x < |vs[p].names|
    ensures |s.procs| == |vs| && |s.procs[p].field| == dims * layers
    ensures forall k :: 0 <= k < dims * layers ==>
      x < |s.procs[p].field[k]| && IsGiven(g, vs, u[k], zero, vs[p].names[x], s.procs[p].field[k][x])
  {
    hide Numbered, Exchanged, Matched, Paired, IsFilled, HaloOf, Follows, Begin, Can, AllMoves, AllTaken,
      ReverseNetwork, After, IsGiven, IsView;
    PlanSize(g, vs, w, layers, dims);
    EveryRunOfPlan(MapPlan(g, vs, w, layers, dims), f, moves, s);
    forall k | 0 <= k < dims * layers
      ensures x < |s.procs[p].field[k]| && IsGiven(g, vs, u[k], zero, vs[p].names[x], s.procs[p].field[k][x])
    {
      LayerGiven(g, vs, w, layers, dims, u, zero, f, k, p, x);
    }
  }
}
