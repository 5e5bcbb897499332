/**
 * Copying a solution from the vertices of the triangle mesh to the cells
 * (mapVerticesToCells of src/core_landice/mode_forward/Interface_velocity_solver.cpp).
 * A cell's values are its column: for every component, one value a layer.
 */
module CellColumns {
  import opened Basics

  /** The place of the b-th of n things in the a-th row of them. */
  function Pos(a: nat, b: nat, n: nat): nat { a * n + b }

  lemma PosBelow(a: nat, b: nat, n: nat, rows: nat)
    requires a < rows && b < n
    ensures Pos(a, b, n) < rows * n
  {
    ProductRow(a, rows, n);
  }

  lemma PosLess(a: nat, b: nat, a': nat, b': nat, n: nat)
    requires a < a' && b < n
    ensures Pos(a, b, n) < Pos(a', b', n)
  {
    ProductRow(a, a', n);
  }

  lemma PosUnique(a: nat, b: nat, a': nat, b': nat, n: nat)
    requires b < n && b' < n && Pos(a, b, n) == Pos(a', b', n)
    ensures a == a' && b == b'
  {
    if a < a' {
      PosLess(a, b, a', b', n);
    } else if a' < a {
      PosLess(a', b', a, b, n);
    }
  }

  lemma PosOf(j: nat, n: nat)
    requires n > 0
    ensures Pos(j / n, j % n, n) == j
  {
  }

  /** The sizes: cells, vertices of the triangle mesh, values in a column, components, and the order of the solution. */
  datatype Shape = Shape(cells: nat, vertices: nat, layers: nat, dims: nat, ordering: int) {
    predicate Valid() { layers > 0 && (ordering == 0 || ordering == 1) }

    /** The place of layer l of component d of cell c. */
    function CellAt(d: nat, c: nat, l: nat): nat { Pos(d, Pos(c, l, layers), cells * layers) }

    /** The place of layer l of vertex b in a component of the solution: by layers, or by columns. */
    function VertexAt(b: nat, l: nat): nat { if ordering == 0 then Pos(l, b, vertices) else Pos(b, l, layers) }

    /** And in the solution. */
    function SolutionAt(d: nat, b: nat, l: nat): nat { Pos(d, VertexAt(b, l), vertices * layers) }

    /** The vertex and the layer of the loop's index. */
    function LoopVertex(j: nat): nat
      requires Valid() && vertices > 0
    {
      (if ordering == 0 then j % vertices else 0) + if ordering == 1 then j / layers else 0
    }

    function LoopLayer(j: nat): nat
      requires Valid() && vertices > 0
    {
      (if ordering == 0 then j / vertices else 0) + if ordering == 1 then j % layers else 0
    }

    predicate InCells(d: nat, c: nat, l: nat) { d < dims && c < cells && l < layers }
  }

  /** In a column of a cell the layers are next to each other, then come the next cell and the next component. In the
      solution the vertices of a layer are next to each other with ordering 0, the layers of a vertex with 1. */
  lemma PlacesFollow(s: Shape, d: nat, c: nat, b: nat, l: nat)
    requires s.Valid()
    ensures s.CellAt(0, 0, 0) == 0 && s.CellAt(d, c, l + 1) == s.CellAt(d, c, l) + 1
    ensures s.CellAt(d, c + 1, l) == s.CellAt(d, c, l) + s.layers
    ensures s.CellAt(d + 1, c, l) == s.CellAt(d, c, l) + s.cells * s.layers
    ensures s.SolutionAt(0, 0, 0) == 0
    ensures s.SolutionAt(d, b + 1, l) == s.SolutionAt(d, b, l) + if s.ordering == 0 then 1 else s.layers
    ensures s.SolutionAt(d, b, l + 1) == s.SolutionAt(d, b, l) + if s.ordering == 0 then s.vertices else 1
    ensures s.SolutionAt(d + 1, b, l) == s.SolutionAt(d, b, l) + s.vertices * s.layers
  {
    hide Pos;
    NextPlaces(s, d, c, b, l);
    NextRow(c, l, s.layers);
    NextRow(l, b, s.vertices);
    NextRow(b, l, s.layers);
    Shifted(c, l, 1, s.layers);
    Shifted(b, l, 1, s.layers);
    Shifted(l, b, 1, s.vertices);
    Shifted(d, Pos(c, l, s.layers), 1, s.cells * s.layers);
    Shifted(d, Pos(c, l, s.layers), s.layers, s.cells * s.layers);
    Shifted(d, s.VertexAt(b, l), if s.ordering == 0 then 1 else s.layers, s.vertices * s.layers);
    Shifted(d, s.VertexAt(b, l), if s.ordering == 0 then s.vertices else 1, s.vertices * s.layers);
    AtZero(s.layers);
    AtZero(s.vertices);
    AtZero(s.cells * s.layers);
    AtZero(s.vertices * s.layers);
  }

  lemma Shifted(a: nat, b: nat, m: nat, n: nat)
    ensures Pos(a, b + m, n) == Pos(a, b, n) + m
  {
  }

  lemma AtZero(n: nat)
    ensures Pos(0, 0, n) == 0
  {
  }

  lemma CellBelow(s: Shape, d: nat, c: nat, l: nat)
    requires s.InCells(d, c, l)
    ensures s.CellAt(d, c, l) < s.dims * (s.cells * s.layers)
  {
    PosBelow(c, l, s.layers, s.cells);
    PosBelow(d, Pos(c, l, s.layers), s.cells * s.layers, s.dims);
  }

  lemma CellUnique(s: Shape, d: nat, c: nat, l: nat, d': nat, c': nat, l': nat)
    requires s.InCells(d, c, l) && s.InCells(d', c', l') && s.CellAt(d, c, l) == s.CellAt(d', c', l')
    ensures d == d' && c == c' && l == l'
  {
    PosBelow(c, l, s.layers, s.cells);
    PosBelow(c', l', s.layers, s.cells);
    PosUnique(d, Pos(c, l, s.layers), d', Pos(c', l', s.layers), s.cells * s.layers);
    PosUnique(c, l, c', l', s.layers);
  }

  lemma SolutionBelow(s: Shape, d: nat, b: nat, l: nat)
    requires s.Valid() && d < s.dims && b < s.vertices && l < s.layers
    ensures s.VertexAt(b, l) < s.vertices * s.layers
    ensures s.SolutionAt(d, b, l) < s.dims * (s.vertices * s.layers)
  {
    if s.ordering == 0 {
      PosBelow(l, b, s.vertices, s.layers);
    } else {
      PosBelow(b, l, s.layers, s.vertices);
    }
    PosBelow(d, s.VertexAt(b, l), s.vertices * s.layers, s.dims);
  }

  lemma VertexUnique(s: Shape, b: nat, l: nat, b': nat, l': nat)
    requires s.Valid() && b < s.vertices && l < s.layers && b' < s.vertices && l' < s.layers
    requires s.VertexAt(b, l) == s.VertexAt(b', l')
    ensures b == b' && l == l'
  {
    if s.ordering == 0 {
      PosUnique(l, b, l', b', s.vertices);
    } else {
      PosUnique(b, l, b', l', s.layers);
    }
  }

  /** The loop passes every layer of every vertex at its place in the solution. */
  lemma LoopPlace(s: Shape, j: nat)
    requires s.Valid() && j < s.vertices * s.layers
    ensures s.vertices > 0 && s.LoopVertex(j) < s.vertices && s.LoopLayer(j) < s.layers
    ensures s.VertexAt(s.LoopVertex(j), s.LoopLayer(j)) == j
  {
    assert s.vertices > 0;
    if s.ordering == 0 {
      PosOf(j, s.vertices);
      QuotientBelow(j, s.vertices, s.layers);
    } else {
      PosOf(j, s.layers);
      QuotientBelow(j, s.layers, s.vertices);
    }
  }

  lemma QuotientBelow(j: nat, n: nat, rows: nat)
    requires n > 0 && j < rows * n
    ensures j / n < rows
  {
    if j / n >= rows {
      PosOf(j, n);
      ProductGrows(rows, j / n, n);
    }
  }

  ghost function Column<T>(s: Shape, cells: seq<T>, c: nat): (col: seq<seq<T>>)
    requires |cells| == s.dims * (s.cells * s.layers) && c < s.cells
  {
    forall d: nat, l: nat | d < s.dims && l < s.layers
      ensures s.CellAt(d, c, l) < |cells|
    {
      CellBelow(s, d, c, l);
    }
    seq(s.dims, d requires 0 <= d < s.dims =>
      seq(s.layers, l requires 0 <= l < s.layers => cells[s.CellAt(d, c, l)]))
  }

  ghost function SolutionColumn<T>(s: Shape, u: seq<T>, b: nat): (col: seq<seq<T>>)
    requires s.Valid() && |u| == s.dims * (s.vertices * s.layers) && b < s.vertices
  {
    forall d: nat, l: nat | d < s.dims && l < s.layers
      ensures s.SolutionAt(d, b, l) < |u|
    {
      SolutionBelow(s, d, b, l);
    }
    seq(s.dims, d requires 0 <= d < s.dims =>
      seq(s.layers, l requires 0 <= l < s.layers => u[s.SolutionAt(d, b, l)]))
  }

  ghost function ZeroColumn<T>(s: Shape, zero: T): seq<seq<T>> {
    seq(s.dims, d => seq(s.layers, l => zero))
  }

  // ----- the loop -----

  /** What layer l of component d of cell c holds once the loop has come to index j: the value of its vertex, if the
      cell has one and the loop has passed it. */
  ghost predicate Holds<T>(s: Shape, cellOf: seq<nat>, u: seq<T>, zero: T, j: nat, dim: nat, cells: seq<T>,
                           d: nat, c: nat, l: nat)
    requires s.Valid() && |u| == s.dims * (s.vertices * s.layers) && |cellOf| == s.vertices
    requires s.InCells(d, c, l) && |cells| == s.dims * (s.cells * s.layers)
  {
    CellBelow(s, d, c, l);
    var v := cells[s.CellAt(d, c, l)];
    && (c !in cellOf ==> v == zero)
    && forall b: nat :: b < s.vertices && cellOf[b] == c ==>
         (SolutionBelow(s, d, b, l);
          v == if s.VertexAt(b, l) < j || (s.VertexAt(b, l) == j && d < dim) then u[s.SolutionAt(d, b, l)] else zero)
  }

  ghost predicate AllHold<T>(s: Shape, cellOf: seq<nat>, u: seq<T>, zero: T, j: nat, dim: nat, cells: seq<T>)
    requires s.Valid() && |u| == s.dims * (s.vertices * s.layers) && |cellOf| == s.vertices
  {
    && |cells| == s.dims * (s.cells * s.layers)
    && forall d: nat, c: nat, l: nat :: s.InCells(d, c, l) ==> Holds(s, cellOf, u, zero, j, dim, cells, d, c, l)
  }

  /** One assignment of the inner loop. */
  lemma WriteHolds<T>(s: Shape, cellOf: seq<nat>, u: seq<T>, zero: T, j: nat, dim: nat, before: seq<T>, after: seq<T>,
                      b: nat, l: nat)
    requires s.Valid() && |u| == s.dims * (s.vertices * s.layers) && |cellOf| == s.vertices && NoRepeats(cellOf)
    requires b < s.vertices && l < s.layers && s.VertexAt(b, l) == j && cellOf[b] < s.cells && dim < s.dims
    requires AllHold(s, cellOf, u, zero, j, dim, before)
    requires s.CellAt(dim, cellOf[b], l) < |before| && s.SolutionAt(dim, b, l) < |u|
    requires after == before[s.CellAt(dim, cellOf[b], l) := u[s.SolutionAt(dim, b, l)]]
    ensures AllHold(s, cellOf, u, zero, j, dim + 1, after)
  {
    forall d: nat, c: nat, k: nat | s.InCells(d, c, k)
      ensures Holds(s, cellOf, u, zero, j, dim + 1, after, d, c, k)
    {
      WriteHoldsAt(s, cellOf, u, zero, j, dim, before, after, b, l, d, c, k);
    }
  }

  lemma WriteHoldsAt<T>(s: Shape, cellOf: seq<nat>, u: seq<T>, zero: T, j: nat, dim: nat, before: seq<T>,
                        after: seq<T>, b: nat, l: nat, d: nat, c: nat, k: nat)
    requires s.Valid() && |u| == s.dims * (s.vertices * s.layers) && |cellOf| == s.vertices && NoRepeats(cellOf)
    requires b < s.vertices && l < s.layers && s.VertexAt(b, l) == j && cellOf[b] < s.cells && dim < s.dims
    requires s.InCells(d, c, k) && |before| == s.dims * (s.cells * s.layers)
    requires Holds(s, cellOf, u, zero, j, dim, before, d, c, k)
    requires s.CellAt(dim, cellOf[b], l) < |before| && s.SolutionAt(dim, b, l) < |u|
    requires after == before[s.CellAt(dim, cellOf[b], l) := u[s.SolutionAt(dim, b, l)]]
    ensures Holds(s, cellOf, u, zero, j, dim + 1, after, d, c, k)
  {
    CellBelow(s, d, c, k);
    hide Shape.CellAt, Shape.VertexAt, Shape.SolutionAt;
    if s.CellAt(d, c, k) == s.CellAt(dim, cellOf[b], l) {
      CellUnique(s, d, c, k, dim, cellOf[b], l);
    }
    forall b': nat | b' < s.vertices && cellOf[b'] == c && s.VertexAt(b', k) == j
      ensures b' == b && k == l
    {
      VertexUnique(s, b', k, b, l);
    }
  }

  lemma NextHolds<T>(s: Shape, cellOf: seq<nat>, u: seq<T>, zero: T, j: nat, cells: seq<T>)
    requires s.Valid() && |u| == s.dims * (s.vertices * s.layers) && |cellOf| == s.vertices
    requires AllHold(s, cellOf, u, zero, j, s.dims, cells)
    ensures AllHold(s, cellOf, u, zero, j + 1, 0, cells)
  {
    hide Shape.CellAt, Shape.VertexAt, Shape.SolutionAt;
    forall d: nat, c: nat, l: nat | s.InCells(d, c, l)
      ensures Holds(s, cellOf, u, zero, j + 1, 0, cells, d, c, l)
    {
      assert Holds(s, cellOf, u, zero, j, s.dims, cells, d, c, l);
    }
  }

  /** Fills the cells with zeros, and then copies every vertex's values to its cell. */
  method FillColumns<T>(s: Shape, cellOf: seq<nat>, u: seq<T>, zero: T) returns (cells: array<T>)
    requires s.Valid() && |u| == s.dims * (s.vertices * s.layers)
    requires |cellOf| == s.vertices && NoRepeats(cellOf) && forall b :: 0 <= b < |cellOf| ==> cellOf[b] < s.cells
    ensures fresh(cells) && cells.Length == s.dims * (s.cells * s.layers)
    ensures forall b :: 0 <= b < |cellOf| ==> Column(s, cells[..], cellOf[b]) == SolutionColumn(s, u, b)
    ensures forall c :: 0 <= c < s.cells && c !in cellOf ==> Column(s, cells[..], c) == ZeroColumn(s, zero)
  {
    hide AllHold, Column, SolutionColumn, ZeroColumn, Pos, Shape.CellAt, Shape.VertexAt, Shape.SolutionAt;
    hide Shape.LoopVertex, Shape.LoopLayer;
    cells := new T[s.dims * (s.cells * s.layers)](i => zero);
    ZerosHold(s, cellOf, u, zero, cells[..]);
    var n3 := s.vertices * s.layers;
    for j := 0 to n3
      invariant AllHold(s, cellOf, u, zero, j, 0, cells[..])
    {
      LoopPlace(s, j);
      CopyVertex(s, cellOf, u, zero, j, s.LoopVertex(j), s.LoopLayer(j), cells);
      NextHolds(s, cellOf, u, zero, j, cells[..]);
    }
    ColumnsAre(s, cellOf, u, zero, cells[..]);
  }

  /** The inner loop: all components of one layer of a vertex. */
  method CopyVertex<T>(s: Shape, cellOf: seq<nat>, u: seq<T>, ghost zero: T, j: nat, ib: nat, il: nat, cells: array<T>)
    requires s.Valid() && |u| == s.dims * (s.vertices * s.layers)
    requires |cellOf| == s.vertices && NoRepeats(cellOf) && forall b :: 0 <= b < |cellOf| ==> cellOf[b] < s.cells
    requires ib < s.vertices && il < s.layers && s.VertexAt(ib, il) == j
    requires AllHold(s, cellOf, u, zero, j, 0, cells[..])
    modifies cells
    ensures AllHold(s, cellOf, u, zero, j, s.dims, cells[..])
  {
    hide AllHold, Pos, Shape.CellAt, Shape.VertexAt, Shape.SolutionAt;
    FirstPlaces(s, cellOf[ib], ib, il);
    var cellIndex, vertexIndex := cellOf[ib] * s.layers + il, j;
    for dim := 0 to s.dims
      invariant AllHold(s, cellOf, u, zero, j, dim, cells[..])
      invariant cellIndex == s.CellAt(dim, cellOf[ib], il) && vertexIndex == s.SolutionAt(dim, ib, il)
    {
      CellBelow(s, dim, cellOf[ib], il);
      SolutionBelow(s, dim, ib, il);
      LengthIs(s, cellOf, u, zero, j, dim, cells[..]);
      ghost var before := cells[..];
      cells[cellIndex] := u[vertexIndex];
      WriteHolds(s, cellOf, u, zero, j, dim, before, cells[..], ib, il);
      NextPlaces(s, dim, cellOf[ib], ib, il);
      cellIndex := cellIndex + s.cells * s.layers;
      vertexIndex := vertexIndex + s.vertices * s.layers;
    }
  }

  lemma FirstPlaces(s: Shape, c: nat, b: nat, l: nat)
    ensures s.CellAt(0, c, l) == c * s.layers + l && s.SolutionAt(0, b, l) == s.VertexAt(b, l)
  {
  }

  lemma NextPlaces(s: Shape, d: nat, c: nat, b: nat, l: nat)
    ensures s.CellAt(d + 1, c, l) == s.CellAt(d, c, l) + s.cells * s.layers
    ensures s.SolutionAt(d + 1, b, l) == s.SolutionAt(d, b, l) + s.vertices * s.layers
  {
    NextRow(d, Pos(c, l, s.layers), s.cells * s.layers);
    NextRow(d, s.VertexAt(b, l), s.vertices * s.layers);
  }

  lemma NextRow(a: nat, b: nat, n: nat)
    ensures Pos(a + 1, b, n) == Pos(a, b, n) + n
  {
    assert (a + 1) * n == a * n + n;
  }

  lemma LengthIs<T>(s: Shape, cellOf: seq<nat>, u: seq<T>, zero: T, j: nat, dim: nat, cells: seq<T>)
    requires s.Valid() && |u| == s.dims * (s.vertices * s.layers) && |cellOf| == s.vertices
    requires AllHold(s, cellOf, u, zero, j, dim, cells)
    ensures |cells| == s.dims * (s.cells * s.layers)
  {
  }

  lemma ZerosHold<T>(s: Shape, cellOf: seq<nat>, u: seq<T>, zero: T, cells: seq<T>)
    requires s.Valid() && |u| == s.dims * (s.vertices * s.layers) && |cellOf| == s.vertices
    requires |cells| == s.dims * (s.cells * s.layers) && forall i :: 0 <= i < |cells| ==> cells[i] == zero
    ensures AllHold(s, cellOf, u, zero, 0, 0, cells)
  {
    hide Shape.CellAt, Shape.VertexAt, Shape.SolutionAt;
    forall d: nat, c: nat, l: nat | s.InCells(d, c, l)
      ensures Holds(s, cellOf, u, zero, 0, 0, cells, d, c, l)
    {
      CellBelow(s, d, c, l);
    }
  }

  lemma ColumnsAre<T>(s: Shape, cellOf: seq<nat>, u: seq<T>, zero: T, cells: seq<T>)
    requires s.Valid() && |u| == s.dims * (s.vertices * s.layers)
    requires |cellOf| == s.vertices && forall b :: 0 <= b < |cellOf| ==> cellOf[b] < s.cells
    requires AllHold(s, cellOf, u, zero, s.vertices * s.layers, 0, cells)
    ensures |cells| == s.dims * (s.cells * s.layers)
    ensures forall b :: 0 <= b < |cellOf| ==> Column(s, cells, cellOf[b]) == SolutionColumn(s, u, b)
    ensures forall c :: 0 <= c < s.cells && c !in cellOf ==> Column(s, cells, c) == ZeroColumn(s, zero)
  {
    hide Shape.CellAt, Shape.VertexAt, Shape.SolutionAt;
    forall b | 0 <= b < |cellOf|
      ensures Column(s, cells, cellOf[b]) == SolutionColumn(s, u, b)
    {
      forall d: nat, l: nat | d < s.dims && l < s.layers
        ensures Column(s, cells, cellOf[b])[d][l] == SolutionColumn(s, u, b)[d][l]
      {
        SolutionBelow(s, d, b, l);
        assert Holds(s, cellOf, u, zero, s.vertices * s.layers, 0, cells, d, cellOf[b], l);
      }
      SameColumns(Column(s, cells, cellOf[b]), SolutionColumn(s, u, b), s.dims, s.layers);
    }
    forall c | 0 <= c < s.cells && c !in cellOf
      ensures Column(s, cells, c) == ZeroColumn(s, zero)
    {
      forall d: nat, l: nat | d < s.dims && l < s.layers
        ensures Column(s, cells, c)[d][l] == zero
      {
        assert Holds(s, cellOf, u, zero, s.vertices * s.layers, 0, cells, d, c, l);
      }
      SameColumns(Column(s, cells, c), ZeroColumn(s, zero), s.dims, s.layers);
    }
  }

  lemma SameColumns<T>(a: seq<seq<T>>, b: seq<seq<T>>, dims: nat, layers: nat)
    requires |a| == |b| == dims && forall d :: 0 <= d < dims ==> |a[d]| == |b[d]| == layers
    requires forall d: nat, l: nat :: d < dims && l < layers ==> a[d][l] == b[d][l]
    ensures a == b
  {
    forall d | 0 <= d < dims
      ensures a[d] == b[d]
    {
    }
  }
}
