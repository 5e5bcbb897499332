/**
 * Splitting the prisms of the extruded mesh into tetrahedra
 * (src/core_landice/mode_forward/Interface_velocity_solver.cpp).
 * The places 0, 1, 2 are the bottom of a prism, and 3, 4, 5 the top above them.
 */
module Prism {
  import opened Basics

  /** PrismVerticesMap: the prism turned so that the given place comes first. */
  const TURNED: seq<seq<nat>> :=
    [[0, 1, 2, 3, 4, 5], [1, 2, 0, 4, 5, 3], [2, 0, 1, 5, 3, 4],
     [3, 5, 4, 0, 2, 1], [4, 3, 5, 1, 0, 2], [5, 4, 3, 2, 1, 0]]

  /** tetraOfPrism: the two ways to split a turned prism. */
  const SPLITS: seq<seq<seq<nat>>> :=
    [[[0, 1, 2, 5], [0, 1, 5, 4], [0, 4, 5, 3]], [[0, 1, 2, 4], [0, 4, 2, 5], [0, 4, 5, 3]]]

  predicate Distinct(ids: seq<int>)
    requires |ids| == 3
  {
    ids[0] != ids[1] && ids[0] != ids[2] && ids[1] != ids[2]
  }

  /** The place of the first smallest ID. */
  function MinPlace(ids: seq<int>): (m: nat)
    requires |ids| == 3
    ensures m < 3 && forall k :: 0 <= k < 3 ==> ids[m] <= ids[k] && (k < m ==> ids[m] < ids[k])
  {
    if ids[0] <= ids[1] && ids[0] <= ids[2] then 0 else if ids[1] <= ids[2] then 1 else 2
  }

  function Type(ids: seq<int>): (t: nat)
    requires |ids| == 3
    ensures t < 2
  {
    var m := MinPlace(ids);
    if ToInt(ids[TURNED[m][1]]) > ToInt(ids[TURNED[m][2]]) then 1 else 0
  }

  /** The place in the prism of a corner of a tetrahedron. */
  function Corner(ids: seq<int>, k: nat, v: nat): (c: nat)
    requires |ids| == 3 && k < 3 && v < 4
    ensures c < 6
  {
    TURNED[MinPlace(ids)][SPLITS[Type(ids)][k][v]]
  }

  /** prismType */
  method PrismType(ids: array<int>) returns (t: nat, minIndex: nat)
    requires ids.Length == 3
    ensures minIndex == MinPlace(ids[..]) && t == Type(ids[..])
  {
    minIndex := 0;
    for i := 1 to 3
      invariant minIndex < i && forall k :: 0 <= k < i ==> ids[minIndex] <= ids[k]
      invariant forall k :: 0 <= k < minIndex ==> ids[minIndex] < ids[k]
    {
      if ids[i] < ids[minIndex] {
        minIndex := i;
      }
    }
    var v1, v2 := ToInt(ids[TURNED[minIndex][1]]), ToInt(ids[TURNED[minIndex][2]]);
    t := if v1 > v2 then 1 else 0;
  }

  /** tetrasFromPrismStructured: gids are the six global IDs of the prism. */
  method TetrasFromPrismStructured(ids: array<int>, gids: array<int>, tetras: array2<int>)
    requires ids.Length == 3 && gids.Length == 6 && tetras.Length0 == 3 && tetras.Length1 == 4
    requires tetras as object != ids && tetras as object != gids
    modifies tetras
    ensures forall k, v :: 0 <= k < 3 && 0 <= v < 4 ==> tetras[k, v] == gids[Corner(ids[..], k, v)]
  {
    hide MinPlace, Type;
    var prismT, minIndex := PrismType(ids);
    var reordered := new int[6];
    for ii := 0 to 6
      invariant forall k :: 0 <= k < ii ==> reordered[k] == gids[TURNED[minIndex][k]]
    {
      reordered[ii] := gids[TURNED[minIndex][ii]];
    }
    for iTetra := 0 to 3
      invariant forall k :: 0 <= k < 6 ==> reordered[k] == gids[TURNED[minIndex][k]]
      invariant forall k, v :: 0 <= k < iTetra && 0 <= v < 4 ==> tetras[k, v] == gids[Corner(ids[..], k, v)]
    {
      for iVertex := 0 to 4
        invariant forall k :: 0 <= k < 6 ==> reordered[k] == gids[TURNED[minIndex][k]]
        invariant forall k, v :: 0 <= k < iTetra && 0 <= v < 4 ==> tetras[k, v] == gids[Corner(ids[..], k, v)]
        invariant forall v :: 0 <= v < iVertex ==> tetras[iTetra, v] == gids[Corner(ids[..], iTetra, v)]
      {
        tetras[iTetra, iVertex] := reordered[SPLITS[prismT][iTetra][iVertex]];
      }
    }
  }

  // ----- the cut of the faces -----

  predicate Among(a: nat, places: seq<nat>)
    requires |places| == 4
  {
    a == places[0] || a == places[1] || a == places[2] || a == places[3]
  }

  /** The corners of the k-th tetrahedron of the prism turned by m and split in way t. */
  function Places(m: nat, t: nat, k: nat): (p: seq<nat>)
    requires m < 3 && t < 2 && k < 3
    ensures |p| == 4
  {
    var q := SPLITS[t][k];
    [TURNED[m][q[0]], TURNED[m][q[1]], TURNED[m][q[2]], TURNED[m][q[3]]]
  }

  predicate InTetra(m: nat, t: nat, k: nat, a: nat, b: nat, c: nat)
    requires m < 3 && t < 2 && k < 3
  {
    Among(a, Places(m, t, k)) && Among(b, Places(m, t, k)) && Among(c, Places(m, t, k))
  }

  predicate InSome(m: nat, t: nat, a: nat, b: nat, c: nat)
    requires m < 3 && t < 2
  {
    InTetra(m, t, 0, a, b, c) || InTetra(m, t, 1, a, b, c) || InTetra(m, t, 2, a, b, c)
  }

  /** Three places of the prism make a triangle of the split. */
  predicate Together(ids: seq<int>, a: nat, b: nat, c: nat)
    requires |ids| == 3
  {
    InSome(MinPlace(ids), Type(ids), a, b, c)
  }

  /** The lateral face over i and j is cut once, from the bottom at i to the top at j. */
  predicate CutFrom(ids: seq<int>, i: nat, j: nat)
    requires |ids| == 3 && i < 3 && j < 3
  {
    && Together(ids, i, j + 3, j) && Together(ids, i, j + 3, i + 3)
    && !Together(ids, j, i + 3, i) && !Together(ids, j, i + 3, j + 3)
  }

  /** The two larger IDs compare as ints as they do in full. */
  predicate OrderKept(ids: seq<int>)
    requires |ids| == 3
  {
    var m := MinPlace(ids);
    var a, b := ids[TURNED[m][1]], ids[TURNED[m][2]];
    ToInt(a) > ToInt(b) <==> a > b
  }

  /** The two places of the unturned prism that a tetrahedron lacks. */
  function Lacks(t: nat, k: nat): (nat, nat)
    requires t < 2 && k < 3
  {
    if k == 2 then (1, 2)
    else if t == 0 then (if k == 0 then (3, 4) else (2, 3))
    else (if k == 0 then (3, 5) else (1, 3))
  }

  lemma LacksIs(m: nat, t: nat, k: nat, a: nat)
    requires m < 3 && t < 2 && k < 3 && a < 6
    ensures Among(TURNED[m][a], Places(m, t, k)) <==> a != Lacks(t, k).0 && a != Lacks(t, k).1
  {
    if k == 0 {
    } else if k == 1 {
    } else {
    }
  }

  predicate Clear(t: nat, k: nat, a: nat, b: nat, c: nat)
    requires t < 2 && k < 3
  {
    var l := Lacks(t, k);
    a != l.0 && a != l.1 && b != l.0 && b != l.1 && c != l.0 && c != l.1
  }

  lemma TurnedTetra(m: nat, t: nat, k: nat, a: nat, b: nat, c: nat)
    requires m < 3 && t < 2 && k < 3 && a < 6 && b < 6 && c < 6
    ensures InTetra(m, t, k, TURNED[m][a], TURNED[m][b], TURNED[m][c]) <==> Clear(t, k, a, b, c)
  {
    hide Among, Places, Lacks;
    LacksIs(m, t, k, a);
    LacksIs(m, t, k, b);
    LacksIs(m, t, k, c);
  }

  lemma TurnedSome(m: nat, t: nat, a: nat, b: nat, c: nat)
    requires m < 3 && t < 2 && a < 6 && b < 6 && c < 6
    ensures InSome(m, t, TURNED[m][a], TURNED[m][b], TURNED[m][c])
      <==> Clear(t, 0, a, b, c) || Clear(t, 1, a, b, c) || Clear(t, 2, a, b, c)
    ensures Count(m, t, TURNED[m][a], TURNED[m][b], TURNED[m][c]) == CountClear(t, a, b, c)
  {
    hide InTetra, Clear;
    TurnedTetra(m, t, 0, a, b, c);
    TurnedTetra(m, t, 1, a, b, c);
    TurnedTetra(m, t, 2, a, b, c);
  }

  /** The number of tetrahedra with all three corners. */
  function Count(m: nat, t: nat, a: nat, b: nat, c: nat): nat
    requires m < 3 && t < 2
  {
    (if InTetra(m, t, 0, a, b, c) then 1 else 0) + (if InTetra(m, t, 1, a, b, c) then 1 else 0)
    + (if InTetra(m, t, 2, a, b, c) then 1 else 0)
  }

  function CountClear(t: nat, a: nat, b: nat, c: nat): nat
    requires t < 2
  {
    (if Clear(t, 0, a, b, c) then 1 else 0) + (if Clear(t, 1, a, b, c) then 1 else 0)
    + (if Clear(t, 2, a, b, c) then 1 else 0)
  }

  predicate SameColumn(a: nat, b: nat) { a == b || a == b + 3 || b == a + 3 }

  lemma TurnedColumn(m: nat, a: nat, b: nat)
    requires m < 3 && a < 6 && b < 6
    ensures TURNED[m][a] < 6 && (TURNED[m][a] < 3 <==> a < 3)
    ensures a < 3 ==> TURNED[m][a + 3] == TURNED[m][a] + 3
    ensures SameColumn(TURNED[m][a], TURNED[m][b]) <==> SameColumn(a, b)
    ensures TURNED[m][a] == TURNED[m][b] <==> a == b
  {
  }

  /** The place that turning moves to a. */
  function Unturned(m: nat, a: nat): (b: nat)
    requires m < 3 && a < 6
    ensures b < 6 && TURNED[m][b] == a
  {
    if TURNED[m][0] == a then 0 else if TURNED[m][1] == a then 1 else if TURNED[m][2] == a then 2
    else if TURNED[m][3] == a then 3 else if TURNED[m][4] == a then 4 else 5
  }

  lemma CutTable(m: nat, t: nat, i: nat, j: nat)
    requires m < 3 && t < 2 && i < 3 && j < 3 && i != j
    ensures var down := i == m || (j != m && i == TURNED[m][if t == 0 then 1 else 2]);
      && (InSome(m, t, i, j + 3, j) <==> down) && (InSome(m, t, i, j + 3, i + 3) <==> down)
  {
    hide InSome, Unturned;
    var a, b := Unturned(m, i), Unturned(m, j);
    TurnedColumn(m, a, 0);
    TurnedColumn(m, b, 0);
    TurnedColumn(m, a, if t == 0 then 1 else 2);
    TurnedColumn(m, a, b);
    TurnedSome(m, t, a, b + 3, b);
    TurnedSome(m, t, a, b + 3, a + 3);
    CutUnturned(t, a, b);
  }

  lemma CutUnturned(t: nat, a: nat, b: nat)
    requires t < 2 && a < 3 && b < 3 && a != b
    ensures var down := a == 0 || (b != 0 && a == if t == 0 then 1 else 2);
      && (Clear(t, 0, a, b + 3, b) || Clear(t, 1, a, b + 3, b) || Clear(t, 2, a, b + 3, b) <==> down)
      && (Clear(t, 0, a, b + 3, a + 3) || Clear(t, 1, a, b + 3, a + 3) || Clear(t, 2, a, b + 3, a + 3) <==> down)
  {
  }

  /**
   * Every lateral face is cut from the bottom of its smaller-ID end to the top of its larger-ID end exactly when the
   * two larger IDs keep their order as ints, as they do when they fit.
   */
  lemma CutFromSmaller(ids: seq<int>)
    requires |ids| == 3 && Distinct(ids)
    ensures (forall i: nat, j: nat :: i < 3 && j < 3 && ids[i] < ids[j] ==> CutFrom(ids, i, j)) <==> OrderKept(ids)
    ensures (forall i :: 0 <= i < 3 ==> -0x8000_0000 <= ids[i] < 0x8000_0000) ==> OrderKept(ids)
  {
    hide InSome;
    var m, t := MinPlace(ids), Type(ids);
    forall i: nat, j: nat | i < 3 && j < 3 && ids[i] < ids[j]
      ensures CutFrom(ids, i, j) <==> i == m || i == TURNED[m][if t == 0 then 1 else 2]
    {
      CutTable(m, t, i, j);
      CutTable(m, t, j, i);
    }
    var a, b := TURNED[m][1], TURNED[m][2];
    if ids[a] < ids[b] {
      assert CutFrom(ids, a, b) <==> t == 0;
    } else {
      assert CutFrom(ids, b, a) <==> t == 1;
    }
  }

  /** The triangles, by global ID, that the split of a prism leaves on the lateral face over i and j. */
  function FaceTriangles(ids: seq<int>, gids: seq<int>, i: nat, j: nat): set<set<int>>
    requires |ids| == 3 && |gids| == 6 && i < 3 && j < 3
  {
    (if Together(ids, i, j + 3, j) then {{gids[i], gids[j + 3], gids[j]}} else {})
    + (if Together(ids, i, j + 3, i + 3) then {{gids[i], gids[j + 3], gids[i + 3]}} else {})
    + (if Together(ids, j, i + 3, i) then {{gids[j], gids[i + 3], gids[i]}} else {})
    + (if Together(ids, j, i + 3, j + 3) then {{gids[j], gids[i + 3], gids[j + 3]}} else {})
  }

  /** The lateral face over i and j runs from the bottom at i to the top at j: i has the first smallest ID, or neither
      has and the IDs compare so as ints. */
  predicate RunsUp(ids: seq<int>, i: nat, j: nat)
    requires |ids| == 3 && i < 3 && j < 3
  {
    var m := MinPlace(ids);
    i == m || (j != m && if i == TURNED[m][1] then ToInt(ids[i]) <= ToInt(ids[j]) else ToInt(ids[i]) < ToInt(ids[j]))
  }

  lemma CutAsItRuns(ids: seq<int>, i: nat, j: nat)
    requires |ids| == 3 && i < 3 && j < 3 && i != j
    ensures if RunsUp(ids, i, j) then CutFrom(ids, i, j) else CutFrom(ids, j, i)
  {
    hide InSome;
    CutTable(MinPlace(ids), Type(ids), i, j);
    CutTable(MinPlace(ids), Type(ids), j, i);
  }

  predicate FourCorners(gids: seq<int>, i: nat, j: nat)
    requires |gids| == 6 && i < 3 && j < 3
  {
    && gids[i] != gids[j] && gids[i] != gids[i + 3] && gids[i] != gids[j + 3]
    && gids[j] != gids[i + 3] && gids[j] != gids[j + 3] && gids[i + 3] != gids[j + 3]
  }

  /** Two prisms with a lateral face in common cut it into the same triangles exactly when both let it run the same way,
      wherever it is on each. */
  lemma SharedFacesAgree(ids: seq<int>, gids: seq<int>, i: nat, j: nat,
                         ids': seq<int>, gids': seq<int>, i': nat, j': nat)
    requires |ids| == 3 && |gids| == 6 && i < 3 && j < 3 && i != j
    requires |ids'| == 3 && |gids'| == 6 && i' < 3 && j' < 3 && i' != j'
    requires FourCorners(gids, i, j)
    requires gids[i] == gids'[i'] && gids[i + 3] == gids'[i' + 3]
    requires gids[j] == gids'[j'] && gids[j + 3] == gids'[j' + 3]
    ensures FaceTriangles(ids, gids, i, j) == FaceTriangles(ids', gids', i', j')
      <==> (RunsUp(ids, i, j) <==> RunsUp(ids', i', j'))
  {
    hide Together, RunsUp;
    CutAsItRuns(ids, i, j);
    CutAsItRuns(ids', i', j');
    if RunsUp(ids, i, j) != RunsUp(ids', i', j') {
      var up, down := {gids[i], gids[j + 3], gids[j]}, {gids[j], gids[i + 3], gids[i]};
      assert gids[j + 3] in up && gids[j + 3] !in down;
      assert gids[j + 3] !in {gids[j], gids[i + 3], gids[j + 3]} || gids[i] !in {gids[j], gids[i + 3], gids[j + 3]};
      assert (up in FaceTriangles(ids, gids, i, j)) != (up in FaceTriangles(ids', gids', i', j'));
    }
  }

  /** So they do when both keep the order of their larger IDs, as they do when all IDs fit. */
  lemma OrderedFacesAgree(ids: seq<int>, gids: seq<int>, i: nat, j: nat,
                          ids': seq<int>, gids': seq<int>, i': nat, j': nat)
    requires |ids| == 3 && |gids| == 6 && i < 3 && j < 3 && i != j && Distinct(ids) && OrderKept(ids)
    requires |ids'| == 3 && |gids'| == 6 && i' < 3 && j' < 3 && i' != j' && Distinct(ids') && OrderKept(ids')
    requires ids[i] == ids'[i'] && gids[i] == gids'[i'] && gids[i + 3] == gids'[i' + 3]
    requires ids[j] == ids'[j'] && gids[j] == gids'[j'] && gids[j + 3] == gids'[j' + 3]
    ensures FaceTriangles(ids, gids, i, j) == FaceTriangles(ids', gids', i', j')
  {
    hide Together, OrderKept;
    CutFromSmaller(ids);
    CutFromSmaller(ids');
    if ids[i] < ids[j] {
      assert CutFrom(ids, i, j) && CutFrom(ids', i', j');
    } else {
      assert CutFrom(ids, j, i) && CutFrom(ids', j', i');
    }
  }

  /** But two prisms with the face over the IDs 1 and 2^31 in common cut it differently: 1 is the smallest ID of the
      second, and 2^31 is negative as the int that the first compares with 1. */
  lemma WideIdsDisagree()
    ensures !OrderKept([0, 1, 0x8000_0000])
    ensures FaceTriangles([0, 1, 0x8000_0000], [10, 11, 12, 20, 21, 22], 1, 2)
         != FaceTriangles([1, 0x8000_0000, 5_000_000_000], [11, 12, 13, 21, 22, 23], 0, 1)
  {
    var ids, ids' := [0, 1, 0x8000_0000], [1, 0x8000_0000, 5_000_000_000];
    assert MinPlace(ids) == 0 && MinPlace(ids') == 0;
    assert !RunsUp(ids, 1, 2) && RunsUp(ids', 0, 1);
    SharedFacesAgree(ids, [10, 11, 12, 20, 21, 22], 1, 2, ids', [11, 12, 13, 21, 22, 23], 0, 1);
  }

  /** A triangle of places inside the prism: over three columns, and neither the bottom nor the top. */
  predicate IsInner(a: nat, b: nat, c: nat) {
    && !SameColumn(a, b) && !SameColumn(a, c) && !SameColumn(b, c)
    && !(a < 3 && b < 3 && c < 3) && !(a >= 3 && b >= 3 && c >= 3)
  }

  lemma UnturnedTriangles(t: nat, a: nat, b: nat, c: nat)
    requires t < 2 && a < 6 && b < 6 && c < 6 && a != b && a != c && b != c
    ensures CountClear(t, a, b, c) in {0, if IsInner(a, b, c) then 2 else 1}
  {
  }

  lemma TurnedInner(m: nat, a: nat, b: nat, c: nat)
    requires m < 3 && a < 6 && b < 6 && c < 6
    ensures IsInner(TURNED[m][a], TURNED[m][b], TURNED[m][c]) <==> IsInner(a, b, c)
    ensures TURNED[m][a] == TURNED[m][b] <==> a == b
  {
    hide SameColumn;
    TurnedColumn(m, a, b);
    TurnedColumn(m, a, c);
    TurnedColumn(m, b, c);
  }

  /**
   * The split is a conforming one: a triangle of a tetrahedron belongs to exactly two of them when it is inside the
   * prism and to one when it is on the boundary, and the bottom and the top are not cut.
   */
  lemma TrianglesMatch(ids: seq<int>, a: nat, b: nat, c: nat)
    requires |ids| == 3 && a < 6 && b < 6 && c < 6 && a != b && a != c && b != c
    ensures Count(MinPlace(ids), Type(ids), a, b, c) in {0, if IsInner(a, b, c) then 2 else 1}
    ensures Count(MinPlace(ids), Type(ids), 0, 1, 2) == 1 && Count(MinPlace(ids), Type(ids), 3, 4, 5) == 1
  {
    hide InTetra, Count, CountClear, IsInner, MinPlace, Type, Unturned, Clear;
    var m, t := MinPlace(ids), Type(ids);
    var a', b', c' := Unturned(m, a), Unturned(m, b), Unturned(m, c);
    UnturnedTriangles(t, a', b', c');
    TurnedSome(m, t, a', b', c');
    TurnedInner(m, a', b', c');
    EndsNotCut(t);
    TurnedSome(m, t, 0, 1, 2);
    TurnedSome(m, t, 3, 4, 5);
    CountRotates(m, t, 0, 1, 2);
    CountRotates(m, t, 3, 4, 5);
  }

  lemma CountRotates(m: nat, t: nat, a: nat, b: nat, c: nat)
    requires m < 3 && t < 2
    ensures Count(m, t, a, b, c) == Count(m, t, b, c, a) == Count(m, t, c, a, b)
  {
  }

  lemma EndsNotCut(t: nat)
    requires t < 2
    ensures CountClear(t, 0, 1, 2) == 1 && CountClear(t, 3, 4, 5) == 1
  {
  }

  // ----- volumes -----

  datatype Point = Point(x: real, y: real, z: real)

  /** Six times the signed volume of a tetrahedron. */
  function Volume6(a: Point, b: Point, c: Point, d: Point): real {
    var u, v, w := Minus(b, a), Minus(c, a), Minus(d, a);
    u.x * (v.y * w.z - v.z * w.y) - u.y * (v.x * w.z - v.z * w.x) + u.z * (v.x * w.y - v.y * w.x)
  }

  function Minus(p: Point, q: Point): Point { Point(p.x - q.x, p.y - q.y, p.z - q.z) }

  /** Twice the signed area of the projection of a triangle. */
  function Area2(a: Point, b: Point, c: Point): real {
    (b.x - a.x) * (c.y - a.y) - (b.y - a.y) * (c.x - a.x)
  }

  ghost predicate IsPrism(p: seq<Point>) {
    |p| == 6 && forall i :: 0 <= i < 3 ==> p[i + 3].x == p[i].x && p[i + 3].y == p[i].y
  }

  function Height(p: seq<Point>, i: nat): real
    requires |p| == 6 && i < 3
  {
    p[i + 3].z - p[i].z
  }

  function TetraVolume(ids: seq<int>, p: seq<Point>, k: nat): real
    requires |ids| == 3 && |p| == 6 && k < 3
  {
    Volume6(p[Corner(ids, k, 0)], p[Corner(ids, k, 1)], p[Corner(ids, k, 2)], p[Corner(ids, k, 3)]) / 6.0
  }

  /** A tetrahedron with a vertical edge from c to d. */
  lemma VerticalEdge(a: Point, b: Point, c: Point, d: Point)
    requires d.x == c.x && d.y == c.y
    ensures Volume6(a, b, c, d) == Area2(a, b, c) * (d.z - c.z)
  {
    var u, v, w := Minus(b, a), Minus(c, a), Minus(d, a);
    assert w.x == v.x && w.y == v.y;
    var h := d.z - c.z;
    assert w.z == v.z + h;
    calc {
      Volume6(a, b, c, d);
      u.x * (v.y * w.z - v.z * v.y) - u.y * (v.x * w.z - v.z * v.x) + u.z * (v.x * v.y - v.y * v.x);
      u.x * (v.y * h) - u.y * (v.x * h);
      (u.x * v.y - u.y * v.x) * h;
    }
  }

  /** Turning the first three corners keeps the volume. */
  lemma TurnedVolume(a: Point, b: Point, c: Point, d: Point)
    ensures Volume6(a, b, c, d) == Volume6(b, c, a, d) == Volume6(c, a, b, d)
  {
  }

  /** Seen from above, a triangle over the base has the area of the base. */
  lemma SameArea(a: Point, b: Point, c: Point, a': Point, b': Point, c': Point)
    requires a.x == a'.x && a.y == a'.y && b.x == b'.x && b.y == b'.y && c.x == c'.x && c.y == c'.y
    ensures Area2(a, b, c) == Area2(a', b', c') == Area2(b', c', a') == Area2(c', a', b')
  {
  }

  /** The column of the turned prism that the k-th tetrahedron stands over. */
  function Column(t: nat, k: nat): (c: nat)
    ensures c < 3
  {
    if k == 2 then 0 else if (k == 0) == (t == 0) then 2 else 1
  }

  lemma UnturnedVolume(t: nat, k: nat, r: seq<Point>)
    requires IsPrism(r) && t < 2 && k < 3
    ensures var q := SPLITS[t][k];
      Volume6(r[q[0]], r[q[1]], r[q[2]], r[q[3]]) == Area2(r[0], r[1], r[2]) * Height(r, Column(t, k))
  {
    hide Volume6, Area2;
    var q := SPLITS[t][k];
    var a, b, c, d := r[q[0]], r[q[1]], r[q[2]], r[q[3]];
    TurnedVolume(a, b, c, d);
    if k == 2 {
      VerticalEdge(b, c, a, d);
      SameArea(b, c, a, r[1], r[2], r[0]);
    } else if Column(t, k) == 2 {
      VerticalEdge(a, b, c, d);
      SameArea(a, b, c, r[0], r[1], r[2]);
    } else {
      VerticalEdge(c, a, b, d);
      SameArea(c, a, b, r[2], r[0], r[1]);
    }
  }

  /** The prism turned as the split turns it. */
  function TurnedPrism(ids: seq<int>, p: seq<Point>): (r: seq<Point>)
    requires |ids| == 3 && |p| == 6
    ensures |r| == 6
  {
    var q := TURNED[MinPlace(ids)];
    [p[q[0]], p[q[1]], p[q[2]], p[q[3]], p[q[4]], p[q[5]]]
  }

  lemma TurnedIsPrism(ids: seq<int>, p: seq<Point>)
    requires |ids| == 3 && IsPrism(p)
    ensures var r := TurnedPrism(ids, p);
      && IsPrism(r) && Area2(r[0], r[1], r[2]) == Area2(p[0], p[1], p[2])
      && Height(r, 0) + Height(r, 1) + Height(r, 2) == Height(p, 0) + Height(p, 1) + Height(p, 2)
    ensures forall i :: 0 <= i < 3 ==> Height(TurnedPrism(ids, p), i) == Height(p, (i + MinPlace(ids)) % 3)
  {
    hide Area2;
    SameArea(p[0], p[1], p[2], p[0], p[1], p[2]);
  }

  lemma OneVolume(ids: seq<int>, p: seq<Point>, k: nat)
    requires |ids| == 3 && IsPrism(p) && k < 3
    ensures TetraVolume(ids, p, k)
         == Area2(p[0], p[1], p[2]) * Height(TurnedPrism(ids, p), Column(Type(ids), k)) / 6.0
  {
    hide Volume6, Area2, Type, TurnedPrism, Height, TetraVolume;
    TurnedIsPrism(ids, p);
    UnturnedVolume(Type(ids), k, TurnedPrism(ids, p));
    TurnedCorner(ids, p, k);
  }

  /**
   * For a base that turns the right way and positive heights the three tetrahedra have positive volume, and together
   * that of the prism: the area of the base times the mean height.
   */
  lemma VolumeKept(ids: seq<int>, p: seq<Point>)
    requires |ids| == 3 && IsPrism(p)
    ensures TetraVolume(ids, p, 0) + TetraVolume(ids, p, 1) + TetraVolume(ids, p, 2)
         == Area2(p[0], p[1], p[2]) / 2.0 * (Height(p, 0) + Height(p, 1) + Height(p, 2)) / 3.0
    ensures Area2(p[0], p[1], p[2]) > 0.0 && (forall i :: 0 <= i < 3 ==> Height(p, i) > 0.0) ==>
      forall k :: 0 <= k < 3 ==> TetraVolume(ids, p, k) > 0.0
  {
    hide Volume6, Area2, Type, TetraVolume, Height, TurnedPrism;
    var r, t := TurnedPrism(ids, p), Type(ids);
    TurnedIsPrism(ids, p);
    var area, h := Area2(p[0], p[1], p[2]), Height(p, 0) + Height(p, 1) + Height(p, 2);
    OneVolume(ids, p, 0);
    OneVolume(ids, p, 1);
    OneVolume(ids, p, 2);
    Distributes3(area, Height(r, Column(t, 0)), Height(r, Column(t, 1)), Height(r, Column(t, 2)), h);
    if area > 0.0 && forall i :: 0 <= i < 3 ==> Height(p, i) > 0.0 {
      forall k: nat | k < 3
        ensures TetraVolume(ids, p, k) > 0.0
      {
        OneVolume(ids, p, k);
        PositiveProduct(area, Height(r, Column(t, k)));
      }
    }
  }

  lemma TurnedCorner(ids: seq<int>, p: seq<Point>, k: nat)
    requires |ids| == 3 && |p| == 6 && k < 3
    ensures var r, q := TurnedPrism(ids, p), SPLITS[Type(ids)][k];
      6.0 * TetraVolume(ids, p, k) == Volume6(r[q[0]], r[q[1]], r[q[2]], r[q[3]])
  {
    hide Volume6, Type, MinPlace;
  }

  lemma Distributes3(a: real, x: real, y: real, z: real, h: real)
    requires x + y + z == h
    ensures a * x / 6.0 + a * y / 6.0 + a * z / 6.0 == a / 2.0 * h / 3.0
  {
    assert a * x + a * y + a * z == a * h;
    assert a / 2.0 * h == a * h / 2.0;
  }

  lemma PositiveProduct(a: real, x: real)
    requires a > 0.0 && x > 0.0
    ensures a * x / 6.0 > 0.0
  {
  }
}
