/**
 * The reverse exchange lists of the land-ice interface: from the processes whose triangles touch a cell or an edge to
 * the process that owns it (src/core_landice/mode_forward/Interface_velocity_solver.cpp).
 */
module ReverseLists {
  import opened HaloExchange

  // ----- std::map: pairs in ascending order of their keys -----

  ghost predicate Ascending<T>(m: seq<(int, T)>) {
    forall i, j :: 0 <= i < j < |m| ==> m[i].0 < m[j].0
  }

  ghost predicate HasKey<T>(m: seq<(int, T)>, k: int) {
    exists i :: 0 <= i < |m| && m[i].0 == k
  }

  /** insert: a key that is there already keeps its value. */
  function Insert<T>(m: seq<(int, T)>, k: int, v: T): seq<(int, T)> {
    if m == [] || k < m[0].0 then [(k, v)] + m
    else if k == m[0].0 then m
    else [m[0]] + Insert(m[1..], k, v)
  }

  lemma KeysBehind<T>(m: seq<(int, T)>)
    requires m != []
    ensures forall x :: HasKey(m, x) <==> x == m[0].0 || HasKey(m[1..], x)
  {
    assert forall i :: 0 <= i < |m| - 1 ==> m[1..][i] == m[i + 1];
    forall x | HasKey(m, x) && x != m[0].0
      ensures HasKey(m[1..], x)
    {
      var i :| 0 <= i < |m| && m[i].0 == x;
      assert m[1..][i - 1].0 == x;
    }
  }

  lemma AscendingCons<T>(x: (int, T), t: seq<(int, T)>)
    requires Ascending(t) && forall k :: HasKey(t, k) ==> x.0 < k
    ensures Ascending([x] + t)
  {
    forall i, j | 0 <= i < j < |t| + 1
      ensures ([x] + t)[i].0 < ([x] + t)[j].0
    {
      assert HasKey(t, t[j - 1].0);
    }
  }

  lemma LaterKeys<T>(m: seq<(int, T)>)
    requires m != [] && Ascending(m)
    ensures Ascending(m[1..]) && forall k :: HasKey(m[1..], k) ==> m[0].0 < k
  {
    forall k | HasKey(m[1..], k)
      ensures m[0].0 < k
    {
      var i :| 0 <= i < |m[1..]| && m[1..][i].0 == k;
      assert m[i + 1].0 == k;
    }
  }

  lemma {:induction false} InsertKeys<T>(m: seq<(int, T)>, k: int, v: T)
    requires Ascending(m)
    ensures Ascending(Insert(m, k, v))
    ensures forall x :: HasKey(Insert(m, k, v), x) <==> HasKey(m, x) || x == k
    decreases |m|
  {
    var r := Insert(m, k, v);
    if m != [] {
      LaterKeys(m);
      KeysBehind(m);
    }
    if m == [] || k < m[0].0 {
      KeysBehind(r);
      assert r[1..] == m;
      AscendingCons((k, v), m);
    } else if k > m[0].0 {
      var t := Insert(m[1..], k, v);
      InsertKeys(m[1..], k, v);
      AscendingCons(m[0], t);
      KeysBehind(r);
      assert r[1..] == t;
    } else {
      assert HasKey(m, m[0].0);
    }
  }

  lemma {:induction false} InsertHas<T>(m: seq<(int, T)>, k: int, v: T, x: (int, T))
    requires Ascending(m)
    ensures x in Insert(m, k, v) <==> x in m || (x == (k, v) && !HasKey(m, k))
    decreases |m|
  {
    if m == [] {
    } else {
      LaterKeys(m);
      KeysBehind(m);
      assert m == [m[0]] + m[1..];
      if k > m[0].0 {
        InsertHas(m[1..], k, v, x);
      }
    }
  }

  /** Two maps with the same keys have them at the same places. */
  lemma {:induction false} SameKeysSamePlaces<T, U>(a: seq<(int, T)>, b: seq<(int, U)>)
    requires Ascending(a) && Ascending(b) && forall x :: HasKey(a, x) <==> HasKey(b, x)
    ensures |a| == |b| && forall i :: 0 <= i < |a| ==> a[i].0 == b[i].0
    decreases |a|
  {
    if a == [] || b == [] {
      if a != [] {
        assert HasKey(a, a[0].0);
      }
      if b != [] {
        assert HasKey(b, b[0].0);
      }
    } else {
      assert HasKey(a, a[0].0) && HasKey(b, b[0].0);
      assert HasKey(b, a[0].0) && HasKey(a, b[0].0);
      KeysBehind(a);
      KeysBehind(b);
      assert !HasKey(a[1..], a[0].0) && !HasKey(b[1..], b[0].0);
      SameKeysSamePlaces(a[1..], b[1..]);
      assert forall i :: 0 < i < |a| ==> a[i] == a[1..][i - 1] && b[i] == b[1..][i - 1];
    }
  }

  // ----- maps of maps -----

  type Row = seq<(int, int)>

  function RowFor(rows: seq<(int, Row)>, q: int): Row {
    if rows == [] then [] else if rows[0].0 == q then rows[0].1 else RowFor(rows[1..], q)
  }

  /** rows[q].insert(k, v): the row of q begins empty. */
  function AddTo(rows: seq<(int, Row)>, q: int, k: int, v: int): seq<(int, Row)> {
    if rows == [] || q < rows[0].0 then [(q, [(k, v)])] + rows
    else if q == rows[0].0 then [(q, Insert(rows[0].1, k, v))] + rows[1..]
    else [rows[0]] + AddTo(rows[1..], q, k, v)
  }

  lemma {:induction false} AddToRow(rows: seq<(int, Row)>, q: int, k: int, v: int, q': int)
    requires Ascending(rows)
    ensures RowFor(AddTo(rows, q, k, v), q') == if q' == q then Insert(RowFor(rows, q), k, v) else RowFor(rows, q')
    decreases |rows|
  {
    if rows == [] || q < rows[0].0 {
      assert ([(q, [(k, v)])] + rows)[1..] == rows;
      NoRow(rows, q);
      assert Insert([], k, v) == [(k, v)];
    } else if q == rows[0].0 {
      assert ([(q, Insert(rows[0].1, k, v))] + rows[1..])[1..] == rows[1..];
    } else {
      AddToRow(rows[1..], q, k, v, q');
      assert AddTo(rows, q, k, v)[1..] == AddTo(rows[1..], q, k, v);
    }
  }

  lemma {:induction false} NoRow(rows: seq<(int, Row)>, q: int)
    requires Ascending(rows) && (rows == [] || q < rows[0].0)
    ensures RowFor(rows, q) == []
    decreases |rows|
  {
    if rows != [] {
      NoRow(rows[1..], q);
    }
  }

  lemma {:induction false} AddToAscends(rows: seq<(int, Row)>, q: int, k: int, v: int)
    requires Ascending(rows)
    ensures Ascending(AddTo(rows, q, k, v))
    ensures forall x :: HasKey(AddTo(rows, q, k, v), x) <==> HasKey(rows, x) || x == q
    decreases |rows|
  {
    var r := AddTo(rows, q, k, v);
    if rows == [] || q < rows[0].0 {
      KeysBehind(r);
      assert r[1..] == rows;
    } else if q == rows[0].0 {
      KeysBehind(r);
      KeysBehind(rows);
      assert r[1..] == rows[1..];
    } else {
      AddToAscends(rows[1..], q, k, v);
      KeysBehind(r);
      KeysBehind(rows);
      var t := AddTo(rows[1..], q, k, v);
      assert r[1..] == t;
      forall i | 0 <= i < |t|
        ensures rows[0].0 < t[i].0
      {
        assert HasKey(t, t[i].0);
        if HasKey(rows[1..], t[i].0) {
          var j :| 0 <= j < |rows[1..]| && rows[1..][j].0 == t[i].0;
          assert rows[j + 1].0 == t[i].0;
        }
      }
      assert forall i :: 0 < i < |r| ==> r[i] == t[i - 1];
    }
  }

  // ----- the lists of one process -----

  /**
   * What one process knows: its cells (or edges), the first nSolve of which it owns, those its triangles touch,
   * those it has to receive, the vertices at the corners of each, which vertices are triangles, the owners, and the
   * global IDs.
   */
  datatype Local = Local(nSolve: nat, touched: seq<int>, toReceive: seq<int>, corners: seq<seq<nat>>,
                         hasTria: seq<bool>, triaProc: seq<nat>, itemProc: seq<nat>, ids: seq<int>)

  ghost predicate IsLocal(p: Local) {
    && |p.corners| == |p.itemProc| == |p.ids| && |p.hasTria| == |p.triaProc|
    && (forall i, j :: 0 <= i < |p.corners| && 0 <= j < |p.corners[i]| ==> p.corners[i][j] < |p.hasTria|)
    && (forall m :: 0 <= m < |p.touched| ==> 0 <= p.touched[m] < |p.corners| && p.corners[p.touched[m]] != [])
    && (forall m :: 0 <= m < |p.toReceive| ==> 0 <= p.toReceive[m] < |p.corners|)
  }

  /** A triangle of process q at the corner. */
  predicate TriaOf(p: Local, v: nat, q: nat)
    requires |p.hasTria| == |p.triaProc| && v < |p.hasTria|
  {
    p.hasTria[v] && p.triaProc[v] == q
  }

  /** Among the first n corners of i there is a triangle of process q. */
  predicate AnyTriaOf(p: Local, i: int, q: nat, n: nat)
    requires IsLocal(p) && 0 <= i < |p.corners| && n <= |p.corners[i]|
  {
    exists j :: 0 <= j < n && TriaOf(p, p.corners[i][j], q)
  }

  predicate OnOwner(p: Local, i: int)
    requires IsLocal(p) && 0 <= i < |p.corners|
  {
    AnyTriaOf(p, i, p.itemProc[i], |p.corners[i]|)
  }

  function SendRows(p: Local, n: nat): seq<(int, Row)>
    requires IsLocal(p) && n <= |p.touched|
  {
    if n == 0 then []
    else
      var rows, i := SendRows(p, n - 1), p.touched[n - 1];
      if i < p.nSolve || OnOwner(p, i) then rows else AddTo(rows, p.itemProc[i], p.ids[i], i)
  }

  function RecvCorners(p: Local, rows: seq<(int, Row)>, i: int, n: nat): seq<(int, Row)>
    requires IsLocal(p) && 0 <= i < |p.corners| && n <= |p.corners[i]|
  {
    if n == 0 then rows
    else
      var r, v := RecvCorners(p, rows, i, n - 1), p.corners[i][n - 1];
      if p.hasTria[v] then AddTo(r, p.triaProc[v], p.ids[i], i) else r
  }

  function RecvRows(p: Local, n: nat): seq<(int, Row)>
    requires IsLocal(p) && n <= |p.toReceive|
  {
    if n == 0 then []
    else
      var i := p.toReceive[n - 1];
      RecvCorners(p, RecvRows(p, n - 1), i, |p.corners[i]|)
  }

  function Values(row: Row): (vec: seq<int>)
    ensures |vec| == |row|
  {
    seq(|row|, i requires 0 <= i < |row| => row[i].1)
  }

  function ToEntries(rows: seq<(int, Row)>): (list: seq<Entry>)
    ensures |list| == |rows|
  {
    seq(|rows|, m requires 0 <= m < |rows| => Entry(rows[m].0, Values(rows[m].1)))
  }

  method ListsOfRows(rows: seq<(int, Row)>) returns (list: seq<Entry>)
    ensures list == ToEntries(rows)
  {
    list := [];
    for it := 0 to |rows|
      invariant |list| == it && forall m :: 0 <= m < it ==> list[m] == Entry(rows[m].0, Values(rows[m].1))
    {
      var vec, row := [], rows[it].1;
      for iter := 0 to |row|
        invariant |vec| == iter && forall k :: 0 <= k < iter ==> vec[k] == row[k].1
      {
        vec := vec + [row[iter].1];
      }
      assert vec == Values(row);
      list := list + [Entry(rows[it].0, vec)];
    }
  }

  /** The search of the corners for a triangle on the owner's process. */
  method BelongsToTriaOnSameProc(p: Local, i: int) returns (found: bool)
    requires IsLocal(p) && 0 <= i < |p.corners| && p.corners[i] != []
    ensures found == OnOwner(p, i)
  {
    var j, nEdg := 0, |p.corners[i]|;
    found := TriaOf(p, p.corners[i][j], p.itemProc[i]);
    j := 1;
    while !found && j < nEdg
      invariant 1 <= j <= nEdg && found == AnyTriaOf(p, i, p.itemProc[i], j)
    {
      found := TriaOf(p, p.corners[i][j], p.itemProc[i]);
      j := j + 1;
    }
  }

  /** createReverseCellsExchangeLists, and with two corners each createReverseEdgesExchangeLists. */
  method CreateReverseLists(p: Local) returns (send: seq<Entry>, recv: seq<Entry>)
    requires IsLocal(p)
    ensures send == ToEntries(SendRows(p, |p.touched|))
    ensures recv == ToEntries(RecvRows(p, |p.toReceive|))
  {
    hide OnOwner, AddTo, ToEntries;
    var sendMap: seq<(int, Row)>, receiveMap: seq<(int, Row)> := [], [];
    for i := 0 to |p.touched|
      invariant sendMap == SendRows(p, i)
    {
      var iCell := p.touched[i];
      if iCell >= p.nSolve {
        var belongs := BelongsToTriaOnSameProc(p, iCell);
        if !belongs {
          sendMap := AddTo(sendMap, p.itemProc[iCell], p.ids[iCell], iCell);
        }
      }
    }
    send := ListsOfRows(sendMap);
    for i := 0 to |p.toReceive|
      invariant receiveMap == RecvRows(p, i)
    {
      var iCell := p.toReceive[i];
      ghost var before := receiveMap;
      for j := 0 to |p.corners[iCell]|
        invariant receiveMap == RecvCorners(p, before, iCell, j)
      {
        var v := p.corners[iCell][j];
        if p.hasTria[v] {
          receiveMap := AddTo(receiveMap, p.triaProc[v], p.ids[iCell], iCell);
        }
      }
    }
    recv := ListsOfRows(receiveMap);
  }

  // ----- what the lists name -----

  /** Items that are listed have different IDs. */
  ghost predicate DistinctIds(p: Local, list: seq<int>)
    requires IsLocal(p)
  {
    forall i, j :: i in list && j in list && 0 <= i < |p.ids| && 0 <= j < |p.ids| && p.ids[i] == p.ids[j] ==> i == j
  }

  ghost predicate Sends(p: Local, i: int, q: int)
    requires IsLocal(p) && 0 <= i < |p.corners|
  {
    i >= p.nSolve && !OnOwner(p, i) && p.itemProc[i] == q
  }

  /** A row holds exactly the items that satisfy a condition, by their IDs. */
  ghost predicate RowIs(p: Local, row: Row, cond: int -> bool)
    requires IsLocal(p)
  {
    && Ascending(row)
    && (forall k, v :: (k, v) in row ==> 0 <= v < |p.ids| && cond(v) && p.ids[v] == k)
    && forall v :: 0 <= v < |p.ids| && cond(v) ==> (p.ids[v], v) in row
  }

  lemma InsertRow(p: Local, row: Row, cond: int -> bool, i: int, cond': int -> bool)
    requires IsLocal(p) && 0 <= i < |p.ids| && RowIs(p, row, cond)
    requires forall v :: cond'(v) <==> cond(v) || v == i
    requires forall v :: 0 <= v < |p.ids| && cond(v) && p.ids[v] == p.ids[i] ==> v == i
    ensures RowIs(p, Insert(row, p.ids[i], i), cond')
  {
    InsertKeys(row, p.ids[i], i);
    var row' := Insert(row, p.ids[i], i);
    forall k, v
      ensures (k, v) in row' <==> 0 <= v < |p.ids| && cond'(v) && p.ids[v] == k
    {
      InsertHas(row, p.ids[i], i, (k, v));
      if HasKey(row, p.ids[i]) {
        var m :| 0 <= m < |row| && row[m].0 == p.ids[i];
        assert (row[m].0, row[m].1) in row;
        assert row[m].1 == i;
      }
    }
  }

  lemma RowEmpty(p: Local)
    requires IsLocal(p)
    ensures RowIs(p, [], v => false)
  {
  }

  lemma SameCondition(p: Local, row: Row, cond: int -> bool, cond': int -> bool)
    requires IsLocal(p) && RowIs(p, row, cond) && forall v :: cond'(v) <==> cond(v)
    ensures RowIs(p, row, cond')
  {
  }

  ghost function SendCondition(p: Local, n: nat, q: int): int -> bool
    requires IsLocal(p) && n <= |p.touched|
  {
    v => 0 <= v < |p.corners| && v in p.touched[..n] && Sends(p, v, q)
  }

  /** The row for a process holds the touched items that it owns and has no triangle on. */
  lemma {:induction false} SendRowsAre(p: Local, n: nat, q: int)
    requires IsLocal(p) && n <= |p.touched| && DistinctIds(p, p.touched)
    ensures Ascending(SendRows(p, n)) && RowIs(p, RowFor(SendRows(p, n), q), SendCondition(p, n, q))
  {
    hide RowIs, OnOwner, DistinctIds;
    if n == 0 {
      RowEmpty(p);
      SameCondition(p, [], v => false, SendCondition(p, 0, q));
    } else {
      SendRowsAre(p, n - 1, q);
      var rows, i := SendRows(p, n - 1), p.touched[n - 1];
      var cond, cond' := SendCondition(p, n - 1, q), SendCondition(p, n, q);
      assert p.touched[..n] == p.touched[..n - 1] + [i];
      if i < p.nSolve || OnOwner(p, i) {
        SameCondition(p, RowFor(rows, q), cond, cond');
      } else {
        AddToAscends(rows, p.itemProc[i], p.ids[i], i);
        AddToRow(rows, p.itemProc[i], p.ids[i], i, q);
        if p.itemProc[i] == q {
          DistinctAt(p, p.touched, n - 1, i);
          InsertRow(p, RowFor(rows, q), cond, i, cond');
        } else {
          SameCondition(p, RowFor(rows, q), cond, cond');
        }
      }
    }
  }

  lemma DistinctAt(p: Local, list: seq<int>, n: nat, i: int)
    requires IsLocal(p) && DistinctIds(p, list) && n <= |list| && i in list && 0 <= i < |p.ids|
    ensures forall v :: v in list[..n] && 0 <= v < |p.ids| && p.ids[v] == p.ids[i] ==> v == i
  {
  }

  ghost function RecvCondition(p: Local, n: nat, i: int, m: nat, q: nat): int -> bool
    requires IsLocal(p) && n <= |p.toReceive| && 0 <= i < |p.corners| && m <= |p.corners[i]|
  {
    v => 0 <= v < |p.corners|
      && ((v in p.toReceive[..n] && AnyTriaOf(p, v, q, |p.corners[v]|)) || (v == i && AnyTriaOf(p, i, q, m)))
  }

  lemma {:induction false} RecvCornersAre(p: Local, rows: seq<(int, Row)>, n: nat, i: int, m: nat, q: nat)
    requires IsLocal(p) && n <= |p.toReceive| && 0 <= i < |p.corners| && m <= |p.corners[i]|
    requires DistinctIds(p, p.toReceive) && i in p.toReceive && Ascending(rows)
    requires RowIs(p, RowFor(rows, q), RecvCondition(p, n, i, 0, q))
    ensures var r := RecvCorners(p, rows, i, m);
      Ascending(r) && RowIs(p, RowFor(r, q), RecvCondition(p, n, i, m, q))
    decreases m
  {
    hide RowIs, DistinctIds;
    if m > 0 {
      RecvCornersAre(p, rows, n, i, m - 1, q);
      var r, v := RecvCorners(p, rows, i, m - 1), p.corners[i][m - 1];
      var cond, cond' := RecvCondition(p, n, i, m - 1, q), RecvCondition(p, n, i, m, q);
      AnyOneMore(p, i, q, m);
      if p.hasTria[v] {
        AddToAscends(r, p.triaProc[v], p.ids[i], i);
        AddToRow(r, p.triaProc[v], p.ids[i], i, q);
      }
      if TriaOf(p, v, q) {
        DistinctAt(p, p.toReceive, n, i);
        InsertRow(p, RowFor(r, q), cond, i, cond');
      } else {
        SameCondition(p, RowFor(r, q), cond, cond');
      }
    }
  }

  lemma AnyOneMore(p: Local, i: int, q: nat, m: nat)
    requires IsLocal(p) && 0 <= i < |p.corners| && 0 < m <= |p.corners[i]|
    ensures AnyTriaOf(p, i, q, m) <==> AnyTriaOf(p, i, q, m - 1) || TriaOf(p, p.corners[i][m - 1], q)
  {
  }

  /** The row for a process holds the items to receive on which it has a triangle. */
  lemma {:induction false} RecvRowsAre(p: Local, n: nat, q: nat)
    requires IsLocal(p) && n <= |p.toReceive| && DistinctIds(p, p.toReceive)
    ensures Ascending(RecvRows(p, n)) && RowIs(p, RowFor(RecvRows(p, n), q), Received(p, n, q))
  {
    hide RowIs, DistinctIds, AnyTriaOf;
    if n == 0 {
      RowEmpty(p);
      SameCondition(p, [], v => false, Received(p, 0, q));
    } else {
      RecvRowsAre(p, n - 1, q);
      var rows, i := RecvRows(p, n - 1), p.toReceive[n - 1];
      NoCorners(p, i, q);
      SameCondition(p, RowFor(rows, q), Received(p, n - 1, q), RecvCondition(p, n - 1, i, 0, q));
      RecvCornersAre(p, rows, n - 1, i, |p.corners[i]|, q);
      assert p.toReceive[..n] == p.toReceive[..n - 1] + [i];
      SameCondition(p, RowFor(RecvRows(p, n), q), RecvCondition(p, n - 1, i, |p.corners[i]|, q), Received(p, n, q));
    }
  }

  lemma NoCorners(p: Local, i: int, q: nat)
    requires IsLocal(p) && 0 <= i < |p.corners|
    ensures !AnyTriaOf(p, i, q, 0)
  {
  }

  ghost function Received(p: Local, n: nat, q: nat): int -> bool
    requires IsLocal(p) && n <= |p.toReceive|
  {
    v => 0 <= v < |p.corners| && v in p.toReceive[..n] && AnyTriaOf(p, v, q, |p.corners[v]|)
  }
}
