/** Constants and small functions that several parts of the model share. */
module Basics {

  const INT_MAX: nat := 0x7FFF_FFFF

  /** What a Parallel-NetCDF call returns when it succeeds. */
  const NC_NOERR: int := 0

  /** Storing a wider integer in an int keeps the low 32 bits. */
  function ToInt(x: int): (y: int)
    ensures -0x8000_0000 <= y < 0x8000_0000
    ensures (x - y) % 0x1_0000_0000 == 0
    ensures -0x8000_0000 <= x < 0x8000_0000 ==> y == x
  {
    (x + 0x8000_0000) % 0x1_0000_0000 - 0x8000_0000
  }

  function Min(a: int, b: int): int { if a < b then a else b }

  ghost predicate NoRepeats<T>(s: seq<T>) {
    forall i, j :: 0 <= i < j < |s| ==> s[i] != s[j]
  }

  ghost predicate Increasing(s: seq<int>) {
    forall i, j :: 0 <= i < j < |s| ==> s[i] < s[j]
  }

  lemma ProductGrows(a: nat, b: nat, n: nat)
    requires a <= b
    ensures a * n <= b * n
  {
    assert b * n == a * n + (b - a) * n;
  }

  lemma ProductRow(a: nat, b: nat, n: nat)
    requires a < b
    ensures a * n + n <= b * n
  {
    ProductGrows(a + 1, b, n);
  }

  /** The sum of the first n counts. */
  function Sum(counts: seq<nat>, n: nat): nat
    requires n <= |counts|
  {
    if n == 0 then 0 else Sum(counts, n - 1) + counts[n - 1]
  }

  lemma SumOne(counts: seq<nat>)
    requires counts != []
    ensures Sum(counts, 0) == 0 && Sum(counts, 1) == counts[0]
  {
  }

  lemma SumStep(counts: seq<nat>, n: nat)
    requires n < |counts|
    ensures Sum(counts, n + 1) == Sum(counts, n) + counts[n]
  {
  }

  lemma {:induction false} SumGrows(counts: seq<nat>, p: nat, q: nat)
    requires p < q <= |counts|
    ensures Sum(counts, p) + counts[p] <= Sum(counts, q)
    decreases q
  {
    if p < q - 1 {
      SumGrows(counts, p, q - 1);
    }
  }

  lemma {:induction false} SumOfPrefix(counts: seq<nat>, m: nat, n: nat)
    requires n <= m <= |counts|
    ensures Sum(counts[..m], n) == Sum(counts, n)
    decreases n
  {
    if n > 0 {
      SumOfPrefix(counts, m, n - 1);
    }
  }
}
