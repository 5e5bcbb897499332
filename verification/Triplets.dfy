/** Triplets of element IDs, their comparators, and the sort and search built on them
    (src/external/SMIOL/smiol_utils.c). */
module Triplets {

  /** The task entry of an element whose partner rank has not been found. */
  const UNKNOWN_TASK: int := -1

  /** [0] global ID, [1] local ID, [2] rank of the partner task. */
  datatype Triplet = Triplet(id: int, loc: int, task: int)

  function Sign(x: int, y: int): int {
    (if x > y then 1 else 0) - (if x < y then 1 else 0)
  }

  function Entry(t: Triplet, entry: int): int {
    if entry == 0 then t.id else if entry == 1 then t.loc else t.task
  }

  /** comp_sort_0, comp_sort_1 and comp_sort_2: ties on entries 1 and 2 are broken by the ID. */
  function CompSort(a: Triplet, b: Triplet, entry: int): int {
    var res := Sign(Entry(a, entry), Entry(b, entry));
    if entry != 0 && res == 0 then Sign(a.id, b.id) else res
  }

  ghost predicate SortedOn(s: seq<Triplet>, entry: int) {
    forall i, j :: 0 <= i < j < |s| ==> CompSort(s[i], s[j], entry) <= 0
  }

  /** What bsearch demands: the searched entry is non-decreasing. */
  ghost predicate Searchable(s: seq<Triplet>, entry: int) {
    forall i, j :: 0 <= i < j < |s| ==> Entry(s[i], entry) <= Entry(s[j], entry)
  }

  lemma SortedIsSearchable(s: seq<Triplet>, entry: int)
    requires SortedOn(s, entry)
    ensures Searchable(s, entry)
  {
    forall i, j | 0 <= i < j < |s| ensures Entry(s[i], entry) <= Entry(s[j], entry) {
      assert CompSort(s[i], s[j], entry) <= 0;
    }
  }

  lemma SwapKeepsMultiset<T>(s: seq<T>, j: nat, t: seq<T>)
    requires 0 < j < |s| && t == s[j - 1 := s[j]][j := s[j - 1]]
    ensures multiset(t) == multiset(s)
  {
    assert s == s[..j - 1] + [s[j - 1], s[j]] + s[j + 1..];
    assert t == s[..j - 1] + [s[j], s[j - 1]] + s[j + 1..];
  }

  /** Sorted up to n apart from position j, whose triplet is no larger than any after it. */
  ghost predicate SortedButAt(s: seq<Triplet>, n: nat, j: nat, entry: int)
    requires n < |s|
  {
    forall a, b :: 0 <= a < b <= n && b != j ==> CompSort(s[a], s[b], entry) <= 0
  }

  lemma SwapSortedButAt(s: seq<Triplet>, n: nat, j: nat, entry: int, t: seq<Triplet>)
    requires 0 < j <= n < |s| && SortedButAt(s, n, j, entry)
    requires CompSort(s[j - 1], s[j], entry) > 0
    requires t == s[j - 1 := s[j]][j := s[j - 1]]
    ensures SortedButAt(t, n, j - 1, entry)
  {
  }

  /** Moves the triplet at n down to its place in the sorted prefix before it. */
  method SiftDown(arr: array<Triplet>, n: nat, entry: int)
    requires n < arr.Length && SortedOn(arr[..n], entry)
    modifies arr
    ensures multiset(arr[..]) == multiset(old(arr[..]))
    ensures SortedOn(arr[..n + 1], entry)
  {
    var j := n;
    while j > 0 && CompSort(arr[j - 1], arr[j], entry) > 0
      invariant 0 <= j <= n
      invariant SortedButAt(arr[..], n, j, entry)
      invariant multiset(arr[..]) == multiset(old(arr[..]))
    {
      ghost var s := arr[..];
      arr[j - 1], arr[j] := arr[j], arr[j - 1];
      SwapKeepsMultiset(s, j, arr[..]);
      SwapSortedButAt(s, n, j, entry, arr[..]);
      j := j - 1;
    }
    SortedAtLast(arr[..], n, j, entry);
  }

  lemma SortedAtLast(s: seq<Triplet>, n: nat, j: nat, entry: int)
    requires j <= n < |s| && SortedButAt(s, n, j, entry)
    requires j > 0 ==> CompSort(s[j - 1], s[j], entry) <= 0
    ensures SortedOn(s[..n + 1], entry)
  {
    forall a | 0 <= a < j ensures CompSort(s[a], s[j], entry) <= 0 {
      if a < j - 1 {
        assert CompSort(s[a], s[j - 1], entry) <= 0;
      }
    }
  }

  /** Sorts in place on the chosen entry. The contract leaves the order of triplets that compare
      equal open, as the C library's qsort does; an entry outside 0..2 leaves the array alone. */
  method SortTripletArray(arr: array<Triplet>, entry: int)
    modifies arr
    ensures multiset(arr[..]) == multiset(old(arr[..]))
    ensures 0 <= entry <= 2 ==> SortedOn(arr[..], entry)
    ensures !(0 <= entry <= 2) ==> arr[..] == old(arr[..])
  {
    if !(0 <= entry <= 2) {
      return;
    }
    var n := 0;
    while n < arr.Length
      invariant 0 <= n <= arr.Length
      invariant SortedOn(arr[..n], entry)
      invariant multiset(arr[..]) == multiset(old(arr[..]))
    {
      SiftDown(arr, n, entry);
      n := n + 1;
    }
    assert arr[..n] == arr[..];
  }

  /** The bisection of bsearch on the key entry, between lo and hi; -1 stands for NULL. */
  function Bisect(s: seq<Triplet>, entry: int, key: int, lo: nat, hi: nat): (r: int)
    requires lo <= hi <= |s|
    ensures r == -1 || (lo <= r < hi && Entry(s[r], entry) == key)
    ensures Searchable(s, entry) && r == -1 ==> forall k :: lo <= k < hi ==> Entry(s[k], entry) != key
    decreases hi - lo
  {
    if lo == hi then -1
    else
      var mid := (lo + hi) / 2;
      var c := Sign(key, Entry(s[mid], entry));
      if c == 0 then mid
      else if c < 0 then Bisect(s, entry, key, lo, mid)
      else Bisect(s, entry, key, mid + 1, hi)
  }

  /** Finds an element with the given key, or reports (-1) that there is none. */
  method SearchTripletArray(key: int, arr: array<Triplet>, entry: int) returns (res: int)
    requires 0 <= entry <= 2 ==> Searchable(arr[..], entry)
    ensures !(0 <= entry <= 2) ==> res == -1
    ensures 0 <= entry <= 2 ==> res == Bisect(arr[..], entry, key, 0, arr.Length)
    ensures 0 <= entry <= 2 ==>
      (res == -1 <==> forall k :: 0 <= k < arr.Length ==> Entry(arr[k], entry) != key)
    ensures res != -1 ==> 0 <= res < arr.Length && Entry(arr[res], entry) == key
  {
    if !(0 <= entry <= 2) {
      return -1;
    }
    var lo, hi := 0, arr.Length;
    while lo < hi
      invariant 0 <= lo <= hi <= arr.Length
      invariant Bisect(arr[..], entry, key, 0, arr.Length) == Bisect(arr[..], entry, key, lo, hi)
    {
      var mid := (lo + hi) / 2;
      var c := Sign(key, Entry(arr[mid], entry));
      if c == 0 {
        return mid;
      } else if c < 0 {
        hi := mid;
      } else {
        lo := mid + 1;
      }
    }
    res := -1;
    forall k | 0 <= k < arr.Length ensures Entry(arr[k], entry) != key {
      assert arr[..][k] == arr[k];
    }
  }

  // ----- facts about permutations -----

  ghost predicate DistinctLocs(s: seq<Triplet>) {
    forall i, j :: 0 <= i < j < |s| ==> s[i].loc != s[j].loc
  }

  lemma TwiceInMultiset<T>(s: seq<T>, i: nat, j: nat)
    requires i < j < |s| && s[i] == s[j]
    ensures multiset(s)[s[i]] >= 2
  {
    assert s == s[..j] + [s[j]] + s[j + 1..];
    assert s[i] in s[..j];
  }

  lemma {:induction false} OnceInMultiset(s: seq<Triplet>, x: Triplet)
    requires DistinctLocs(s)
    ensures multiset(s)[x] <= 1
  {
    if s != [] {
      var t := s[|s| - 1];
      assert s == s[..|s| - 1] + [t];
      OnceInMultiset(s[..|s| - 1], x);
      assert x == t ==> x !in s[..|s| - 1];
    }
  }

  /** Any permutation of triplets with distinct local IDs has distinct local IDs. */
  lemma PermutedDistinctLocs(a: seq<Triplet>, b: seq<Triplet>)
    requires DistinctLocs(a) && multiset(a) == multiset(b)
    ensures DistinctLocs(b)
  {
    forall i, j | 0 <= i < j < |b| ensures b[i].loc != b[j].loc {
      if b[i].loc == b[j].loc {
        InPermuted(a, b, i);
        InPermuted(a, b, j);
        OnceInMultiset(a, b[i]);
        if b[i] == b[j] {
          TwiceInMultiset(b, i, j);
        }
      }
    }
  }

  lemma InPermuted<T>(a: seq<T>, b: seq<T>, i: nat)
    requires multiset(a) == multiset(b) && i < |b|
    ensures b[i] in a
  {
    assert b[i] in multiset(b);
  }
}
