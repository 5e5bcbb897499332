/** Which contiguous part of a variable each rank reads and writes, and how ranks are grouped around
    the I/O tasks (src/external/SMIOL/smiol_utils.c, get_io_elements; src/external/SMIOL/smiol.c,
    SMIOL_open_file). */
module Partition {
  import opened Basics

  /** The number of I/O tasks asked for, and the stride between their ranks. */
  datatype Layout = Layout(numIoTasks: nat, ioStride: nat) {
    ghost predicate Valid() { numIoTasks > 0 && ioStride > 0 }
  }

  /** get_io_elements. */
  method GetIoElements(rank: nat, lay: Layout, n: nat) returns (ioStart: nat, ioCount: nat)
    requires lay.Valid()
    ensures ioCount == IoCount(rank, lay, n)
    ensures IsIoTask(rank, lay) ==> ioStart == IoStart(rank, lay, n)
    ensures !IsIoTask(rank, lay) ==> ioStart == 0
  {
    hide IoStart, Boundary;
    ioStart, ioCount := 0, 0;
    if rank % lay.ioStride == 0 {
      var ioRank := rank / lay.ioStride;
      var elemsPerTask := n / lay.numIoTasks;
      if ioRank >= lay.numIoTasks {
        return;
      }
      IoShare(rank, lay, n);
      hide IoCount;
      ioStart := ioRank * elemsPerTask;
      ioCount := elemsPerTask;
      if ioRank + 1 == lay.numIoTasks {
        ShareBound(n, lay.numIoTasks);
        var remainder := n - lay.numIoTasks * elemsPerTask;
        ioCount := ioCount + remainder;
      }
    }
  }

  lemma IoShare(rank: nat, lay: Layout, n: nat)
    requires lay.Valid() && IsIoTask(rank, lay)
    ensures IoStart(rank, lay, n) == rank / lay.ioStride * (n / lay.numIoTasks)
    ensures IoCount(rank, lay, n) == n / lay.numIoTasks
      + if rank / lay.ioStride + 1 == lay.numIoTasks then n - lay.numIoTasks * (n / lay.numIoTasks) else 0
  {
    SmallerProduct(rank / lay.ioStride, lay.numIoTasks, n / lay.numIoTasks);
  }

  lemma ShareBound(n: nat, tasks: nat)
    requires tasks > 0
    ensures tasks * (n / tasks) <= n < tasks * (n / tasks) + tasks
  {
  }

  predicate IsIoTask(rank: nat, lay: Layout)
    requires lay.Valid()
  {
    rank % lay.ioStride == 0 && rank / lay.ioStride < lay.numIoTasks
  }

  /** Where the k-th I/O task's part begins; the part after the last one begins at n. */
  function Boundary(k: nat, lay: Layout, n: nat): nat
    requires lay.Valid()
  {
    if k >= lay.numIoTasks then n else k * (n / lay.numIoTasks)
  }

  function IoStart(rank: nat, lay: Layout, n: nat): nat
    requires lay.Valid()
  {
    Boundary(rank / lay.ioStride, lay, n)
  }

  /** The part of a task reaches to where the next one's begins; ranks that do no I/O have none. */
  function IoCount(rank: nat, lay: Layout, n: nat): (c: nat)
    requires lay.Valid()
    ensures IsIoTask(rank, lay) ==> IoStart(rank, lay, n) + c == Boundary(rank / lay.ioStride + 1, lay, n)
  {
    if IsIoTask(rank, lay) then
      BoundariesOrdered(rank / lay.ioStride, lay, n);
      Boundary(rank / lay.ioStride + 1, lay, n) - Boundary(rank / lay.ioStride, lay, n)
    else 0
  }

  lemma BoundariesOrdered(k: nat, lay: Layout, n: nat)
    requires lay.Valid()
    ensures Boundary(k, lay, n) <= Boundary(k + 1, lay, n) <= n
  {
    if k < lay.numIoTasks {
      ShareBound(n, lay.numIoTasks);
      SmallerProduct(k, lay.numIoTasks, n / lay.numIoTasks);
    }
  }

  lemma SmallerProduct(j: nat, k: nat, x: nat)
    requires j < k
    ensures j * x + x == (j + 1) * x <= k * x
  {
    assert k * x == (j + 1) * x + (k - j - 1) * x;
  }

  lemma {:induction false} BoundariesMonotone(j: nat, k: nat, lay: Layout, n: nat)
    requires lay.Valid() && j <= k
    ensures Boundary(j, lay, n) <= Boundary(k, lay, n) <= n
    decreases k - j
  {
    BoundariesOrdered(j, lay, n);
    if j < k {
      BoundariesMonotone(j + 1, k, lay, n);
    }
  }

  /** Element id is read and written by this rank. */
  predicate Holds(rank: nat, lay: Layout, n: nat, id: nat)
    requires lay.Valid()
  {
    IoStart(rank, lay, n) <= id < IoStart(rank, lay, n) + IoCount(rank, lay, n)
  }

  lemma RankOfTask(k: nat, stride: nat)
    requires stride > 0
    ensures (k * stride) % stride == 0 && k * stride / stride == k
  {
    DivisionUnique(k * stride, stride, k);
  }

  lemma DivisionUnique(x: nat, d: nat, q: nat)
    requires d > 0 && x == q * d
    ensures x / d == q && x % d == 0
  {
    var q', r := x / d, x % d;
    assert x == q' * d + r;
    if q' < q {
      SmallerProduct(q', q, d);
    } else if q < q' {
      SmallerProduct(q, q', d);
    }
  }

  lemma TaskOfRank(rank: nat, stride: nat)
    requires stride > 0 && rank % stride == 0
    ensures rank == rank / stride * stride
  {
  }

  /** The parts of different ranks are disjoint and in rank order. */
  lemma PartsInOrder(r: nat, r': nat, lay: Layout, n: nat, id: nat, id': nat)
    requires lay.Valid() && r < r' && Holds(r, lay, n, id) && Holds(r', lay, n, id')
    ensures id < id'
  {
    var k, k' := r / lay.ioStride, r' / lay.ioStride;
    TaskOfRank(r, lay.ioStride);
    TaskOfRank(r', lay.ioStride);
    if k >= k' {
      ProductGrows(k', k, lay.ioStride);
    }
    BoundariesMonotone(k + 1, k', lay, n);
  }

  lemma HeldOnce(r: nat, r': nat, lay: Layout, n: nat, id: nat)
    requires lay.Valid() && Holds(r, lay, n, id) && Holds(r', lay, n, id)
    ensures r == r'
  {
    if r < r' {
      PartsInOrder(r, r', lay, n, id, id);
    } else if r' < r {
      PartsInOrder(r', r, lay, n, id, id);
    }
  }

  lemma {:induction false} FindTask(k: nat, lay: Layout, n: nat, id: nat) returns (t: nat)
    requires lay.Valid() && id < n && Boundary(k, lay, n) <= id
    ensures t < lay.numIoTasks && Boundary(t, lay, n) <= id < Boundary(t + 1, lay, n)
    decreases lay.numIoTasks - k
  {
    if id < Boundary(k + 1, lay, n) {
      t := k;
    } else {
      t := FindTask(k + 1, lay, n, id);
    }
  }

  /** The rank that holds an element, if the communicator is large enough to have it. */
  lemma HolderOf(lay: Layout, n: nat, id: nat) returns (rank: nat)
    requires lay.Valid() && id < n
    ensures Holds(rank, lay, n, id) && rank <= (lay.numIoTasks - 1) * lay.ioStride
  {
    var t := FindTask(0, lay, n, id);
    rank := t * lay.ioStride;
    RankOfTask(t, lay.ioStride);
    ProductGrows(t, lay.numIoTasks - 1, lay.ioStride);
  }

  ghost predicate Held(size: nat, lay: Layout, n: nat, id: nat)
    requires lay.Valid()
  {
    exists r :: 0 <= r < size && Holds(r, lay, n, id)
  }

  /** The ranks of a communicator hold all n elements exactly if the last I/O task is one of them, or
      there is nothing to hold. */
  lemma PartsCoverExactly(size: nat, lay: Layout, n: nat)
    requires lay.Valid()
    ensures (forall id :: 0 <= id < n ==> Held(size, lay, n, id)) <==>
      (n == 0 || (lay.numIoTasks - 1) * lay.ioStride < size)
  {
    var last := (lay.numIoTasks - 1) * lay.ioStride;
    if n > 0 && last < size {
      forall id | 0 <= id < n ensures Held(size, lay, n, id) {
        var r := HolderOf(lay, n, id);
      }
    }
    if n > 0 && last >= size {
      LastElementLost(size, lay, n);
    }
  }

  lemma LastElementLost(size: nat, lay: Layout, n: nat)
    requires lay.Valid() && n > 0 && (lay.numIoTasks - 1) * lay.ioStride >= size
    ensures !Held(size, lay, n, n - 1)
  {
    var last, top := (lay.numIoTasks - 1) * lay.ioStride, n - 1;
    RankOfTask(lay.numIoTasks - 1, lay.ioStride);
    var k := FindTask(0, lay, n, top);
    if k + 1 < lay.numIoTasks {
      SmallerProduct(k, lay.numIoTasks - 1, n / lay.numIoTasks);
      SmallerProduct(k + 1, lay.numIoTasks, n / lay.numIoTasks);
      ShareBound(n, lay.numIoTasks);
    }
    forall r | 0 <= r < size ensures !Holds(r, lay, n, top) {
      if Holds(r, lay, n, top) {
        HeldOnce(r, last, lay, n, top);
      }
    }
  }

  // ----- I/O groups -----

  /** The group that a rank joins when a file is opened, and whether it does I/O there. */
  method JoinGroup(rank: nat, lay: Layout) returns (ioTask: bool, ioGroup: nat)
    requires lay.Valid()
    ensures ioTask == IsIoTask(rank, lay) && ioGroup == IoGroup(rank, lay)
  {
    ioTask := rank % lay.ioStride == 0;
    ioGroup := rank / lay.ioStride;
    if ioGroup >= lay.numIoTasks {
      ioTask := false;
      ioGroup := lay.numIoTasks - 1;
    }
  }

  function IoGroup(rank: nat, lay: Layout): nat
    requires lay.Valid()
  {
    if rank / lay.ioStride >= lay.numIoTasks then lay.numIoTasks - 1 else rank / lay.ioStride
  }

  /** Every group has exactly one I/O task, and that is its lowest rank, the root of its broadcasts;
      and only I/O tasks have anything to read or write. */
  lemma OneIoTaskPerGroup(rank: nat, lay: Layout, n: nat)
    requires lay.Valid()
    ensures var root := IoGroup(rank, lay) * lay.ioStride;
      && root <= rank && IsIoTask(root, lay) && IoGroup(root, lay) == IoGroup(rank, lay)
      && (IsIoTask(rank, lay) <==> rank == root)
    ensures IoCount(rank, lay, n) > 0 ==> IsIoTask(rank, lay)
  {
    var g := IoGroup(rank, lay);
    RankOfTask(g, lay.ioStride);
    ProductGrows(g, rank / lay.ioStride, lay.ioStride);
    assert rank / lay.ioStride * lay.ioStride <= rank;
    if IsIoTask(rank, lay) {
      TaskOfRank(rank, lay.ioStride);
    }
  }

  /** A rank's group is that of the nearest I/O task not above it. */
  lemma NearestIoTask(rank: nat, lay: Layout, r: nat)
    requires lay.Valid() && r <= rank && IsIoTask(r, lay)
    ensures IoGroup(r, lay) <= IoGroup(rank, lay) && r <= IoGroup(rank, lay) * lay.ioStride <= rank
  {
    TaskOfRank(r, lay.ioStride);
    OneIoTaskPerGroup(rank, lay, 0);
    OneIoTaskPerGroup(r, lay, 0);
    QuotientGrows(r, rank, lay.ioStride);
    ProductGrows(IoGroup(r, lay), IoGroup(rank, lay), lay.ioStride);
  }

  lemma QuotientGrows(a: nat, b: nat, d: nat)
    requires d > 0 && a <= b
    ensures a / d <= b / d
  {
    if a / d > b / d {
      ProductRow(b / d, a / d, d);
    }
  }

  /** The I/O tasks are the first ranks of the strides, as many as are asked for. */
  lemma IoTasksAre(rank: nat, lay: Layout)
    requires lay.Valid()
    ensures IsIoTask(rank, lay) <==> exists k: nat :: k < lay.numIoTasks && rank == k * lay.ioStride
  {
    if IsIoTask(rank, lay) {
      TaskOfRank(rank, lay.ioStride);
      assert rank == rank / lay.ioStride * lay.ioStride;
    }
    if k: nat :| k < lay.numIoTasks && rank == k * lay.ioStride {
      RankOfTask(k, lay.ioStride);
    }
  }

  /** Each I/O task has the same whole share q of the n elements, one after the other, and the last one the rest too. */
  lemma SharesAre(k: nat, lay: Layout, n: nat, q: nat)
    requires lay.Valid() && k < lay.numIoTasks && q * lay.numIoTasks <= n < q * lay.numIoTasks + lay.numIoTasks
    ensures IoStart(k * lay.ioStride, lay, n) == k * q
    ensures IoCount(k * lay.ioStride, lay, n) == if k + 1 < lay.numIoTasks then q else n - k * q
  {
    hide IoStart, IoCount;
    RankOfTask(k, lay.ioStride);
    QuotientIs(n, q, lay.numIoTasks);
    IoShare(k * lay.ioStride, lay, n);
    assert (lay.numIoTasks - 1) * q + q == lay.numIoTasks * q;
  }

  lemma QuotientIs(n: nat, q: nat, d: nat)
    requires d > 0 && q * d <= n < q * d + d
    ensures n / d == q
  {
    if n / d < q {
      ProductRow(n / d, q, d);
    } else if n / d > q {
      ProductRow(q, n / d, d);
    }
  }
}
