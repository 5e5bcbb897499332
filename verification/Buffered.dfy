/** Buffered writes through the non-blocking interface: the pending requests of a file on all I/O
    tasks, over whole runs of puts, gets and syncs (src/external/SMIOL/smiol.c). */
module Buffered {
  import opened Basics

  const MAX_REQS: nat := 256

  // ----- one task -----

  /** What a task has pending: requests, and bytes in the attached buffer. */
  datatype Pending = Pending(nReqs: nat, usage: nat)

  /** What the library answers to one task: the code of ncmpi_inq_buffer_usage and what the task then finds in its
      variable, which is arbitrary after an error; the code of ncmpi_wait_all and the bytes it has left in the buffer;
      and the code of ncmpi_bput_vara and the bytes it has taken of the buffer, if they fail. */
  datatype Answers = Answers(inqErr: int, reported: int, waitErr: int, left: nat, bputErr: int, taken: nat)

  predicate Buffers(bufsize: nat, maxUsage: int) {
    maxUsage <= bufsize && maxUsage <= INT_MAX
  }

  /** As the code compares them, a negative maximum is larger than any buffer. */
  predicate MustWait(bufsize: nat, p: Pending, maxPending: int) {
    maxPending < 0 || maxPending > bufsize || p.nReqs == MAX_REQS
  }

  /** The error code a task has when it comes to its buffered put: a wait replaces the code of the inquiry. */
  function ErrBeforePut(bufsize: nat, p: Pending, maxPending: int, a: Answers): int {
    if MustWait(bufsize, p, maxPending) then a.waitErr else a.inqErr
  }

  /** What is pending after ncmpi_wait_all. */
  function Waited(p: Pending, a: Answers): Pending {
    Pending(0, if a.waitErr == NC_NOERR || p.usage < a.left then 0 else a.left)
  }

  /** A task's pending requests after a put of the given number of bytes; the two maxima are what the
      reductions over all I/O tasks return. */
  function AfterPut(bufsize: nat, p: Pending, bytes: nat, maxUsage: int, maxPending: int, a: Answers): Pending {
    if !Buffers(bufsize, maxUsage) then p
    else
      var q := if MustWait(bufsize, p, maxPending) then Waited(p, a) else p;
      if ErrBeforePut(bufsize, p, maxPending, a) != NC_NOERR then q
      else Pending(q.nReqs + 1, q.usage + if a.bputErr == NC_NOERR || bytes < a.taken then bytes else a.taken)
  }

  /** And after SMIOL_get_var, SMIOL_sync_file or SMIOL_close_file has completed what is pending. */
  function AfterFlush(p: Pending, a: Answers): Pending {
    if p.nReqs > 0 then Waited(p, a) else p
  }

  /** The part of struct SMIOL_file that buffered writes use, and the library's attached buffer. */
  class SmiolFile {
    const bufsize: nat
    var nReqs: nat
    var reqs: array<int>
    var usage: nat  // what ncmpi_inq_buffer_usage reports

    ghost predicate Valid()
      reads this
    {
      nReqs <= MAX_REQS && (bufsize > 0 ==> reqs.Length == MAX_REQS)
    }

    function State(): Pending
      reads this
    {
      Pending(nReqs, usage)
    }

    constructor (size: nat)
      ensures bufsize == size && Valid() && State() == Pending(0, 0)
    {
      bufsize, nReqs, usage := size, 0, 0;
      reqs := new int[if size > 0 then MAX_REQS else 0](_ => 0);
    }

    /** The decision and the buffered branch of write_chunk_pnetcdf for a non-scalar variable; if the
        result says so, the caller goes on with the chunk loop. The request handle goes into an array slot, which is
        there except when stray tells that the put was made without a buffer. */
    method WriteChunk(bytes: nat, maxUsage: int, maxPending: int, a: Answers, request: int)
      returns (ierr: int, buffered: bool, stray: bool)
      requires Valid()
      modifies this`nReqs, this`usage, reqs
      ensures Valid() && State() == AfterPut(bufsize, old(State()), bytes, maxUsage, maxPending, a)
      ensures buffered == Buffers(bufsize, maxUsage)
      ensures stray <==> buffered && bufsize == 0 && ErrBeforePut(bufsize, old(State()), maxPending, a) == NC_NOERR
      ensures buffered && ErrBeforePut(bufsize, old(State()), maxPending, a) == NC_NOERR ==>
        ierr == a.bputErr && (!stray ==> 0 < nReqs <= reqs.Length && reqs[nReqs - 1] == request)
      ensures buffered && ErrBeforePut(bufsize, old(State()), maxPending, a) != NC_NOERR ==>
        ierr == ErrBeforePut(bufsize, old(State()), maxPending, a)
    {
      if maxUsage > bufsize || maxUsage > INT_MAX {
        return NC_NOERR, false, false;
      }
      buffered, stray := true, false;
      ierr := a.inqErr;  // ncmpi_inq_buffer_usage
      if maxPending < 0 || maxPending > bufsize || nReqs == MAX_REQS {
        ierr := WaitAll(a);
      }
      if ierr == NC_NOERR {
        ierr := a.bputErr;  // ncmpi_bput_vara
        stray := bufsize == 0;
        if !stray {
          reqs[nReqs] := request;
        }
        nReqs := nReqs + 1;
        usage := usage + if ierr == NC_NOERR || bytes < a.taken then bytes else a.taken;
      }
    }

    /** ncmpi_wait_all on all pending requests. */
    method WaitAll(a: Answers) returns (ierr: int)
      requires Valid()
      modifies this`nReqs, this`usage
      ensures Valid() && State() == Waited(old(State()), a) && ierr == a.waitErr
    {
      ierr := a.waitErr;
      nReqs := 0;
      usage := if ierr == NC_NOERR || usage < a.left then 0 else a.left;
    }

    /** What SMIOL_get_var, SMIOL_sync_file and SMIOL_close_file do first: complete what is pending. */
    method Flush(a: Answers) returns (ierr: int)
      requires Valid()
      modifies this`nReqs, this`usage
      ensures Valid() && nReqs == 0 && State() == AfterFlush(old(State()), a)
      ensures ierr == if old(nReqs) > 0 then a.waitErr else NC_NOERR
    {
      ierr := NC_NOERR;
      if nReqs > 0 {
        ierr := WaitAll(a);
      }
    }
  }

  // ----- all tasks -----

  /** One collective operation with the library's answers to each task: a put with each task's number of bytes, or a
      get, sync or close, all of which flush. */
  datatype Op = Put(bytes: seq<nat>, answers: seq<Answers>) | Flush(answers: seq<Answers>)

  /** What MPI_Allreduce with MPI_MAX returns. */
  ghost function MaxOf(xs: seq<int>): (m: int)
    ensures forall k :: 0 <= k < |xs| ==> xs[k] <= m
    ensures if xs == [] then m == 0 else m in xs
  {
    if xs == [] then 0
    else if |xs| == 1 then xs[0]
    else
      var m, x := MaxOf(xs[..|xs| - 1]), xs[|xs| - 1];
      assert xs == xs[..|xs| - 1] + [x];
      if m > x then m else x
  }

  /** An inquiry that succeeds reports what is pending. */
  ghost predicate WellFormed(st: seq<Pending>, op: Op) {
    && |op.answers| == |st|
    && (op.Put? ==>
          && |op.bytes| == |st|
          && forall k :: 0 <= k < |st| && op.answers[k].inqErr == NC_NOERR ==> op.answers[k].reported == st[k].usage)
  }

  /** The largest number of bytes that a task says it would have pending. */
  ghost function MaxPending(op: Op): int
    requires op.Put? && |op.bytes| == |op.answers|
  {
    MaxOf(seq(|op.bytes|, k requires 0 <= k < |op.bytes| => op.answers[k].reported + op.bytes[k]))
  }

  ghost function Step(bufsize: nat, st: seq<Pending>, op: Op): (st': seq<Pending>)
    requires WellFormed(st, op)
    ensures |st'| == |st|
  {
    match op
    case Put(bytes, answers) =>
      seq(|st|, k requires 0 <= k < |st| =>
        AfterPut(bufsize, st[k], bytes[k], MaxOf(bytes), MaxPending(op), answers[k]))
    case Flush(answers) => seq(|st|, k requires 0 <= k < |st| => AfterFlush(st[k], answers[k]))
  }

  /** All tasks have the same number of requests pending. */
  ghost predicate InStep(st: seq<Pending>) {
    forall j, k :: 0 <= j < |st| && 0 <= k < |st| ==> st[j].nReqs == st[k].nReqs
  }

  /** No task has more than MAX_REQS requests pending, or more bytes than its buffer holds. */
  ghost predicate Bounded(bufsize: nat, st: seq<Pending>) {
    forall k :: 0 <= k < |st| ==> st[k].nReqs <= MAX_REQS && st[k].usage <= bufsize
  }

  /** In step, all tasks take the same branches, so that every collective call is made by all. */
  lemma SameBranches(bufsize: nat, st: seq<Pending>, maxPending: int, j: nat, k: nat)
    requires InStep(st) && j < |st| && k < |st|
    ensures MustWait(bufsize, st[j], maxPending) == MustWait(bufsize, st[k], maxPending)
    ensures st[j].nReqs > 0 <==> st[k].nReqs > 0
  {
  }

  /** Which tasks come to the buffered put without an error. */
  ghost predicate Puts(bufsize: nat, st: seq<Pending>, op: Op, k: nat)
    requires op.Put? && WellFormed(st, op) && k < |st|
  {
    ErrBeforePut(bufsize, st[k], MaxPending(op), op.answers[k]) == NC_NOERR
  }

  /** A put keeps the tasks in step exactly if it is not buffered, or the library's answers let all of
      them make the buffered put, or none. */
  lemma PutInStepExactly(bufsize: nat, st: seq<Pending>, op: Op)
    requires InStep(st) && op.Put? && WellFormed(st, op)
    ensures InStep(Step(bufsize, st, op)) <==>
      (!Buffers(bufsize, MaxOf(op.bytes)) ||
       forall j, k :: 0 <= j < |st| && 0 <= k < |st| ==> Puts(bufsize, st, op, j) == Puts(bufsize, st, op, k))
  {
    if Buffers(bufsize, MaxOf(op.bytes)) {
      forall j, k | 0 <= j < |st| && 0 <= k < |st|
        ensures Step(bufsize, st, op)[j].nReqs == Step(bufsize, st, op)[k].nReqs
          <==> Puts(bufsize, st, op, j) == Puts(bufsize, st, op, k)
      {
        SameBranches(bufsize, st, MaxPending(op), j, k);
      }
    }
  }

  /** Two tasks with all requests in use wait; when one of the waits fails, only the other task makes its put. A flush
      after that makes its collective call on that task only. */
  lemma OneFailureBreaksStep()
    ensures var st := [Pending(MAX_REQS, 0), Pending(MAX_REQS, 0)];
      var op := Put([1, 1], [Answers(0, 0, 0, 0, 0, 0), Answers(0, 0, -1, 0, 0, 0)]);
      && WellFormed(st, op) && InStep(st) && Bounded(8, st)
      && Step(8, st, op)[0].nReqs == 1 && Step(8, st, op)[1].nReqs == 0 && !InStep(Step(8, st, op))
  {
    var st := [Pending(MAX_REQS, 0), Pending(MAX_REQS, 0)];
    var op := Put([1, 1], [Answers(0, 0, 0, 0, 0, 0), Answers(0, 0, -1, 0, 0, 0)]);
    assert MaxOf(op.bytes) in op.bytes;
    assert Step(8, st, op)[0].nReqs != Step(8, st, op)[1].nReqs;
  }

  /** Whatever the library answers, and whether or not the tasks are in step, a put keeps each task within bounds. */
  lemma PutKeepsBounds(bufsize: nat, st: seq<Pending>, op: Op)
    requires Bounded(bufsize, st) && WellFormed(st, op) && op.Put?
    ensures Bounded(bufsize, Step(bufsize, st, op))
  {
    var pend := seq(|st|, k requires 0 <= k < |st| => op.answers[k].reported + op.bytes[k]);
    forall k | 0 <= k < |st|
      ensures Step(bufsize, st, op)[k].nReqs <= MAX_REQS && Step(bufsize, st, op)[k].usage <= bufsize
    {
      assert pend[k] <= MaxOf(pend) == MaxPending(op);
    }
  }

  // ----- what puts and flushes do when the library makes no error -----

  ghost predicate Succeeds(op: Op) {
    forall k :: 0 <= k < |op.answers| ==>
      op.answers[k].inqErr == NC_NOERR && op.answers[k].waitErr == NC_NOERR && op.answers[k].bputErr == NC_NOERR
  }

  /** What each task puts is no larger than the buffer, and its number of bytes is an int. */
  ghost predicate Small(bufsize: nat, bytes: seq<nat>) {
    forall k :: 0 <= k < |bytes| ==> bytes[k] <= bufsize && bytes[k] <= INT_MAX
  }

  /** On every task there is room for it beside what is pending, and for one more request. */
  ghost predicate Room(bufsize: nat, st: seq<Pending>, bytes: seq<nat>) {
    forall k :: 0 <= k < |st| && k < |bytes| ==> st[k].usage + bytes[k] <= bufsize && st[k].nReqs < MAX_REQS
  }

  /** A put that is not small changes nothing that is pending; one that is small adds its request and its bytes, on
      every task to what is pending if there is room on all, and else alone, after that has been completed. */
  lemma PutIs(bufsize: nat, st: seq<Pending>, op: Op)
    requires op.Put? && WellFormed(st, op) && Succeeds(op) && InStep(st) && Bounded(bufsize, st)
    ensures forall k :: 0 <= k < |st| ==>
      (Step(bufsize, st, op)[k] ==
        if !Small(bufsize, op.bytes) then st[k]
        else if Room(bufsize, st, op.bytes) then Pending(st[k].nReqs + 1, st[k].usage + op.bytes[k])
        else Pending(1, op.bytes[k]))
  {
    if st != [] {
      SmallIs(bufsize, op.bytes);
      RoomIs(bufsize, st, op);
    }
  }

  lemma SmallIs(bufsize: nat, bytes: seq<nat>)
    ensures Small(bufsize, bytes) <==> Buffers(bufsize, MaxOf(bytes))
  {
    if bytes != [] {
      assert MaxOf(bytes) in bytes;
    }
  }

  lemma RoomIs(bufsize: nat, st: seq<Pending>, op: Op)
    requires op.Put? && WellFormed(st, op) && Succeeds(op) && InStep(st) && Bounded(bufsize, st) && st != []
    ensures forall k :: 0 <= k < |st| ==> (Room(bufsize, st, op.bytes) <==> !MustWait(bufsize, st[k], MaxPending(op)))
  {
    var pend := seq(|op.bytes|, k requires 0 <= k < |op.bytes| => op.answers[k].reported + op.bytes[k]);
    assert MaxPending(op) in pend;
    forall k | 0 <= k < |st| ensures pend[k] == st[k].usage + op.bytes[k] <= MaxPending(op) {
    }
  }

  /** When one of the library's calls fails on a task: a failing inquiry, unless the task has to wait, leaves all as it
      was, and a failing wait leaves no request; and neither makes the put. */
  lemma FailedPutIs(bufsize: nat, st: seq<Pending>, op: Op, k: nat)
    requires op.Put? && WellFormed(st, op) && k < |st| && Small(bufsize, op.bytes)
    ensures var p, a, waits := st[k], op.answers[k], MustWait(bufsize, st[k], MaxPending(op));
      && (!waits && a.inqErr != NC_NOERR ==> Step(bufsize, st, op)[k] == p)
      && (waits && a.waitErr != NC_NOERR ==>
            Step(bufsize, st, op)[k] == Pending(0, if a.left <= p.usage then a.left else 0))
    ensures MustWait(bufsize, st[k], MaxPending(op)) <==>
      st[k].nReqs == MAX_REQS || (exists j :: 0 <= j < |st| && op.answers[j].reported + op.bytes[j] > bufsize)
      || (forall j :: 0 <= j < |st| ==> op.answers[j].reported + op.bytes[j] < 0)
  {
    SmallIs(bufsize, op.bytes);
    var pend := seq(|op.bytes|, j requires 0 <= j < |op.bytes| => op.answers[j].reported + op.bytes[j]);
    assert pend[k] <= MaxPending(op) && MaxPending(op) in pend;
    if MaxPending(op) > bufsize {
      var j :| 0 <= j < |pend| && pend[j] == MaxPending(op);
      assert op.answers[j].reported + op.bytes[j] > bufsize;
    }
    if j :| 0 <= j < |st| && op.answers[j].reported + op.bytes[j] > bufsize {
      assert pend[j] > bufsize;
    }
    if MaxPending(op) >= 0 {
      var j :| 0 <= j < |pend| && pend[j] == MaxPending(op);
      assert op.answers[j].reported + op.bytes[j] >= 0;
    } else {
      forall j | 0 <= j < |st| ensures op.answers[j].reported + op.bytes[j] < 0 {
        assert pend[j] <= MaxPending(op);
      }
    }
  }

  /** The small puts among the operations, in order. */
  ghost function SmallPuts(bufsize: nat, ops: seq<Op>): seq<seq<nat>> {
    if ops == [] then []
    else
      var before, op := SmallPuts(bufsize, ops[..|ops| - 1]), ops[|ops| - 1];
      if op.Put? && Small(bufsize, op.bytes) then before + [op.bytes] else before
  }

  /** What task k put in the last n of the puts. */
  ghost function LastBytes(puts: seq<seq<nat>>, k: nat, n: nat): nat
    requires n <= |puts| && forall i :: 0 <= i < |puts| ==> k < |puts[i]|
  {
    if n == 0 then 0 else LastBytes(puts[..|puts| - 1], k, n - 1) + puts[|puts| - 1][k]
  }

  /** What a task has pending in its buffer are the bytes of its last small puts, one for each request. */
  ghost predicate Accounted(bufsize: nat, st: seq<Pending>, ops: seq<Op>) {
    var puts := SmallPuts(bufsize, ops);
    && (forall i :: 0 <= i < |puts| ==> |puts[i]| == |st|)
    && forall k :: 0 <= k < |st| ==> st[k].nReqs <= |puts| && st[k].usage == LastBytes(puts, k, st[k].nReqs)
  }

  lemma StepIsAccounted(bufsize: nat, st: seq<Pending>, ops: seq<Op>, op: Op)
    requires Accounted(bufsize, st, ops) && InStep(st) && Bounded(bufsize, st) && WellFormed(st, op) && Succeeds(op)
    ensures Accounted(bufsize, Step(bufsize, st, op), ops + [op])
  {
    hide SmallPuts, LastBytes, Step, InStep, Bounded;
    var puts, puts' := SmallPuts(bufsize, ops), SmallPuts(bufsize, ops + [op]);
    SmallPutsMore(bufsize, ops, op);
    assert puts + [] == puts;
    if op.Put? {
      PutIs(bufsize, st, op);
    } else {
      FlushIs(bufsize, st, op);
    }
    forall k | 0 <= k < |st|
      ensures var x := Step(bufsize, st, op)[k]; x.nReqs <= |puts'| && x.usage == LastBytes(puts', k, x.nReqs)
    {
      LastOfNone(puts, k);
      LastOfNone(puts', k);
      if op.Put? && Small(bufsize, op.bytes) {
        LastBytesMore(puts, op.bytes, k, st[k].nReqs);
        LastBytesMore(puts, op.bytes, k, 0);
      }
    }
  }

  /** A flush leaves nothing pending. */
  lemma FlushIs(bufsize: nat, st: seq<Pending>, op: Op)
    requires op.Flush? && WellFormed(st, op) && Succeeds(op)
    ensures forall k :: 0 <= k < |st| ==> Step(bufsize, st, op)[k] == if st[k].nReqs > 0 then Pending(0, 0) else st[k]
  {
  }

  lemma LastOfNone(puts: seq<seq<nat>>, k: nat)
    requires forall i :: 0 <= i < |puts| ==> k < |puts[i]|
    ensures LastBytes(puts, k, 0) == 0
  {
  }

  lemma LastBytesMore(puts: seq<seq<nat>>, b: seq<nat>, k: nat, n: nat)
    requires n <= |puts| && k < |b| && forall i :: 0 <= i < |puts| ==> k < |puts[i]|
    ensures LastBytes(puts + [b], k, n + 1) == LastBytes(puts, k, n) + b[k]
  {
    assert (puts + [b])[..|puts|] == puts;
  }

  lemma SmallPutsMore(bufsize: nat, ops: seq<Op>, op: Op)
    ensures SmallPuts(bufsize, ops + [op])
         == SmallPuts(bufsize, ops) + if op.Put? && Small(bufsize, op.bytes) then [op.bytes] else []
  {
    assert (ops + [op])[..|ops|] == ops;
  }

  // ----- runs -----

  ghost predicate Run(bufsize: nat, st: seq<Pending>, ops: seq<Op>, st': seq<Pending>)
    decreases |ops|
  {
    if ops == [] then st' == st
    else WellFormed(st, ops[0]) && Run(bufsize, Step(bufsize, st, ops[0]), ops[1..], st')
  }

  /** A freshly opened file. */
  function Opened(tasks: nat): seq<Pending> { seq(tasks, _ => Pending(0, 0)) }

  /** Every run, whatever the library answers in it, keeps each task within its bounds at every point. */
  lemma {:induction false} RunBounded(bufsize: nat, st: seq<Pending>, ops: seq<Op>, st': seq<Pending>)
    requires Bounded(bufsize, st) && Run(bufsize, st, ops, st')
    ensures Bounded(bufsize, st')
    decreases |ops|
  {
    if ops != [] {
      if ops[0].Put? {
        PutKeepsBounds(bufsize, st, ops[0]);
      }
      RunBounded(bufsize, Step(bufsize, st, ops[0]), ops[1..], st');
    }
  }

  /** In every run without errors from an opened file, what each task has pending are the bytes of its last small puts,
      as many as it has requests, never more than its buffer holds. */
  lemma {:induction false} RunIsAccounted(bufsize: nat, before: seq<Op>, st: seq<Pending>, ops: seq<Op>,
                                          st': seq<Pending>)
    requires Accounted(bufsize, st, before) && InStep(st) && Bounded(bufsize, st) && Run(bufsize, st, ops, st')
    requires forall i :: 0 <= i < |ops| ==> Succeeds(ops[i])
    ensures Accounted(bufsize, st', before + ops) && InStep(st') && Bounded(bufsize, st')
    decreases |ops|
  {
    if ops == [] {
      assert before + ops == before;
    } else {
      StepIsAccounted(bufsize, st, before, ops[0]);
      StepStaysGood(bufsize, st, ops[0]);
      RunIsAccounted(bufsize, before + [ops[0]], Step(bufsize, st, ops[0]), ops[1..], st');
      assert before + [ops[0]] + ops[1..] == before + ops;
    }
  }

  lemma StepStaysGood(bufsize: nat, st: seq<Pending>, op: Op)
    requires InStep(st) && Bounded(bufsize, st) && WellFormed(st, op) && Succeeds(op)
    ensures InStep(Step(bufsize, st, op)) && Bounded(bufsize, Step(bufsize, st, op))
  {
    if op.Put? {
      PutInStepExactly(bufsize, st, op);
      PutKeepsBounds(bufsize, st, op);
    }
  }

  lemma OpenedIsAccounted(bufsize: nat, tasks: nat)
    ensures Accounted(bufsize, Opened(tasks), []) && InStep(Opened(tasks)) && Bounded(bufsize, Opened(tasks))
  {
  }

  ghost predicate NoErrors(op: Op) {
    op.Put? ==> forall k :: 0 <= k < |op.answers| ==>
      op.answers[k].inqErr == NC_NOERR && op.answers[k].waitErr == NC_NOERR
  }

  /** Every run in which no inquiry or wait of a put fails keeps all tasks in step, at every point. */
  lemma {:induction false} RunInStep(bufsize: nat, st: seq<Pending>, ops: seq<Op>, st': seq<Pending>)
    requires InStep(st) && Run(bufsize, st, ops, st') && forall i :: 0 <= i < |ops| ==> NoErrors(ops[i])
    ensures InStep(st')
    decreases |ops|
  {
    if ops != [] {
      if ops[0].Put? {
        PutInStepExactly(bufsize, st, ops[0]);
      }
      RunInStep(bufsize, Step(bufsize, st, ops[0]), ops[1..], st');
    }
  }

  // ----- without a buffer -----

  /** The code takes it that a buffer is attached whenever it buffers. That fails in one case only:
      no buffer, and nothing to write on any task. */
  lemma BufferedMeansAttached(bufsize: nat, bytes: seq<nat>)
    ensures (Buffers(bufsize, MaxOf(bytes)) ==> bufsize > 0) <==>
      (bufsize > 0 || exists k :: 0 <= k < |bytes| && bytes[k] > 0)
  {
    if bufsize == 0 && MaxOf(bytes) > 0 {
      assert MaxOf(bytes) in bytes;
    }
  }

  ghost function Reported(answers: seq<Answers>): (r: seq<int>)
    ensures |r| == |answers|
  {
    seq(|answers|, k requires 0 <= k < |answers| => answers[k].reported)
  }

  /** In that case a task puts a request into the array that was never allocated exactly if the usage that the tasks
      report is at most 0, and 0 on some, there is room for a request, and the task's inquiry succeeds; or else, since
      then the task waits first, its wait succeeds, whatever the inquiry said. */
  lemma StrayExactly(st: seq<Pending>, op: Op, k: nat)
    requires op.Put? && WellFormed(st, op) && k < |st|
    ensures Buffers(0, MaxOf(op.bytes)) && Puts(0, st, op, k) <==>
      && (forall j :: 0 <= j < |st| ==> op.bytes[j] == 0)
      && (if MaxOf(Reported(op.answers)) == 0 && st[k].nReqs != MAX_REQS then op.answers[k].inqErr
          else op.answers[k].waitErr) == NC_NOERR
  {
    BufferedMeansAttached(0, op.bytes);
    if forall j :: 0 <= j < |st| ==> op.bytes[j] == 0 {
      assert seq(|op.bytes|, j requires 0 <= j < |op.bytes| => op.answers[j].reported + op.bytes[j])
          == Reported(op.answers);
    }
  }

  /** Either way: an inquiry that finds no bytes in use, and one that fails and leaves 1 in the task's variable. */
  lemma PutWithoutBuffer()
    ensures var st, found := [Pending(0, 0)], Put([0], [Answers(0, 0, 0, 0, 0, 0)]);
      WellFormed(st, found) && Buffers(0, MaxOf(found.bytes)) && Step(0, st, found) == [Pending(1, 0)]
    ensures var st, failed := [Pending(0, 0)], Put([0], [Answers(-1, 1, 0, 0, 0, 0)]);
      WellFormed(st, failed) && Buffers(0, MaxOf(failed.bytes)) && Step(0, st, failed) == [Pending(1, 0)]
  {
    var found, failed := Put([0], [Answers(0, 0, 0, 0, 0, 0)]), Put([0], [Answers(-1, 1, 0, 0, 0, 0)]);
    StrayExactly([Pending(0, 0)], found, 0);
    StrayExactly([Pending(0, 0)], failed, 0);
  }
}
