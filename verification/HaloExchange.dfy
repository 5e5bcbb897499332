/**
 * Exchanging field values between the processes of the land-ice interface
 * (allToAll of src/core_landice/mode_forward/Interface_velocity_solver.cpp).
 */
module HaloExchange {
  import opened Basics
  import Transfer

  /** The local indices to send to a process, or to receive from it. */
  datatype Entry = Entry(proc: int, vec: seq<int>)

  /** The exchange lists of one process. */
  datatype Lists = Lists(send: seq<Entry>, recv: seq<Entry>)

  /** The indices listed for a process; none when it is not on the list. */
  function VecFor(list: seq<Entry>, q: int): seq<int> {
    if list == [] then [] else if list[0].proc == q then list[0].vec else VecFor(list[1..], q)
  }

  ghost predicate Proper(list: seq<Entry>, procs: nat, n: nat) {
    && (forall m :: 0 <= m < |list| ==> 0 <= list[m].proc < procs && Transfer.InRange(list[m].vec, n))
    && (forall m, m' :: 0 <= m < m' < |list| ==> list[m].proc != list[m'].proc)
    && (forall m :: 0 <= m < |list| ==> NoRepeats(list[m].vec))
  }

  lemma {:induction false} VecForAt(list: seq<Entry>, m: nat)
    requires m < |list| && forall m, m' :: 0 <= m < m' < |list| ==> list[m].proc != list[m'].proc
    ensures VecFor(list, list[m].proc) == list[m].vec
  {
    if m > 0 {
      VecForAt(list[1..], m - 1);
    }
  }

  lemma {:induction false} VecForInRange(list: seq<Entry>, q: nat, procs: nat, n: nat)
    requires Proper(list, procs, n)
    ensures Transfer.InRange(VecFor(list, q), n)
  {
    if list != [] {
      VecForInRange(list[1..], q, procs, n);
    }
  }

  // ----- one process -----

  /** Every buffer is packed before any is unpacked. */
  method PackBuffers<T>(me: nat, field: array<T>, send: seq<Entry>) returns (bufs: seq<seq<T>>)
    requires forall m :: 0 <= m < |send| ==> Transfer.InRange(send[m].vec, field.Length)
    ensures |bufs| == |send|
    ensures forall m :: 0 <= m < |send| ==>
      bufs[m] == if send[m].proc == me then [] else Transfer.Gather(field[..], send[m].vec)
  {
    bufs := [];
    for it := 0 to |send|
      invariant |bufs| == it
      invariant forall m :: 0 <= m < it ==>
        bufs[m] == if send[m].proc == me then [] else Transfer.Gather(field[..], send[m].vec)
    {
      var buf := [];
      if send[it].proc != me {
        for i := 0 to |send[it].vec|
          invariant |buf| == i && forall k :: 0 <= k < i ==> buf[k] == field[send[it].vec[k]]
        {
          buf := buf + [field[send[it].vec[i]]];
        }
        assert buf == Transfer.Gather(field[..], send[it].vec);
      }
      bufs := bufs + [buf];
    }
  }

  /** A field after the first n entries of the receive list have been unpacked, in list order. */
  function Unpacked<T>(me: nat, f: seq<T>, recv: seq<Entry>, inbox: seq<seq<T>>, n: nat): (r: seq<T>)
    requires n <= |recv| == |inbox| && Fits(me, |f|, recv, inbox)
    ensures |r| == |f|
  {
    if n == 0 then f
    else
      var g := Unpacked(me, f, recv, inbox, n - 1);
      if recv[n - 1].proc == me then g else Transfer.Scatter(g, recv[n - 1].vec, inbox[n - 1])
  }

  ghost predicate Fits<T>(me: nat, n: nat, recv: seq<Entry>, inbox: seq<seq<T>>) {
    && |recv| == |inbox|
    && (forall m :: 0 <= m < |recv| ==> Transfer.InRange(recv[m].vec, n))
    && forall m :: 0 <= m < |recv| && recv[m].proc != me ==> |inbox[m]| == |recv[m].vec|
  }

  method UnpackOne<T>(field: array<T>, vec: seq<int>, buf: seq<T>)
    requires Transfer.InRange(vec, field.Length) && |buf| == |vec|
    modifies field
    ensures field[..] == Transfer.Scatter(old(field[..]), vec, buf)
  {
    assert vec[0..] == vec && buf[0..] == buf;
    for i := 0 to |vec|
      invariant Transfer.InRange(vec[i..], field.Length)
      invariant Transfer.Scatter(field[..], vec[i..], buf[i..]) == Transfer.Scatter(old(field[..]), vec, buf)
    {
      ghost var before := field[..];
      field[vec[i]] := buf[i];
      assert field[..] == before[vec[i] := buf[i]];
      assert vec[i..][1..] == vec[i + 1..] && buf[i..][1..] == buf[i + 1..];
    }
  }

  method UnpackBuffers<T>(me: nat, field: array<T>, recv: seq<Entry>, inbox: seq<seq<T>>)
    requires Fits(me, field.Length, recv, inbox)
    modifies field
    ensures field[..] == Unpacked(me, old(field[..]), recv, inbox, |recv|)
  {
    for it := 0 to |recv|
      invariant field[..] == Unpacked(me, old(field[..]), recv, inbox, it)
    {
      if recv[it].proc != me {
        UnpackOne(field, recv[it].vec, inbox[it]);
      }
    }
  }

  // ----- all processes -----

  /** The lists of all processes, and the name of every local index: the cell, edge or vertex of the whole mesh. */
  datatype Network = Network(lists: seq<Lists>, names: seq<seq<nat>>)

  /** What a process sends to another is what the other expects of it, item by item. */
  ghost predicate Matched(w: Network) {
    && |w.lists| == |w.names|
    && (forall p :: 0 <= p < |w.lists| ==>
         Proper(w.lists[p].send, |w.lists|, |w.names[p]|) && Proper(w.lists[p].recv, |w.lists|, |w.names[p]|))
    && forall p, q :: 0 <= p < |w.lists| && 0 <= q < |w.lists| && p != q ==> PairMatched(w, p, q)
  }

  ghost predicate PairMatched(w: Network, p: nat, q: nat)
    requires p < |w.lists| == |w.names| && q < |w.lists|
  {
    var s, r := VecFor(w.lists[p].send, q), VecFor(w.lists[q].recv, p);
    && Transfer.InRange(s, |w.names[p]|) && Transfer.InRange(r, |w.names[q]|)
    && |s| == |r| && forall k :: 0 <= k < |s| ==> w.names[p][s[k]] == w.names[q][r[k]]
  }

  ghost predicate IsField<T>(w: Network, f: seq<seq<T>>) {
    |f| == |w.names| == |w.lists| && forall p :: 0 <= p < |f| ==> |f[p]| == |w.names[p]|
  }

  /** What process p sends to process q. */
  ghost function Message<T>(w: Network, f: seq<seq<T>>, p: nat, q: nat): seq<T>
    requires Matched(w) && IsField(w, f) && p < |f| && q < |f| && p != q
  {
    assert PairMatched(w, p, q);
    Transfer.Gather(f[p], VecFor(w.lists[p].send, q))
  }

  ghost function Inbox<T>(w: Network, f: seq<seq<T>>, q: nat): (inbox: seq<seq<T>>)
    requires Matched(w) && IsField(w, f) && q < |f|
    ensures Fits(q, |f[q]|, w.lists[q].recv, inbox)
  {
    var recv := w.lists[q].recv;
    forall m | 0 <= m < |recv| && recv[m].proc != q
      ensures |Message(w, f, recv[m].proc, q)| == |recv[m].vec|
    {
      VecForAt(recv, m);
      assert PairMatched(w, recv[m].proc, q);
    }
    seq(|recv|, m requires 0 <= m < |recv| => if recv[m].proc == q then [] else Message(w, f, recv[m].proc, q))
  }

  /** The fields after an exchange. */
  ghost function Exchanged<T>(w: Network, f: seq<seq<T>>): (r: seq<seq<T>>)
    requires Matched(w) && IsField(w, f)
    ensures IsField(w, r)
  {
    seq(|f|, p requires 0 <= p < |f| => Unpacked(p, f[p], w.lists[p].recv, Inbox(w, f, p), |w.lists[p].recv|))
  }

  // ----- where a value comes from -----

  /** The last entry before n that lists x; -1 if there is none. */
  function LastListing(me: nat, recv: seq<Entry>, n: nat, x: int): (m: int)
    requires n <= |recv|
    ensures -1 <= m < n && (m >= 0 ==> recv[m].proc != me && x in recv[m].vec)
    ensures forall l :: m < l < n && recv[l].proc != me ==> x !in recv[l].vec
  {
    if n == 0 then -1
    else if recv[n - 1].proc != me && x in recv[n - 1].vec then n - 1
    else LastListing(me, recv, n - 1, x)
  }

  lemma {:induction false} UnpackedAt<T>(me: nat, f: seq<T>, recv: seq<Entry>, inbox: seq<seq<T>>, n: nat, x: nat)
    requires n <= |recv| == |inbox| && Fits(me, |f|, recv, inbox) && x < |f|
    requires forall m :: 0 <= m < |recv| ==> NoRepeats(recv[m].vec)
    ensures var m := LastListing(me, recv, n, x);
      && (m < 0 ==> Unpacked(me, f, recv, inbox, n)[x] == f[x])
      && (m >= 0 ==> forall k :: 0 <= k < |recv[m].vec| && recv[m].vec[k] == x ==>
           Unpacked(me, f, recv, inbox, n)[x] == inbox[m][k])
  {
    if n > 0 {
      UnpackedAt(me, f, recv, inbox, n - 1, x);
      if recv[n - 1].proc != me {
        Transfer.ScatterAt(Unpacked(me, f, recv, inbox, n - 1), recv[n - 1].vec, inbox[n - 1], x);
      }
    }
  }

  /**
   * After an exchange an item that no one sends has its old value, and any other has the value that the item of the
   * same name had on the process of the last entry that lists it.
   */
  lemma ExchangedAt<T>(w: Network, f: seq<seq<T>>, q: nat, x: nat) returns (y: nat)
    requires Matched(w) && IsField(w, f) && q < |f| && x < |f[q]|
    ensures var recv := w.lists[q].recv; var m := LastListing(q, recv, |recv|, x);
      if m < 0 then Exchanged(w, f)[q][x] == f[q][x]
      else var p := recv[m].proc;
        0 <= p < |f| && p != q && y < |f[p]| && w.names[p][y] == w.names[q][x] && Exchanged(w, f)[q][x] == f[p][y]
  {
    var recv := w.lists[q].recv;
    var m := LastListing(q, recv, |recv|, x);
    UnpackedAt(q, f[q], recv, Inbox(w, f, q), |recv|, x);
    y := 0;
    if m >= 0 {
      var p := recv[m].proc;
      assert PairMatched(w, p, q);
      VecForAt(recv, m);
      var k :| 0 <= k < |recv[m].vec| && recv[m].vec[k] == x;
      y := VecFor(w.lists[p].send, q)[k];
    }
  }

  // ----- every interleaving -----

  /** mail[p] is what p has sent to each process, [] before it has packed; taken[p] counts its entries unpacked. */
  datatype State<T> = State(fields: seq<seq<T>>, mail: seq<seq<seq<T>>>, taken: seq<nat>)

  datatype Step = Pack(p: nat) | Take(p: nat)

  ghost predicate Shaped<T>(w: Network, s: State<T>) {
    && IsField(w, s.fields) && |s.mail| == |s.taken| == |w.lists|
    && forall p :: 0 <= p < |w.lists| ==> s.taken[p] <= |w.lists[p].recv|
  }

  ghost function Start<T>(w: Network, f: seq<seq<T>>): State<T>
    requires Matched(w) && IsField(w, f)
  {
    State(f, seq(|f|, p => []), seq(|f|, p => 0))
  }

  ghost function Buffers<T>(w: Network, f: seq<seq<T>>, p: nat): (b: seq<seq<T>>)
    requires Matched(w) && IsField(w, f) && p < |f|
    ensures |b| == |f|
  {
    seq(|f|, q requires 0 <= q < |f| => if q == p then [] else Message(w, f, p, q))
  }

  /** A receive completes once its message has been sent. */
  ghost predicate Enabled<T>(w: Network, s: State<T>, step: Step)
    requires Matched(w)
  {
    && Shaped(w, s) && step.p < |w.lists|
    && match step
       case Pack(p) => s.mail[p] == []
       case Take(p) =>
         && s.mail[p] != [] && s.taken[p] < |w.lists[p].recv|
         && var e := w.lists[p].recv[s.taken[p]];
           e.proc == p || (|s.mail[e.proc]| == |w.lists| && |s.mail[e.proc][p]| == |e.vec|)
  }

  ghost function Apply<T>(w: Network, s: State<T>, step: Step): (s': State<T>)
    requires Matched(w) && Enabled(w, s, step)
    ensures Shaped(w, s')
  {
    match step
    case Pack(p) => s.(mail := s.mail[p := Buffers(w, s.fields, p)])
    case Take(p) =>
      var e := w.lists[p].recv[s.taken[p]];
      var field := if e.proc == p then s.fields[p] else Transfer.Scatter(s.fields[p], e.vec, s.mail[e.proc][p]);
      s.(fields := s.fields[p := field], taken := s.taken[p := s.taken[p] + 1])
  }

  /** Messages hold the values from before the exchange, whatever has been unpacked elsewhere. */
  ghost predicate Inv<T>(w: Network, f: seq<seq<T>>, s: State<T>)
    requires Matched(w) && IsField(w, f)
  {
    && Shaped(w, s)
    && (forall p :: 0 <= p < |f| ==> s.mail[p] == [] || s.mail[p] == Buffers(w, f, p))
    && (forall p :: 0 <= p < |f| && s.mail[p] == [] ==> s.taken[p] == 0)
    && forall p :: 0 <= p < |f| ==> s.fields[p] == UnpackedSoFar(w, f, p, s.taken[p])
  }

  ghost function UnpackedSoFar<T>(w: Network, f: seq<seq<T>>, p: nat, n: nat): seq<T>
    requires Matched(w) && IsField(w, f) && p < |f| && n <= |w.lists[p].recv|
  {
    Unpacked(p, f[p], w.lists[p].recv, Inbox(w, f, p), n)
  }

  lemma StartInv<T>(w: Network, f: seq<seq<T>>)
    requires Matched(w) && IsField(w, f)
    ensures Inv(w, f, Start(w, f))
  {
  }

  lemma PackKeepsInv<T>(w: Network, f: seq<seq<T>>, s: State<T>, p: nat)
    requires Matched(w) && IsField(w, f) && Inv(w, f, s) && Enabled(w, s, Pack(p))
    ensures Inv(w, f, Apply(w, s, Pack(p)))
  {
    hide Matched, Buffers, Unpacked;
    assert UnpackedSoFar(w, f, p, 0) == f[p] by {
      FirstUnpacked(w, f, p);
    }
    SamePacked(w, f, s.fields, p);
    assert |Buffers(w, f, p)| == |f|;
  }

  lemma FirstUnpacked<T>(w: Network, f: seq<seq<T>>, p: nat)
    requires Matched(w) && IsField(w, f) && p < |f|
    ensures UnpackedSoFar(w, f, p, 0) == f[p]
  {
  }

  lemma TakeKeepsInv<T>(w: Network, f: seq<seq<T>>, s: State<T>, p: nat)
    requires Matched(w) && IsField(w, f) && Inv(w, f, s) && Enabled(w, s, Take(p))
    ensures Inv(w, f, Apply(w, s, Take(p)))
  {
    hide Matched, Buffers, UnpackedSoFar;
    NextUnpacked(w, f, p, s.taken[p]);
    var e := w.lists[p].recv[s.taken[p]];
    assert e.proc != p ==> s.mail[e.proc] == Buffers(w, f, e.proc);
  }

  lemma NextUnpacked<T>(w: Network, f: seq<seq<T>>, p: nat, n: nat)
    requires Matched(w) && IsField(w, f) && p < |f| && n < |w.lists[p].recv|
    ensures var e, g := w.lists[p].recv[n], UnpackedSoFar(w, f, p, n);
      && 0 <= e.proc < |f| && |g| == |f[p]| && Transfer.InRange(e.vec, |g|)
      && (e.proc != p ==> |Buffers(w, f, e.proc)[p]| == |e.vec|)
      && UnpackedSoFar(w, f, p, n + 1)
           == if e.proc == p then g else Transfer.Scatter(g, e.vec, Buffers(w, f, e.proc)[p])
  {
    InboxIs(w, f, p, n);
  }

  lemma StepKeepsInv<T>(w: Network, f: seq<seq<T>>, s: State<T>, step: Step)
    requires Matched(w) && IsField(w, f) && Inv(w, f, s) && Enabled(w, s, step)
    ensures Inv(w, f, Apply(w, s, step))
  {
    hide Matched, Inv, Apply;
    match step {
      case Pack(p) => {
        PackKeepsInv(w, f, s, p);
      }
      case Take(p) => {
        TakeKeepsInv(w, f, s, p);
      }
    }
  }

  /** What is packed depends on the field of the process alone. */
  lemma SamePacked<T>(w: Network, f: seq<seq<T>>, g: seq<seq<T>>, p: nat)
    requires Matched(w) && IsField(w, f) && IsField(w, g) && p < |f| && f[p] == g[p]
    ensures Buffers(w, f, p) == Buffers(w, g, p)
  {
  }

  ghost predicate Run<T>(w: Network, s: State<T>, steps: seq<Step>, s': State<T>)
    requires Matched(w)
    decreases |steps|
  {
    if steps == [] then s' == s
    else Enabled(w, s, steps[0]) && Run(w, Apply(w, s, steps[0]), steps[1..], s')
  }

  ghost predicate Finished<T>(w: Network, s: State<T>) {
    && Shaped(w, s)
    && forall p :: 0 <= p < |w.lists| ==> s.mail[p] != [] && s.taken[p] == |w.lists[p].recv|
  }

  lemma {:induction false} RunInv<T>(w: Network, f: seq<seq<T>>, s: State<T>, steps: seq<Step>, s': State<T>)
    requires Matched(w) && IsField(w, f) && Inv(w, f, s) && Run(w, s, steps, s')
    ensures Inv(w, f, s') && Done(s', |w.lists|) == Done(s, |w.lists|) + |steps|
    decreases |steps|
  {
    hide Inv, Matched, Enabled, Apply;
    if steps != [] {
      StepKeepsInv(w, f, s, steps[0]);
      StepCounts(w, s, steps[0]);
      RunInv(w, f, Apply(w, s, steps[0]), steps[1..], s');
    }
  }

  /** The steps the first n processes have made. */
  ghost function Done<T>(s: State<T>, n: nat): nat {
    if n == 0 then 0
    else
      Done(s, n - 1) + (if n <= |s.mail| && s.mail[n - 1] != [] then 1 else 0)
      + if n <= |s.taken| then s.taken[n - 1] else 0
  }

  ghost function AllSteps(w: Network, n: nat): nat {
    if n == 0 then 0 else AllSteps(w, n - 1) + 1 + if n <= |w.lists| then |w.lists[n - 1].recv| else 0
  }

  lemma StepCounts<T>(w: Network, s: State<T>, step: Step)
    requires Matched(w) && Enabled(w, s, step)
    ensures Done(Apply(w, s, step), |w.lists|) == Done(s, |w.lists|) + 1
  {
    DoneUpTo(w, s, step, |w.lists|);
  }

  lemma {:induction false} DoneUpTo<T>(w: Network, s: State<T>, step: Step, n: nat)
    requires Matched(w) && Enabled(w, s, step) && n <= |w.lists|
    ensures Done(Apply(w, s, step), n) == Done(s, n) + if step.p < n then 1 else 0
  {
    hide Matched;
    if n > 0 {
      DoneUpTo(w, s, step, n - 1);
    }
  }

  lemma {:induction false} DoneIsBounded<T>(w: Network, s: State<T>, n: nat)
    requires Shaped(w, s) && n <= |w.lists|
    ensures Done(s, n) <= AllSteps(w, n)
    ensures Finished(w, s) ==> Done(s, n) == AllSteps(w, n)
  {
    if n > 0 {
      DoneIsBounded(w, s, n - 1);
    }
  }

  /** No unfinished state is stuck. */
  lemma NeverStuck<T>(w: Network, f: seq<seq<T>>, s: State<T>)
    requires Matched(w) && IsField(w, f) && Inv(w, f, s) && !Finished(w, s)
    ensures exists step :: Enabled(w, s, step)
  {
    hide Matched, UnpackedSoFar, Buffers;
    if p :| 0 <= p < |w.lists| && s.mail[p] == [] {
      assert Enabled(w, s, Pack(p));
    } else {
      var p :| 0 <= p < |w.lists| && s.taken[p] != |w.lists[p].recv|;
      var e := w.lists[p].recv[s.taken[p]];
      InboxIs(w, f, p, s.taken[p]);
      assert e.proc != p ==> s.mail[e.proc] == Buffers(w, f, e.proc);
      assert Enabled(w, s, Take(p));
    }
  }

  lemma InboxIs<T>(w: Network, f: seq<seq<T>>, p: nat, m: nat)
    requires Matched(w) && IsField(w, f) && p < |f| && m < |w.lists[p].recv|
    ensures var e := w.lists[p].recv[m];
      && 0 <= e.proc < |f|
      && (e.proc != p ==>
           Inbox(w, f, p)[m] == Buffers(w, f, e.proc)[p] && |Buffers(w, f, e.proc)[p]| == |e.vec|)
  {
  }

  /** Every run ends after the same number of steps, and in whatever order they were made with the same fields. */
  lemma EveryRun<T>(w: Network, f: seq<seq<T>>, steps: seq<Step>, s: State<T>)
    requires Matched(w) && IsField(w, f) && Run(w, Start(w, f), steps, s)
    ensures |steps| <= AllSteps(w, |f|)
    ensures Finished(w, s) ==> s.fields == Exchanged(w, f) && |steps| == AllSteps(w, |f|)
  {
    hide Matched, Unpacked, Run, Done, AllSteps, Start;
    StartInv(w, f);
    RunInv(w, f, Start(w, f), steps, s);
    DoneIsBounded(w, s, |f|);
    NothingDone(w, f, |f|);
    if Finished(w, s) {
      assert s.fields == Exchanged(w, f);
    }
  }

  lemma {:induction false} NothingDone<T>(w: Network, f: seq<seq<T>>, n: nat)
    requires Matched(w) && IsField(w, f) && n <= |f|
    ensures Done(Start(w, f), n) == 0
  {
    if n > 0 {
      NothingDone(w, f, n - 1);
    }
  }
}
