/**
 * Several exchanges one after the other, with no barrier between them: each process goes on to the next exchange as
 * soon as it has what it needs (mapVerticesToCells and the component loop of allToAll in
 * src/core_landice/mode_forward/Interface_velocity_solver.cpp).
 */
module ExchangeSequence {
  import opened HaloExchange
  import Transfer

  /** A message is sent, and received, for every entry of a list other than the process's own, even an empty one. */
  ghost predicate Sends(w: Network, p: nat, q: nat)
    requires p < |w.lists|
  {
    p != q && exists m :: 0 <= m < |w.lists[p].send| && w.lists[p].send[m].proc == q
  }

  /** Process q has an entry for p among the first n of its receive list. */
  ghost predicate Expects(w: Network, q: nat, p: nat, n: nat)
    requires q < |w.lists| && n <= |w.lists[q].recv|
  {
    p != q && exists m :: 0 <= m < n && w.lists[q].recv[m].proc == p
  }

  ghost predicate Paired(w: Network) {
    forall p, q :: 0 <= p < |w.lists| && 0 <= q < |w.lists| ==>
      (Sends(w, p, q) <==> Expects(w, q, p, |w.lists[q].recv|))
  }

  ghost predicate NoneEmpty(list: seq<Entry>) {
    forall m :: 0 <= m < |list| ==> list[m].vec != []
  }

  lemma {:induction false} ListedIfFull(list: seq<Entry>, q: nat)
    requires NoneEmpty(list)
    ensures VecFor(list, q) != [] <==> exists m :: 0 <= m < |list| && list[m].proc == q
  {
    if list != [] {
      assert forall m :: 0 < m < |list| ==> list[m] == list[1..][m - 1];
      ListedIfFull(list[1..], q);
    }
  }

  /** Lists that fit together, without empty entries, have their entries in pairs. */
  lemma PairedIfFull(w: Network)
    requires Matched(w) && forall p :: 0 <= p < |w.lists| ==> NoneEmpty(w.lists[p].send) && NoneEmpty(w.lists[p].recv)
    ensures Paired(w)
  {
    hide Proper, NoneEmpty;
    forall p, q | 0 <= p < |w.lists| && 0 <= q < |w.lists|
      ensures Sends(w, p, q) <==> Expects(w, q, p, |w.lists[q].recv|)
    {
      if p != q {
        assert PairMatched(w, p, q);
        ListedIfFull(w.lists[p].send, q);
        ListedIfFull(w.lists[q].recv, p);
      }
    }
  }

  /** The exchanges in the order in which every process makes them, each with the component of the field that it is
      about; the number of processes; and for every component the number of items that each process has. */
  datatype Plan = Plan(ws: seq<Network>, comps: seq<nat>, procs: nat, sizes: seq<seq<nat>>) {
    ghost predicate Valid() {
      && |comps| == |ws|
      && (forall k :: 0 <= k < |sizes| ==> |sizes[k]| == procs)
      && forall i :: 0 <= i < |ws| ==>
           && comps[i] < |sizes| && Matched(ws[i]) && Paired(ws[i])
           && |ws[i].lists| == procs && HasSizes(ws[i].names, sizes[comps[i]])
    }
  }

  /** For every component, the fields of all processes. */
  type Fields<T> = seq<seq<seq<T>>>

  ghost predicate IsStart<T>(plan: Plan, f: Fields<T>) {
    |f| == |plan.sizes| && forall k :: 0 <= k < |f| ==> HasSizes(f[k], plan.sizes[k])
  }

  ghost predicate HasSizes<T>(f: seq<seq<T>>, sizes: seq<nat>) {
    |f| == |sizes| && forall p :: 0 <= p < |f| ==> |f[p]| == sizes[p]
  }

  /** The fields after the first i exchanges, made one at a time. */
  ghost function After<T>(plan: Plan, f: Fields<T>, i: nat): (r: Fields<T>)
    requires plan.Valid() && IsStart(plan, f) && i <= |plan.ws|
    ensures IsStart(plan, r)
  {
    if i == 0 then f
    else
      var before, k := After(plan, f, i - 1), plan.comps[i - 1];
      before[k := Exchanged(plan.ws[i - 1], before[k])]
  }

  /** The component that exchange i is about, before it. */
  ghost function Part<T>(plan: Plan, f: Fields<T>, i: nat): (r: seq<seq<T>>)
    requires plan.Valid() && IsStart(plan, f) && i < |plan.ws|
    ensures HasSizes(r, plan.sizes[plan.comps[i]])
  {
    After(plan, f, i)[plan.comps[i]]
  }

  /** What p sends to q in the exchanges from i up to j. */
  ghost function Mail<T>(plan: Plan, f: Fields<T>, p: nat, q: nat, i: nat, j: nat): (mail: seq<seq<T>>)
    requires plan.Valid() && IsStart(plan, f) && j <= |plan.ws| && p < plan.procs && q < plan.procs
    decreases j
  {
    if i >= j then []
    else Mail(plan, f, p, q, i, j - 1)
         + if Sends(plan.ws[j - 1], p, q) then [Message(plan.ws[j - 1], Part(plan, f, j - 1), p, q)] else []
  }

  /** The first exchange of a span gives its first message, if it has one. */
  lemma {:induction false} MailFrom<T>(plan: Plan, f: Fields<T>, p: nat, q: nat, i: nat, j: nat)
    requires plan.Valid() && IsStart(plan, f) && i < j <= |plan.ws| && p < plan.procs && q < plan.procs
    ensures Mail(plan, f, p, q, i, j)
         == (if Sends(plan.ws[i], p, q) then [Message(plan.ws[i], Part(plan, f, i), p, q)] else [])
            + Mail(plan, f, p, q, i + 1, j)
    decreases j
  {
    hide Sends, Message, Part;
    if i + 1 < j {
      MailFrom(plan, f, p, q, i, j - 1);
    }
  }

  // ----- the processes -----

  /** The exchange a process is in, whether it has packed and sent, how many entries it has unpacked, and its own field
      with all components. */
  datatype Process<T> = Process(at: nat, sent: bool, taken: nat, field: seq<seq<T>>)

  /** mail[p][q] are the messages on the way from p to q, oldest first. */
  datatype System<T> = System(procs: seq<Process<T>>, mail: seq<seq<seq<seq<T>>>>)

  datatype Move = Send(p: nat) | Receive(p: nat) | Advance(p: nat)

  ghost predicate ProcessShaped<T>(plan: Plan, p: nat, x: Process<T>)
    requires plan.Valid() && p < plan.procs
  {
    && x.at <= |plan.ws| && |x.field| == |plan.sizes| && (!x.sent ==> x.taken == 0)
    && (forall k :: 0 <= k < |plan.sizes| ==> |x.field[k]| == plan.sizes[k][p])
    && if x.at == |plan.ws| then !x.sent else x.taken <= |plan.ws[x.at].lists[p].recv|
  }

  ghost predicate Formed<T>(plan: Plan, s: System<T>)
    requires plan.Valid()
  {
    && |s.procs| == |s.mail| == plan.procs
    && forall p :: 0 <= p < |s.procs| ==> |s.mail[p]| == |s.procs| && ProcessShaped(plan, p, s.procs[p])
  }

  ghost function Begin<T>(plan: Plan, f: Fields<T>): System<T>
    requires plan.Valid() && IsStart(plan, f)
  {
    var n := plan.procs;
    System(seq(n, p requires 0 <= p < n =>
             Process(0, false, 0, seq(|plan.sizes|, k requires 0 <= k < |plan.sizes| => f[k][p]))),
           seq(n, p => seq(n, q => [])))
  }

  /** A receive is answered by the oldest message from its process. */
  ghost predicate Can<T>(plan: Plan, s: System<T>, a: Move)
    requires plan.Valid()
  {
    && Formed(plan, s) && a.p < |s.procs| && s.procs[a.p].at < |plan.ws|
    && var x := s.procs[a.p]; var recv := plan.ws[x.at].lists[a.p].recv;
      match a
      case Send(p) => !x.sent
      case Receive(p) =>
        && x.sent && x.taken < |recv|
        && var e := recv[x.taken];
          e.proc == p || (s.mail[e.proc][p] != [] && |s.mail[e.proc][p][0]| == |e.vec|)
      case Advance(p) => x.sent && x.taken == |recv|
  }

  /** The wait for the sends: when messages are not buffered, a process leaves an exchange only after this. */
  ghost predicate AllTaken<T>(s: System<T>, p: nat)
    requires p < |s.mail|
  {
    forall q :: 0 <= q < |s.mail[p]| && q != p ==> s.mail[p][q] == []
  }

  ghost function Packed<T>(plan: Plan, s: System<T>, p: nat, q: nat): (mail: seq<seq<T>>)
    requires plan.Valid() && Can(plan, s, Send(p)) && q < |s.procs|
  {
    var w, k := plan.ws[s.procs[p].at], plan.comps[s.procs[p].at];
    VecForInRange(w.lists[p].send, q, |w.lists|, |w.names[p]|);
    if Sends(w, p, q) then [Transfer.Gather(s.procs[p].field[k], VecFor(w.lists[p].send, q))] else []
  }

  ghost function Moved<T>(plan: Plan, s: System<T>, a: Move): (s': System<T>)
    requires plan.Valid() && Can(plan, s, a)
    ensures Formed(plan, s')
  {
    var x := s.procs[a.p];
    match a
    case Send(p) =>
      var out := seq(|s.procs|, q requires 0 <= q < |s.procs| => s.mail[p][q] + Packed(plan, s, p, q));
      System(s.procs[p := x.(sent := true)], s.mail[p := out])
    case Receive(p) =>
      var e := plan.ws[x.at].lists[p].recv[x.taken];
      if e.proc == p then s.(procs := s.procs[p := x.(taken := x.taken + 1)])
      else
        var k := plan.comps[x.at];
        var field := x.field[k := Transfer.Scatter(x.field[k], e.vec, s.mail[e.proc][p][0])];
        System(s.procs[p := x.(taken := x.taken + 1, field := field)],
               s.mail[e.proc := s.mail[e.proc][p := s.mail[e.proc][p][1..]]])
    case Advance(p) => s.(procs := s.procs[p := Process(x.at + 1, false, 0, x.field)])
  }

  // ----- the invariant -----

  /** The number of exchanges in which a process has sent. */
  ghost function SentBy<T>(x: Process<T>): nat { x.at + if x.sent then 1 else 0 }

  /** The number of exchanges in which q is done with receiving from p. */
  ghost function GotFrom<T>(plan: Plan, q: nat, x: Process<T>, p: nat): nat
    requires plan.Valid() && q < plan.procs && ProcessShaped(plan, q, x)
  {
    x.at + if x.at < |plan.ws| && Expects(plan.ws[x.at], q, p, x.taken) then 1 else 0
  }

  ghost predicate FieldInv<T>(plan: Plan, f: Fields<T>, p: nat, x: Process<T>)
    requires plan.Valid() && IsStart(plan, f) && p < plan.procs && ProcessShaped(plan, p, x)
  {
    forall k :: 0 <= k < |plan.sizes| ==>
      x.field[k] == if x.at < |plan.ws| && k == plan.comps[x.at]
                    then UnpackedSoFar(plan.ws[x.at], Part(plan, f, x.at), p, x.taken)
                    else After(plan, f, x.at)[k][p]
  }

  /** What is on the way from p to q is what p has sent and q has not received; q has received nothing early. */
  ghost predicate MailInv<T>(plan: Plan, f: Fields<T>, p: nat, x: Process<T>, q: nat, y: Process<T>,
                             mail: seq<seq<T>>)
    requires plan.Valid() && IsStart(plan, f) && p < plan.procs && q < plan.procs
    requires ProcessShaped(plan, p, x) && ProcessShaped(plan, q, y)
  {
    && mail == Mail(plan, f, p, q, GotFrom(plan, q, y, p), SentBy(x))
    && forall j :: SentBy(x) <= j < GotFrom(plan, q, y, p) && j < |plan.ws| ==> !Sends(plan.ws[j], p, q)
  }

  ghost predicate Keeps<T>(plan: Plan, f: Fields<T>, s: System<T>)
    requires plan.Valid() && IsStart(plan, f)
  {
    && Formed(plan, s)
    && (forall p :: 0 <= p < plan.procs ==> FieldInv(plan, f, p, s.procs[p]))
    && forall p, q :: 0 <= p < plan.procs && 0 <= q < plan.procs && p != q ==>
         MailInv(plan, f, p, s.procs[p], q, s.procs[q], s.mail[p][q])
  }

  lemma BeginKeeps<T>(plan: Plan, f: Fields<T>)
    requires plan.Valid() && IsStart(plan, f)
    ensures Keeps(plan, f, Begin(plan, f))
  {
    hide Matched, Paired, UnpackedSoFar;
    if |plan.ws| > 0 {
      forall p | 0 <= p < plan.procs
        ensures UnpackedSoFar(plan.ws[0], Part(plan, f, 0), p, 0) == f[plan.comps[0]][p]
      {
        PartStarts(plan, f, 0, p);
      }
    }
  }

  lemma KeptMail<T>(plan: Plan, f: Fields<T>, s: System<T>, p: nat, q: nat)
    requires plan.Valid() && IsStart(plan, f) && Keeps(plan, f, s) && p < plan.procs && q < plan.procs && p != q
    ensures Formed(plan, s) && MailInv(plan, f, p, s.procs[p], q, s.procs[q], s.mail[p][q])
  {
  }

  // ----- what the moves do to the messages between two processes -----

  lemma MailSent<T>(plan: Plan, f: Fields<T>, p: nat, x: Process<T>, q: nat, y: Process<T>, mail: seq<seq<T>>)
    requires plan.Valid() && IsStart(plan, f) && p < plan.procs && q < plan.procs && p != q
    requires ProcessShaped(plan, p, x) && ProcessShaped(plan, q, y) && MailInv(plan, f, p, x, q, y, mail)
    requires x.at < |plan.ws| && !x.sent
    ensures ProcessShaped(plan, p, x.(sent := true))
    ensures MailInv(plan, f, p, x.(sent := true), q, y,
      mail + if Sends(plan.ws[x.at], p, q) then [Message(plan.ws[x.at], Part(plan, f, x.at), p, q)] else [])
  {
    hide Sends, Expects, Message, Part, GotFrom, Matched, Paired;
    var got := GotFrom(plan, q, y, p);
    assert SentBy(x) == x.at && SentBy(x.(sent := true)) == x.at + 1;
    assert got > x.at ==> !Sends(plan.ws[x.at], p, q) && Mail(plan, f, p, q, got, x.at) == [];
  }

  /** An entry that has not been reached is the first one for its process, and a message is sent for it. */
  lemma ExpectsNow(w: Network, q: nat, n: nat)
    requires Matched(w) && Paired(w) && q < |w.lists| && n < |w.lists[q].recv| && w.lists[q].recv[n].proc != q
    ensures var p := w.lists[q].recv[n].proc;
      && 0 <= p < |w.lists| && Sends(w, p, q) && !Expects(w, q, p, n) && Expects(w, q, p, n + 1)
  {
    var p := w.lists[q].recv[n].proc;
    assert Proper(w.lists[q].recv, |w.lists|, |w.names[q]|);
    assert Expects(w, q, p, |w.lists[q].recv|);
  }

  lemma GotNext<T>(plan: Plan, q: nat, y: Process<T>, y': Process<T>, p: nat)
    requires plan.Valid() && p < plan.procs && q < plan.procs && p != q && ProcessShaped(plan, q, y)
    requires y.at < |plan.ws| && y.taken < |plan.ws[y.at].lists[q].recv|
    requires plan.ws[y.at].lists[q].recv[y.taken].proc == p
    requires ProcessShaped(plan, q, y') && y'.at == y.at && y'.taken == y.taken + 1
    ensures Sends(plan.ws[y.at], p, q) && GotFrom(plan, q, y, p) == y.at && GotFrom(plan, q, y', p) == y.at + 1
  {
    ExpectsNow(plan.ws[y.at], q, y.taken);
    hide Sends, Expects, Matched, Paired;
  }

  lemma MailReceived<T>(plan: Plan, f: Fields<T>, p: nat, x: Process<T>, q: nat, y: Process<T>, y': Process<T>,
                        mail: seq<seq<T>>)
    requires plan.Valid() && IsStart(plan, f) && p < plan.procs && q < plan.procs && p != q
    requires ProcessShaped(plan, p, x) && ProcessShaped(plan, q, y) && MailInv(plan, f, p, x, q, y, mail)
    requires y.at < |plan.ws| && y.taken < |plan.ws[y.at].lists[q].recv|
    requires plan.ws[y.at].lists[q].recv[y.taken].proc == p && mail != []
    requires ProcessShaped(plan, q, y') && y'.at == y.at && y'.taken == y.taken + 1
    ensures mail[0] == Message(plan.ws[y.at], Part(plan, f, y.at), p, q)
    ensures MailInv(plan, f, p, x, q, y', mail[1..])
  {
    hide Sends, Expects, Message, Part, GotFrom, Matched, Paired;
    GotNext(plan, q, y, y', p);
    MailFrom(plan, f, p, q, y.at, SentBy(x));
  }

  lemma MailOther<T>(plan: Plan, f: Fields<T>, p: nat, x: Process<T>, q: nat, y: Process<T>, y': Process<T>,
                     mail: seq<seq<T>>)
    requires plan.Valid() && IsStart(plan, f) && p < plan.procs && q < plan.procs && p != q
    requires ProcessShaped(plan, p, x) && ProcessShaped(plan, q, y) && MailInv(plan, f, p, x, q, y, mail)
    requires y.at < |plan.ws| && y.taken < |plan.ws[y.at].lists[q].recv|
    requires plan.ws[y.at].lists[q].recv[y.taken].proc != p
    requires ProcessShaped(plan, q, y') && y'.at == y.at && y'.taken == y.taken + 1
    ensures MailInv(plan, f, p, x, q, y', mail)
  {
    hide Mail, Sends, Matched, Paired;
  }

  /** A process that goes on has received what was sent to it. */
  lemma MailPassed<T>(plan: Plan, f: Fields<T>, p: nat, x: Process<T>, q: nat, y: Process<T>, y': Process<T>,
                      mail: seq<seq<T>>)
    requires plan.Valid() && IsStart(plan, f) && p < plan.procs && q < plan.procs && p != q
    requires ProcessShaped(plan, p, x) && ProcessShaped(plan, q, y) && MailInv(plan, f, p, x, q, y, mail)
    requires y.at < |plan.ws| && y.taken == |plan.ws[y.at].lists[q].recv|
    requires ProcessShaped(plan, q, y') && y'.at == y.at + 1 && y'.taken == 0
    ensures MailInv(plan, f, p, x, q, y', mail)
  {
    hide Sends, Expects, Message, Part, Matched;
    var w := plan.ws[y.at];
    assert Paired(w);
    assert Sends(w, p, q) <==> Expects(w, q, p, y.taken);
    NothingExpected(plan, q, y', p);
    assert GotFrom(plan, q, y', p) == y.at + 1;
    hide Paired;
    if !Sends(w, p, q) && y.at < SentBy(x) {
      MailFrom(plan, f, p, q, y.at, SentBy(x));
    }
  }

  lemma NothingExpected<T>(plan: Plan, q: nat, y: Process<T>, p: nat)
    requires plan.Valid() && q < plan.procs && ProcessShaped(plan, q, y) && y.taken == 0
    ensures GotFrom(plan, q, y, p) == y.at
  {
  }

  /** The message that q waits for, once it has been sent. */
  lemma MailWaiting<T>(plan: Plan, f: Fields<T>, p: nat, x: Process<T>, q: nat, y: Process<T>, mail: seq<seq<T>>)
    requires plan.Valid() && IsStart(plan, f) && p < plan.procs && q < plan.procs && p != q
    requires ProcessShaped(plan, p, x) && ProcessShaped(plan, q, y) && MailInv(plan, f, p, x, q, y, mail)
    requires y.at < |plan.ws| && y.taken < |plan.ws[y.at].lists[q].recv|
    requires plan.ws[y.at].lists[q].recv[y.taken].proc == p && SentBy(x) > y.at
    ensures mail != [] && |mail[0]| == |plan.ws[y.at].lists[q].recv[y.taken].vec|
  {
    hide Sends, Expects, Message, Part, Matched, Paired;
    var w := plan.ws[y.at];
    ExpectsNow(w, q, y.taken);
    BufferLength(w, Part(plan, f, y.at), p, q, y.taken);
    MailFrom(plan, f, p, q, y.at, SentBy(x));
  }

  lemma BufferLength<T>(w: Network, f: seq<seq<T>>, p: nat, q: nat, n: nat)
    requires Matched(w) && IsField(w, f) && p < |f| && q < |f| && p != q
    requires n < |w.lists[q].recv| && w.lists[q].recv[n].proc == p
    ensures |Message(w, f, p, q)| == |w.lists[q].recv[n].vec|
  {
    InboxIs(w, f, q, n);
  }

  // ----- every move keeps the invariant -----

  lemma PackedIs<T>(plan: Plan, f: Fields<T>, s: System<T>, p: nat, q: nat)
    requires plan.Valid() && IsStart(plan, f) && Keeps(plan, f, s) && Can(plan, s, Send(p))
    requires q < plan.procs && p != q
    ensures var w, i := plan.ws[s.procs[p].at], s.procs[p].at;
      Packed(plan, s, p, q) == if Sends(w, p, q) then [Message(w, Part(plan, f, i), p, q)] else []
  {
    var i := s.procs[p].at;
    hide Sends, MailInv, Matched;
    assert FieldInv(plan, f, p, s.procs[p]);
    FirstUnpacked(plan.ws[i], Part(plan, f, i), p);
  }

  lemma SendKeeps<T>(plan: Plan, f: Fields<T>, s: System<T>, r: nat)
    requires plan.Valid() && IsStart(plan, f) && Keeps(plan, f, s) && Can(plan, s, Send(r))
    ensures Keeps(plan, f, Moved(plan, s, Send(r)))
  {
    hide MailInv, Packed, Message, Part, UnpackedSoFar, Sends, Matched, Paired;
    var s' := Moved(plan, s, Send(r));
    forall p, q | 0 <= p < plan.procs && 0 <= q < plan.procs && p != q
      ensures MailInv(plan, f, p, s'.procs[p], q, s'.procs[q], s'.mail[p][q])
    {
      KeptMail(plan, f, s, p, q);
      if p == r {
        PackedIs(plan, f, s, p, q);
        MailSent(plan, f, p, s.procs[p], q, s.procs[q], s.mail[p][q]);
      } else if q == r {
        SameGot(plan, f, p, s.procs[p], q, s.procs[q], s'.procs[q], s.mail[p][q]);
      }
    }
  }

  lemma SameGot<T>(plan: Plan, f: Fields<T>, p: nat, x: Process<T>, q: nat, y: Process<T>, y': Process<T>,
                   mail: seq<seq<T>>)
    requires plan.Valid() && IsStart(plan, f) && p < plan.procs && q < plan.procs && p != q
    requires ProcessShaped(plan, p, x) && ProcessShaped(plan, q, y) && MailInv(plan, f, p, x, q, y, mail)
    requires ProcessShaped(plan, q, y') && y'.at == y.at && y'.taken == y.taken
    ensures MailInv(plan, f, p, x, q, y', mail)
  {
    hide Mail, Sends, Matched, Paired, Expects;
  }

  lemma SameSent<T>(plan: Plan, f: Fields<T>, p: nat, x: Process<T>, x': Process<T>, q: nat, y: Process<T>,
                    mail: seq<seq<T>>)
    requires plan.Valid() && IsStart(plan, f) && p < plan.procs && q < plan.procs && p != q
    requires ProcessShaped(plan, p, x) && ProcessShaped(plan, q, y) && MailInv(plan, f, p, x, q, y, mail)
    requires ProcessShaped(plan, p, x') && SentBy(x') == SentBy(x)
    ensures MailInv(plan, f, p, x', q, y, mail)
  {
  }

  lemma AdvanceKeeps<T>(plan: Plan, f: Fields<T>, s: System<T>, r: nat)
    requires plan.Valid() && IsStart(plan, f) && Keeps(plan, f, s) && Can(plan, s, Advance(r))
    ensures Keeps(plan, f, Moved(plan, s, Advance(r)))
  {
    hide MailInv, FieldInv, Packed, Message, Part, UnpackedSoFar, Sends, Matched, Paired;
    var s' := Moved(plan, s, Advance(r));
    FieldAdvanced(plan, f, r, s.procs[r]);
    forall p, q | 0 <= p < plan.procs && 0 <= q < plan.procs && p != q
      ensures MailInv(plan, f, p, s'.procs[p], q, s'.procs[q], s'.mail[p][q])
    {
      KeptMail(plan, f, s, p, q);
      if p == r {
        SameSent(plan, f, p, s.procs[p], s'.procs[p], q, s.procs[q], s.mail[p][q]);
      } else if q == r {
        MailPassed(plan, f, p, s.procs[p], q, s.procs[q], s'.procs[q], s.mail[p][q]);
      }
    }
  }

  lemma FieldAdvanced<T>(plan: Plan, f: Fields<T>, r: nat, x: Process<T>)
    requires plan.Valid() && IsStart(plan, f) && r < plan.procs && ProcessShaped(plan, r, x)
    requires x.at < |plan.ws| && x.taken == |plan.ws[x.at].lists[r].recv| && FieldInv(plan, f, r, x)
    ensures var y := Process(x.at + 1, false, 0, x.field); ProcessShaped(plan, r, y) && FieldInv(plan, f, r, y)
  {
    hide Matched, Paired, UnpackedSoFar, After, HasSizes;
    AfterNext(plan, f, x.at, r);
    if x.at + 1 < |plan.ws| {
      PartStarts(plan, f, x.at + 1, r);
    }
  }

  lemma PartStarts<T>(plan: Plan, f: Fields<T>, i: nat, r: nat)
    requires plan.Valid() && IsStart(plan, f) && i < |plan.ws| && r < plan.procs
    ensures Matched(plan.ws[i]) && IsField(plan.ws[i], Part(plan, f, i))
    ensures UnpackedSoFar(plan.ws[i], Part(plan, f, i), r, 0) == After(plan, f, i)[plan.comps[i]][r]
  {
    FirstUnpacked(plan.ws[i], Part(plan, f, i), r);
  }

  lemma AfterNext<T>(plan: Plan, f: Fields<T>, i: nat, r: nat)
    requires plan.Valid() && IsStart(plan, f) && i < |plan.ws| && r < plan.procs
    ensures forall k :: 0 <= k < |plan.sizes| ==>
      After(plan, f, i + 1)[k][r]
      == if k == plan.comps[i] then UnpackedSoFar(plan.ws[i], Part(plan, f, i), r, |plan.ws[i].lists[r].recv|)
         else After(plan, f, i)[k][r]
  {
    hide Matched, Paired;
  }

  lemma ReceiveKeeps<T>(plan: Plan, f: Fields<T>, s: System<T>, r: nat)
    requires plan.Valid() && IsStart(plan, f) && Keeps(plan, f, s) && Can(plan, s, Receive(r))
    ensures Keeps(plan, f, Moved(plan, s, Receive(r)))
  {
    hide MailInv, FieldInv, Packed, Message, Part, UnpackedSoFar, Sends, Matched, Paired, HasSizes, Transfer.Scatter;
    var s' := Moved(plan, s, Receive(r));
    FieldReceived(plan, f, s, r);
    forall p, q | 0 <= p < plan.procs && 0 <= q < plan.procs && p != q
      ensures MailInv(plan, f, p, s'.procs[p], q, s'.procs[q], s'.mail[p][q])
    {
      KeptMail(plan, f, s, p, q);
      var x, y := s.procs[p], s.procs[q];
      if p == r {
        SameSent(plan, f, p, x, s'.procs[p], q, y, s.mail[p][q]);
      } else if q == r && plan.ws[y.at].lists[q].recv[y.taken].proc == p {
        MailReceived(plan, f, p, x, q, y, s'.procs[q], s.mail[p][q]);
      } else if q == r {
        MailOther(plan, f, p, x, q, y, s'.procs[q], s.mail[p][q]);
      }
    }
  }

  lemma FieldReceived<T>(plan: Plan, f: Fields<T>, s: System<T>, r: nat)
    requires plan.Valid() && IsStart(plan, f) && Keeps(plan, f, s) && Can(plan, s, Receive(r))
    ensures FieldInv(plan, f, r, Moved(plan, s, Receive(r)).procs[r])
  {
    hide MailInv, UnpackedSoFar, Part, Message, Matched;
    var x := s.procs[r];
    var e := plan.ws[x.at].lists[r].recv[x.taken];
    assert FieldInv(plan, f, r, x);
    NextUnpacked(plan.ws[x.at], Part(plan, f, x.at), r, x.taken);
    if e.proc != r {
      KeptMail(plan, f, s, e.proc, r);
      MailReceived(plan, f, e.proc, s.procs[e.proc], r, x, x.(taken := x.taken + 1), s.mail[e.proc][r]);
    }
  }

  lemma MoveKeeps<T>(plan: Plan, f: Fields<T>, s: System<T>, a: Move)
    requires plan.Valid() && IsStart(plan, f) && Keeps(plan, f, s) && Can(plan, s, a)
    ensures Keeps(plan, f, Moved(plan, s, a))
  {
    hide Keeps, Moved;
    match a {
      case Send(p) => {
        SendKeeps(plan, f, s, p);
      }
      case Receive(p) => {
        ReceiveKeeps(plan, f, s, p);
      }
      case Advance(p) => {
        AdvanceKeeps(plan, f, s, p);
      }
    }
  }

  // ----- no process waits for ever -----

  ghost predicate AllDone<T>(plan: Plan, s: System<T>) {
    forall p :: 0 <= p < |s.procs| ==> s.procs[p].at == |plan.ws|
  }

  lemma {:induction false} FindLeast<T>(s: System<T>, n: nat) returns (p: nat)
    requires 0 < n <= |s.procs|
    ensures p < n && forall q :: 0 <= q < n ==> s.procs[p].at <= s.procs[q].at
  {
    p := 0;
    if n > 1 {
      p := FindLeast(s, n - 1);
      if s.procs[n - 1].at < s.procs[p].at {
        p := n - 1;
      }
    }
  }

  /** A process with which all others have caught up, and sent, finds the message that it waits for. */
  lemma CanReceive<T>(plan: Plan, f: Fields<T>, s: System<T>, q: nat)
    requires plan.Valid() && IsStart(plan, f) && Keeps(plan, f, s) && q < plan.procs
    requires s.procs[q].at < |plan.ws| && s.procs[q].sent
    requires s.procs[q].taken < |plan.ws[s.procs[q].at].lists[q].recv|
    requires forall p :: 0 <= p < plan.procs ==> SentBy(s.procs[p]) > s.procs[q].at
    ensures Can(plan, s, Receive(q))
  {
    var y := s.procs[q];
    var w, i := plan.ws[y.at], y.at;
    var e := w.lists[q].recv[y.taken];
    if e.proc != q {
      var p := Waited(plan, f, s, q);
      KeptMail(plan, f, s, p, q);
    }
  }

  lemma Waited<T>(plan: Plan, f: Fields<T>, s: System<T>, q: nat) returns (p: nat)
    requires plan.Valid() && IsStart(plan, f) && Keeps(plan, f, s) && q < plan.procs
    requires s.procs[q].at < |plan.ws|
    requires s.procs[q].taken < |plan.ws[s.procs[q].at].lists[q].recv|
    requires plan.ws[s.procs[q].at].lists[q].recv[s.procs[q].taken].proc != q
    requires forall p :: 0 <= p < plan.procs ==> SentBy(s.procs[p]) > s.procs[q].at
    ensures var e := plan.ws[s.procs[q].at].lists[q].recv[s.procs[q].taken];
      p == e.proc && p < plan.procs && p != q && s.mail[p][q] != [] && |s.mail[p][q][0]| == |e.vec|
  {
    hide Sends, Expects, MailInv, Paired;
    var y := s.procs[q];
    p := EntryProcess(plan.ws[y.at], q, y.taken);
    KeptMail(plan, f, s, p, q);
    MailWaiting(plan, f, p, s.procs[p], q, y, s.mail[p][q]);
  }

  lemma EntryProcess(w: Network, q: nat, n: nat) returns (p: nat)
    requires Matched(w) && q < |w.lists| && n < |w.lists[q].recv|
    ensures p == w.lists[q].recv[n].proc && p < |w.lists|
  {
    p := w.lists[q].recv[n].proc;
  }

  /** What a process has sent has been received once all others have unpacked everything in the same exchange. */
  lemma CanLeave<T>(plan: Plan, f: Fields<T>, s: System<T>, p: nat)
    requires plan.Valid() && IsStart(plan, f) && Keeps(plan, f, s) && p < plan.procs
    requires s.procs[p].at < |plan.ws| && s.procs[p].sent
    requires forall q :: 0 <= q < plan.procs ==> s.procs[q].at >= s.procs[p].at
    requires forall q :: 0 <= q < plan.procs && s.procs[q].at == s.procs[p].at ==>
      s.procs[q].taken == |plan.ws[s.procs[q].at].lists[q].recv|
    ensures AllTaken(s, p)
  {
    hide Sends, Expects, Part, Message, Matched, Mail, Paired;
    var i := s.procs[p].at;
    forall q | 0 <= q < plan.procs && q != p
      ensures s.mail[p][q] == []
    {
      KeptMail(plan, f, s, p, q);
      if s.procs[q].at == i {
        EndOfList(plan.ws[i], p, q);
      }
      NoMail(plan, f, p, q, i, GotFrom(plan, q, s.procs[q], p));
    }
  }

  lemma NoMail<T>(plan: Plan, f: Fields<T>, p: nat, q: nat, i: nat, j: nat)
    requires plan.Valid() && IsStart(plan, f) && p < plan.procs && q < plan.procs && i < |plan.ws|
    requires j > i || (j == i && !Sends(plan.ws[i], p, q))
    ensures Mail(plan, f, p, q, j, i + 1) == []
  {
  }

  lemma EndOfList(w: Network, p: nat, q: nat)
    requires Paired(w) && p < |w.lists| && q < |w.lists|
    ensures Sends(w, p, q) <==> Expects(w, q, p, |w.lists[q].recv|)
  {
  }

  /** Until all are done some process can go on, even if none leaves an exchange before its messages are received. */
  lemma NeverStuck<T>(plan: Plan, f: Fields<T>, s: System<T>)
    requires plan.Valid() && IsStart(plan, f) && Keeps(plan, f, s) && !AllDone(plan, s)
    ensures exists a :: Can(plan, s, a) && (a.Advance? ==> AllTaken(s, a.p))
  {
    hide MailInv, FieldInv, Matched, Paired, AllTaken;
    var p := FindLeast(s, plan.procs);
    var i := s.procs[p].at;
    assert i < |plan.ws|;
    if r :| 0 <= r < plan.procs && s.procs[r].at == i && !s.procs[r].sent {
      assert Can(plan, s, Send(r));
    } else if r :| 0 <= r < plan.procs && s.procs[r].at == i && s.procs[r].taken < |plan.ws[i].lists[r].recv| {
      CanReceive(plan, f, s, r);
      assert Can(plan, s, Receive(r));
    } else {
      forall q | 0 <= q < plan.procs && s.procs[q].at == i
        ensures s.procs[q].taken == |plan.ws[s.procs[q].at].lists[q].recv|
      {
        assert ProcessShaped(plan, q, s.procs[q]);
      }
      CanLeave(plan, f, s, p);
      assert Can(plan, s, Advance(p));
    }
  }

  // ----- runs -----

  ghost predicate Follows<T>(plan: Plan, s: System<T>, moves: seq<Move>, s': System<T>)
    requires plan.Valid()
    decreases |moves|
  {
    if moves == [] then s' == s
    else Can(plan, s, moves[0]) && Follows(plan, Moved(plan, s, moves[0]), moves[1..], s')
  }

  /** The moves of process p before exchange i. */
  ghost function Before(plan: Plan, p: nat, i: nat): nat
    requires plan.Valid() && p < plan.procs && i <= |plan.ws|
  {
    if i == 0 then 0 else Before(plan, p, i - 1) + |plan.ws[i - 1].lists[p].recv| + 2
  }

  ghost function MadeBy<T>(plan: Plan, p: nat, x: Process<T>): nat
    requires plan.Valid() && p < plan.procs && ProcessShaped(plan, p, x)
  {
    Before(plan, p, x.at) + (if x.sent then 1 else 0) + x.taken
  }

  /** The moves that the first n processes have made. */
  ghost function Made<T>(plan: Plan, s: System<T>, n: nat): nat
    requires plan.Valid() && Formed(plan, s) && n <= |s.procs|
  {
    if n == 0 then 0 else Made(plan, s, n - 1) + MadeBy(plan, n - 1, s.procs[n - 1])
  }

  ghost function AllMoves(plan: Plan, n: nat): nat
    requires plan.Valid() && n <= plan.procs
  {
    if n == 0 then 0 else AllMoves(plan, n - 1) + Before(plan, n - 1, |plan.ws|)
  }

  lemma MoveCountsOnce<T>(plan: Plan, s: System<T>, a: Move, p: nat)
    requires plan.Valid() && Can(plan, s, a) && p < |s.procs|
    ensures MadeBy(plan, p, Moved(plan, s, a).procs[p]) == MadeBy(plan, p, s.procs[p]) + if a.p == p then 1 else 0
  {
    hide Matched, Paired, Packed, Transfer.Scatter;
  }

  lemma {:induction false} MoveCounts<T>(plan: Plan, s: System<T>, a: Move, n: nat)
    requires plan.Valid() && Can(plan, s, a) && n <= |s.procs|
    ensures a.p < |s.procs| == plan.procs
    ensures Made(plan, Moved(plan, s, a), n) == Made(plan, s, n) + if a.p < n then 1 else 0
  {
    hide Matched, Paired, Moved, MadeBy, ProcessShaped;
    if n > 0 {
      MoveCounts(plan, s, a, n - 1);
      MoveCountsOnce(plan, s, a, n - 1);
    }
  }

  lemma {:induction false} BeforeGrows(plan: Plan, p: nat, i: nat, j: nat)
    requires plan.Valid() && p < plan.procs && i < j <= |plan.ws|
    ensures Before(plan, p, i) + |plan.ws[i].lists[p].recv| + 2 <= Before(plan, p, j)
    decreases j
  {
    if i + 1 < j {
      BeforeGrows(plan, p, i, j - 1);
    }
  }

  lemma {:induction false} MadeIsBounded<T>(plan: Plan, s: System<T>, n: nat)
    requires plan.Valid() && Formed(plan, s) && n <= |s.procs|
    ensures Made(plan, s, n) <= AllMoves(plan, n)
    ensures AllDone(plan, s) ==> Made(plan, s, n) == AllMoves(plan, n)
  {
    hide Matched, Paired, HasSizes;
    if n > 0 {
      MadeIsBounded(plan, s, n - 1);
      var x := s.procs[n - 1];
      assert ProcessShaped(plan, n - 1, x);
      if x.at < |plan.ws| {
        BeforeGrows(plan, n - 1, x.at, |plan.ws|);
      }
    }
  }

  lemma {:induction false} FollowKeeps<T>(plan: Plan, f: Fields<T>, s: System<T>, moves: seq<Move>, s': System<T>)
    requires plan.Valid() && IsStart(plan, f) && Keeps(plan, f, s) && Follows(plan, s, moves, s')
    ensures Keeps(plan, f, s') && Made(plan, s', plan.procs) == Made(plan, s, plan.procs) + |moves|
    decreases |moves|
  {
    hide MailInv, FieldInv, Matched, Paired, Can, Moved, Made;
    if moves != [] {
      MoveKeeps(plan, f, s, moves[0]);
      MoveCounts(plan, s, moves[0], plan.procs);
      FollowKeeps(plan, f, Moved(plan, s, moves[0]), moves[1..], s');
    }
  }

  lemma {:induction false} NothingMade<T>(plan: Plan, f: Fields<T>, n: nat)
    requires plan.Valid() && IsStart(plan, f) && Formed(plan, Begin(plan, f)) && n <= plan.procs
    ensures Made(plan, Begin(plan, f), n) == 0
  {
    if n > 0 {
      NothingMade(plan, f, n - 1);
    }
  }

  /** Exchanges made without a barrier: no run is stuck before all processes are done, every run is bounded, and those
      that end have made the same number of moves and left the fields that the exchanges make one at a time. */
  lemma EveryRunOfPlan<T>(plan: Plan, f: Fields<T>, moves: seq<Move>, s: System<T>)
    requires plan.Valid() && IsStart(plan, f) && Follows(plan, Begin(plan, f), moves, s)
    ensures |moves| <= AllMoves(plan, plan.procs)
    ensures AllDone(plan, s) <==> !exists a :: Can(plan, s, a) && (a.Advance? ==> AllTaken(s, a.p))
    ensures AllDone(plan, s) ==> |moves| == AllMoves(plan, plan.procs) && |s.procs| == plan.procs
    ensures AllDone(plan, s) ==> forall p :: 0 <= p < plan.procs ==> |s.procs[p].field| == |plan.sizes|
    ensures AllDone(plan, s) ==> forall p, k :: 0 <= p < plan.procs && 0 <= k < |plan.sizes| ==>
      s.procs[p].field[k] == After(plan, f, |plan.ws|)[k][p]
  {
    hide MailInv, Matched, Paired, Made, AllMoves, Follows, Begin, AllTaken, After, UnpackedSoFar;
    BeginKeeps(plan, f);
    FollowKeeps(plan, f, Begin(plan, f), moves, s);
    NothingMade(plan, f, plan.procs);
    MadeIsBounded(plan, s, plan.procs);
    if !AllDone(plan, s) {
      NeverStuck(plan, f, s);
    }
    forall p | 0 <= p < plan.procs
      ensures FieldInv(plan, f, p, s.procs[p])
    {
    }
  }
}
