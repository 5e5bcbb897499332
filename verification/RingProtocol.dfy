/** The ring of build_exchange as a protocol: all ranks run concurrently, messages travel over MPI
    point-to-point channels, and any rank may be scheduled next
    (src/external/SMIOL/smiol_utils.c). */
module RingProtocol {
  import opened Basics
  import opened Triplets
  import opened Marking
  import opened Ring

  const SIZEOF_OFFSET: int := 8

  // ----- the state -----

  datatype Message = Size(n: nat) | Payload(buf: seq<Slot>) {
    function GetSize(): nat { if Size? then n else 0 }
    function GetBuffer(): seq<Slot> { if Payload? then buf else [] }
    /** The count argument of the MPI call that carries the message, an int. */
    function Count(): nat { if Size? then 1 else 2 * |buf| * SIZEOF_OFFSET }
  }

  /** A message on its way: number is its place among all that its sender ever sent. */
  datatype Envelope = Envelope(number: nat, tag: int, msg: Message)

  datatype Receive = NotPosted | Pending(tag: int) | Done(msg: Message)

  /** The call that the rank will complete next in its loop body. */
  datatype Pc = Top | AwaitSizeIn | AwaitSizeOut | AwaitBufferIn | AwaitBufferOut

  datatype RankState = RankState(i: nat, pc: Pc, bufOut: seq<Slot>, sizeIn: nat, bufIn: seq<Slot>,
                                 comp: seq<Triplet>, recv: Receive, sent: nat)

  /** chan[r] holds what r has sent to its right neighbour and no receive has matched yet. */
  datatype State = State(ranks: seq<RankState>, chan: seq<seq<Envelope>>)

  ghost function Init(w: World): (st: State)
    requires w.Valid()
    ensures |st.ranks| == |st.chan| == w.Size()
  {
    State(seq(w.Size(), r requires 0 <= r < w.Size() =>
            RankState(0, Top, FreshBuffer(w.io[r]), 0, [], w.comp[r], NotPosted, 0)),
          seq(w.Size(), r => []))
  }

  // ----- the steps -----

  datatype Step = Post(r: nat) | Match(r: nat) | TakeSize(r: nat) | SizeSent(r: nat)
                | TakeBuffer(r: nat) | BufferSent(r: nat)

  /** MPI matches a receive with the first waiting message of that tag from that source. */
  function FirstWithTag(c: seq<Envelope>, tag: int): (k: nat)
    ensures k <= |c| && (k < |c| ==> c[k].tag == tag)
    ensures forall j :: 0 <= j < k ==> c[j].tag != tag
  {
    if c == [] || c[0].tag == tag then 0 else 1 + FirstWithTag(c[1..], tag)
  }

  /** The last send request of r: always complete once its message is matched; with buffering,
      MPI may complete it at any time. */
  ghost predicate SendComplete(st: State, r: nat, buffering: bool)
    requires r < |st.ranks| == |st.chan|
  {
    buffering || forall k :: 0 <= k < |st.chan[r]| ==> st.chan[r][k].number + 1 != st.ranks[r].sent
  }

  ghost predicate Shape(w: World, st: State) {
    w.Valid() && |st.ranks| == |st.chan| == w.Size()
    && forall r :: 0 <= r < w.Size() ==> st.ranks[r].i <= w.Size()
  }

  ghost predicate Enabled(w: World, st: State, step: Step, buffering: bool)
    requires Shape(w, st)
  {
    step.r < w.Size() && var me := st.ranks[step.r];
    match step
    case Post(_) => me.pc == Top && me.i < w.Size()
    case Match(r) => me.recv.Pending? &&
      var c := st.chan[Left(w.Size(), r)]; FirstWithTag(c, me.recv.tag) < |c|
    case TakeSize(_) => me.pc == AwaitSizeIn && me.recv.Done?
    case SizeSent(r) => me.pc == AwaitSizeOut && SendComplete(st, r, buffering)
    case TakeBuffer(_) => me.pc == AwaitBufferIn && me.recv.Done? && me.i < w.Size()
    case BufferSent(r) => me.pc == AwaitBufferOut && me.i < w.Size() && SendComplete(st, r, buffering)
  }

  ghost function Apply(w: World, st: State, step: Step): (st': State)
    requires Shape(w, st) && Enabled(w, st, step, true)
    ensures Shape(w, st')
  {
    var me := st.ranks[step.r];
    var size := w.Size();
    match step
    case Post(r) =>  // MPI_Irecv of the size, MPI_Isend of the own size
      Send(w, st, r, me.(recv := Pending(r + me.i), pc := AwaitSizeIn), Size(|me.bufOut|))
    case Match(r) =>
      var left := Left(size, r);
      var k := FirstWithTag(st.chan[left], me.recv.tag);
      State(st.ranks[r := me.(recv := Done(st.chan[left][k].msg))],
            st.chan[left := st.chan[left][..k] + st.chan[left][k + 1..]])
    case TakeSize(r) =>  // MPI_Wait, then MPI_Irecv of the buffer
      st.(ranks := st.ranks[r := me.(sizeIn := me.recv.msg.GetSize(), recv := Pending(r + me.i),
                                     pc := AwaitSizeOut)])
    case SizeSent(r) =>  // MPI_Wait, then MPI_Isend of the buffer
      Send(w, st, r, me.(pc := AwaitBufferIn), Payload(me.bufOut))
    case TakeBuffer(r) =>  // MPI_Wait, then the marking loop
      var incoming := me.recv.msg.GetBuffer();
      st.(ranks := st.ranks[r := me.(
        bufIn := MarkBuffer(w.find[r], r, incoming),
        comp := MarkTriplets(w.find[r], incoming, me.comp, SrcRank(size, r, me.i)),
        recv := NotPosted, pc := AwaitBufferOut)])
    case BufferSent(r) =>  // MPI_Wait; the incoming buffer becomes the outgoing one
      st.(ranks := st.ranks[r := me.(bufOut := me.bufIn, i := me.i + 1, pc := Top)])
  }

  ghost function Send(w: World, st: State, r: nat, me: RankState, msg: Message): (st': State)
    requires Shape(w, st) && r < w.Size() && me.i <= w.Size()
    ensures Shape(w, st')
  {
    State(st.ranks[r := me.(sent := me.sent + 1)],
          st.chan[r := st.chan[r] + [Envelope(me.sent, Right(w.Size(), r) + me.i, msg)]])
  }

  // ----- the invariant -----

  /** The k-th message that r ever sends: in each iteration first the size, then the buffer. */
  ghost function Posting(w: World, r: nat, k: nat): Envelope
    requires w.Valid() && r < w.Size()
  {
    Envelope(k, Right(w.Size(), r) + k / 2,
             if k % 2 == 0 then Size(|Sent(w, r, k / 2)|) else Payload(Sent(w, r, k / 2)))
  }

  function PcIndex(pc: Pc): nat {
    match pc
    case Top => 0
    case AwaitSizeIn => 1
    case AwaitSizeOut => 2
    case AwaitBufferIn => 3
    case AwaitBufferOut => 4
  }

  /** How many messages a rank has sent, and how many it has received, at a point of its loop. */
  function SentCount(me: RankState): nat {
    2 * me.i + (if me.pc == Top then 0 else if me.pc.AwaitSizeIn? || me.pc.AwaitSizeOut? then 1 else 2)
  }

  function ReceivedCount(me: RankState): nat {
    2 * me.i + (if me.pc.Top? || me.pc.AwaitSizeIn? then 0 else if me.pc.AwaitBufferOut? then 2 else 1)
      + (if me.recv.Done? then 1 else 0)
  }

  /** A rank holds the buffer and triplets of its iteration, and any message it has been given is
      the one it is waiting for: its left neighbour's size or buffer of the same iteration. */
  ghost predicate RankInv(w: World, r: nat, me: RankState)
    requires w.Valid() && r < w.Size()
  {
    && me.i <= w.Size()
    && (me.i == w.Size() ==> me.pc == Top)
    && me.bufOut == Sent(w, r, me.i)
    && me.comp == Noted(w, r, if me.pc == AwaitBufferOut then me.i + 1 else me.i)
    && (me.pc == AwaitBufferOut ==> me.bufIn == Sent(w, r, me.i + 1))
    && me.sent == SentCount(me)
    && var incoming := Sent(w, Left(w.Size(), r), me.i);
    && (me.pc.AwaitSizeOut? || me.pc.AwaitBufferIn? ==> me.sizeIn == |incoming|)
    && (match me.pc
        case Top => me.recv.NotPosted?
        case AwaitSizeIn => me.recv == Pending(r + me.i) || me.recv == Done(Size(|incoming|))
        case AwaitSizeOut => me.recv == Pending(r + me.i) || me.recv == Done(Payload(incoming))
        case AwaitBufferIn => me.recv == Pending(r + me.i) || me.recv == Done(Payload(incoming))
        case AwaitBufferOut => me.recv.NotPosted?)
  }

  /** The channel holds exactly what the sender has sent and the receiver has not received. */
  ghost predicate ChannelInv(w: World, r: nat, c: seq<Envelope>, received: nat, sent: nat)
    requires w.Valid() && r < w.Size()
  {
    received <= sent && |c| == sent - received
    && forall k :: 0 <= k < |c| ==> c[k] == Posting(w, r, received + k)
  }

  ghost predicate Inv(w: World, st: State) {
    && Shape(w, st)
    && (forall r :: 0 <= r < w.Size() ==> RankInv(w, r, st.ranks[r]))
    && (forall r :: 0 <= r < w.Size() ==>
          ChannelInv(w, r, st.chan[r], ReceivedCount(st.ranks[Right(w.Size(), r)]), st.ranks[r].sent))
  }

  lemma InitInv(w: World)
    requires w.Valid()
    ensures Inv(w, Init(w))
  {
    forall r | 0 <= r < w.Size()
      ensures RankInv(w, r, Init(w).ranks[r])
      ensures ChannelInv(w, r, Init(w).chan[r], ReceivedCount(Init(w).ranks[Right(w.Size(), r)]), 0)
    {
    }
  }

  lemma LeftRight(size: nat, r: nat)
    requires r < size
    ensures Right(size, Left(size, r)) == r && Left(size, Right(size, r)) == r
  {
  }

  lemma AwaitedTag(w: World, r: nat, me: RankState)
    requires w.Valid() && r < w.Size() && RankInv(w, r, me) && me.recv.Pending?
    ensures Posting(w, Left(w.Size(), r), ReceivedCount(me)).tag == me.recv.tag
  {
    hide Sent, Noted;
    LeftRight(w.Size(), r);
  }

  /** A pending receive is always answered by the oldest message in the channel. */
  lemma MatchesOldest(w: World, st: State, r: nat)
    requires Inv(w, st) && r < w.Size() && st.ranks[r].recv.Pending?
    ensures var c := st.chan[Left(w.Size(), r)];
      |c| > 0 ==>
        && FirstWithTag(c, st.ranks[r].recv.tag) == 0
        && c[0] == Posting(w, Left(w.Size(), r), ReceivedCount(st.ranks[r]))
  {
    hide RankInv, Posting;
    LeftRight(w.Size(), r);
    assert RankInv(w, r, st.ranks[r]);
    AwaitedTag(w, r, st.ranks[r]);
    var l := Left(w.Size(), r);
    assert ChannelInv(w, l, st.chan[l], ReceivedCount(st.ranks[r]), st.ranks[l].sent);
  }

  /** A step of r that sends nothing and receives nothing new keeps all channels as they should be. */
  lemma KeepChannels(w: World, st: State, r: nat, me: RankState)
    requires Inv(w, st) && r < w.Size() && me.i <= w.Size() && RankInv(w, r, me)
    requires me.sent == st.ranks[r].sent && ReceivedCount(me) == ReceivedCount(st.ranks[r])
    ensures Inv(w, st.(ranks := st.ranks[r := me]))
  {
    hide RankInv, ChannelInv, ReceivedCount;
    var st' := st.(ranks := st.ranks[r := me]);
    forall q | 0 <= q < w.Size()
      ensures RankInv(w, q, st'.ranks[q])
      ensures ChannelInv(w, q, st'.chan[q], ReceivedCount(st'.ranks[Right(w.Size(), q)]), st'.ranks[q].sent)
    {
      assert RankInv(w, q, st.ranks[q]);
    }
  }

  lemma ChannelGrows(w: World, r: nat, c: seq<Envelope>, received: nat, sent: nat)
    requires w.Valid() && r < w.Size() && ChannelInv(w, r, c, received, sent)
    ensures ChannelInv(w, r, c + [Posting(w, r, sent)], received, sent + 1)
  {
    hide Posting;
  }

  lemma ChannelShrinks(w: World, r: nat, c: seq<Envelope>, received: nat, sent: nat)
    requires w.Valid() && r < w.Size() && ChannelInv(w, r, c, received, sent) && |c| > 0
    ensures ChannelInv(w, r, c[1..], received + 1, sent)
  {
    hide Posting;
  }

  lemma SendKeepsInv(w: World, st: State, r: nat, me: RankState, msg: Message)
    requires Inv(w, st) && r < w.Size() && me.i <= w.Size() && me.sent == st.ranks[r].sent
    requires RankInv(w, r, me.(sent := me.sent + 1)) && ReceivedCount(me) == ReceivedCount(st.ranks[r])
    requires Posting(w, r, me.sent) == Envelope(me.sent, Right(w.Size(), r) + me.i, msg)
    ensures Inv(w, Send(w, st, r, me, msg))
  {
    hide RankInv, ChannelInv, Posting;
    var st' := Send(w, st, r, me, msg);
    forall q | 0 <= q < w.Size()
      ensures RankInv(w, q, st'.ranks[q])
      ensures ChannelInv(w, q, st'.chan[q], ReceivedCount(st'.ranks[Right(w.Size(), q)]), st'.ranks[q].sent)
    {
      assert RankInv(w, q, st.ranks[q]);
      assert ChannelInv(w, q, st.chan[q], ReceivedCount(st.ranks[Right(w.Size(), q)]), st.ranks[q].sent);
      ChannelGrows(w, q, st.chan[q], ReceivedCount(st.ranks[Right(w.Size(), q)]), st.ranks[q].sent);
    }
  }

  /** What a rank is given is the next message of its left neighbour, so it is the right one. */
  lemma MatchedIsRight(w: World, r: nat, me: RankState)
    requires w.Valid() && r < w.Size() && RankInv(w, r, me) && me.recv.Pending?
    ensures RankInv(w, r, me.(recv := Done(Posting(w, Left(w.Size(), r), ReceivedCount(me)).msg)))
  {
    hide Sent, Noted;
  }

  lemma MatchedCounts(me: RankState, msg: Message)
    requires me.recv.Pending?
    ensures ReceivedCount(me.(recv := Done(msg))) == ReceivedCount(me) + 1
  {
  }

  /** What matching the pending receive of r changes: it takes the oldest message of its left channel. */
  lemma MatchApplied(w: World, st: State, r: nat)
    requires Inv(w, st) && Enabled(w, st, Match(r), true)
    ensures r < w.Size() && st.ranks[r].recv.Pending?
    ensures var l, me := Left(w.Size(), r), st.ranks[r];
      && st.chan[l] != [] && st.chan[l][0] == Posting(w, l, ReceivedCount(me))
      && Apply(w, st, Match(r))
           == State(st.ranks[r := me.(recv := Done(st.chan[l][0].msg))], st.chan[l := st.chan[l][1..]])
  {
    hide RankInv, ChannelInv, Posting, ReceivedCount, FirstWithTag;
    MatchesOldest(w, st, r);
    var c := st.chan[Left(w.Size(), r)];
    assert c[..0] + c[1..] == c[1..];
  }

  lemma MatchKeepsInv(w: World, st: State, r: nat)
    requires Inv(w, st) && Enabled(w, st, Match(r), true)
    ensures Inv(w, Apply(w, st, Match(r)))
  {
    hide RankInv, ChannelInv, Posting, Apply, Enabled, ReceivedCount;
    MatchApplied(w, st, r);
    var l, me := Left(w.Size(), r), st.ranks[r];
    var msg, st' := st.chan[l][0].msg, Apply(w, st, Match(r));
    LeftRight(w.Size(), r);
    assert RankInv(w, r, me);
    MatchedIsRight(w, r, me);
    MatchedCounts(me, msg);
    forall q | 0 <= q < w.Size()
      ensures RankInv(w, q, st'.ranks[q])
      ensures ChannelInv(w, q, st'.chan[q], ReceivedCount(st'.ranks[Right(w.Size(), q)]), st'.ranks[q].sent)
    {
      assert RankInv(w, q, st.ranks[q]);
      LeftRight(w.Size(), q);
      if q == l {
        ChannelShrinks(w, l, st.chan[l], ReceivedCount(me), st.ranks[l].sent);
      }
    }
  }

  /** The local steps keep what a rank must hold. */
  lemma LocalStepKeepsRankInv(w: World, st: State, step: Step)
    requires Shape(w, st) && Enabled(w, st, step, true) && !step.Match?
    requires RankInv(w, step.r, st.ranks[step.r])
    ensures var me := Apply(w, st, step).ranks[step.r];
      RankInv(w, step.r, me) && ReceivedCount(me) == ReceivedCount(st.ranks[step.r])
  {
  }

  /** Every step from a good state leads to a good state, whichever rank takes it and whether or
      not MPI buffers messages. */
  lemma StepKeepsInv(w: World, st: State, step: Step)
    requires Inv(w, st) && Enabled(w, st, step, true)
    ensures Inv(w, Apply(w, st, step))
  {
    hide RankInv, ChannelInv, Posting;
    var r := step.r;
    var me := st.ranks[r];
    assert RankInv(w, r, me);
    if step.Match? {
      MatchKeepsInv(w, st, r);
    } else {
      LocalStepKeepsRankInv(w, st, step);
      if step.Post? {
        PostingNow(w, r, me);
        SendKeepsInv(w, st, r, me.(recv := Pending(r + me.i), pc := AwaitSizeIn), Size(|me.bufOut|));
      } else if step.SizeSent? {
        PostingNow(w, r, me);
        SendKeepsInv(w, st, r, me.(pc := AwaitBufferIn), Payload(me.bufOut));
      } else {
        KeepChannels(w, st, r, Apply(w, st, step).ranks[r]);
      }
    }
  }

  lemma PostingNow(w: World, r: nat, me: RankState)
    requires w.Valid() && r < w.Size() && RankInv(w, r, me) && (me.pc.Top? || me.pc.AwaitSizeOut?)
    ensures Posting(w, r, me.sent) == Envelope(me.sent, Right(w.Size(), r) + me.i,
      if me.pc.Top? then Size(|me.bufOut|) else Payload(me.bufOut))
  {
    hide Sent, Noted;
  }

  // ----- runs -----

  /** A run: the steps taken so far and the state they lead to. */
  ghost predicate Reaches(w: World, steps: seq<Step>, st: State, buffering: bool)
    requires w.Valid()
    decreases |steps|
  {
    if steps == [] then st == Init(w)
    else exists prev ::
           && Reaches(w, steps[..|steps| - 1], prev, buffering)
           && Shape(w, prev) && Enabled(w, prev, steps[|steps| - 1], buffering)
           && st == Apply(w, prev, steps[|steps| - 1])
  }

  ghost predicate Finished(w: World, st: State)
    requires Shape(w, st)
  {
    forall r :: 0 <= r < w.Size() ==> st.ranks[r].i == w.Size()
  }

  lemma {:induction false} RunInv(w: World, steps: seq<Step>, st: State, buffering: bool)
    requires w.Valid() && Reaches(w, steps, st, buffering)
    ensures Inv(w, st) && Work(w, st, w.Size()) == |steps|
    decreases |steps|
  {
    if steps == [] {
      InitInv(w);
      NoWork(w, w.Size());
    } else {
      var prev :| Reaches(w, steps[..|steps| - 1], prev, buffering)
        && Shape(w, prev) && Enabled(w, prev, steps[|steps| - 1], buffering)
        && st == Apply(w, prev, steps[|steps| - 1]);
      RunInv(w, steps[..|steps| - 1], prev, buffering);
      StepKeepsInv(w, prev, steps[|steps| - 1]);
      StepIsWork(w, prev, steps[|steps| - 1]);
    }
  }

  /** Safety of every run: a rank that has been given a message in iteration i got what its left
      neighbour sent in iteration i, the size first, and then a buffer of that very size. */
  lemma ReceivesAreRight(w: World, steps: seq<Step>, st: State, buffering: bool, r: nat)
    requires w.Valid() && Reaches(w, steps, st, buffering) && r < w.Size() && st.ranks[r].recv.Done?
    ensures var me := st.ranks[r]; var incoming := Sent(w, Left(w.Size(), r), me.i);
      if me.pc == AwaitSizeIn then me.recv.msg == Size(|incoming|)
      else me.recv.msg == Payload(incoming) && |incoming| == me.sizeIn
  {
    hide Sent, Noted;
    RunInv(w, steps, st, buffering);
    assert RankInv(w, r, st.ranks[r]);
  }

  /** What a finished run leaves behind does not depend on the order of the steps. */
  lemma FinishedResult(w: World, steps: seq<Step>, st: State, buffering: bool, r: nat)
    requires w.Valid() && Reaches(w, steps, st, buffering) && Finished(w, st) && r < w.Size()
    ensures st.ranks[r].bufOut == Sent(w, r, w.Size())
    ensures st.ranks[r].comp == Noted(w, r, w.Size())
    ensures st.chan[r] == []
  {
    RunInv(w, steps, st, buffering);
    assert RankInv(w, r, st.ranks[r]);
    var n := Right(w.Size(), r);
    assert RankInv(w, n, st.ranks[n]);
    assert ChannelInv(w, r, st.chan[r], ReceivedCount(st.ranks[n]), st.ranks[r].sent);
  }

  // ----- progress and termination -----

  function Progress(me: RankState): nat { 5 * me.i + PcIndex(me.pc) }

  lemma LeastAdvanced(w: World, st: State, n: nat) returns (m: nat)
    requires Shape(w, st) && 1 <= n <= w.Size()
    ensures m < n && forall r :: 0 <= r < n ==> Progress(st.ranks[m]) <= Progress(st.ranks[r])
  {
    if n == 1 {
      m := 0;
    } else {
      m := LeastAdvanced(w, st, n - 1);
      if Progress(st.ranks[n - 1]) < Progress(st.ranks[m]) {
        m := n - 1;
      }
    }
  }

  /** The step that a rank takes next, once what it waits for has happened. */
  ghost function NextStep(r: nat, me: RankState): Step {
    if me.recv.Pending? && (me.pc.AwaitSizeIn? || me.pc.AwaitBufferIn?) then Match(r)
    else match me.pc
      case Top => Post(r)
      case AwaitSizeIn => TakeSize(r)
      case AwaitSizeOut => SizeSent(r)
      case AwaitBufferIn => TakeBuffer(r)
      case AwaitBufferOut => BufferSent(r)
  }

  /** Whoever waits for a message, and has advanced no further than its left neighbour, has one on its way. */
  lemma LeftHasSent(w: World, m: nat, me: RankState, l: nat, left: RankState)
    requires w.Valid() && m < w.Size() && l < w.Size() && RankInv(w, m, me) && RankInv(w, l, left)
    requires Progress(me) <= Progress(left) && NextStep(m, me).Match?
    ensures left.sent > ReceivedCount(me)
  {
    hide Sent, Noted;
  }

  /** Whoever waits for its send, and has advanced no further than its right neighbour, has had it received. */
  lemma RightHasReceived(w: World, m: nat, me: RankState, r: nat, right: RankState)
    requires w.Valid() && m < w.Size() && r < w.Size() && RankInv(w, m, me) && RankInv(w, r, right)
    requires Progress(me) <= Progress(right) && (me.pc.AwaitSizeOut? || me.pc.AwaitBufferOut?)
    ensures ReceivedCount(right) >= me.sent
  {
    hide Sent, Noted;
  }

  lemma ReceivedMeansComplete(w: World, st: State, r: nat, received: nat)
    requires Shape(w, st) && r < w.Size()
    requires ChannelInv(w, r, st.chan[r], received, st.ranks[r].sent) && received >= st.ranks[r].sent
    ensures SendComplete(st, r, false)
  {
  }

  /** What the next step of a rank needs besides its neighbours. */
  lemma NextStepReady(w: World, st: State, m: nat)
    requires Shape(w, st) && m < w.Size() && RankInv(w, m, st.ranks[m]) && st.ranks[m].i < w.Size()
    ensures var me := st.ranks[m];
      var step := NextStep(m, me);
      && (step.Match? ==> me.recv.Pending?)
      && (!step.Match? && !step.SizeSent? && !step.BufferSent? ==> Enabled(w, st, step, false))
      && (step.SizeSent? || step.BufferSent? ==>
           && (me.pc.AwaitSizeOut? || me.pc.AwaitBufferOut?)
           && (SendComplete(st, m, false) ==> Enabled(w, st, step, false)))
  {
    hide Sent, Noted, SendComplete;
  }

  /** No good unfinished state is stuck, even if sends complete only once matched: the rank that has
      advanced least can step. */
  lemma LeastAdvancedCanStep(w: World, st: State, m: nat)
    requires Inv(w, st) && m < w.Size() && st.ranks[m].i < w.Size()
    requires forall r :: 0 <= r < w.Size() ==> Progress(st.ranks[m]) <= Progress(st.ranks[r])
    ensures Enabled(w, st, NextStep(m, st.ranks[m]), false)
  {
    hide RankInv, ReceivedCount, NextStep, Progress, SendComplete, Posting;
    var me := st.ranks[m];
    var left, right := Left(w.Size(), m), Right(w.Size(), m);
    LeftRight(w.Size(), m);
    assert RankInv(w, m, me) && RankInv(w, left, st.ranks[left]) && RankInv(w, right, st.ranks[right]);
    NextStepReady(w, st, m);
    var step := NextStep(m, me);
    if step.Match? {
      assert ChannelInv(w, left, st.chan[left], ReceivedCount(me), st.ranks[left].sent);
      LeftHasSent(w, m, me, left, st.ranks[left]);
      MatchesOldest(w, st, m);
      MatchStep(m, me);
    } else if step.SizeSent? || step.BufferSent? {
      assert ChannelInv(w, m, st.chan[m], ReceivedCount(st.ranks[right]), me.sent);
      RightHasReceived(w, m, me, right, st.ranks[right]);
      ReceivedMeansComplete(w, st, m, ReceivedCount(st.ranks[right]));
    }
  }

  lemma MatchStep(m: nat, me: RankState)
    requires NextStep(m, me).Match?
    ensures NextStep(m, me) == Match(m)
  {
  }

  lemma NeverStuck(w: World, steps: seq<Step>, st: State, buffering: bool)
    requires w.Valid() && Reaches(w, steps, st, buffering) && !Finished(w, st)
    ensures exists step :: Enabled(w, st, step, false)
  {
    RunInv(w, steps, st, buffering);
    var m := LeastAdvanced(w, st, w.Size());
    LeastAdvancedCanStep(w, st, m);
  }

  /** Steps a rank has taken: seven in each iteration. */
  function RankWork(me: RankState): nat {
    7 * me.i + (match me.pc
                case Top => 0
                case AwaitSizeIn => 1
                case AwaitSizeOut => 3
                case AwaitBufferIn => 4
                case AwaitBufferOut => 6) + (if me.recv.Done? then 1 else 0)
  }

  ghost function Work(w: World, st: State, n: nat): nat
    requires Shape(w, st) && n <= w.Size()
  {
    if n == 0 then 0 else Work(w, st, n - 1) + RankWork(st.ranks[n - 1])
  }

  lemma {:induction false} NoWork(w: World, n: nat)
    requires w.Valid() && n <= w.Size()
    ensures Work(w, Init(w), n) == 0
  {
    if n > 0 {
      NoWork(w, n - 1);
    }
  }

  lemma StepIsRankWork(w: World, st: State, step: Step)
    requires Shape(w, st) && Enabled(w, st, step, true) && RankInv(w, step.r, st.ranks[step.r])
    ensures RankWork(Apply(w, st, step).ranks[step.r]) == RankWork(st.ranks[step.r]) + 1
    ensures forall q :: 0 <= q < w.Size() && q != step.r ==> Apply(w, st, step).ranks[q] == st.ranks[q]
  {
    hide Sent, Noted;
  }

  lemma {:induction false} OneRankWorks(w: World, st: State, st': State, r: nat, n: nat)
    requires Shape(w, st) && Shape(w, st') && r < w.Size() && n <= w.Size()
    requires RankWork(st'.ranks[r]) == RankWork(st.ranks[r]) + 1
    requires forall q :: 0 <= q < w.Size() && q != r ==> st'.ranks[q] == st.ranks[q]
    ensures Work(w, st', n) == Work(w, st, n) + if r < n then 1 else 0
  {
    hide RankWork;
    if n > 0 {
      OneRankWorks(w, st, st', r, n - 1);
    }
  }

  lemma StepIsWork(w: World, st: State, step: Step)
    requires Inv(w, st) && Enabled(w, st, step, true)
    ensures Work(w, Apply(w, st, step), w.Size()) == Work(w, st, w.Size()) + 1
  {
    hide RankInv, ChannelInv, RankWork, Apply;
    assert RankInv(w, step.r, st.ranks[step.r]);
    StepIsRankWork(w, st, step);
    OneRankWorks(w, st, Apply(w, st, step), step.r, w.Size());
  }

  lemma RankWorkBound(w: World, r: nat, me: RankState)
    requires w.Valid() && r < w.Size() && RankInv(w, r, me)
    ensures RankWork(me) <= 7 * w.Size()
    ensures me.i == w.Size() ==> RankWork(me) == 7 * w.Size()
  {
    hide Sent, Noted;
  }

  lemma {:induction false} WorkBound(w: World, st: State, n: nat)
    requires Inv(w, st) && n <= w.Size()
    ensures Work(w, st, n) <= 7 * w.Size() * n
    ensures Finished(w, st) ==> Work(w, st, n) == 7 * w.Size() * n
  {
    hide RankInv, ChannelInv, RankWork;
    if n > 0 {
      WorkBound(w, st, n - 1);
      assert RankInv(w, n - 1, st.ranks[n - 1]);
      RankWorkBound(w, n - 1, st.ranks[n - 1]);
      NextRow(7 * w.Size(), n);
    }
  }

  lemma NextRow(m: nat, n: nat)
    requires n > 0
    ensures m * n == m * (n - 1) + m
  {
  }

  /** Every run ends, whether or not MPI buffers messages: none is longer than 7 * comm_size * comm_size steps. A
      finished run has exactly that many, and nothing is left to do; any other can go on, even if sends complete only
      once matched. */
  lemma RunsEnd(w: World, steps: seq<Step>, st: State, buffering: bool)
    requires w.Valid() && Reaches(w, steps, st, buffering)
    ensures |steps| <= 7 * w.Size() * w.Size()
    ensures Finished(w, st) ==> |steps| == 7 * w.Size() * w.Size() && forall step :: !Enabled(w, st, step, true)
    ensures !Finished(w, st) ==> exists step :: Enabled(w, st, step, false)
  {
    RunInv(w, steps, st, buffering);
    WorkBound(w, st, w.Size());
    if Finished(w, st) {
      forall step ensures !Enabled(w, st, step, true) {
        if step.r < w.Size() {
          assert RankInv(w, step.r, st.ranks[step.r]);
        }
      }
    } else {
      NeverStuck(w, steps, st, buffering);
    }
  }

  // ----- message sizes -----

  /** The check that every rank makes on its own element counts. */
  predicate TooMany(n: nat) { n > INT_MAX / SIZEOF_OFFSET / 2 }

  /** What MPI_Allreduce with MPI_MAX tells every rank: whether any rank failed the check. */
  ghost predicate Rejected(w: World) {
    exists r :: 0 <= r < |w.io| && r < |w.comp| && (TooMany(|w.io[r]|) || TooMany(|w.comp[r]|))
  }

  /** If the check lets the ranks go on, the byte count of every message that any run has under way
      fits an int, and so does that of every receive of a buffer. */
  lemma CountsFit(w: World, steps: seq<Step>, st: State, buffering: bool, r: nat)
    requires w.Valid() && !Rejected(w) && Reaches(w, steps, st, buffering) && r < w.Size()
    ensures forall k :: 0 <= k < |st.chan[r]| ==> st.chan[r][k].msg.Count() <= INT_MAX
    ensures st.ranks[r].pc.AwaitSizeOut? || st.ranks[r].pc.AwaitBufferIn? ==>
      Payload(Sent(w, Left(w.Size(), r), st.ranks[r].i)).Count() == 2 * st.ranks[r].sizeIn * SIZEOF_OFFSET <= INT_MAX
  {
    hide RankInv, ChannelInv, Posting, Sent, Noted, SentCount;
    RunInv(w, steps, st, buffering);
    var right := Right(w.Size(), r);
    assert RankInv(w, r, st.ranks[r]) && RankInv(w, right, st.ranks[right]);
    ChannelCountsFit(w, r, st.chan[r], ReceivedCount(st.ranks[right]), st.ranks[r]);
    ReceiveFits(w, r, st.ranks[r]);
  }

  lemma ReceiveFits(w: World, r: nat, me: RankState)
    requires w.Valid() && !Rejected(w) && r < w.Size() && RankInv(w, r, me)
    ensures me.pc.AwaitSizeOut? || me.pc.AwaitBufferIn? ==>
      Payload(Sent(w, Left(w.Size(), r), me.i)).Count() == 2 * me.sizeIn * SIZEOF_OFFSET <= INT_MAX
  {
    hide Sent, Noted;
    SentFits(w, Left(w.Size(), r), me.i);
  }

  lemma ChannelCountsFit(w: World, r: nat, c: seq<Envelope>, received: nat, me: RankState)
    requires w.Valid() && !Rejected(w) && r < w.Size() && RankInv(w, r, me)
    requires ChannelInv(w, r, c, received, me.sent)
    ensures forall k :: 0 <= k < |c| ==> c[k].msg.Count() <= INT_MAX
  {
    hide Sent, Noted;
    forall k | 0 <= k < |c| ensures c[k].msg.Count() <= INT_MAX {
      assert c[k] == Posting(w, r, received + k);
      SentFits(w, r, (received + k) / 2);
    }
  }

  lemma SentFits(w: World, r: nat, i: nat)
    requires w.Valid() && !Rejected(w) && r < w.Size() && i <= w.Size()
    ensures 2 * |Sent(w, r, i)| * SIZEOF_OFFSET <= INT_MAX
  {
    hide Sent;
    BufferMeaning(w, r, i);
    assert !TooMany(|w.io[Home(w.Size(), r, i)]|);
  }
}
