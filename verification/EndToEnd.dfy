/** What the invariant means to the two applications, in every state of every run. */
module EndToEnd {
  import opened Geometry
  import opened Control
  import opened Wire
  import opened SrSender
  import opened SrReceiver
  import opened Protocol
  import opened ProtocolSafety
  import Receiver

  /** An acked chunk is marked complete at the receiver, all its packets have been
      received, and the receiver's bytes of each of them are the sender's. */
  lemma AckedMeansDelivered(m: Outgoing, states: seq<State>, steps: seq<Step>, i: nat, c: nat, p: nat)
    requires m.Valid() && Run(m, states, steps) && i < |states|
    requires c < m.layout.Chunks() && p < m.layout.Packets() && ChunkOf(m.layout.ppc, p) == c
    ensures var s := states[i];
      && |s.frontend| == |s.sender.acked| == m.layout.Chunks()
      && (s.sender.acked[c] ==> s.frontend[c])
      && (s.frontend[c] ==> p in s.received)
      && (p in s.received ==> Receiver.HasBytes(m, s.buffer, p))
  {
    RunKeeps(m, states, steps, i);
    var s := states[i];
    if s.frontend[c] {
      assert ChunkIn(m, s.received, c);
    }
    if p in s.received {
      assert PacketIn(m, s, p);
      LandedSlice(m, s.buffer, p);
    }
  }

  lemma LandedSlice(m: Outgoing, buffer: seq<byte>, p: nat)
    requires m.Valid() && p < m.layout.Packets() && Landed(m, buffer, m.layout.PacketLo(p), m.layout.PacketHi(p))
    ensures Receiver.HasBytes(m, buffer, p)
  {
    m.layout.PacketSlice(p);
  }

  /** When every chunk is marked complete, the receiver holds the sender's message. */
  lemma AllChunksDelivered(m: Outgoing, s: State)
    requires m.Valid() && Inv(m, s) && AllDone(s.frontend, 0, |s.frontend|)
    ensures s.buffer == m.data
  {
    forall p: nat | p < m.layout.Packets() ensures Receiver.HasBytes(m, s.buffer, p) {
      BlockInRange(p, m.layout.ppc, m.layout.Packets());
      assert ChunkIn(m, s.received, ChunkOf(m.layout.ppc, p));
      assert PacketIn(m, s, p);
      LandedSlice(m, s.buffer, p);
    }
    Receiver.AllBytes(m, s.buffer);
  }

  /** poll returned 0 and the control connection was up then: the two buffers are equal,
      and they stay equal in every later state of the run, whatever becomes of the connection. */
  lemma ReturnMeansDelivered(m: Outgoing, states: seq<State>, steps: seq<Step>, i: nat, j: nat)
    requires m.Valid() && Run(m, states, steps) && i <= j < |states|
    requires states[i].mode == Returned(0) && states[i].connected
    ensures states[j].buffer == m.data
  {
    RunKeeps(m, states, steps, i);
    AllMarked(m, states[i]);
    RunGrows(m, states, steps, i, j);
    RunKeeps(m, states, steps, j);
    hide Inv;
    AllChunksDelivered(m, states[j]);
  }

  lemma AllMarked(m: Outgoing, s: State)
    requires m.Valid() && Inv(m, s) && s.mode == Returned(0) && s.connected
    ensures AllDone(s.frontend, 0, |s.frontend|)
  {
  }

  /** Without the connection the promise is void: poll returns 0 once the connection is
      gone, whatever message was to be sent and whatever the receiver's buffer held. */
  lemma LostConnectionReportsSuccess(m: Outgoing, s: State, configured: nat, rtoMs: nat, clock: Clock)
    returns (states: seq<State>, steps: seq<Step>)
    requires m.Valid() && Init(m, s)
    ensures Run(m, states, steps) && states[0] == s
    ensures states[|states| - 1].mode == Returned(0) && !states[|states| - 1].connected
    ensures states[|states| - 1].buffer == s.buffer
  {
    steps := [StartSend(configured, clock), Disconnect, Timeout(rtoMs, clock)];
    var s1 := Next(m, s, steps[0]);
    var s2 := Next(m, s1, steps[1]);
    var s3 := Next(m, s2, steps[2]);
    states := [s, s1, s2, s3];
    assert StepTaken(m, s, steps[0], s1) && StepTaken(m, s1, steps[1], s2) && StepTaken(m, s2, steps[2], s3);
  }

  /** Chunk bits and packet bits are never cleared, so what has landed stays landed. */
  lemma NothingIsLost(m: Outgoing, states: seq<State>, steps: seq<Step>, i: nat, j: nat)
    requires m.Valid() && Run(m, states, steps) && i <= j < |states|
    ensures Grown(states[i], states[j])
    ensures forall p: nat :: p in states[i].received ==>
      p < m.layout.Packets() && Receiver.HasBytes(m, states[j].buffer, p)
  {
    RunGrows(m, states, steps, i, j);
    RunKeeps(m, states, steps, j);
    forall p: nat | p in states[i].received
      ensures p < m.layout.Packets() && Receiver.HasBytes(m, states[j].buffer, p)
    {
      assert PacketIn(m, states[j], p);
      LandedSlice(m, states[j].buffer, p);
    }
  }

  ghost predicate Grown(s: State, t: State) {
    && s.received <= t.received
    && |s.frontend| == |t.frontend|
    && forall c :: 0 <= c < |s.frontend| && s.frontend[c] ==> t.frontend[c]
  }

  lemma {:induction false} RunGrows(m: Outgoing, states: seq<State>, steps: seq<Step>, i: nat, j: nat)
    requires m.Valid() && Run(m, states, steps) && i <= j < |states|
    ensures Grown(states[i], states[j])
    decreases j - i
  {
    hide Next;
    hide Init;
    hide Grown;
    if i < j {
      RunGrows(m, states, steps, i, j - 1);
      RunGrowsByOne(m, states, steps, j - 1);
      GrownThen(states[i], states[j - 1], states[j]);
    } else {
      GrownSelf(states[i]);
    }
  }

  lemma GrownThen(s: State, t: State, u: State)
    requires Grown(s, t) && Grown(t, u)
    ensures Grown(s, u)
  {
  }

  lemma GrownSelf(s: State)
    ensures Grown(s, s)
  {
  }

  lemma RunGrowsByOne(m: Outgoing, states: seq<State>, steps: seq<Step>, i: nat)
    requires m.Valid() && Run(m, states, steps) && i + 1 < |states|
    ensures Grown(states[i], states[i + 1])
  {
    hide Inv;
    hide Next;
    hide Init;
    hide Grown;
    RunKeeps(m, states, steps, i);
    assert StepTaken(m, states[i], steps[i], states[i + 1]);
    StepGrows(m, states[i], steps[i]);
  }

  lemma StepGrows(m: Outgoing, s: State, step: Step)
    requires m.Valid() && Inv(m, s)
    ensures Grown(s, Next(m, s, step))
  {
  }

  /** Acknowledgements, ack_base_, the cursor and the transmissions are never taken back. */
  lemma {:induction false} SenderOnlyGrows(m: Outgoing, states: seq<State>, steps: seq<Step>, i: nat, j: nat)
    requires m.Valid() && Run(m, states, steps) && i <= j < |states| && states[i].mode != NotStarted
    ensures states[j].mode != NotStarted && Follows(states[i].sender, states[j].sender)
    decreases j - i
  {
    hide Inv;
    hide Next;
    hide SenderTrue;
    RunKeeps(m, states, steps, j);
    SenderParts(m, states[j]);
    if i < j {
      SenderOnlyGrows(m, states, steps, i, j - 1);
      RunKeeps(m, states, steps, j - 1);
      SenderParts(m, states[j - 1]);
      assert StepTaken(m, states[j - 1], steps[j - 1], states[j]);
      StepFollows(m, states[j - 1], steps[j - 1]);
    }
  }

  lemma SenderParts(m: Outgoing, s: State)
    requires m.Valid() && Inv(m, s)
    ensures SenderTrue(m, s) && Ready(m, s)
  {
  }

  lemma StepFollows(m: Outgoing, s: State, step: Step)
    requires m.Valid() && Ready(m, s) && SenderTrue(m, s) && s.mode != NotStarted
    ensures Next(m, s, step).mode != NotStarted && Follows(s.sender, Next(m, s, step).sender)
  {
    hide OnMessage;
    hide HandleTimeout;
    hide Start;
    match step
    case Deliver(rtoMs, clock) =>
      if Enabled(m, s, step) {
        MessageHandled(m, s, rtoMs, clock);
      }
    case Timeout(rtoMs, clock) =>
      if s.mode == Draining {
        TimeoutHandled(s.sender, rtoMs, clock);
      }
    case _ =>
  }

  /** The cursor law between control messages: the cursor stands at the window's edge,
      every chunk below ack_base_ is acked, and every chunk below the cursor has been
      transmitted, those skipped as acked included. */
  lemma CursorInEveryRun(m: Outgoing, states: seq<State>, steps: seq<Step>, i: nat)
    requires m.Valid() && Run(m, states, steps) && i < |states| && states[i].mode != NotStarted
    ensures var s := states[i].sender;
      && s.total == |s.acked| == m.layout.Chunks()
      && s.next == Min(s.total, s.ackBase + s.inflight)
      && (forall c :: 0 <= c < s.total && c < s.ackBase ==> s.acked[c])
      && (forall c: nat :: c < s.next ==> c in s.log)
  {
    RunKeeps(m, states, steps, i);
    var s := states[i];
    forall c: nat | c < s.sender.next ensures c in s.sender.log {
      if s.sender.acked[c] {
        assert ChunkIn(m, s.received, c);
        var p := ChunkLo(m.layout.ppc, c);
        m.layout.ChunkRange(c);
        ChunkMembers(m.layout.Packets(), m.layout.ppc, c, p);
        assert PacketIn(m, s, p);
      }
    }
  }

  /** At the end of a pass the poller has marked every chunk that was complete when the
      pass began, however many packets arrived in between. */
  lemma PassCatchesUp(m: Outgoing, states: seq<State>, steps: seq<Step>, i: nat)
    requires m.Valid() && Run(m, states, steps) && i < |states|
    requires states[i].poller.chunk == m.layout.Chunks()
    ensures forall c: nat :: c in states[i].poller.sweep ==> c < |states[i].frontend| && states[i].frontend[c]
  {
    RunKeeps(m, states, steps, i);
  }

  // ---- pump inside a run ----

  /** Moments of a run with n states, one for every read, in order. */
  ghost predicate Moments(at: nat -> nat, n: nat) {
    && (forall k :: at(k) < n)
    && forall i: nat, j: nat :: i <= j ==> at(i) <= at(j)
  }

  /** What pump reads of the chunk bitmap when its k-th read happens in state at(k). */
  ghost function ReadsOf(states: seq<State>, at: nat -> nat): View {
    (k: nat) => if at(k) < |states| then states[at(k)].frontend else []
  }

  /** In every run, whenever the reads happen, they see a history that only grows. */
  lemma RunIsHistory(m: Outgoing, states: seq<State>, steps: seq<Step>, at: nat -> nat)
    requires m.Valid() && Run(m, states, steps) && Moments(at, |states|)
    ensures History(ReadsOf(states, at), m.layout.Chunks())
  {
    hide Inv;
    var view := ReadsOf(states, at);
    forall k: nat ensures |view(k)| == m.layout.Chunks() {
      RunKeeps(m, states, steps, at(k));
      FrontendSize(m, states[at(k)]);
    }
    forall i: nat, j: nat | i <= j ensures Grows(view, i, j) {
      RunGrows(m, states, steps, at(i), at(j));
    }
  }

  lemma FrontendSize(m: Outgoing, s: State)
    requires m.Valid() && Inv(m, s)
    ensures |s.frontend| == m.layout.Chunks()
  {
  }

  lemma {:induction false} PumpStays(m: Outgoing, states: seq<State>, steps: seq<Step>, a: nat, b: nat)
    requires m.Valid() && Run(m, states, steps) && a < b < |states|
    requires steps[a] == PumpStart && Enabled(m, states[a], PumpStart)
    requires forall k :: a < k < b ==> !steps[k].PumpSend?
    ensures states[b].pump == Pumping(states[a].frontend)
    decreases b - a
  {
    hide Next;
    assert StepTaken(m, states[b - 1], steps[b - 1], states[b]);
    if b > a + 1 {
      PumpStays(m, states, steps, a, b - 1);
      PumpKept(m, states[b - 1], steps[b - 1]);
    } else {
      PumpBegins(m, states[a]);
    }
  }

  lemma PumpKept(m: Outgoing, s: State, step: Step)
    requires m.Valid() && Ready(m, s) && s.pump.Pumping? && !step.PumpSend?
    ensures Next(m, s, step).pump == s.pump
  {
  }

  lemma PumpBegins(m: Outgoing, s: State)
    requires m.Valid() && Ready(m, s) && Enabled(m, s, PumpStart)
    ensures Next(m, s, PumpStart).pump == Pumping(s.frontend)
  {
  }

  /** A report that is honest about what pump read, between the state in which pump began
      and the one in which it sends, is one the protocol lets it send: what is proved of
      pump's passes over any history is what a run allows pump. */
  lemma HonestMayBeSent(
    m: Outgoing, states: seq<State>, steps: seq<Step>, at: nat -> nat, a: nat, b: nat, end: nat, msg: ControlMessage
  )
    requires m.Valid() && Run(m, states, steps) && Moments(at, |states|)
    requires a < b < |states| && steps[a] == PumpStart && Enabled(m, states[a], PumpStart)
    requires forall k :: a < k < b ==> !steps[k].PumpSend?
    requires a <= at(0) && at(end) <= b
    requires Honest(ReadsOf(states, at)(0), ReadsOf(states, at)(end), msg)
    ensures Enabled(m, states[b], PumpSend(msg))
  {
    hide Honest;
    PumpStays(m, states, steps, a, b);
    var first, last := ReadsOf(states, at)(0), ReadsOf(states, at)(end);
    RunGrows(m, states, steps, a, at(0));
    RunGrows(m, states, steps, at(end), b);
    HonestEarlier(states[a].frontend, first, last, msg);
    HonestLater(states[a].frontend, last, states[b].frontend, msg);
  }

  /** No chunk that an SR_NACK reports missing is acked when the sender comes to its gap
      list, so the skip of acked chunks never fires there; and when a guard time has
      passed for them, exactly the first eight are retransmitted, in order. */
  lemma GapsAreNeverAcked(m: Outgoing, states: seq<State>, steps: seq<Step>, i: nat, clock: Clock)
    requires m.Valid() && Run(m, states, steps) && i < |states|
    requires states[i].control != [] && states[i].control[0].kind == SrNack
    ensures GapsAnswered(states[i].sender, states[i].control[0], clock)
  {
    RunKeeps(m, states, steps, i);
    var s, msg := states[i].sender, states[i].control[0];
    assert MessageTrue(states[i].frontend, msg);
    forall c | c in Expand(msg.gaps) ensures c < s.total && !Apply(s, msg).acked[c] {
      assert GapFresh(states[i], 0, c);
    }
    GapsResent(s, msg, clock);
  }

  ghost predicate GapsAnswered(s: Sender, msg: ControlMessage, clock: Clock) {
    && s.Shaped()
    && var applied, todo := Apply(s, msg), Expand(msg.gaps);
       var resent := s.log + todo[..Min(GAP_LIMIT, |todo|)];
       && Clip(msg.gaps, s.total) == todo
       && (forall c :: c in todo ==> c < s.total && !applied.acked[c])
       && (AllRipe(applied, todo, clock) ==>
             && Walk(applied, Clip(msg.gaps, s.total), 0, GAP_LIMIT, clock).log == resent
             && resent <= HandleNack(s, msg, clock).log)
  }

  ghost predicate AllRipe(s: Sender, todo: seq<nat>, clock: Clock) {
    s.Shaped() && forall k :: 0 <= k < |todo| ==> RipeTime(s, todo[k], clock)
  }

  lemma GapsResent(s: Sender, msg: ControlMessage, clock: Clock)
    requires CursorBounds(s) && Ascending(Expand(msg.gaps))
    requires forall c :: c in Expand(msg.gaps) ==> c < s.total && !Apply(s, msg).acked[c]
    ensures GapsAnswered(s, msg, clock)
  {
    var applied, todo := Apply(s, msg), Expand(msg.gaps);
    ClipExpands(msg.gaps, s.total);
    if AllRipe(applied, todo, clock) {
      forall k | 0 <= k < |todo| ensures Ripe(applied, todo[k], clock) {
        assert todo[k] in todo && RipeTime(applied, todo[k], clock);
      }
      WalkSendsAll(applied, todo, 0, GAP_LIMIT, clock);
      WalkLogKept(s, msg, clock);
    }
  }

  lemma WalkLogKept(s: Sender, msg: ControlMessage, clock: Clock)
    requires CursorBounds(s)
    ensures Walk(Apply(s, msg), Clip(msg.gaps, s.total), 0, GAP_LIMIT, clock).log <= HandleNack(s, msg, clock).log
  {
    var walked := Walk(Apply(s, msg), Clip(msg.gaps, s.total), 0, GAP_LIMIT, clock);
    WalkTransmits(Apply(s, msg), Clip(msg.gaps, s.total), 0, GAP_LIMIT, clock);
    RetransmitMissingTransmits(walked, clock);
    AdvanceReachesEdge(RetransmitMissing(walked, clock), clock);
  }

  /** Whenever the sender reads its clock from now on, a guard time has passed for chunk c. */
  ghost predicate RipeTime(s: Sender, c: nat, clock: Clock) {
    c < |s.lastTx| && forall k: nat :: s.tick <= k ==> ElapsedMs(clock(k), s.lastTx[c]) >= GUARD_MS
  }

  /** Reading a report back at rest: the acknowledgements afterwards are those before,
      the complete chunks among the first 512, and the complete prefix. */
  lemma ReportRoundTrip(s: Sender, done: seq<bool>, msg: ControlMessage, clock: Clock, c: nat)
    requires CursorLaw(s) && |done| == s.total && c < s.total
    requires Exact(done, msg) && (forall d :: 0 <= d < s.total && s.acked[d] ==> done[d])
    ensures var r := HandleNack(s, msg, clock);
      && (r.acked[c] <==> s.acked[c] || (done[c] && (c < BITMAP_CHUNKS || AllDone(done, 0, c + 1))))
      && (AllDone(done, 0, c) && !done[c] ==> r.ackBase == Max(s.ackBase, c))
  {
    NackHandled(s, msg, clock);
    if msg.cumulative != UINT32_MAX {
      forall d: nat | d <= msg.cumulative ensures d < |done| && done[d] {
        assert msg.Claims(d);
      }
    }
    if AllDone(done, 0, c) && !done[c] && c > 0 {
      assert AllDone(done, 0, c);
    }
  }
}
